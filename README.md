# Day-service staffing compliance, modelled in Dafny

This project models the computational core of `app.py`, a Streamlit app for
a Japanese employment-support day service (就労継続支援). It models the parts
that decide whether a month is adequately staffed and that draft the month's
schedule:

- the one-decimal ceiling `ceil_decimal_1` used for every requirement figure;
- add-on entitlement windows (wage-incentive instructor, meal provision,
  transport), which are inclusive and open-ended when the end is missing;
- recurring special holidays given as month/day ranges, including ranges
  that wrap over the year end;
- the staff eligibility filter. It applies a tenure test, then drops staff
  whose primary role belongs to an add-on the facility does not hold;
- the average-utilisation estimator and its four rules: new facility, no
  records, prior fiscal year, trailing window;
- the monthly data entry: the open-day count from the closure rules, and
  the upsert of the month's record;
- the required-versus-available staffing check: required staff from the
  average and the service ratio (plus one with the wage add-on), and
  available staff as capped full-time equivalents summed and then rounded;
- the draft-schedule generator: 休 on closed days, 公休 on a person's fixed
  day off, the base shift otherwise.

Modules, in dependency order: `Wrappers` (Option), `Dates` (calendar,
weekday, month arithmetic, `relativedelta` month count), `Seqs` (an
order-preserving filter), `Rounding`, `AddOns`, `SpecialHolidays`,
`Closure`, `Eligibility`, `Utilization`, `Records` (the session's record
table as a class), `Staffing`, `Draft`, and `Facility` (the two page-level
computations that tie the pieces together).

Hours, ratios and averages are exact `real`s. Dates are `(year, month, day)`
triples with lexicographic order. The national-holiday calendar is a
predicate parameter. Records are keyed by `(year, month)`, i.e. the parsed
form of the "YYYY年M月" key.

Points of the code that the model follows as written:

- capacity is a single integer setting (`app.py:642`), not a dated history;
- required staff is `ceil_decimal_1(avg / ratio + 1.0)` when the wage add-on
  is held (`app.py:659-662`), with no per-role itemisation;
- the trailing window starts 11 months before the last day of the previous
  month (`app.py:363-366`). That start day is always the 28th or later, so
  the first-of-month record of the month twelve months before the target
  month falls outside the window. When the facility opened after that
  start day, the clamp (`app.py:366`) moves the start to the 1st of the
  opening month. The window therefore takes, up to the month before the
  target month:
  - the 11 months from the 11th month back, when the facility opened no
    later than the start day or during that 11th month (target 2025-03-01,
    opening 2024-04-15: 2024-04 to 2025-02);
  - fewer months, from the opening month, when the facility opened in a
    later month (target 2025-03-01, opening 2024-07-01: the 8 months
    2024-07 to 2025-02);
  - 12 months, when the opening falls in the 12th month back after the
    start day (target 2025-03-01, opening 2024-03-30: 2024-03 to 2025-02);
- a person's primary and secondary counted hours go into one bucket, capped
  at 1.0 per person (`app.py:668-682`).

## Model

| member | source | states |
|---|---|---|
| Rounding.CeilDecimal1 | app.py:183-184 | the result is a multiple of 0.1 with x <= r < x + 0.1 |
| Rounding.CeilDecimal1IsLeast | app.py:183-184 | every multiple of 0.1 that is >= x is >= the result, so the result is the least such multiple |
| Rounding.CeilDecimal1Idempotent | app.py:183-184 | rounding an already rounded value changes nothing |
| Rounding.CeilDecimal1Monotone | app.py:183-184 | x <= y implies ceil(x) <= ceil(y) |
| Rounding.CeilDecimal1AddOne | app.py:183-184 | ceil(x + 1) == ceil(x) + 1 |
| Rounding.RoundHalfEven1 | app.py:684 | `round(x, 1)`: a multiple of 0.1 within 0.05 of x; at exactly 0.05 away the result is an even number of tenths |
| Rounding.RoundHalfEven1IsNearest | app.py:684 | no multiple of 0.1 is closer to x than the result |
| Rounding.RoundHalfEven1Monotone | app.py:684 | rounding to a tenth preserves order |
| Rounding.RoundHalfEven1OfTenth | app.py:684 | a multiple of 0.1 is its own rounding |
| Rounding.RoundHalfEven1Ties | app.py:684 | ties go to the even tenth: 0.25 to 0.2, 0.75 to 0.8 |
| Dates.DaysInMonth | app.py:576 | `calendar.monthrange` day count: 28 to 31, February has 29 exactly in leap years |
| Dates.MonthEnd | app.py:299-300 | the last day of the date's month: same month, valid, after every valid date of that month |
| Dates.DayBefore | app.py:363 | `d - timedelta(days=1)`: the valid immediate predecessor |
| Dates.AddMonths | app.py:364 | `relativedelta(months=n)`: shifts the month index by n and clamps the day to the month's length |
| Dates.MonthsElapsed | app.py:328-329 | `relativedelta` years * 12 + months: non-negative when opening <= target, non-positive when target < opening, and within one of the month-index difference |
| Dates.MonthsElapsedIsWholeMonths | app.py:328-329 | for opening <= target, the count n satisfies opening + n months <= target < opening + (n+1) months |
| Dates.MonthsElapsedBeforeOpening | app.py:328-329 | for a target before the opening date the count is negative or zero (target 2024-11-01 against opening 2024-11-15 gives 0), so below 6; shifting the opening by the count does not go below the target and shifting by one month fewer does |
| Dates.Weekday | app.py:581 | `date.weekday()`: Monday = 0 through Sunday = 6 |
| Dates.MarchYearLength | app.py:581 | the year counted from March 1st has 366 days exactly when the February ending it is a leap February |
| Dates.DayNumberOfDayBefore | app.py:581 | consecutive valid dates have consecutive day numbers, so the weekday advances by one (mod 7) from each day to the next, across month and year ends and leap days |
| Dates.WeekdayOfOpeningDefault | app.py:581 | 2024-11-01 is a Friday (4) |
| Dates.WeekdayOfLeapDay | app.py:581 | 2000-02-29 is a Tuesday (1) |
| Seqs.Filter | app.py:311 | a filtered list keeps exactly the elements satisfying the predicate |
| Seqs.FilterMultiplicity | app.py:311 | a kept element occurs in the result exactly as often as in the input; a dropped one not at all |
| Seqs.FilterIsSubsequence | app.py:311 | filtering deletes elements and keeps the order |
| Seqs.FilterFilter | app.py:311-323 | two successive filters equal one filter by the conjunction |
| AddOns.IsAddOnActive | app.py:186-197 | active iff some period has a start <= t and either no end or t <= end |
| AddOns.OpenEndedPeriod | app.py:192-193 | an open-ended period makes the add-on active exactly from its start on |
| AddOns.InactiveBeforeAllStarts | app.py:187-197 | before every recorded start, and for an empty history, the add-on is inactive |
| AddOns.StartlessPeriodsIgnored | app.py:190-191 | periods without a start, appended or prepended, change nothing |
| AddOns.TransportFromNovember | app.py:186-197 | a period from 2024-11-01 is inactive on 10-31 and active on 11-01 |
| SpecialHolidays.SpecialHoliday | app.py:279-290 | None iff no parsable row covers the month/day; otherwise the name of the first covering row |
| SpecialHolidays.WrappedRangeIsComplementOfGap | app.py:287-288 | a wrapped range covers everything outside the gap between its end and its start |
| SpecialHolidays.UnparsedRowSkipped | app.py:289 | a row whose fields fail `int()` never changes the answer, at any position in the list |
| SpecialHolidays.YearEndExample | app.py:247 | the default 12/29-1/3 row covers Dec 31 and Jan 2 but not Jan 4 or Dec 28 |
| Closure.IsClosed | app.py:581-587 | a day is closed iff its weekday label is a closed day, or it is a national holiday and those close the facility, or some parsable recurring-holiday row covers it; the order of the tests does not change the verdict |
| Closure.CountOpenDays | app.py:575-588 | the count equals the number of days of the month that the closure test leaves open, so it is at most the month's length |
| Closure.OpenDaysMembers | app.py:579-588 | a day is an open day iff it lies in the month and the closure test (weekday, then national holiday, then recurring holiday) leaves it open |
| Closure.DaysBeforeSize | app.py:579-588 | fewer than `bound` days below `bound` can be open, which bounds the count by the month length |
| Closure.ClosedDayFlags | app.py:718-729 | one flag per day of the month, set exactly on the days the closure test closes |
| Closure.NoRulesAllOpen | app.py:582-588 | with no closing rule every day of the month is open |
| Eligibility.Employed | app.py:304-310 | with no dates a person is employed; with only a hire date, employed iff hired in or before the target month; resigned before the target date means not employed |
| Eligibility.GetActiveStaff | app.py:292-325 | the result is the roster filtered by tenure and then by the primary-role exclusion; the roster itself without a target date |
| Eligibility.KeepEmployed | app.py:302-311 | the tenure loop keeps exactly the rows passing the tenure test, in roster order |
| Eligibility.DropPrimaryRoles | app.py:322-323 | keeps exactly the rows whose primary role is not excluded, in order |
| Eligibility.ActiveStaffMembers | app.py:298-323 | eligible iff in the roster, employed on the date, and the primary role does not belong to an add-on that is not held |
| Eligibility.ActiveStaffIsSubsequence | app.py:292-325 | the eligible staff are an order-preserving subsequence of the roster |
| Eligibility.TenureBoundaries | app.py:306-309 | hired on the month's first or last day counts, resigning on the target date still counts, hiring after the month or resigning before the date does not |
| Utilization.WindowEnd | app.py:363 | the last day of the month before the target month |
| Utilization.WindowStart | app.py:363-366 | a valid date no earlier than the opening month's first day and at most 12 months before the target month; either that first day or a day in the month 12 months back |
| Utilization.RoundedAverage | app.py:377-382 | a whole number of tenths; 0 with no open days; otherwise at least the raw average and less than a tenth above it |
| Utilization.EstimateAverageUsers | app.py:327-387 | new-facility rule iff fewer than 6 elapsed months; no-records rule iff at least 6 months and no records; insufficient-data rule iff no record is selected; sentinels give 0.0 |
| Utilization.NewFacilityIgnoresRecords | app.py:332-336 | under the new-facility rule the records do not matter and the result is ceil(0.9 * capacity) |
| Utilization.NewFacilityExample | app.py:332-336 | opening 2024-11-01, capacity 20, target 2025-02-01: 3 months elapsed, 18.0 |
| Utilization.PriorFiscalYearChosen | app.py:338-361 | the prior fiscal year (April 1 to March 31) is used iff the facility opened by its start and a record falls in it |
| Utilization.AverageBounds | app.py:377-383 | under a period rule the result is a whole number of tenths; 0 with no open days; otherwise at least the raw average and less than it plus 0.1, so it is the raw average rounded up to a tenth |
| Utilization.RecentWindowMonths | app.py:362-368 | a record is in the trailing window iff its month lies between the window's first counted month and the month before the target |
| Utilization.WindowStartDay | app.py:364 | without the clamp the window starts in the month 12 months before the target, on day 28 or later |
| Utilization.RecentSupportMonths | app.py:362-370 | under the trailing rule the selected records are exactly those whose month is in the counted range |
| Utilization.PriorFiscalYearMonths | app.py:338-361 | under the prior-fiscal-year rule the selected records are exactly those whose month lies from April of the prior fiscal year to the following March |
| Records.UpsertKeyCount | app.py:591-595 | after saving, the saved key occurs exactly once and every other key's count is unchanged |
| Records.UpsertKeepsKeysUnique | app.py:591-595 | saving keeps the table free of duplicate keys |
| Records.UpsertContents | app.py:591-595 | the saved row is last and the only one with its key; the rows before it are the old rows with other keys, in their old order |
| Records.MonthlyRecordTable.Save | app.py:591-595 | the new table is the old one without rows of that key, followed by the new row |
| Records.MonthlyRecordTable.EnterMonth | app.py:575-595 | the saved row carries the month's open-day count, at most the month's length |
| Staffing.RequiredStaff | app.py:659-662 | a tenth r with need <= r < need + 0.1, where need is avg / ratio plus 1.0 with the wage add-on |
| Staffing.WageAddOnAddsOne | app.py:660-662 | holding the wage add-on raises the requirement by exactly 1.0 |
| Staffing.CountedHours | app.py:674-677 | no counted role gives 0 hours; both roles counted give the contracted hours (when the secondary hours do not exceed them); never negative for non-negative secondary hours |
| Staffing.Contribution | app.py:670-680 | each person contributes a value in [0, 1], positive iff they have counted hours, equal to hours / full-time hours below the cap |
| Staffing.TotalFteBounds | app.py:668-681 | the unrounded sum lies between 0 and the head count |
| Staffing.TotalFteGrows | app.py:668-681 | adding a person never lowers the sum |
| Staffing.AvailableFte | app.py:668-682 | the loop's sum is the sum of contributions, and its breakdown lists every person with counted hours, in order |
| Staffing.SufficientStaysSufficient | app.py:686 | a sufficient staff list stays sufficient when someone is added |
| Staffing.SingleBucketExamples | app.py:670-680 | 40 h split 35/5 over two counted roles gives 1.0; 45 h is capped at 1.0; a driver secondary role counts only the main hours; a manager counts 0 |
| Draft.GenerateDraft | app.py:731-745 | one row per staff member, in order, with one cell per day: 休 exactly on closed days, 公休 exactly on open days that are a fixed day off, the base shift otherwise |
| Draft.FillRow | app.py:736-744 | one person's row is the month's cells in day order: 休 on a closed day, 公休 on their fixed day off, their base shift otherwise |
| Draft.RowWorkableDaysAreOpenDays | app.py:718-745 | the days of a row not marked 休 are exactly the month's open days, as counted for the monthly record |
| Facility.StaffingCheck | app.py:610-687 | the estimate, requirement and rounded available figure for the month's first day, with sufficiency iff available >= required |
| Facility.DraftForMonth | app.py:703-745 | the draft has one row per eligible staff member on the month's first day, in order; 休 exactly on closed days, 公休 exactly on open days that are the person's fixed day off, the base shift on every other day |

## Left out

- The Streamlit UI (sidebar form, tabs, data editors, styling, messages, CSV download) is presentation only.
- Google Sheets I/O and settings persistence (`app.py:16-258`) are network and foreign-library calls; the model takes the loaded data as parameters.
- `jpholiday.is_holiday` is a foreign library; it is a predicate parameter.
- `safe_to_date`, `pd.to_numeric` and the parsing of the "YYYY年M月" key (`app.py:349`) are pandas coercions; inputs are already-typed dates, numbers and `(year, month)` keys.
- Binary floating point: the model computes with exact reals, so `capacity * 0.9`, the division and the sum carry no rounding error.
- Rounding.RoundHalfEven1: models Python's `round(x, 1)` as round-half-even on the exact value, not on the binary float.
- Utilization.EstimateAverageUsers: when the open-day sum is 0 the result is 0.0; the error raised afterwards by the unbound `raw_avg` (`app.py:386`) is not modelled.
- The explanation texts, formula strings and `details_df` of the estimator, and the breakdown strings of the FTE loop, are display text; the model keeps the rule tag, the period and the numbers.
- `sort_values` on the trailing window only orders the display table; the sums do not depend on it.
- `check_addon_period_strict` (`app.py:616-636`) only produces warning messages about a held add-on with no matching staff; it does not change any figure and is not modelled.
- The employment-type rule applied when the staff table is saved (`app.py:552`) belongs to the staff editor, which is not part of this model.
- SpecialHolidays.SpecialHoliday: a field that `int()` rejects is modelled as a missing value (row skipped); a `TypeError` from other field types is not modelled.
- Dates are not bounded to Python's years 1 to 9999.
- Eligibility.GetActiveStaff: with an empty roster and a target date, pandas reads the empty `active_mask` list as a column selection, so `df[active_mask]` (`app.py:311`) keeps no columns; the role filter at `app.py:323` then raises `KeyError` whenever an add-on is inactive, and the caller at `app.py:706` raises `KeyError` on `名前` in any case. The model returns the empty list.
- Staffing.Contribution and Staffing.AvailableFte (and so Facility.StaffingCheck) require positive full-time hours; the number input at `app.py:413` has no lower bound, and the source raises `ZeroDivisionError` at `app.py:679` for 0 and yields negative contributions for a negative value. Those inputs are not modelled.
- Draft.GenerateDraft: cells are a typed datatype, so a shift pattern whose code is literally "休" or "公休" is a work shift in the model, while the source's string cells cannot tell it from a closed day or a day off.
- Records.MonthlyRecordTable.Save: keys are compared as parsed `(year, month)` pairs; the source compares the raw "YYYY年M月" strings (`app.py:593`), so "2024年04月" and "2024年4月" are two keys there and one key in the model.
