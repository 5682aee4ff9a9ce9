/**
 * Recurring special holidays given as month/day ranges that repeat every
 * year and may wrap over the year end: `is_special_holiday_recurring` in
 * app.py.
 */
module SpecialHolidays {
  import opened Wrappers
  import opened Dates

  datatype MonthDay = MonthDay(month: int, day: int)

  /** Tuple order on `(month, day)` pairs. */
  predicate MonthDayLe(a: MonthDay, b: MonthDay) {
    a.month < b.month || (a.month == b.month && a.day <= b.day)
  }

  /**
   * One row of the holiday table. A numeric cell is `None` when `int()` of it
   * raises `ValueError` (an empty cell, text); such a row is skipped.
   */
  datatype HolidayRow = HolidayRow(
    name: string,
    startMonth: Option<int>, startDay: Option<int>,
    endMonth: Option<int>, endDay: Option<int>)

  predicate Parses(row: HolidayRow) {
    row.startMonth.Some? && row.startDay.Some? && row.endMonth.Some? && row.endDay.Some?
  }

  function RangeStart(row: HolidayRow): MonthDay
    requires Parses(row)
  {
    MonthDay(row.startMonth.value, row.startDay.value)
  }

  function RangeEnd(row: HolidayRow): MonthDay
    requires Parses(row)
  {
    MonthDay(row.endMonth.value, row.endDay.value)
  }

  /**
   * The row's range contains `md`: an ordinary range `start <= end` holds the
   * pairs between its ends, a wrapped one those from `start` to the year end
   * and from the year start to `end`.
   */
  predicate RowCovers(row: HolidayRow, md: MonthDay) {
    Parses(row)
    && var s, e := RangeStart(row), RangeEnd(row);
    if MonthDayLe(s, e) then MonthDayLe(s, md) && MonthDayLe(md, e)
    else MonthDayLe(s, md) || MonthDayLe(md, e)
  }

  function MonthDayOf(t: Date): MonthDay {
    MonthDay(t.month, t.day)
  }

  /** The name of the first row whose range contains `t`'s month and day, if any. */
  function SpecialHoliday(t: Date, rows: seq<HolidayRow>): (r: Option<string>)
    ensures r.None? <==> forall i :: 0 <= i < |rows| ==> !RowCovers(rows[i], MonthDayOf(t))
    ensures r.Some? ==> exists i :: 0 <= i < |rows| && RowCovers(rows[i], MonthDayOf(t))
                          && r.value == rows[i].name
                          && forall j :: 0 <= j < i ==> !RowCovers(rows[j], MonthDayOf(t))
  {
    if |rows| == 0 then None
    else if !Parses(rows[0]) then
      var rest := SpecialHoliday(t, rows[1..]);
      assert forall i :: 1 <= i < |rows| ==> rows[i] == rows[1..][i - 1];
      rest
    else if RowCovers(rows[0], MonthDayOf(t)) then Some(rows[0].name)
    else
      var rest := SpecialHoliday(t, rows[1..]);
      assert forall i :: 1 <= i < |rows| ==> rows[i] == rows[1..][i - 1];
      rest
  }

  /**
   * A wrapped range (start after end) is the complement of the gap strictly
   * between its end and its start.
   */
  lemma WrappedRangeIsComplementOfGap(row: HolidayRow, md: MonthDay)
    requires Parses(row) && !MonthDayLe(RangeStart(row), RangeEnd(row))
    ensures RowCovers(row, md) <==> !(!MonthDayLe(md, RangeEnd(row)) && !MonthDayLe(RangeStart(row), md))
  {
  }

  /** A row that does not parse never changes the answer, wherever it stands. */
  lemma {:induction false} UnparsedRowSkipped(t: Date, bad: HolidayRow, before: seq<HolidayRow>, after: seq<HolidayRow>)
    requires !Parses(bad)
    ensures SpecialHoliday(t, before + [bad] + after) == SpecialHoliday(t, before + after)
    decreases |before|
  {
    var rows := before + [bad] + after;
    if |before| == 0 {
      assert rows[1..] == before + after;
    } else {
      assert rows[0] == (before + after)[0] == before[0];
      assert rows[1..] == before[1..] + [bad] + after;
      assert (before + after)[1..] == before[1..] + after;
      UnparsedRowSkipped(t, bad, before[1..], after);
    }
  }

  /** The default year-end row, 12/29 to 1/3, covers Dec 31 and Jan 2 but not Jan 4. */
  lemma YearEndExample()
    ensures var rows := [HolidayRow("年末年始", Some(12), Some(29), Some(1), Some(3))];
      && SpecialHoliday(Date(2024, 12, 31), rows) == Some("年末年始")
      && SpecialHoliday(Date(2025, 1, 2), rows) == Some("年末年始")
      && SpecialHoliday(Date(2025, 1, 4), rows) == None
      && SpecialHoliday(Date(2024, 12, 28), rows) == None
  {
  }
}
