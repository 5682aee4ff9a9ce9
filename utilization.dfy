/**
 * The average-utilisation estimator `calculate_average_users_detail` of
 * app.py: which monthly records support the figure (new-facility rule, no
 * records, prior fiscal year, trailing window) and the rounded-up average.
 */
module Utilization {
  import opened Dates
  import opened Rounding
  import opened Seqs

  /** The key of a monthly record ("YYYY年M月" in the table). */
  datatype YearMonth = YearMonth(year: int, month: int)

  /** One month's attendance: total user-days and the number of open days. */
  datatype MonthlyRecord = MonthlyRecord(key: YearMonth, users: int, openDays: int)

  /** A record stands for the first day of its month. */
  function RecordDate(r: MonthlyRecord): Date {
    Date(r.key.year, r.key.month, 1)
  }

  predicate InPeriod(r: MonthlyRecord, from: Date, to: Date) {
    NotAfter(from, RecordDate(r)) && NotAfter(RecordDate(r), to)
  }

  function Within(from: Date, to: Date): MonthlyRecord -> bool {
    r => InPeriod(r, from, to)
  }

  function TotalUsers(rs: seq<MonthlyRecord>): int {
    if |rs| == 0 then 0 else TotalUsers(rs[..|rs| - 1]) + rs[|rs| - 1].users
  }

  function TotalOpenDays(rs: seq<MonthlyRecord>): int {
    if |rs| == 0 then 0 else TotalOpenDays(rs[..|rs| - 1]) + rs[|rs| - 1].openDays
  }

  /** The rule the estimate was taken under; the two period rules carry their period. */
  datatype Rule =
    | NewFacility                        // 【新規開所特例】開所6ヶ月間
    | NoRecords                          // 実績データなし
    | PriorFiscalYear(from: Date, to: Date)  // 【前年度実績】
    | RecentMonths(from: Date, to: Date)     // 【直近実績】
    | InsufficientPeriod                 // 実績不足

  datatype Estimate = Estimate(rule: Rule, result: real)

  /** The fiscal year (April to March) containing `t`, named by the year it starts in. */
  function FiscalYear(t: Date): int {
    if t.month >= 4 then t.year else t.year - 1
  }

  function PriorFiscalYearStart(t: Date): Date {
    Date(FiscalYear(t) - 1, 4, 1)
  }

  function PriorFiscalYearEnd(t: Date): Date {
    Date(FiscalYear(t), 3, 31)
  }

  /** The trailing window ends on the last day of the month before `target`'s. */
  function WindowEnd(target: Date): (r: Date)
    requires ValidDate(target)
    ensures ValidDate(r) && MonthIndex(r) == MonthIndex(target) - 1
    ensures r.day == DaysInMonth(r.year, r.month)
  {
    DayBefore(FirstOfMonth(target))
  }

  /** Eleven months before the window's end, moved up to the opening month's first day if opening is later. */
  function WindowStart(target: Date, opening: Date): (r: Date)
    requires ValidDate(target) && ValidDate(opening)
    ensures ValidDate(r) && NotAfter(FirstOfMonth(opening), r)
    ensures MonthIndex(target) - 12 <= MonthIndex(r)
    ensures r == FirstOfMonth(opening) || MonthIndex(r) == MonthIndex(target) - 12
  {
    var start12 := AddMonths(WindowEnd(target), -11);
    if Before(start12, opening) then FirstOfMonth(opening) else start12
  }

  /** Whether the prior-fiscal-year rule applies: open since its start and at least one record in it. */
  predicate UsesPriorFiscalYear(target: Date, opening: Date, records: seq<MonthlyRecord>) {
    NotAfter(opening, PriorFiscalYearStart(target))
    && |Filter(records, Within(PriorFiscalYearStart(target), PriorFiscalYearEnd(target)))| > 0
  }

  /** The records the average is taken over (once the first two rules have not applied). */
  function SupportRecords(target: Date, opening: Date, records: seq<MonthlyRecord>): seq<MonthlyRecord>
    requires ValidDate(target) && ValidDate(opening)
  {
    if UsesPriorFiscalYear(target, opening, records) then
      Filter(records, Within(PriorFiscalYearStart(target), PriorFiscalYearEnd(target)))
    else
      Filter(records, Within(WindowStart(target, opening), WindowEnd(target)))
  }

  /** Total user-days over total open days, rounded up to a tenth; no open days gives 0. */
  function RoundedAverage(rs: seq<MonthlyRecord>): (r: real)
    ensures IsTenth(r)
    ensures TotalOpenDays(rs) == 0 ==> r == 0.0
    ensures TotalOpenDays(rs) != 0 ==>
      var raw := TotalUsers(rs) as real / TotalOpenDays(rs) as real;
      raw <= r < raw + 0.1
  {
    if TotalOpenDays(rs) == 0 then (TenthsOfInt(0); 0.0)
    else CeilDecimal1(TotalUsers(rs) as real / TotalOpenDays(rs) as real)
  }

  /** `calculate_average_users_detail`, reduced to the rule applied and the numeric result. */
  function EstimateAverageUsers(target: Date, opening: Date, capacity: int, records: seq<MonthlyRecord>)
    : (e: Estimate)
    requires ValidDate(target) && ValidDate(opening)
    ensures e.rule.NewFacility? <==> MonthsElapsed(target, opening) < 6
    ensures e.rule.NoRecords? <==> MonthsElapsed(target, opening) >= 6 && |records| == 0
    ensures e.rule.InsufficientPeriod? <==>
      MonthsElapsed(target, opening) >= 6 && |records| > 0 && |SupportRecords(target, opening, records)| == 0
    ensures e.rule.NoRecords? || e.rule.InsufficientPeriod? ==> e.result == 0.0
  {
    if MonthsElapsed(target, opening) < 6 then
      Estimate(NewFacility, CeilDecimal1(capacity as real * 0.9))
    else if |records| == 0 then
      Estimate(NoRecords, 0.0)
    else
      var rule :=
        if UsesPriorFiscalYear(target, opening, records)
        then PriorFiscalYear(PriorFiscalYearStart(target), PriorFiscalYearEnd(target))
        else RecentMonths(WindowStart(target, opening), WindowEnd(target));
      var support := SupportRecords(target, opening, records);
      if |support| == 0 then Estimate(InsufficientPeriod, 0.0)
      else Estimate(rule, RoundedAverage(support))
  }

  /**
   * Within the first six whole months the records play no part: the estimate
   * is 90% of capacity rounded up, whatever the records hold.
   */
  lemma NewFacilityIgnoresRecords(target: Date, opening: Date, capacity: int, r1: seq<MonthlyRecord>, r2: seq<MonthlyRecord>)
    requires ValidDate(target) && ValidDate(opening)
    requires MonthsElapsed(target, opening) < 6
    ensures EstimateAverageUsers(target, opening, capacity, r1) == EstimateAverageUsers(target, opening, capacity, r2)
    ensures EstimateAverageUsers(target, opening, capacity, r1).result == CeilDecimal1(capacity as real * 0.9)
  {
  }

  /** Opened 2024-11-01 with capacity 20: for February 2025 three months have elapsed and the estimate is 18.0. */
  lemma NewFacilityExample(records: seq<MonthlyRecord>)
    ensures MonthsElapsed(Date(2025, 2, 1), Date(2024, 11, 1)) == 3
    ensures EstimateAverageUsers(Date(2025, 2, 1), Date(2024, 11, 1), 20, records) == Estimate(NewFacility, 18.0)
  {
    assert CeilDecimal1(18.0) == 18.0 by {
      CeilDecimal1IsLeast(18.0, 18.0);
    }
  }

  /**
   * The prior fiscal year is used exactly when six months have elapsed, there
   * are records, the facility was open on that year's April 1st, and some
   * record falls between that April 1st and the following March 31st.
   */
  lemma PriorFiscalYearChosen(target: Date, opening: Date, capacity: int, records: seq<MonthlyRecord>)
    requires ValidDate(target) && ValidDate(opening)
    ensures EstimateAverageUsers(target, opening, capacity, records).rule.PriorFiscalYear?
      <==> && MonthsElapsed(target, opening) >= 6
           && NotAfter(opening, PriorFiscalYearStart(target))
           && exists i :: 0 <= i < |records| && InPeriod(records[i], PriorFiscalYearStart(target), PriorFiscalYearEnd(target))
  {
    var from, to := PriorFiscalYearStart(target), PriorFiscalYearEnd(target);
    var prev := Filter(records, Within(from, to));
    if exists i :: 0 <= i < |records| && InPeriod(records[i], from, to) {
      var i :| 0 <= i < |records| && InPeriod(records[i], from, to);
      assert Within(from, to)(records[i]);
      assert records[i] in prev;
    }
    if |prev| > 0 {
      assert prev[0] in records && Within(from, to)(prev[0]);
      var i :| 0 <= i < |records| && records[i] == prev[0];
      assert InPeriod(records[i], from, to);
    }
  }

  /**
   * Whenever a period rule applies, the estimate is the ratio of the support
   * records' totals rounded up: a whole number of tenths, at least the raw
   * average and less than a tenth above it (0 when the support records have
   * no open days).
   */
  lemma AverageBounds(target: Date, opening: Date, capacity: int, records: seq<MonthlyRecord>)
    requires ValidDate(target) && ValidDate(opening)
    ensures var e := EstimateAverageUsers(target, opening, capacity, records);
      var support := SupportRecords(target, opening, records);
      (e.rule.PriorFiscalYear? || e.rule.RecentMonths?) ==>
        && |support| > 0
        && IsTenth(e.result)
        && (TotalOpenDays(support) == 0 ==> e.result == 0.0)
        && (TotalOpenDays(support) != 0 ==>
              var raw := TotalUsers(support) as real / TotalOpenDays(support) as real;
              raw <= e.result < raw + 0.1)
  {
  }

  /**
   * Which months the trailing window takes, for records keyed by a real
   * month: from eleven months before the target month (the window starts on
   * a day no earlier than the 28th, so the record for the twelfth month back,
   * dated the 1st, falls outside it) or from the opening month when that is
   * later, up to the month before the target month.
   */
  lemma RecentWindowMonths(target: Date, opening: Date, r: MonthlyRecord)
    requires ValidDate(target) && ValidDate(opening)
    requires 1 <= r.key.month <= 12
    ensures var lo := if Before(AddMonths(WindowEnd(target), -11), opening)
                      then MonthIndex(opening) else MonthIndex(target) - 11;
      (InPeriod(r, WindowStart(target, opening), WindowEnd(target))
       <==> lo <= MonthIndex(RecordDate(r)) <= MonthIndex(target) - 1)
  {
    var end := WindowEnd(target);
    var start12 := AddMonths(end, -11);
    var d := RecordDate(r);
    assert ValidDate(d);
    assert start12.day >= 28;
    var start := WindowStart(target, opening);
    assert ValidDate(start);
    // The record versus the window's end.
    if MonthIndex(d) < MonthIndex(end) {
      MonthIndexOrder(d, end);
    } else if MonthIndex(d) > MonthIndex(end) {
      MonthIndexOrder(end, d);
    } else {
      SameMonthOrder(d, end);
    }
    // The record versus the window's start.
    if MonthIndex(d) < MonthIndex(start) {
      MonthIndexOrder(d, start);
    } else if MonthIndex(d) > MonthIndex(start) {
      MonthIndexOrder(start, d);
    } else {
      SameMonthOrder(d, start);
    }
  }

  /**
   * Unless the opening-month clamp applies, the trailing window starts twelve
   * months before the target month on a day no earlier than the 28th.
   */
  lemma WindowStartDay(target: Date, opening: Date)
    requires ValidDate(target) && ValidDate(opening)
    requires !Before(AddMonths(WindowEnd(target), -11), opening)
    ensures WindowStart(target, opening).day >= 28
    ensures MonthIndex(WindowStart(target, opening)) == MonthIndex(target) - 12
  {
  }

  /**
   * Under the trailing-window rule the support records are exactly the
   * records (keyed by a real month) whose month lies between the window's
   * first counted month and the month before the target month.
   */
  lemma RecentSupportMonths(target: Date, opening: Date, records: seq<MonthlyRecord>, r: MonthlyRecord)
    requires ValidDate(target) && ValidDate(opening)
    requires !UsesPriorFiscalYear(target, opening, records)
    requires 1 <= r.key.month <= 12
    ensures var lo := if Before(AddMonths(WindowEnd(target), -11), opening)
                      then MonthIndex(opening) else MonthIndex(target) - 11;
      (r in SupportRecords(target, opening, records)
       <==> r in records && lo <= MonthIndex(RecordDate(r)) <= MonthIndex(target) - 1)
  {
    RecentWindowMonths(target, opening, r);
    assert Within(WindowStart(target, opening), WindowEnd(target))(r)
           == InPeriod(r, WindowStart(target, opening), WindowEnd(target));
  }

  /**
   * Under the prior-fiscal-year rule the support records are exactly the
   * records (keyed by a real month) whose month lies between April of the
   * prior fiscal year and the following March.
   */
  lemma PriorFiscalYearMonths(target: Date, opening: Date, records: seq<MonthlyRecord>, r: MonthlyRecord)
    requires ValidDate(target) && ValidDate(opening)
    requires UsesPriorFiscalYear(target, opening, records)
    requires 1 <= r.key.month <= 12
    ensures r in SupportRecords(target, opening, records)
      <==> r in records
           && MonthIndex(PriorFiscalYearStart(target)) <= MonthIndex(RecordDate(r)) <= MonthIndex(PriorFiscalYearEnd(target))
  {
    var from, to := PriorFiscalYearStart(target), PriorFiscalYearEnd(target);
    assert Within(from, to)(r) == InPeriod(r, from, to);
    var d := RecordDate(r);
    if MonthIndex(d) < MonthIndex(from) {
      MonthIndexOrder(d, from);
    }
    if MonthIndex(d) > MonthIndex(to) {
      MonthIndexOrder(to, d);
    }
  }
}
