/**
 * The facility's closure test and the open-day count of a month (the
 * monthly-record entry in app.py). The same closure test decides the
 * closed columns of the draft schedule.
 */
module Closure {
  import opened Dates
  import opened SpecialHolidays

  /** Weekday labels indexed by `date.weekday()`: Monday first. */
  const DayLabels: string := "月火水木金土日"

  /** The one-character label of weekday `w`. */
  function DayLabel(w: int): string
    requires 0 <= w < 7
  {
    [DayLabels[w]]
  }

  /**
   * The facility-wide closure settings: weekday labels the facility is closed
   * on, whether national holidays close it, and the recurring holiday table.
   */
  datatype ClosureRules = ClosureRules(
    closedDays: seq<string>,
    closeOnHoliday: bool,
    specialHolidays: seq<HolidayRow>)

  /**
   * A day is closed by its weekday, else by being a national holiday when
   * those close the facility, else by a recurring special holiday. The
   * national-holiday calendar is a parameter.
   */
  predicate IsClosed(d: Date, rules: ClosureRules, isNationalHoliday: Date -> bool): (closed: bool)
    ensures closed <==>
      || DayLabel(Weekday(d)) in rules.closedDays
      || (rules.closeOnHoliday && isNationalHoliday(d))
      || exists i :: 0 <= i < |rules.specialHolidays| && RowCovers(rules.specialHolidays[i], MonthDayOf(d))
  {
    if DayLabel(Weekday(d)) in rules.closedDays then true
    else if rules.closeOnHoliday && isNationalHoliday(d) then true
    else SpecialHoliday(d, rules.specialHolidays).Some?
  }

  /** Whether the facility is open on day `day` of the month. */
  function OpenOn(year: int, month: int, rules: ClosureRules, isNationalHoliday: Date -> bool): int -> bool {
    (day: int) => !IsClosed(Date(year, month, day), rules, isNationalHoliday)
  }

  /** The days `1 <= day < bound` satisfying `isOpen`. */
  function DaysBefore(bound: int, isOpen: int -> bool): set<int> {
    set day | 1 <= day < bound && isOpen(day)
  }

  /** The open days of the month. */
  function OpenDays(year: int, month: int, rules: ClosureRules, isNationalHoliday: Date -> bool): set<int> {
    DaysBefore(DaysInMonth(year, month) + 1, OpenOn(year, month, rules, isNationalHoliday))
  }

  /** A day is an open day of the month exactly when it lies in the month and the closure test leaves it open. */
  lemma OpenDaysMembers(year: int, month: int, rules: ClosureRules, isNationalHoliday: Date -> bool, day: int)
    ensures day in OpenDays(year, month, rules, isNationalHoliday)
            <==> 1 <= day <= DaysInMonth(year, month) && !IsClosed(Date(year, month, day), rules, isNationalHoliday)
  {
    assert OpenOn(year, month, rules, isNationalHoliday)(day) == !IsClosed(Date(year, month, day), rules, isNationalHoliday);
  }

  /** The number of days of the month on which the facility is open. */
  method CountOpenDays(year: int, month: int, rules: ClosureRules, isNationalHoliday: Date -> bool)
    returns (count: int)
    ensures count == |OpenDays(year, month, rules, isNationalHoliday)|
    ensures 0 <= count <= DaysInMonth(year, month)
  {
    var lastDay := DaysInMonth(year, month);
    count := 0;
    for day := 1 to lastDay + 1
      invariant count == |DaysBefore(day, OpenOn(year, month, rules, isNationalHoliday))|
    {
      var current := Date(year, month, day);
      var closed := IsClosed(current, rules, isNationalHoliday);
      DaysBeforeStep(day, OpenOn(year, month, rules, isNationalHoliday));
      assert OpenOn(year, month, rules, isNationalHoliday)(day) == !closed;
      if !closed {
        count := count + 1;
      }
    }
    DaysBeforeSize(lastDay + 1, OpenOn(year, month, rules, isNationalHoliday));
  }

  /** Among the days `1 <= day < bound` at most `bound - 1` satisfy `isOpen`. */
  lemma {:induction false} DaysBeforeSize(bound: int, isOpen: int -> bool)
    requires bound >= 1
    ensures |DaysBefore(bound, isOpen)| < bound
  {
    if bound > 1 {
      DaysBeforeSize(bound - 1, isOpen);
      DaysBeforeStep(bound - 1, isOpen);
    }
  }

  /** Extending the range of days by one adds that day exactly when it satisfies `isOpen`. */
  lemma DaysBeforeStep(bound: int, isOpen: int -> bool)
    ensures bound !in DaysBefore(bound, isOpen)
    ensures DaysBefore(bound + 1, isOpen) == DaysBefore(bound, isOpen) + (if 1 <= bound && isOpen(bound) then {bound} else {})
  {
  }

  /** Closure flags of the month's days, day `k` at index `k - 1` (the closed-column list of the schedule). */
  method ClosedDayFlags(year: int, month: int, rules: ClosureRules, isNationalHoliday: Date -> bool)
    returns (closed: seq<bool>)
    ensures |closed| == DaysInMonth(year, month)
    ensures forall k :: 0 <= k < |closed| ==> closed[k] == IsClosed(Date(year, month, k + 1), rules, isNationalHoliday)
  {
    var lastDay := DaysInMonth(year, month);
    closed := [];
    for day := 1 to lastDay + 1
      invariant |closed| == day - 1
      invariant forall k :: 0 <= k < |closed| ==> closed[k] == IsClosed(Date(year, month, k + 1), rules, isNationalHoliday)
    {
      var isHoliday := IsClosed(Date(year, month, day), rules, isNationalHoliday);
      closed := closed + [isHoliday];
    }
  }

  /** With no closing rule at all every day of the month is open. */
  lemma NoRulesAllOpen(year: int, month: int, isNationalHoliday: Date -> bool)
    ensures forall day :: 1 <= day <= DaysInMonth(year, month)
              ==> day in OpenDays(year, month, ClosureRules([], false, []), isNationalHoliday)
  {
    forall day | 1 <= day <= DaysInMonth(year, month)
      ensures day in OpenDays(year, month, ClosureRules([], false, []), isNationalHoliday)
    {
      OpenDaysMembers(year, month, ClosureRules([], false, []), isNationalHoliday, day);
    }
  }
}
