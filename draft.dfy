/**
 * The draft-schedule generator of app.py: one row per eligible staff
 * member, one cell per day of the month, filled from the facility closure
 * test, the person's fixed days off and their base shift.
 */
module Draft {
  import opened Dates
  import opened Closure
  import opened Eligibility

  /** A schedule cell: "休" (facility closed), "公休" (the person's day off) or a shift code. */
  datatype Cell = FacilityClosed | StaffDayOff | WorkShift(code: string)

  /** One schedule row: the person's name and the cells for days 1, 2, ... of the month. */
  datatype DraftRow = DraftRow(name: string, cells: seq<Cell>)

  /**
   * The day's weekday label occurs in the person's fixed-day-off text (a
   * substring test of a one-character label, i.e. a character test).
   */
  predicate HasDayOff(s: Staff, d: Date) {
    DayLabels[Weekday(d)] in s.fixedDaysOff
  }

  /** Closure flags first (the closed columns), then each person's row, cell by cell. */
  method GenerateDraft(year: int, month: int, staff: seq<Staff>, rules: ClosureRules, isNationalHoliday: Date -> bool)
    returns (rows: seq<DraftRow>)
    ensures |rows| == |staff|
    ensures forall i :: 0 <= i < |rows| ==>
      rows[i].name == staff[i].name && |rows[i].cells| == DaysInMonth(year, month)
    ensures forall i, k :: 0 <= i < |rows| && 0 <= k < |rows[i].cells| ==>
      var date := Date(year, month, k + 1);
      && (rows[i].cells[k] == FacilityClosed <==> IsClosed(date, rules, isNationalHoliday))
      && (rows[i].cells[k] == StaffDayOff <==> !IsClosed(date, rules, isNationalHoliday) && HasDayOff(staff[i], date))
      && ((!IsClosed(date, rules, isNationalHoliday) && !HasDayOff(staff[i], date))
          ==> rows[i].cells[k] == WorkShift(staff[i].baseShift))
  {
    var closed := ClosedDayFlags(year, month, rules, isNationalHoliday);
    rows := [];
    for i := 0 to |staff|
      invariant |rows| == i
      invariant forall j :: 0 <= j < i ==> rows[j] == DraftRow(staff[j].name, RowCells(year, month, staff[j], closed))
    {
      var cells := FillRow(year, month, staff[i], closed);
      rows := rows + [DraftRow(staff[i].name, cells)];
    }
    forall i, k | 0 <= i < |rows| && 0 <= k < |rows[i].cells|
      ensures rows[i].cells[k] == CellFor(staff[i], Date(year, month, k + 1), closed[k])
    {
    }
  }

  /** One person's row, cell by cell: 休 on a closed day, 公休 on a fixed day off, the base shift otherwise. */
  method FillRow(year: int, month: int, person: Staff, closed: seq<bool>) returns (cells: seq<Cell>)
    requires |closed| == DaysInMonth(year, month)
    ensures cells == RowCells(year, month, person, closed)
  {
    var lastDay := DaysInMonth(year, month);
    cells := [];
    for day := 1 to lastDay + 1
      invariant |cells| == day - 1
      invariant forall k :: 0 <= k < |cells| ==> cells[k] == CellFor(person, Date(year, month, k + 1), closed[k])
    {
      var date := Date(year, month, day);
      var cell;
      if closed[day - 1] {
        cell := FacilityClosed;
      } else if DayLabels[Weekday(date)] in person.fixedDaysOff {
        cell := StaffDayOff;
      } else {
        cell := WorkShift(person.baseShift);
      }
      cells := cells + [cell];
    }
  }

  /** The cell for one person and day, given whether the facility is closed that day. */
  function CellFor(s: Staff, d: Date, closed: bool): Cell {
    if closed then FacilityClosed
    else if HasDayOff(s, d) then StaffDayOff
    else WorkShift(s.baseShift)
  }

  /** A person's cells for the whole month, given the month's closure flags. */
  ghost function RowCells(year: int, month: int, s: Staff, closed: seq<bool>): (cells: seq<Cell>)
    requires |closed| == DaysInMonth(year, month)
    ensures |cells| == |closed|
  {
    seq(|closed|, k requires 0 <= k < |closed| => CellFor(s, Date(year, month, k + 1), closed[k]))
  }

  /** Day `day` of the row is a working day for the facility (its cell is not "休"). */
  predicate FacilityOpenIn(row: DraftRow, day: int) {
    1 <= day <= |row.cells| && row.cells[day - 1] != FacilityClosed
  }

  /**
   * The schedule and the open-day count use one closure test: in every
   * generated row the days not marked "休" are exactly the month's open days.
   */
  lemma RowWorkableDaysAreOpenDays(year: int, month: int, row: DraftRow, rules: ClosureRules, isNationalHoliday: Date -> bool)
    requires |row.cells| == DaysInMonth(year, month)
    requires forall k :: 0 <= k < |row.cells| ==>
      (row.cells[k] == FacilityClosed <==> IsClosed(Date(year, month, k + 1), rules, isNationalHoliday))
    ensures (set day | 1 <= day <= |row.cells| && FacilityOpenIn(row, day))
            == OpenDays(year, month, rules, isNationalHoliday)
  {
    var workable := set day | 1 <= day <= |row.cells| && FacilityOpenIn(row, day);
    forall day | 1 <= day <= |row.cells|
      ensures day in workable <==> !IsClosed(Date(year, month, day), rules, isNationalHoliday)
    {
      assert Date(year, month, (day - 1) + 1) == Date(year, month, day);
    }
    forall day ensures day in workable <==> day in OpenDays(year, month, rules, isNationalHoliday) {
      OpenDaysMembers(year, month, rules, isNationalHoliday, day);
    }
  }
}
