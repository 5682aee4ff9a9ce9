/**
 * Calendar dates as the facility logic uses them: proleptic Gregorian
 * (year, month, day) triples compared lexicographically, as Python's
 * `datetime.date` compares, plus the handful of calendar operations the
 * staffing logic relies on (`calendar.monthrange`, `date.weekday()`,
 * `date.replace(day=1)`, `- timedelta(days=1)` and `dateutil`'s
 * `relativedelta` month arithmetic).
 */
module Dates {

  datatype Date = Date(year: int, month: int, day: int)

  predicate IsLeapYear(y: int) {
    (y % 4 == 0 && y % 100 != 0) || y % 400 == 0
  }

  /** Number of days in month `m` of year `y` (the second component of `calendar.monthrange`). */
  function DaysInMonth(y: int, m: int): (n: int)
    ensures 28 <= n <= 31
    ensures m == 2 ==> (n == 29 <==> IsLeapYear(y))
  {
    if m == 2 then (if IsLeapYear(y) then 29 else 28)
    else if m == 4 || m == 6 || m == 9 || m == 11 then 30
    else 31
  }

  /** A triple that a `datetime.date` could hold (the year range 1..9999 is not modelled). */
  predicate ValidDate(d: Date) {
    1 <= d.month <= 12 && 1 <= d.day <= DaysInMonth(d.year, d.month)
  }

  /** Strict chronological order `a < b`. */
  predicate Before(a: Date, b: Date) {
    a.year < b.year
    || (a.year == b.year && (a.month < b.month || (a.month == b.month && a.day < b.day)))
  }

  /** Chronological order `a <= b`. */
  predicate NotAfter(a: Date, b: Date) {
    !Before(b, a)
  }

  /** Months since the start of year 0; consecutive months have consecutive indices. */
  function MonthIndex(d: Date): int {
    d.year * 12 + (d.month - 1)
  }

  function Min(a: int, b: int): int {
    if a <= b then a else b
  }

  /** `d.replace(day=1)`. */
  function FirstOfMonth(d: Date): (r: Date)
    requires ValidDate(d)
    ensures ValidDate(r) && MonthIndex(r) == MonthIndex(d) && r.day == 1
    ensures NotAfter(r, d)
  {
    Date(d.year, d.month, 1)
  }

  /** The last day of `d`'s month (`calendar.monthrange(...)[1]`). */
  function MonthEnd(d: Date): (r: Date)
    ensures MonthIndex(r) == MonthIndex(d)
    ensures ValidDate(d) ==> ValidDate(r) && NotAfter(d, r)
    ensures ValidDate(d) ==> forall x :: ValidDate(x) && MonthIndex(x) == MonthIndex(d) ==> NotAfter(x, r)
  {
    Date(d.year, d.month, DaysInMonth(d.year, d.month))
  }

  /** `d - timedelta(days=1)`: the immediate predecessor of `d` among valid dates. */
  function DayBefore(d: Date): (r: Date)
    requires ValidDate(d)
    ensures ValidDate(r) && Before(r, d)
    ensures forall x :: ValidDate(x) && Before(x, d) ==> NotAfter(x, r)
  {
    if d.day > 1 then Date(d.year, d.month, d.day - 1)
    else if d.month > 1 then Date(d.year, d.month - 1, DaysInMonth(d.year, d.month - 1))
    else Date(d.year - 1, 12, 31)
  }

  /**
   * `d + relativedelta(months=n)`: move `n` months (either direction) and
   * clamp the day to the length of the month reached.
   */
  function AddMonths(d: Date, n: int): (r: Date)
    requires ValidDate(d)
    ensures ValidDate(r)
    ensures MonthIndex(r) == MonthIndex(d) + n
    ensures r.day == Min(d.day, DaysInMonth(r.year, r.month))
  {
    var k := MonthIndex(d) + n;
    var y := k / 12;
    var m := k % 12 + 1;
    Date(y, m, Min(d.day, DaysInMonth(y, m)))
  }

  /** Dates in different months are ordered as their months are. */
  lemma MonthIndexOrder(a: Date, b: Date)
    requires ValidDate(a) && ValidDate(b)
    requires MonthIndex(a) < MonthIndex(b)
    ensures Before(a, b)
  {
  }

  /** Dates in the same month are ordered as their days are. */
  lemma SameMonthOrder(a: Date, b: Date)
    requires ValidDate(a) && ValidDate(b)
    requires MonthIndex(a) == MonthIndex(b)
    ensures a.year == b.year && a.month == b.month
    ensures Before(a, b) <==> a.day < b.day
  {
  }

  /**
   * Whole months from `opening` to `target` as `relativedelta(target, opening)`
   * reports them in `years * 12 + months`: start from the difference of the
   * month indices and step back (or forward, when `target` is earlier) once if
   * the day-clamped shift of `opening` overshoots `target`.
   */
  function MonthsElapsed(target: Date, opening: Date): (n: int)
    requires ValidDate(target) && ValidDate(opening)
    ensures NotAfter(opening, target) ==> 0 <= n
    ensures Before(target, opening) ==> n <= 0
    ensures MonthIndex(target) - MonthIndex(opening) - 1 <= n <= MonthIndex(target) - MonthIndex(opening) + 1
  {
    var naive := MonthIndex(target) - MonthIndex(opening);
    if NotAfter(opening, target) then
      (if Before(target, AddMonths(opening, naive)) then naive - 1 else naive)
    else
      (if Before(AddMonths(opening, naive), target) then naive + 1 else naive)
  }

  /**
   * `MonthsElapsed` counts exactly the whole months: shifting `opening` by that
   * many months does not pass `target`, and shifting by one more does.
   */
  lemma MonthsElapsedIsWholeMonths(target: Date, opening: Date)
    requires ValidDate(target) && ValidDate(opening)
    requires NotAfter(opening, target)
    ensures var n := MonthsElapsed(target, opening);
      n >= 0 && NotAfter(AddMonths(opening, n), target) && Before(target, AddMonths(opening, n + 1))
  {
    var naive := MonthIndex(target) - MonthIndex(opening);
    var at := AddMonths(opening, naive);
    SameMonthOrder(at, target);
    if Before(target, at) {
      MonthIndexOrder(AddMonths(opening, naive - 1), target);
      assert naive != 0 by {
        if naive == 0 {
          SameMonthOrder(opening, target);
        }
      }
    } else {
      MonthIndexOrder(target, AddMonths(opening, naive + 1));
      if naive < 0 {
        MonthIndexOrder(target, opening);
      }
    }
  }

  /** When `target` precedes `opening` the count is negative or zero, as `relativedelta`'s is. */
  lemma MonthsElapsedBeforeOpening(target: Date, opening: Date)
    requires ValidDate(target) && ValidDate(opening)
    requires Before(target, opening)
    ensures var n := MonthsElapsed(target, opening);
      n <= 0 && Before(AddMonths(opening, n - 1), target) && NotAfter(target, AddMonths(opening, n))
  {
    var naive := MonthIndex(target) - MonthIndex(opening);
    var at := AddMonths(opening, naive);
    SameMonthOrder(at, target);
    if Before(at, target) {
      MonthIndexOrder(target, AddMonths(opening, naive + 1));
      assert naive != 0 by {
        if naive == 0 {
          SameMonthOrder(opening, target);
        }
      }
    } else {
      MonthIndexOrder(AddMonths(opening, naive - 1), target);
      if naive > 0 {
        MonthIndexOrder(opening, target);
      }
    }
  }

  /**
   * The calendar counted in years that start on March 1st, so that the leap
   * day is the last day of its year: the year a date falls in on that count.
   */
  function MarchYear(d: Date): int {
    if d.month <= 2 then d.year - 1 else d.year
  }

  /** Zero-based day within the March-based year (March 1st is 0). */
  function DayOfMarchYear(d: Date): int {
    (153 * ((d.month + 9) % 12) + 2) / 5 + d.day - 1
  }

  /** Days from March 1st of year 0 to March 1st of year `y`, counted by 400-year eras. */
  function DaysBeforeMarchYear(y: int): int {
    var era := y / 400;
    var yoe := y - era * 400;
    era * 146097 + yoe * 365 + yoe / 4 - yoe / 100
  }

  /** Days since 1970-01-01 (Howard Hinnant's days-from-civil). */
  function DayNumber(d: Date): int {
    DaysBeforeMarchYear(MarchYear(d)) + DayOfMarchYear(d) - 719468
  }

  /** Euclidean division is determined by a quotient and a remainder in range. */
  lemma DivModUnique(a: int, k: int, q: int, r: int)
    requires 0 < k && 0 <= r < k && a == k * q + r
    ensures a / k == q && a % k == r
  {
    var q', r' := a / k, a % k;
    assert a == k * q' + r' && 0 <= r' < k;
    assert k * (q' - q) == r - r';
    if q' != q {
      MulAwayFromZero(k, q' - q);
    }
  }

  lemma MulAwayFromZero(k: int, d: int)
    requires 0 < k && d != 0
    ensures k * d >= k || k * d <= -k
  {
  }

  /** A March-based year has 366 days exactly when the February that ends it has 29. */
  lemma MarchYearLength(y: int)
    ensures DaysBeforeMarchYear(y + 1) == DaysBeforeMarchYear(y) + 365 + (if IsLeapYear(y + 1) then 1 else 0)
  {
    var era, yoe := y / 400, y % 400;
    assert y - era * 400 == yoe;
    if yoe == 399 {
      DivModUnique(y + 1, 400, era + 1, 0);
      DivModUnique(y + 1, 4, 100 * era + 100, 0);
      assert DaysBeforeMarchYear(y + 1) == (era + 1) * 146097;
      assert DaysBeforeMarchYear(y) == era * 146097 + 145731;
    } else {
      var n := yoe + 1;
      DivModUnique(y + 1, 400, era, n);
      DivModUnique(y + 1, 4, 100 * era + n / 4, n % 4);
      DivModUnique(y + 1, 100, 4 * era + n / 100, n % 100);
      DivModUnique(yoe, 4, n / 4 - (if n % 4 == 0 then 1 else 0), if n % 4 == 0 then 3 else n % 4 - 1);
      DivModUnique(yoe, 100, n / 100 - (if n % 100 == 0 then 1 else 0), if n % 100 == 0 then 99 else n % 100 - 1);
      assert DaysBeforeMarchYear(y + 1) == era * 146097 + n * 365 + n / 4 - n / 100;
    }
  }

  /** Away from March 1st, the day before stays in the same March-based year, one position earlier. */
  lemma DayOfMarchYearStep(d: Date)
    requires ValidDate(d) && !(d.month == 3 && d.day == 1)
    ensures MarchYear(DayBefore(d)) == MarchYear(d)
    ensures DayOfMarchYear(DayBefore(d)) + 1 == DayOfMarchYear(d)
  {
    var p := DayBefore(d);
    if d.day == 1 {
      if d.month == 1 {
        assert DayOfMarchYear(p) == 305 && DayOfMarchYear(d) == 306;
      } else if d.month == 2 {
        assert DayOfMarchYear(p) == 336 && DayOfMarchYear(d) == 337;
      } else if d.month == 4 {
        assert DayOfMarchYear(p) == 30 && DayOfMarchYear(d) == 31;
      } else if d.month == 5 {
        assert DayOfMarchYear(p) == 60 && DayOfMarchYear(d) == 61;
      } else if d.month == 6 {
        assert DayOfMarchYear(p) == 91 && DayOfMarchYear(d) == 92;
      } else if d.month == 7 {
        assert DayOfMarchYear(p) == 121 && DayOfMarchYear(d) == 122;
      } else if d.month == 8 {
        assert DayOfMarchYear(p) == 152 && DayOfMarchYear(d) == 153;
      } else if d.month == 9 {
        assert DayOfMarchYear(p) == 183 && DayOfMarchYear(d) == 184;
      } else if d.month == 10 {
        assert DayOfMarchYear(p) == 213 && DayOfMarchYear(d) == 214;
      } else if d.month == 11 {
        assert DayOfMarchYear(p) == 244 && DayOfMarchYear(d) == 245;
      } else {
        assert DayOfMarchYear(p) == 274 && DayOfMarchYear(d) == 275;
      }
    }
  }

  /**
   * The day number counts days: a valid date is numbered one more than the
   * day before it, so the weekday advances by one from day to day.
   */
  lemma DayNumberOfDayBefore(d: Date)
    requires ValidDate(d)
    ensures DayNumber(d) == DayNumber(DayBefore(d)) + 1
    ensures Weekday(d) == (Weekday(DayBefore(d)) + 1) % 7
  {
    var p := DayBefore(d);
    if d.month == 3 && d.day == 1 {
      MarchYearLength(d.year - 1);
      assert p == Date(d.year, 2, DaysInMonth(d.year, 2));
      assert DayOfMarchYear(d) == 0;
      assert DayOfMarchYear(p) == 336 + DaysInMonth(d.year, 2);
    } else {
      DayOfMarchYearStep(d);
    }
    WeekdayStep(DayNumber(p));
  }

  lemma WeekdayStep(n: int)
    ensures (n + 1 + 3) % 7 == ((n + 3) % 7 + 1) % 7
  {
    var q, r := (n + 3) / 7, (n + 3) % 7;
    if r == 6 {
      DivModUnique(n + 4, 7, q + 1, 0);
    } else {
      DivModUnique(n + 4, 7, q, r + 1);
    }
  }

  /** `date.weekday()`: 0 is Monday, 6 is Sunday (1970-01-01 was a Thursday). */
  function Weekday(d: Date): (w: int)
    ensures 0 <= w < 7
  {
    (DayNumber(d) + 3) % 7
  }

  /** Python's `date(2024, 11, 1).weekday()` is 4 (a Friday). */
  lemma WeekdayOfOpeningDefault()
    ensures Weekday(Date(2024, 11, 1)) == 4
  {
    assert DayOfMarchYear(Date(2024, 11, 1)) == 245;
    assert DaysBeforeMarchYear(2024) == 5 * 146097 + 24 * 365 + 6 == 739251;
    assert DayNumber(Date(2024, 11, 1)) == 739251 + 245 - 719468 == 20028;
  }

  /** Python's `date(2000, 2, 29).weekday()` is 1 (a Tuesday). */
  lemma WeekdayOfLeapDay()
    ensures Weekday(Date(2000, 2, 29)) == 1
  {
    assert DayOfMarchYear(Date(2000, 2, 29)) == 365;
    assert DaysBeforeMarchYear(1999) == 4 * 146097 + 399 * 365 + 99 - 3 == 730119;
    assert DayNumber(Date(2000, 2, 29)) == 730119 + 365 - 719468 == 11016;
  }
}
