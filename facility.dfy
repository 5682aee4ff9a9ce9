/**
 * The two page-level computations that tie the components together: the
 * staffing check for a target month and the draft schedule for a month.
 */
module Facility {
  import opened Wrappers
  import opened Dates
  import opened Rounding
  import opened AddOns
  import opened Closure
  import opened Eligibility
  import opened Utilization
  import opened Staffing
  import opened Draft

  /** Facility-wide settings: opening date, a single capacity figure, hours, ratio, closures, add-ons. */
  datatype FacilitySettings = FacilitySettings(
    openingDate: Date,
    capacity: int,
    fulltimeHours: real,
    serviceRatio: real,
    closure: ClosureRules,
    addOns: AddOnHistories)

  /**
   * The staffing check for the month starting on `Date(year, month, 1)`:
   * the estimate, the required staff (with the wage add-on as held on that
   * date), the eligible staff's summed equivalents rounded to a tenth, and
   * whether they reach the requirement.
   */
  method StaffingCheck(settings: FacilitySettings, roster: seq<Staff>, records: seq<MonthlyRecord>, year: int, month: int)
    returns (estimate: Estimate, required: real, available: real, sufficient: bool)
    requires 1 <= month <= 12 && ValidDate(settings.openingDate)
    requires settings.serviceRatio > 0.0 && settings.fulltimeHours > 0.0
    ensures var target := Date(year, month, 1);
      && estimate == EstimateAverageUsers(target, settings.openingDate, settings.capacity, records)
      && required == RequiredStaff(estimate.result, settings.serviceRatio, IsAddOnActive(target, settings.addOns.wage))
      && available == RoundHalfEven1(TotalFte(ActiveStaff(roster, settings.addOns, Some(target)), settings.fulltimeHours))
    ensures sufficient <==> available >= required
    ensures 0.0 <= available
  {
    var target := Date(year, month, 1);
    var wageActive := IsAddOnActive(target, settings.addOns.wage);
    estimate := EstimateAverageUsers(target, settings.openingDate, settings.capacity, records);
    required := RequiredStaff(estimate.result, settings.serviceRatio, wageActive);
    var current := GetActiveStaff(roster, settings.addOns, Some(target));
    var actualFte, _ := AvailableFte(current, settings.fulltimeHours);
    available := RoundHalfEven1(actualFte);
    RoundHalfEven1Monotone(0.0, actualFte);
    assert RoundHalfEven1(0.0) == 0.0 by {
      RoundHalfEven1OfTenth(0.0);
    }
    sufficient := available >= required;
  }

  /**
   * The draft schedule for the month: the staff eligible on the month's
   * first day, one row each, in roster order; each cell is 休 on a closed
   * day, 公休 on the person's fixed day off, and their base shift otherwise.
   */
  method DraftForMonth(settings: FacilitySettings, roster: seq<Staff>, year: int, month: int,
                       isNationalHoliday: Date -> bool)
    returns (rows: seq<DraftRow>)
    requires 1 <= month <= 12
    ensures var eligible := ActiveStaff(roster, settings.addOns, Some(Date(year, month, 1)));
      && |rows| == |eligible|
      && forall i :: 0 <= i < |rows| ==>
           && rows[i].name == eligible[i].name
           && |rows[i].cells| == DaysInMonth(year, month)
           && forall k :: 0 <= k < |rows[i].cells| ==>
                var date := Date(year, month, k + 1);
                && (rows[i].cells[k] == FacilityClosed <==> IsClosed(date, settings.closure, isNationalHoliday))
                && (rows[i].cells[k] == StaffDayOff
                    <==> !IsClosed(date, settings.closure, isNationalHoliday) && HasDayOff(eligible[i], date))
                && ((!IsClosed(date, settings.closure, isNationalHoliday) && !HasDayOff(eligible[i], date))
                    ==> rows[i].cells[k] == WorkShift(eligible[i].baseShift))
  {
    var eligible := GetActiveStaff(roster, settings.addOns, Some(Date(year, month, 1)));
    rows := GenerateDraft(year, month, eligible, settings.closure, isNationalHoliday);
  }
}
