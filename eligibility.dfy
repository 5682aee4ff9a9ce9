/**
 * The staff roster and the eligibility filter `get_active_staff_df` of
 * app.py: who is employed on a target date, and who is dropped because the
 * add-on their primary role serves is not held.
 */
module Eligibility {
  import opened Wrappers
  import opened Dates
  import opened AddOns
  import opened Seqs

  /**
   * One roster row. Hours are weekly; `fixedDaysOff` is the raw text of the
   * fixed-day-off cell (for instance "土,日"); a missing hire or resignation
   * date is `None`.
   */
  datatype Staff = Staff(
    name: string,
    primaryRole: string,
    secondaryRole: string,
    contractHours: real,
    secondaryHours: real,
    baseShift: string,
    fixedDaysOff: string,
    hireDate: Option<Date>,
    resignDate: Option<Date>)

  /** The three add-on entitlement histories of the facility settings. */
  datatype AddOnHistories = AddOnHistories(
    wage: seq<AddOnPeriod>,
    transport: seq<AddOnPeriod>,
    lunch: seq<AddOnPeriod>)

  /** Primary roles that are only staffed while their add-on is held. */
  const WageInstructor: string := "目標工賃達成指導員"
  const Cook: string := "調理員"
  const Driver: string := "運転手"

  /**
   * Tenure test: hired no later than the last day of the target month (a
   * missing hire date counts as hired) and not resigned before the target
   * date itself.
   */
  predicate Employed(s: Staff, target: Date): (e: bool)
    ensures s.hireDate.None? && s.resignDate.None? ==> e
    ensures ValidDate(target) && s.hireDate.Some? && ValidDate(s.hireDate.value) && s.resignDate.None?
      ==> (e <==> MonthIndex(s.hireDate.value) <= MonthIndex(target))
    ensures s.resignDate.Some? && ValidDate(target) && ValidDate(s.resignDate.value) && Before(s.resignDate.value, target)
      ==> !e
  {
    !(s.hireDate.Some? && Before(MonthEnd(target), s.hireDate.value))
    && !(s.resignDate.Some? && Before(s.resignDate.value, target))
  }

  function EmployedOn(target: Date): Staff -> bool {
    (s: Staff) => Employed(s, target)
  }

  /** The primary roles excluded on `target`, in the order the source lists them. */
  function ExcludedRoles(h: AddOnHistories, target: Date): seq<string> {
    (if !IsAddOnActive(target, h.wage) then [WageInstructor] else [])
    + (if !IsAddOnActive(target, h.lunch) then [Cook] else [])
    + (if !IsAddOnActive(target, h.transport) then [Driver] else [])
  }

  function PrimaryNotIn(excluded: seq<string>): Staff -> bool {
    (s: Staff) => s.primaryRole !in excluded
  }

  /**
   * The eligible staff: without a target date the roster as it is; with one,
   * the employed rows whose primary role is not excluded, in roster order.
   */
  function ActiveStaff(roster: seq<Staff>, h: AddOnHistories, target: Option<Date>): seq<Staff> {
    match target
    case None => roster
    case Some(t) => Filter(Filter(roster, EmployedOn(t)), PrimaryNotIn(ExcludedRoles(h, t)))
  }

  /** `get_active_staff_df`: a tenure pass that keeps rows one by one, then the role exclusion. */
  method GetActiveStaff(roster: seq<Staff>, h: AddOnHistories, target: Option<Date>)
    returns (active: seq<Staff>)
    ensures active == ActiveStaff(roster, h, target)
  {
    if target.None? {
      return roster;
    }
    var t := target.value;
    var kept := KeepEmployed(roster, t);
    var excludeTargets: seq<string> := [];
    if !IsAddOnActive(t, h.wage) { excludeTargets := excludeTargets + [WageInstructor]; }
    if !IsAddOnActive(t, h.lunch) { excludeTargets := excludeTargets + [Cook]; }
    if !IsAddOnActive(t, h.transport) { excludeTargets := excludeTargets + [Driver]; }
    assert excludeTargets == ExcludedRoles(h, t);
    if |excludeTargets| == 0 {
      FilterAll(kept, PrimaryNotIn(excludeTargets));
      active := kept;
    } else {
      active := DropPrimaryRoles(kept, excludeTargets);
    }
  }

  /** The tenure pass: the rows passing the tenure test on `t`, in roster order. */
  method KeepEmployed(roster: seq<Staff>, t: Date) returns (kept: seq<Staff>)
    ensures kept == Filter(roster, EmployedOn(t))
  {
    var monthEnd := MonthEnd(t);
    kept := [];
    for i := 0 to |roster|
      invariant kept == Filter(roster[..i], EmployedOn(t))
    {
      var row := roster[i];
      var isHired := true;
      if row.hireDate.Some? && Before(monthEnd, row.hireDate.value) {
        isHired := false;
      }
      var isResigned := false;
      if row.resignDate.Some? && Before(row.resignDate.value, t) {
        isResigned := true;
      }
      assert roster[..i + 1] == roster[..i] + [row];
      FilterSnoc(roster[..i], row, EmployedOn(t));
      if isHired && !isResigned {
        kept := kept + [row];
      }
    }
    assert roster[..|roster|] == roster;
  }

  /** The `isin` exclusion: the rows whose primary role is not listed, in order. */
  method DropPrimaryRoles(rows: seq<Staff>, excluded: seq<string>) returns (remaining: seq<Staff>)
    ensures remaining == Filter(rows, PrimaryNotIn(excluded))
  {
    remaining := [];
    for j := 0 to |rows|
      invariant remaining == Filter(rows[..j], PrimaryNotIn(excluded))
    {
      var row := rows[j];
      var keep := row.primaryRole !in excluded;
      assert keep == PrimaryNotIn(excluded)(row);
      assert rows[..j + 1] == rows[..j] + [row];
      FilterSnoc(rows[..j], row, PrimaryNotIn(excluded));
      if keep {
        remaining := remaining + [row];
      }
    }
    assert rows[..|rows|] == rows;
  }

  /**
   * With a target date a row is eligible exactly when it is in the roster, is
   * employed on that date, and its primary role is not one whose add-on is
   * missing; the secondary role plays no part.
   */
  lemma ActiveStaffMembers(roster: seq<Staff>, h: AddOnHistories, t: Date, s: Staff)
    ensures s in ActiveStaff(roster, h, Some(t)) <==>
      && s in roster
      && Employed(s, t)
      && !(s.primaryRole == WageInstructor && !IsAddOnActive(t, h.wage))
      && !(s.primaryRole == Cook && !IsAddOnActive(t, h.lunch))
      && !(s.primaryRole == Driver && !IsAddOnActive(t, h.transport))
  {
  }

  /** The eligible staff are the roster with rows deleted, order kept. */
  lemma ActiveStaffIsSubsequence(roster: seq<Staff>, h: AddOnHistories, target: Option<Date>)
    ensures IsSubsequence(ActiveStaff(roster, h, target), roster)
  {
    match target
    case None =>
      FilterAll(roster, (s: Staff) => true);
      FilterIsSubsequence(roster, (s: Staff) => true);
    case Some(t) =>
      FilterFilter(roster, EmployedOn(t), PrimaryNotIn(ExcludedRoles(h, t)));
      FilterIsSubsequence(roster, Both(EmployedOn(t), PrimaryNotIn(ExcludedRoles(h, t))));
  }

  /**
   * The tenure asymmetry: anyone hired on or before the last day of the
   * target month counts, and a resignation on the target date itself does not
   * remove the person, while hiring after the month or resigning before the
   * date does.
   */
  lemma TenureBoundaries(s: Staff, t: Date)
    requires ValidDate(t)
    ensures s.hireDate == Some(FirstOfMonth(t)) && s.resignDate.None? ==> Employed(s, t)
    ensures s.hireDate == Some(MonthEnd(t)) && s.resignDate == Some(t) ==> Employed(s, t)
    ensures s.hireDate.Some? && MonthIndex(s.hireDate.value) > MonthIndex(t) && ValidDate(s.hireDate.value)
            ==> !Employed(s, t)
    ensures s.resignDate.Some? && Before(s.resignDate.value, t) ==> !Employed(s, t)
  {
    if s.hireDate.Some? && MonthIndex(s.hireDate.value) > MonthIndex(t) && ValidDate(s.hireDate.value) {
      MonthIndexOrder(MonthEnd(t), s.hireDate.value);
    }
  }
}
