/**
 * The required-versus-available staffing check of app.py: required staff
 * from the average utilisation, the service ratio and the wage-incentive
 * add-on, available staff as full-time equivalents summed over the eligible
 * staff.
 */
module Staffing {
  import opened Wrappers
  import opened Rounding
  import opened Eligibility

  /** Roles whose hours count toward the staffing ratio. */
  const CountedRoles: seq<string> := ["職業指導員", "生活支援員", "目標工賃達成指導員"]

  /** `ceil_decimal_1(avg / ratio + (1.0 if the wage add-on is held else 0.0))`. */
  function RequiredStaff(averageUsers: real, serviceRatio: real, wageActive: bool): (r: real)
    requires serviceRatio > 0.0
    ensures IsTenth(r)
    ensures var need := averageUsers / serviceRatio + (if wageActive then 1.0 else 0.0);
      need <= r < need + 0.1
  {
    var baseStaff := averageUsers / serviceRatio;
    var addStaff := if wageActive then 1.0 else 0.0;
    CeilDecimal1(baseStaff + addStaff)
  }

  /** Holding the wage-incentive add-on raises the requirement by exactly one person. */
  lemma WageAddOnAddsOne(averageUsers: real, serviceRatio: real)
    requires serviceRatio > 0.0
    ensures RequiredStaff(averageUsers, serviceRatio, true) == RequiredStaff(averageUsers, serviceRatio, false) + 1.0
  {
    CeilDecimal1AddOne(averageUsers / serviceRatio);
    assert averageUsers / serviceRatio + 0.0 == averageUsers / serviceRatio;
  }

  /** Primary-role hours: contracted hours less secondary-role hours, never negative. */
  function MainHours(s: Staff): real {
    if s.contractHours - s.secondaryHours > 0.0 then s.contractHours - s.secondaryHours else 0.0
  }

  /** Hours that count: primary-role hours if that role counts, plus secondary-role hours if that one does. */
  function CountedHours(s: Staff): (h: real)
    ensures s.primaryRole !in CountedRoles && s.secondaryRole !in CountedRoles ==> h == 0.0
    ensures s.primaryRole in CountedRoles && s.secondaryRole in CountedRoles && s.secondaryHours <= s.contractHours
      ==> h == s.contractHours
    ensures s.secondaryHours >= 0.0 ==> h >= 0.0
  {
    (if s.primaryRole in CountedRoles then MainHours(s) else 0.0)
    + (if s.secondaryRole in CountedRoles then s.secondaryHours else 0.0)
  }

  /** One person's full-time equivalent: counted hours over full-time hours, at most 1.0; nothing without counted hours. */
  function Contribution(s: Staff, fulltimeHours: real): (c: real)
    requires fulltimeHours > 0.0
    ensures 0.0 <= c <= 1.0
    ensures c > 0.0 <==> CountedHours(s) > 0.0
    ensures c <= CountedHours(s) / fulltimeHours || c == 0.0
    ensures c < 1.0 && CountedHours(s) > 0.0 ==> c == CountedHours(s) / fulltimeHours
  {
    var hours := CountedHours(s);
    if hours > 0.0 then
      var fte := hours / fulltimeHours;
      if fte > 1.0 then 1.0 else fte
    else 0.0
  }

  /** Unrounded sum of the contributions. */
  function TotalFte(staff: seq<Staff>, fulltimeHours: real): real
    requires fulltimeHours > 0.0
  {
    if |staff| == 0 then 0.0
    else TotalFte(staff[..|staff| - 1], fulltimeHours) + Contribution(staff[|staff| - 1], fulltimeHours)
  }

  /** The summed equivalents are between 0 and the head count. */
  lemma {:induction false} TotalFteBounds(staff: seq<Staff>, fulltimeHours: real)
    requires fulltimeHours > 0.0
    ensures 0.0 <= TotalFte(staff, fulltimeHours) <= |staff| as real
  {
    if |staff| > 0 {
      TotalFteBounds(staff[..|staff| - 1], fulltimeHours);
    }
  }

  /** Adding a person to the list never lowers the sum. */
  lemma TotalFteGrows(staff: seq<Staff>, s: Staff, fulltimeHours: real)
    requires fulltimeHours > 0.0
    ensures TotalFte(staff + [s], fulltimeHours) >= TotalFte(staff, fulltimeHours)
  {
    assert (staff + [s])[..|staff|] == staff;
  }

  /** One line of the breakdown: who, their contribution, their counted hours. */
  datatype FteLine = FteLine(name: string, fte: real, hours: real)

  /** The breakdown lists, in order, every person with counted hours. */
  function FteLines(staff: seq<Staff>, fulltimeHours: real): seq<FteLine>
    requires fulltimeHours > 0.0
  {
    if |staff| == 0 then []
    else
      var s := staff[|staff| - 1];
      FteLines(staff[..|staff| - 1], fulltimeHours)
      + (if CountedHours(s) > 0.0 then [FteLine(s.name, Contribution(s, fulltimeHours), CountedHours(s))] else [])
  }

  /** The accumulation loop: add each person's capped equivalent and record a breakdown line. */
  method AvailableFte(staff: seq<Staff>, fulltimeHours: real) returns (actualFte: real, details: seq<FteLine>)
    requires fulltimeHours > 0.0
    ensures actualFte == TotalFte(staff, fulltimeHours)
    ensures details == FteLines(staff, fulltimeHours)
    ensures 0.0 <= actualFte <= |staff| as real
  {
    actualFte := 0.0;
    details := [];
    for i := 0 to |staff|
      invariant actualFte == TotalFte(staff[..i], fulltimeHours)
      invariant details == FteLines(staff[..i], fulltimeHours)
    {
      var person := staff[i];
      assert staff[..i + 1][..i] == staff[..i];
      var totalHours := person.contractHours;
      var subHours := person.secondaryHours;
      var mainHours := if totalHours - subHours > 0.0 then totalHours - subHours else 0.0;
      var targetHours := 0.0;
      if person.primaryRole in CountedRoles { targetHours := targetHours + mainHours; }
      if person.secondaryRole in CountedRoles { targetHours := targetHours + subHours; }
      if targetHours > 0.0 {
        var fte := targetHours / fulltimeHours;
        if fte > 1.0 { fte := 1.0; }
        actualFte := actualFte + fte;
        details := details + [FteLine(person.name, fte, targetHours)];
      }
    }
    assert staff[..|staff|] == staff;
    TotalFteBounds(staff, fulltimeHours);
  }

  /** The facility is sufficiently staffed when the sum rounded to a tenth reaches the requirement. */
  predicate Sufficient(actualFte: real, required: real) {
    RoundHalfEven1(actualFte) >= required
  }

  /** Taking on one more person never turns a sufficient roster into an insufficient one. */
  lemma SufficientStaysSufficient(staff: seq<Staff>, s: Staff, fulltimeHours: real, required: real)
    requires fulltimeHours > 0.0
    requires Sufficient(TotalFte(staff, fulltimeHours), required)
    ensures Sufficient(TotalFte(staff + [s], fulltimeHours), required)
  {
    TotalFteGrows(staff, s, fulltimeHours);
    RoundHalfEven1Monotone(TotalFte(staff, fulltimeHours), TotalFte(staff + [s], fulltimeHours));
  }

  /**
   * Primary and secondary hours go into one bucket: 35 primary hours and 5
   * secondary hours, both in counted roles, make one full equivalent at 40
   * full-time hours; 45 hours are still capped at one; with an uncounted
   * secondary role only the 35 primary hours count.
   */
  lemma SingleBucketExamples()
    ensures Contribution(Staff("A", "生活支援員", "職業指導員", 40.0, 5.0, "A", "土,日", None, None), 40.0) == 1.0
    ensures Contribution(Staff("B", "生活支援員", "なし", 45.0, 0.0, "A", "", None, None), 40.0) == 1.0
    ensures Contribution(Staff("C", "職業指導員", "運転手", 40.0, 5.0, "A", "", None, None), 40.0) == 0.875
    ensures Contribution(Staff("D", "管理者", "なし", 40.0, 0.0, "A", "", None, None), 40.0) == 0.0
  {
    assert "生活支援員" in CountedRoles && "職業指導員" in CountedRoles;
    assert "なし" !in CountedRoles by {
      assert "なし" != CountedRoles[0] && "なし" != CountedRoles[1] && "なし" != CountedRoles[2];
    }
    assert "運転手" !in CountedRoles by {
      assert "運転手" != CountedRoles[0] && "運転手" != CountedRoles[1] && "運転手" != CountedRoles[2];
    }
    assert "管理者" !in CountedRoles by {
      assert "管理者" != CountedRoles[0] && "管理者" != CountedRoles[1] && "管理者" != CountedRoles[2];
    }
  }
}
