/**
 * Add-on entitlement windows (wage-incentive, transport, meal service):
 * `is_addon_active` in app.py.
 */
module AddOns {
  import opened Wrappers
  import opened Dates

  /** One entitlement period; `start` and `end` are inclusive, a missing `end` means still active. */
  datatype AddOnPeriod = AddOnPeriod(start: Option<Date>, end: Option<Date>)

  /**
   * Whether the add-on is held on date `t`: scan the periods in order, skip a
   * period without a start, and stop at the first one that covers `t`.
   */
  function IsAddOnActive(t: Date, history: seq<AddOnPeriod>): (r: bool)
    ensures r <==> exists i :: 0 <= i < |history|
                     && history[i].start.Some?
                     && NotAfter(history[i].start.value, t)
                     && (history[i].end.None? || NotAfter(t, history[i].end.value))
  {
    if |history| == 0 then false
    else
      var period := history[0];
      match period.start
      case None => IsAddOnActive(t, history[1..])
      case Some(start) =>
        match period.end
        case None => if NotAfter(start, t) then true else IsAddOnActive(t, history[1..])
        case Some(end) => if NotAfter(start, t) && NotAfter(t, end) then true else IsAddOnActive(t, history[1..])
  }

  /** A single open-ended period starting at `s` makes the add-on active exactly from `s` on. */
  lemma OpenEndedPeriod(s: Date, t: Date)
    ensures IsAddOnActive(t, [AddOnPeriod(Some(s), None)]) <==> NotAfter(s, t)
  {
  }

  /** Before every recorded start the add-on is inactive; an empty history is never active. */
  lemma InactiveBeforeAllStarts(t: Date, history: seq<AddOnPeriod>)
    requires forall i :: 0 <= i < |history| && history[i].start.Some? ==> Before(t, history[i].start.value)
    ensures !IsAddOnActive(t, history)
  {
  }

  /** Periods without a start never make the add-on active. */
  lemma StartlessPeriodsIgnored(t: Date, history: seq<AddOnPeriod>, extra: seq<AddOnPeriod>)
    requires forall i :: 0 <= i < |extra| ==> extra[i].start.None?
    ensures IsAddOnActive(t, history + extra) == IsAddOnActive(t, history)
    ensures IsAddOnActive(t, extra + history) == IsAddOnActive(t, history)
  {
    if IsAddOnActive(t, history) {
      var i :| 0 <= i < |history|
               && history[i].start.Some?
               && NotAfter(history[i].start.value, t)
               && (history[i].end.None? || NotAfter(t, history[i].end.value));
      assert (history + extra)[i] == history[i];
      assert (extra + history)[|extra| + i] == history[i];
    }
  }

  /** Transport held from 2024-11-01 with no end: inactive on 2024-10-31, active on 2024-11-01. */
  lemma TransportFromNovember()
    ensures !IsAddOnActive(Date(2024, 10, 31), [AddOnPeriod(Some(Date(2024, 11, 1)), None)])
    ensures IsAddOnActive(Date(2024, 11, 1), [AddOnPeriod(Some(Date(2024, 11, 1)), None)])
  {
  }
}
