/** What each administrator operation brings about: when it is refused, and when the device is off afterwards. */
module DeviceOperations {
  import opened Lists
  import opened ScheduleResolver
  import opened ScheduleMeaning
  import opened ScheduleCanonical
  import opened DeviceService
  import opened DeviceProperties

  /** Forced off, or to be forced off when a hold ends: the rows do not matter. */
  predicate Overridden(d: DeviceState) {
    d.powerMode == OFF || d.holdThenOff
  }

  /** What an operation leaves behind, in a device that was in state `d`. */
  function Left(repo: Repository, d: DeviceState, op: Op): DeviceState {
    StateAfter(d, Apply(repo, d, op))
  }

  // ---------------------------------------------------------------- one operation at a time

  /** Granted for a grace of 0 to 240 minutes; then the device is off for good once the grace is over. */
  lemma {:induction false} PowerOffExact(repo: Repository, d: DeviceState, grace: int, at: Instant, later: Repository, t: Instant)
    ensures Apply(repo, d, PowerOff(grace, at)).Done? <==> 0 <= grace <= 240
    ensures 0 <= grace <= 240 ==> (Enforced(later, Left(repo, d, PowerOff(grace, at)), t) <==> at + grace * 60_000 <= t)
    ensures !(0 <= grace <= 240) ==> Apply(repo, d, PowerOff(grace, at)) == Refused(INVALID_GRACE) && Left(repo, d, PowerOff(grace, at)) == d
    ensures Left(repo, d, PowerOff(grace, at)).scheduleId == d.scheduleId
  {}

  /** Granted for 1 minute to a week; then the device is on for so long, and afterwards off for good or as its rows say. */
  lemma {:induction false} HoldOnExact(repo: Repository, d: DeviceState, minutes: int, thenOff: bool, at: Instant, later: Repository, t: Instant)
    ensures Apply(repo, d, HoldOn(minutes, thenOff, at)).Done? <==> 1 <= minutes <= 10_080
    ensures 1 <= minutes <= 10_080 ==>
              (Enforced(later, Left(repo, d, HoldOn(minutes, thenOff, at)), t)
               <==> at + minutes * 60_000 <= t && (thenOff || RowsSayOff(later, d.scheduleId, t)))
    ensures !(1 <= minutes <= 10_080) ==>
              Apply(repo, d, HoldOn(minutes, thenOff, at)) == Refused(INVALID_HOLD) && Left(repo, d, HoldOn(minutes, thenOff, at)) == d
    ensures Left(repo, d, HoldOn(minutes, thenOff, at)).scheduleId == d.scheduleId
  {
    hide RowsSayOff;
  }

  /** Always granted; the rows decide again, from the end of any extension given before. */
  lemma {:induction false} PowerOnExact(repo: Repository, d: DeviceState, later: Repository, t: Instant)
    ensures Apply(repo, d, Op.PowerOn).Done? && Left(repo, d, Op.PowerOn).scheduleId == d.scheduleId
    ensures Enforced(later, Left(repo, d, Op.PowerOn), t) <==> RowsSayOff(later, d.scheduleId, t) && NotBefore(d.extensionUntil, t)
  {
    hide RowsSayOff;
  }

  /** Always granted; an override stays, and without one the rows decide, from the end of any hold. */
  lemma {:induction false} ClearExtensionExact(repo: Repository, d: DeviceState, later: Repository, t: Instant)
    ensures Apply(repo, d, Op.ClearExtension).Done? && Left(repo, d, Op.ClearExtension).scheduleId == d.scheduleId
    ensures Overridden(d) ==> (Enforced(later, Left(repo, d, Op.ClearExtension), t) <==> Enforced(later, d, t))
    ensures !Overridden(d) ==>
              (Enforced(later, Left(repo, d, Op.ClearExtension), t) <==> RowsSayOff(later, d.scheduleId, t) && NotBefore(d.holdUntil, t))
  {
    hide RowsSayOff;
  }

  /** Refused for an unknown schedule; an override stays, and without one the new rows decide, from the end of any hold. */
  lemma {:induction false} AssignScheduleExact(repo: Repository, d: DeviceState, id: Option<ScheduleId>, later: Repository, t: Instant)
    ensures Apply(repo, d, AssignSchedule(id)).Done? <==> id.None? || id.value in repo
    ensures id.Some? && id.value !in repo ==>
              Apply(repo, d, AssignSchedule(id)) == Refused(SCHEDULE_NOT_FOUND) && Left(repo, d, AssignSchedule(id)) == d
    ensures Overridden(d) ==> (Enforced(later, Left(repo, d, AssignSchedule(id)), t) <==> Enforced(later, d, t))
    ensures !Overridden(d) && (id.None? || id.value in repo) ==>
              (Enforced(later, Left(repo, d, AssignSchedule(id)), t) <==> RowsSayOff(later, id, t) && NotBefore(d.holdUntil, t))
    ensures id.None? || id.value in repo ==> Left(repo, d, AssignSchedule(id)).scheduleId == id
  {
    hide RowsSayOff;
  }

  // ---------------------------------------------------------------- extending

  /** An extension is refused under any override, and then without an assigned schedule that exists. */
  lemma {:induction false} ExtendRefusals(repo: Repository, d: DeviceState, minutes: int, checkedAt: Instant, now: Instant, resolvedAt: Instant)
    requires Consistent(d, checkedAt)
    ensures var outcome := Apply(repo, d, Extend(minutes, checkedAt, now, resolvedAt));
            var overridden := Overridden(d) || (d.holdUntil.Some? && d.holdUntil.value > checkedAt);
            && (outcome == Refused(POWER_OVERRIDE) <==> overridden)
            && (outcome == Refused(NO_SCHEDULE) <==> !overridden && d.scheduleId.None?)
            && (outcome == Refused(SCHEDULE_NOT_FOUND) <==> !overridden && d.scheduleId.Some? && d.scheduleId.value !in repo)
            && (outcome.Refused? ==> Left(repo, d, Extend(minutes, checkedAt, now, resolvedAt)) == d)
  {
    hide EffectiveWindows;
  }

  lemma {:induction false} ExtensionLeaves(ws: seq<OffWindow>, until: Option<Instant>)
    ensures ApplyExtension(ws, until) != [] <==> exists w :: w in ws && (until.Some? ==> until.value < w.onAt)
  {
    if until.Some? {
      var f := Filter(EndingAfter(until.value), ws);
      FilterMembers(EndingAfter(until.value), ws);
      if f != [] {
        assert f[0] in f;
      }
    } else if ws != [] {
      assert ws[0] in ws;
    }
  }

  lemma {:induction false} OffTimeFound(s: Schedule, until: Option<Instant>, now: Instant, to: Instant, from: Instant) returns (t: Instant)
    requires s.zone.Lawful() && now <= from < to && (until.Some? && until.value > now ==> until.value == from)
    requires from == now || until == Some(from)
    requires ApplyExtension(Resolve(s, now, to), until) != []
    ensures from <= t < to && ScheduleOff(s.zone, s.rules, s.overrides, t)
  {
    hide OffWindows, ApplyExtension, ScheduleOff, Zone.Lawful, NonEmpty;
    var resolved := Resolve(s, now, to);
    ExtensionLeaves(resolved, until);
    OffWindowsOrdered(s.zone, s.rules, s.overrides, now, to);
    var w :| w in resolved && (until.Some? ==> until.value < w.onAt);
    t := if w.offAt < from then from else w.offAt;
    WindowReached(resolved, w, now, to, from, t);
    OffWindowsExact(s.zone, s.rules, s.overrides, now, to, t);
  }

  lemma {:induction false} OffTimeLeaves(s: Schedule, until: Option<Instant>, now: Instant, to: Instant, t: Instant)
    requires s.zone.Lawful() && now <= t < to && NotBefore(until, t) && ScheduleOff(s.zone, s.rules, s.overrides, t)
    ensures ApplyExtension(Resolve(s, now, to), until) != []
  {
    hide OffWindows, ApplyExtension, ScheduleOff, Zone.Lawful;
    var resolved := Resolve(s, now, to);
    OffWindowsExact(s.zone, s.rules, s.overrides, now, to, t);
    var i :| 0 <= i < |resolved| && resolved[i].offAt <= t < resolved[i].onAt;
    assert resolved[i] in resolved;
    ExtensionLeaves(resolved, until);
  }

  lemma {:induction false} WindowReached(ws: seq<OffWindow>, w: OffWindow, now: Instant, to: Instant, from: Instant, t: Instant)
    requires NonEmpty(ws) && w in ws && now < w.onAt && w.offAt < to && now <= from < to && from < w.onAt
    requires t == if w.offAt < from then from else w.offAt
    ensures from <= t < to && InOff(ws, t)
  {
    var i :| 0 <= i < |ws| && ws[i] == w;
    assert ws[i].offAt < ws[i].onAt;
  }

  /**
    An extension is granted exactly when the device follows a schedule it has, and that schedule, with any extension
    already given, calls for it to be off at some time in the next two days.
  */
  lemma {:induction false} ExtendGrantedExactly(repo: Repository, d: DeviceState, minutes: int, checkedAt: Instant, now: Instant, resolvedAt: Instant)
    requires LawfulRepository(repo) && Consistent(d, checkedAt)
    requires d.extensionUntil.Some? ==> d.extensionUntil.value < resolvedAt + 172_800_000
    ensures Apply(repo, d, Extend(minutes, checkedAt, now, resolvedAt)).Done?
       <==> && !Overridden(d) && (d.holdUntil.Some? ==> d.holdUntil.value <= checkedAt)
            && exists t :: resolvedAt <= t < resolvedAt + 172_800_000 && RowsSayOff(repo, d.scheduleId, t) && NotBefore(d.extensionUntil, t)
  {
    hide Resolve, ApplyExtension, ScheduleOff, Zone.Lawful;
    ExtendRefusals(repo, d, minutes, checkedAt, now, resolvedAt);
    if d.scheduleId.Some? && d.scheduleId.value in repo {
      var s, until, to := repo[d.scheduleId.value], d.extensionUntil, resolvedAt + 172_800_000;
      if ApplyExtension(Resolve(s, resolvedAt, to), until) != [] {
        var t := OffTimeFound(s, until, resolvedAt, to, if until.Some? && until.value > resolvedAt then until.value else resolvedAt);
        assert RowsSayOff(repo, d.scheduleId, t);
      }
      if t :| resolvedAt <= t < to && RowsSayOff(repo, d.scheduleId, t) && NotBefore(until, t) {
        OffTimeLeaves(s, until, resolvedAt, to, t);
      }
    }
  }

  lemma {:induction false} GapsEndInRange(allowed: seq<AllowedWindow>, rangeStart: Instant, rangeEnd: Instant)
    ensures forall g :: g in AllGaps(allowed, rangeStart, rangeEnd) ==> g.onAt <= rangeEnd
  {
    if allowed != [] {
      var front := allowed[..|allowed| - 1];
      GapsEndInRange(front, rangeStart, rangeEnd);
      forall g | g in Gaps(front, rangeStart, rangeEnd)
        ensures g in AllGaps(front, rangeStart, rangeEnd)
      {}
    }
  }

  lemma {:induction false} NotOffAtEnd(gaps: seq<OffWindow>, i: nat)
    requires Canonical(gaps) && i < |gaps|
    ensures !InOff(gaps, gaps[i].onAt)
  {
    forall j | 0 <= j < |gaps|
      ensures !(gaps[j].offAt <= gaps[i].onAt < gaps[j].onAt)
    {
      assert j < i ==> gaps[j].onAt < gaps[i].offAt;
    }
  }

  /** With allowed time between any two gaps, a stretch without allowed time is in one gap. */
  lemma {:induction false} OneGap(gaps: seq<OffWindow>, first: Instant, last: Instant)
    requires Canonical(gaps) && first <= last && forall t :: first <= t <= last ==> InOff(gaps, t)
    ensures exists g :: g in gaps && g.offAt <= first && last < g.onAt
  {
    assert InOff(gaps, first);
    var i :| 0 <= i < |gaps| && gaps[i].offAt <= first < gaps[i].onAt;
    NotOffAtEnd(gaps, i);
    assert gaps[i] in gaps;
  }

  lemma {:induction false} LeftBeyond(s: Schedule, until: Instant, now: Instant, to: Instant)
    requires s.zone.Lawful() && now < to <= until && Canonical(DayGaps(s.zone, s.rules, s.overrides, now, to))
    ensures ApplyExtension(Resolve(s, now, to), Some(until)) != []
       <==> && until < s.zone.startOfDay(s.zone.dateOf(to) + 1)
            && forall t :: to - 1 <= t <= until ==> ScheduleOff(s.zone, s.rules, s.overrides, t)
  {
    hide DayGaps, ApplyExtension, ScheduleOff, Canonical, NonEmpty;
    var gaps, resolved := DayGaps(s.zone, s.rules, s.overrides, now, to), Resolve(s, now, to);
    FilterMembers(OffOverlapping(now, to), gaps);
    ExtensionLeaves(resolved, Some(until));
    RangeEnclosesRequest(s.zone, now, to);
    if ApplyExtension(resolved, Some(until)) != [] {
      var w :| w in resolved && until < w.onAt;
      DayGapEnds(s, now, to, w);
      forall t | to - 1 <= t <= until
        ensures ScheduleOff(s.zone, s.rules, s.overrides, t)
      {
        InsideWindowIsOff(s.zone, s.rules, s.overrides, now, to, w, t);
      }
    }
    if until < RangeEnd(s.zone, to) && forall t :: to - 1 <= t <= until ==> ScheduleOff(s.zone, s.rules, s.overrides, t) {
      forall t | to - 1 <= t <= until
        ensures InOff(gaps, t)
      {
        DayGapsExact(s.zone, s.rules, s.overrides, now, to, t);
      }
      OneGap(gaps, to - 1, until);
    }
  }

  lemma {:induction false} DayGapEnds(s: Schedule, now: Instant, to: Instant, w: OffWindow)
    requires w in DayGaps(s.zone, s.rules, s.overrides, now, to)
    ensures w.onAt <= RangeEnd(s.zone, to)
  {
    hide AllGaps, AllowedWindows;
    var rangeStart, rangeEnd := RangeStart(s.zone, now), RangeEnd(s.zone, to);
    GapsEndInRange(AllowedWindows(s.zone, s.rules, s.overrides, rangeStart, rangeEnd), rangeStart, rangeEnd);
  }

  /**
    With an extension that reaches past the two days looked ahead, another is granted exactly when it ends before the next
    local midnight after them and everything from just before their end to its own end is off. The gaps of the days looked
    at are to have allowed time between them, as they do where the clocks never change.
  */
  lemma {:induction false} ExtendGrantedBeyond(repo: Repository, d: DeviceState, minutes: int, checkedAt: Instant, now: Instant, resolvedAt: Instant)
    requires LawfulRepository(repo) && Consistent(d, checkedAt) && d.scheduleId.Some? && d.scheduleId.value in repo
    requires d.extensionUntil.Some? && resolvedAt + 172_800_000 <= d.extensionUntil.value
    requires var s := repo[d.scheduleId.value]; Canonical(DayGaps(s.zone, s.rules, s.overrides, resolvedAt, resolvedAt + 172_800_000))
    ensures var zone, to := repo[d.scheduleId.value].zone, resolvedAt + 172_800_000;
            Apply(repo, d, Extend(minutes, checkedAt, now, resolvedAt)).Done?
            <==> && !Overridden(d) && (d.holdUntil.Some? ==> d.holdUntil.value <= checkedAt)
                 && d.extensionUntil.value < zone.startOfDay(zone.dateOf(to) + 1)
                 && forall t :: to - 1 <= t <= d.extensionUntil.value ==> RowsSayOff(repo, d.scheduleId, t)
  {
    hide Resolve, ApplyExtension, ScheduleOff, DayGaps, Canonical;
    ExtendRefusals(repo, d, minutes, checkedAt, now, resolvedAt);
    var s, to := repo[d.scheduleId.value], resolvedAt + 172_800_000;
    LeftBeyond(s, d.extensionUntil.value, resolvedAt, to);
    forall t
      ensures RowsSayOff(repo, d.scheduleId, t) <==> ScheduleOff(s.zone, s.rules, s.overrides, t)
    {}
  }

  // ---------------------------------------------------------------- what the agent then does

  /** The agent's copy, fetched at any time after a run of operations, says off exactly when the device's settings do. */
  lemma {:induction false} AgentObeys(run: seq<Step>, last: Step, repo: Repository, holdRead: Instant, now: Instant, t: Instant)
    requires TimedRun(run + [last], holdRead) && LawfulRepository(repo)
    requires holdRead <= now <= t < HorizonAt(now) && t < FOREVER
    ensures AgentOff(DeviceScheduleFor(repo, AfterRun(run + [last]), holdRead, now), t)
       <==> Enforced(repo, Left(last.repo, AfterRun(run), last.op), t)
  {
    hide DeviceScheduleFor, HorizonAt, Enforced, LawfulRepository, TimedRun, Apply;
    EveryRunConsistent(run + [last], holdRead);
    FetchedScheduleExact(repo, AfterRun(run + [last]), holdRead, now, t);
    assert (run + [last])[..|run|] == run;
  }

  /**
    Main result: after a forced off with a grace of 0 to 240 minutes, whatever was done to the device before, its agent
    keeps it on until the grace is over and off from then on.
  */
  lemma {:induction false} ForcedOffReachesAgent(run: seq<Step>, last: Step, grace: int, at: Instant, repo: Repository,
                                                 holdRead: Instant, now: Instant, t: Instant)
    requires TimedRun(run + [last], holdRead) && LawfulRepository(repo) && last.op == PowerOff(grace, at) && 0 <= grace <= 240
    requires holdRead <= now <= t < HorizonAt(now) && t < FOREVER
    ensures AgentOff(DeviceScheduleFor(repo, AfterRun(run + [last]), holdRead, now), t) <==> at + grace * 60_000 <= t
  {
    hide DeviceScheduleFor, HorizonAt, LawfulRepository, TimedRun, Enforced, AfterRun, Left;
    AgentObeys(run, last, repo, holdRead, now, t);
    PowerOffExact(last.repo, AfterRun(run), grace, at, repo, t);
  }

  /** The same for a hold: on until its end, and then off for good or as the rows of the assigned schedule say. */
  lemma {:induction false} HoldReachesAgent(run: seq<Step>, last: Step, minutes: int, thenOff: bool, at: Instant, repo: Repository,
                                            holdRead: Instant, now: Instant, t: Instant)
    requires TimedRun(run + [last], holdRead) && LawfulRepository(repo) && last.op == HoldOn(minutes, thenOff, at) && 1 <= minutes <= 10_080
    requires holdRead <= now <= t < HorizonAt(now) && t < FOREVER
    ensures AgentOff(DeviceScheduleFor(repo, AfterRun(run + [last]), holdRead, now), t)
       <==> at + minutes * 60_000 <= t && (thenOff || RowsSayOff(repo, AfterRun(run).scheduleId, t))
  {
    hide DeviceScheduleFor, HorizonAt, LawfulRepository, TimedRun, Enforced, AfterRun, Left, RowsSayOff;
    AgentObeys(run, last, repo, holdRead, now, t);
    HoldOnExact(last.repo, AfterRun(run), minutes, thenOff, at, repo, t);
  }

  // ---------------------------------------------------------------- what is handed out and displayed

  /** The copy covers at least the next 27 days, and at most 28, up to the start of a UTC day. */
  lemma {:induction false} HorizonBounds(now: Instant)
    ensures now + 27 * 86_400_000 < HorizonAt(now) <= now + 28 * 86_400_000 && HorizonAt(now) % 86_400_000 == 0
  {}

  /** The action and time zone are those of the assigned schedule; without one, only a forced off
    is handed out, as a sleep in UTC. A forced off lasts to the last day of the year 9999. */
  lemma {:induction false} HandedOut(repo: Repository, d: DeviceState, holdRead: Instant, now: Instant)
    requires Consistent(d, holdRead)
    ensures var s := DeviceScheduleFor(repo, d, holdRead, now);
            && (s.Some? <==> Overridden(d) || (d.scheduleId.Some? && d.scheduleId.value in repo))
            && (s.Some? && d.scheduleId.Some? && d.scheduleId.value in repo ==>
                  s.value.action == repo[d.scheduleId.value].action && s.value.timezone == repo[d.scheduleId.value].timezone)
            && (s.Some? && (d.scheduleId.None? || d.scheduleId.value !in repo) ==> s.value.action == SLEEP && s.value.timezone == "UTC")
            && (s.Some? ==> s.value.revision == Revision(s.value.action, s.value.windows))
            && (d.powerMode == OFF ==> s.value.windows == [OffWindow(d.offFrom.value, 253_402_214_400_000)])
            && (d.holdThenOff ==> s.value.windows == [OffWindow(d.holdUntil.value, 253_402_214_400_000)])
  {
    hide ApplyExtension, Resolve;
  }

  /** A device nobody has changed yet is handed nothing and may be on at all times. */
  lemma {:induction false} NewDevice(repo: Repository, holdRead: Instant, now: Instant, t: Instant)
    ensures DeviceScheduleFor(repo, AfterRun([]), holdRead, now) == None && !Enforced(repo, AfterRun([]), t)
  {}

  /** The time displayed is when the displayed state ends, or began, and what is displayed of the end is what happens. */
  lemma {:induction false} DisplayedTimes(run: seq<Step>, repo: Repository, now: Instant, t: Instant)
    requires TimedRun(run, now) && now <= t
    ensures var d, status := AfterRun(run), PowerStatusOf(AfterRun(run), now);
            var off := Enforced(repo, d, t);
            match status.state
            case OFF_PENDING => status.at.Some? && now < status.at.value && (off <==> status.at.value <= t)
            case OFF_NOW => status.at.Some? && status.at.value <= now && off
            case HOLD =>
              && status.at.Some? && now < status.at.value
              && (off <==> status.at.value <= t && (status.thenOff || RowsSayOff(repo, d.scheduleId, t)))
            case HOLD_ENDED_OFF => status.at.Some? && status.at.value <= now && status.thenOff && off
            case SCHEDULE => status.at.None? && !status.thenOff && (off <==> RowsSayOff(repo, d.scheduleId, t) && NotBefore(d.extensionUntil, t))
  {
    hide RowsSayOff, AfterRun, TimedRun;
    EveryRunConsistent(run, now);
  }
}
