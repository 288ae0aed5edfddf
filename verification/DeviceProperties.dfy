/** What holds of a device over every run of administrator operations. */
module DeviceProperties {
  import opened Lists
  import opened ScheduleResolver
  import opened ScheduleMeaning
  import opened ScheduleCanonical
  import opened DeviceService

  // ---------------------------------------------------------------- what is to be enforced, said declaratively

  ghost predicate LawfulRepository(repo: Repository) {
    forall id :: id in repo ==> repo[id].zone.Lawful()
  }

  /** The rows and overrides of the assigned schedule say off. */
  ghost predicate RowsSayOff(repo: Repository, id: Option<ScheduleId>, t: Instant) {
    id.Some? && id.value in repo && ScheduleOff(repo[id.value].zone, repo[id.value].rules, repo[id.value].overrides, t)
  }

  ghost predicate NotBefore(bound: Option<Instant>, t: Instant) {
    bound.Some? ==> bound.value <= t
  }

  /** The device has to be off at `t`, if nobody changes its settings or schedule up to `t`. */
  ghost predicate Enforced(repo: Repository, d: DeviceState, t: Instant) {
    if d.powerMode == OFF then NotBefore(d.offFrom, t)
    else if d.holdThenOff then NotBefore(d.holdUntil, t)
    else RowsSayOff(repo, d.scheduleId, t) && NotBefore(d.holdUntil, t) && NotBefore(d.extensionUntil, t)
  }

  // ---------------------------------------------------------------- the invariant of every run

  ghost predicate Consistent(d: DeviceState, now: Instant) {
    && (d.powerMode == OFF ==> d.offFrom.Some? && d.holdUntil.None? && !d.holdThenOff && d.extensionUntil.None?)
    && (d.powerMode == ON ==> d.offFrom.None?)
    && (d.holdThenOff ==> d.holdUntil.Some? && d.extensionUntil.None?)
    && (d.holdUntil.Some? && d.holdUntil.value > now ==> d.extensionUntil.None?)
  }

  /** One operation on a device, with the time it took and the schedules stored then. */
  datatype Step = Step(began: Instant, ended: Instant, repo: Repository, op: Op) {
    /** The clock is read in order while the operation runs. */
    predicate Timed() {
      began <= ended
      && match op
         case PowerOff(_, now) => began <= now <= ended
         case HoldOn(_, _, now) => began <= now <= ended
         case Extend(_, checkedAt, now, resolvedAt) => began <= checkedAt <= now <= resolvedAt <= ended
         case _ => true
    }
  }

  /** Operations that follow one another, all over by `now`. */
  ghost predicate TimedRun(run: seq<Step>, now: Instant) {
    && (forall i :: 0 <= i < |run| ==> run[i].Timed() && run[i].ended <= now)
    && (forall i, j :: 0 <= i < j < |run| ==> run[i].ended <= run[j].began)
  }

  function AfterRun(run: seq<Step>): DeviceState {
    if run == [] then FRESH_DEVICE
    else
      var before, step := AfterRun(run[..|run| - 1]), run[|run| - 1];
      StateAfter(before, Apply(step.repo, before, step.op))
  }

  lemma {:induction false} StepKeepsConsistent(d: DeviceState, step: Step, now: Instant)
    requires Consistent(d, step.began) && step.Timed() && step.ended <= now
    ensures Consistent(StateAfter(d, Apply(step.repo, d, step.op)), now)
  {
    match step.op
    case Extend(minutes, checkedAt, _, _) =>
      // Granted only when no power override is in force, so a stored hold has already ended.
      assert PowerStatusOf(d, checkedAt).state == SCHEDULE ==> (d.holdUntil.Some? ==> d.holdUntil.value <= checkedAt);
    case _ =>
  }

  /** In every reachable state a hold still in force means no extension, and a forced off means neither. */
  lemma {:induction false} EveryRunConsistent(run: seq<Step>, now: Instant)
    requires TimedRun(run, now)
    ensures Consistent(AfterRun(run), now)
  {
    if run != [] {
      var before, step := run[..|run| - 1], run[|run| - 1];
      assert forall i :: 0 <= i < |before| ==> before[i] == run[i];
      EveryRunConsistent(before, step.began);
      StepKeepsConsistent(AfterRun(before), step, now);
    }
  }

  // ---------------------------------------------------------------- the agent's copy

  lemma {:induction false} DelayAllMembers(ws: seq<OffWindow>, until: Instant, t: Instant)
    requires forall w :: w in ws ==> w.onAt > until
    ensures InOff(DelayAll(ws, until), t) <==> until <= t && InOff(ws, t)
  {
    if ws != [] {
      var front, w := ws[..|ws| - 1], ws[|ws| - 1];
      assert ws == front + [w];
      DelayAllMembers(front, until, t);
      InOffConcat(DelayAll(front, until), [Delay(w, until)], t);
      InOffConcat(front, [w], t);
      InOffSingle(w, t);
      InOffSingle(Delay(w, until), t);
    }
  }

  lemma {:induction false} EndingAfterCovers(ws: seq<OffWindow>, until: Instant, t: Instant)
    requires until <= t
    ensures InOff(Filter(EndingAfter(until), ws), t) <==> InOff(ws, t)
  {
    var f := Filter(EndingAfter(until), ws);
    FilterMembers(EndingAfter(until), ws);
    if InOff(f, t) {
      var i :| 0 <= i < |f| && f[i].offAt <= t < f[i].onAt;
      assert f[i] in ws;
    }
    if InOff(ws, t) {
      var i :| 0 <= i < |ws| && ws[i].offAt <= t < ws[i].onAt;
      assert ws[i] in f;
    }
  }

  /** An extension removes exactly the off time before it. */
  lemma {:induction false} ExtensionExact(ws: seq<OffWindow>, until: Option<Instant>, t: Instant)
    ensures InOff(ApplyExtension(ws, until), t) <==> InOff(ws, t) && NotBefore(until, t)
  {
    if until.Some? {
      FilterMembers(EndingAfter(until.value), ws);
      DelayAllMembers(Filter(EndingAfter(until.value), ws), until.value, t);
      if until.value <= t {
        EndingAfterCovers(ws, until.value, t);
      }
    }
  }

  lemma {:induction false} ScheduleForExact(repo: Repository, id: Option<ScheduleId>, until: Option<Instant>, now: Instant, t: Instant)
    requires LawfulRepository(repo)
    requires now <= t < HorizonAt(now)
    ensures AgentOff(ScheduleFor(repo, id, until, now), t) <==> RowsSayOff(repo, id, t) && NotBefore(until, t)
  {
    if id.Some? && id.value in repo {
      var schedule := repo[id.value];
      OffWindowsExact(schedule.zone, schedule.rules, schedule.overrides, now, HorizonAt(now), t);
      ExtensionExact(Resolve(schedule, now, HorizonAt(now)), until, t);
    }
  }

  lemma {:induction false} ForcedOffExact(repo: Repository, id: Option<ScheduleId>, from: Instant, t: Instant)
    requires t < FOREVER
    ensures AgentOff(Some(ForcedOff(repo, id, from)), t) <==> from <= t
  {
    InOffSingle(OffWindow(from, FOREVER), t);
  }

  /**
    What an agent was handed says off, at any later instant within its horizon, exactly when the device's
    settings and schedule call for it.
  */
  lemma {:induction false} FetchedScheduleExact(repo: Repository, d: DeviceState, holdRead: Instant, now: Instant, t: Instant)
    requires LawfulRepository(repo) && Consistent(d, holdRead)
    requires holdRead <= now <= t < HorizonAt(now) && t < FOREVER
    ensures AgentOff(DeviceScheduleFor(repo, d, holdRead, now), t) <==> Enforced(repo, d, t)
  {
    if d.powerMode == OFF {
      ForcedOffExact(repo, d.scheduleId, d.offFrom.value, t);
    } else if d.holdThenOff {
      ForcedOffExact(repo, d.scheduleId, d.holdUntil.value, t);
    } else {
      var until := if d.holdUntil.Some? && d.holdUntil.value > holdRead then d.holdUntil else d.extensionUntil;
      ScheduleForExact(repo, d.scheduleId, until, now, t);
    }
  }

  /**
    Main result: the agent's cached copy stays right. In every device state reachable by administrator
    operations, the copy fetched at `now` answers every later instant of its horizon as the schedule the
    controller would build at that instant does, although the hold in force may end in between.
  */
  lemma {:induction false} CachedCopyStaysRight(run: seq<Step>, repo: Repository, holdRead: Instant, now: Instant, t: Instant)
    requires TimedRun(run, holdRead) && LawfulRepository(repo)
    requires holdRead <= now <= t < HorizonAt(now) && t < FOREVER
    ensures AgentOff(DeviceScheduleFor(repo, AfterRun(run), holdRead, now), t)
         <==> AgentOff(DeviceScheduleFor(repo, AfterRun(run), t, t), t)
  {
    EveryRunConsistent(run, holdRead);
    EveryRunConsistent(run, t);
    FetchedScheduleExact(repo, AfterRun(run), holdRead, now, t);
    FetchedScheduleExact(repo, AfterRun(run), t, t, t);
  }

  /** The displayed power state agrees with what is enforced, in every reachable device state. */
  lemma {:induction false} DisplayedStateAgrees(run: seq<Step>, repo: Repository, now: Instant)
    requires TimedRun(run, now) && LawfulRepository(repo) && now < FOREVER
    ensures var d := AfterRun(run);
            var off := AgentOff(DeviceScheduleFor(repo, d, now, now), now);
            match PowerStatusOf(d, now).state
            case OFF_NOW => off
            case HOLD_ENDED_OFF => off
            case OFF_PENDING => !off
            case HOLD => !off
            case SCHEDULE => off <==> RowsSayOff(repo, d.scheduleId, now) && NotBefore(d.extensionUntil, now)
  {
    EveryRunConsistent(run, now);
    FetchedScheduleExact(repo, AfterRun(run), now, now, now);
  }

  // ---------------------------------------------------------------- extending

  lemma {:induction false} DelayAllAt(ws: seq<OffWindow>, until: Instant, i: int)
    requires 0 <= i < |ws|
    ensures DelayAll(ws, until)[i] == Delay(ws[i], until)
  {
    if i < |ws| - 1 {
      DelayAllAt(ws[..|ws| - 1], until, i);
    }
  }

  lemma {:induction false} DelayingKeepsOrder(ws: seq<OffWindow>, until: Instant)
    requires NonEmpty(ws) && StartsInOrder(ws)
    requires forall w :: w in ws ==> until < w.onAt
    ensures NonEmpty(DelayAll(ws, until)) && StartsInOrder(DelayAll(ws, until))
    ensures forall w :: w in DelayAll(ws, until) ==> until <= w.offAt && exists v :: v in ws && w == Delay(v, until)
  {
    var r := DelayAll(ws, until);
    forall i | 0 <= i < |r|
      ensures r[i] == Delay(ws[i], until) && until < ws[i].onAt
    {
      DelayAllAt(ws, until, i);
      assert ws[i] in ws;
    }
  }

  lemma {:induction false} EndingAfterKeepsOrder(ws: seq<OffWindow>, until: Instant)
    requires NonEmpty(ws) && StartsInOrder(ws)
    ensures NonEmpty(Filter(EndingAfter(until), ws)) && StartsInOrder(Filter(EndingAfter(until), ws))
  {
    var f := Filter(EndingAfter(until), ws);
    FilterMembers(EndingAfter(until), ws);
    var rel := (a: OffWindow, b: OffWindow) => a.offAt <= b.offAt;
    FilterKeepsOrder(EndingAfter(until), ws, rel);
    forall i, j | 0 <= i < j < |f|
      ensures f[i].offAt <= f[j].offAt
    {
      assert rel(f[i], f[j]);
    }
    forall i | 0 <= i < |f|
      ensures f[i].offAt < f[i].onAt
    {
      assert f[i] in f;
    }
  }

  lemma {:induction false} ExtensionKeepsOrder(ws: seq<OffWindow>, until: Option<Instant>)
    requires NonEmpty(ws) && StartsInOrder(ws)
    ensures NonEmpty(ApplyExtension(ws, until)) && StartsInOrder(ApplyExtension(ws, until))
    ensures forall w :: w in ApplyExtension(ws, until)
                    ==> NotBefore(until, w.offAt)
                        && exists v :: v in ws && v.onAt == w.onAt && (v.offAt == w.offAt || until == Some(w.offAt))
  {
    if until.Some? {
      FilterMembers(EndingAfter(until.value), ws);
      EndingAfterKeepsOrder(ws, until.value);
      DelayingKeepsOrder(Filter(EndingAfter(until.value), ws), until.value);
    }
  }

  /** An off window already resolved is off all the way, even past the end of the range asked for. */
  lemma {:induction false} InsideWindowIsOff(zone: Zone, rules: seq<ScheduleRule>, overrides: seq<ScheduleOverride>,
                          from: Instant, to: Instant, w: OffWindow, t: Instant)
    requires zone.Lawful() && w in OffWindows(zone, rules, overrides, from, to)
    requires from <= t && w.offAt <= t < w.onAt
    ensures ScheduleOff(zone, rules, overrides, t)
  {
    hide AllGaps, Filter, ScheduleOff;
    OffWindowsOrdered(zone, rules, overrides, from, to);
    RangeEnclosesRequest(zone, from, to);
    var gaps := DayGaps(zone, rules, overrides, from, to);
    var i :| 0 <= i < |gaps| && gaps[i] == w;
    assert InOff(gaps, t);
    DayGapsExact(zone, rules, overrides, from, to, t);
  }

  ghost predicate Granted(repo: Repository, d: DeviceState, d': DeviceState, minutes: int,
                          checkedAt: Instant, now: Instant, resolvedAt: Instant)
  {
    && LawfulRepository(repo) && Consistent(d, checkedAt) && checkedAt <= now <= resolvedAt
    && Apply(repo, d, Extend(minutes, checkedAt, now, resolvedAt)) == Done(d')
  }

  /** The first effective window contains every instant between its start and its end that has been reached. */
  lemma {:induction false} FirstEffectiveIsOff(schedule: Schedule, until: Option<Instant>, now: Instant, ahead: int, t: Instant)
    requires schedule.zone.Lawful() && EffectiveWindows(schedule, until, now, ahead) != []
    requires now <= t
    requires var w := EffectiveWindows(schedule, until, now, ahead)[0]; w.offAt <= t < w.onAt
    ensures ScheduleOff(schedule.zone, schedule.rules, schedule.overrides, t) && NotBefore(until, t)
  {
    hide OffWindows, ApplyExtension, ScheduleOff;
    var resolved := Resolve(schedule, now, now + ahead);
    assert InOff(ApplyExtension(resolved, until), t);
    ExtensionExact(resolved, until, t);
    var i :| 0 <= i < |resolved| && resolved[i].offAt <= t < resolved[i].onAt;
    InsideWindowIsOff(schedule.zone, schedule.rules, schedule.overrides, now, now + ahead, resolved[i], t);
  }

  /** What is known of delayed windows: each starts no earlier than the first one and not before the extension. */
  lemma {:induction false} FirstDelayedLeads(resolved: seq<OffWindow>, until: Option<Instant>, now: Instant, to: Instant)
    requires NonEmpty(resolved) && StartsInOrder(resolved)
    requires forall w :: w in resolved ==> now < w.onAt && w.offAt < to
    requires ApplyExtension(resolved, until) != []
    ensures var ws := ApplyExtension(resolved, until);
            && now < ws[0].onAt && ws[0].offAt < ws[0].onAt && NotBefore(until, ws[0].offAt)
            && (ws[0].offAt < to || until == Some(ws[0].offAt))
            && forall i :: 0 <= i < |ws| ==> ws[0].offAt <= ws[i].offAt
  {
    ExtensionKeepsOrder(resolved, until);
    assert ApplyExtension(resolved, until)[0] in ApplyExtension(resolved, until);
  }

  lemma {:induction false} FirstEffectiveLeads(schedule: Schedule, until: Option<Instant>, now: Instant, ahead: int)
    requires EffectiveWindows(schedule, until, now, ahead) != []
    ensures var ws := EffectiveWindows(schedule, until, now, ahead);
            && now < ws[0].onAt && ws[0].offAt < ws[0].onAt && NotBefore(until, ws[0].offAt)
            && (ws[0].offAt < now + ahead || until == Some(ws[0].offAt))
            && forall i :: 0 <= i < |ws| ==> ws[0].offAt <= ws[i].offAt
  {
    hide DayGaps, Filter;
    OffWindowsOrdered(schedule.zone, schedule.rules, schedule.overrides, now, now + ahead);
    FirstDelayedLeads(Resolve(schedule, now, now + ahead), until, now, now + ahead);
  }

  lemma {:induction false} NotInBeforeFirst(ws: seq<OffWindow>, t: Instant)
    requires ws != [] && t < ws[0].offAt && forall i :: 0 <= i < |ws| ==> ws[0].offAt <= ws[i].offAt
    ensures !InOff(ws, t)
  {}

  lemma {:induction false} NothingOffBeforeFirst(schedule: Schedule, until: Option<Instant>, now: Instant, ahead: int, t: Instant)
    requires schedule.zone.Lawful() && EffectiveWindows(schedule, until, now, ahead) != []
    requires now <= t < EffectiveWindows(schedule, until, now, ahead)[0].offAt
    ensures !(ScheduleOff(schedule.zone, schedule.rules, schedule.overrides, t) && NotBefore(until, t))
  {
    hide OffWindows, Filter, DelayAll, ScheduleOff;
    FirstEffectiveLeads(schedule, until, now, ahead);
    if t < now + ahead {
      OffWindowsExact(schedule.zone, schedule.rules, schedule.overrides, now, now + ahead, t);
      ExtensionExact(Resolve(schedule, now, now + ahead), until, t);
      NotInBeforeFirst(EffectiveWindows(schedule, until, now, ahead), t);
    }
  }

  /**
    Extending works and adds up. A granted extension by `minutes` counts from some base, which is neither before
    `now` nor before the extension already given, and which is the first instant the device would have been off.
    Afterwards it is off exactly when its rows say so from base + minutes on.
  */
  lemma {:induction false} ExtendAddsUp(repo: Repository, d: DeviceState, d': DeviceState, minutes: int,
                     checkedAt: Instant, now: Instant, resolvedAt: Instant)
    requires Granted(repo, d, d', minutes, checkedAt, now, resolvedAt)
    ensures d'.extensionUntil.Some? && d' == d.(extensionUntil := d'.extensionUntil)
    ensures var base := d'.extensionUntil.value - minutes * MINUTE;
            && now <= base && NotBefore(d.extensionUntil, base)
            && (forall t :: resolvedAt <= t < base ==> !Enforced(repo, d, t))
            && Enforced(repo, d, if base < resolvedAt then resolvedAt else base)
            && forall t :: resolvedAt <= t ==> (Enforced(repo, d', t) <==> base + minutes * MINUTE <= t && RowsSayOff(repo, d.scheduleId, t))
  {
    hide OffWindows, ApplyExtension, ScheduleOff;
    var schedule := repo[d.scheduleId.value];
    var base := d'.extensionUntil.value - minutes * MINUTE;
    FirstEffectiveLeads(schedule, d.extensionUntil, resolvedAt, EXTEND_AHEAD);
    FirstEffectiveIsOff(schedule, d.extensionUntil, resolvedAt, EXTEND_AHEAD, if base < resolvedAt then resolvedAt else base);
    forall t | resolvedAt <= t < base
      ensures !Enforced(repo, d, t)
    {
      NothingOffBeforeFirst(schedule, d.extensionUntil, resolvedAt, EXTEND_AHEAD, t);
    }
  }
}
