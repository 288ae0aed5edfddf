/** The schedule an agent is handed (rows, extension, hold or forced off) and the administrator operations on a device. */
module DeviceService {
  import opened Lists
  import opened ScheduleResolver
  import opened ScheduleCanonical

  const AGENT_HORIZON := 28 * DAY_MS
  /** 9999-12-31T00:00:00Z, where an endless off window stops. */
  const FOREVER := 253_402_214_400_000
  const MAX_HOLD_MINUTES := 7 * 24 * 60
  const MAX_GRACE_MINUTES := 240
  const EXTEND_AHEAD := 2 * DAY_MS

  datatype ScheduleAction = SLEEP | SHUTDOWN
  datatype Schedule = Schedule(zone: Zone, timezone: string, action: ScheduleAction,
                               rules: seq<ScheduleRule>, overrides: seq<ScheduleOverride>)
  type ScheduleId = nat
  type Repository = map<ScheduleId, Schedule>

  /** A hash of the action and the windows, taken to be injective. */
  datatype Revision = Revision(action: ScheduleAction, windows: seq<OffWindow>)
  datatype AgentSchedule =
    AgentSchedule(revision: Revision, action: ScheduleAction, timezone: string, windows: seq<OffWindow>)

  // ---------------------------------------------------------------- ScheduleService

  function Resolve(schedule: Schedule, from: Instant, to: Instant): seq<OffWindow> {
    OffWindows(schedule.zone, schedule.rules, schedule.overrides, from, to)
  }

  function Delay(w: OffWindow, extensionUntil: Instant): OffWindow {
    if w.offAt < extensionUntil then OffWindow(extensionUntil, w.onAt) else w
  }

  function DelayAll(windows: seq<OffWindow>, extensionUntil: Instant): (r: seq<OffWindow>)
    ensures |r| == |windows|
  {
    if windows == [] then []
    else DelayAll(windows[..|windows| - 1], extensionUntil) + [Delay(windows[|windows| - 1], extensionUntil)]
  }

  function ApplyExtension(windows: seq<OffWindow>, extensionUntil: Option<Instant>): seq<OffWindow> {
    if extensionUntil.None? then windows
    else DelayAll(Filter(EndingAfter(extensionUntil.value), windows), extensionUntil.value)
  }

  /** The UTC day of `now`, plus the horizon. */
  function HorizonAt(now: Instant): Instant {
    now / DAY_MS * DAY_MS + AGENT_HORIZON
  }

  function ScheduleFor(repo: Repository, id: Option<ScheduleId>, extensionUntil: Option<Instant>, now: Instant): Option<AgentSchedule> {
    if id.None? || id.value !in repo then None
    else
      var schedule := repo[id.value];
      var windows := ApplyExtension(Resolve(schedule, now, HorizonAt(now)), extensionUntil);
      Some(AgentSchedule(Revision(schedule.action, windows), schedule.action, schedule.timezone, windows))
  }

  function ForcedOff(repo: Repository, id: Option<ScheduleId>, from: Instant): AgentSchedule {
    var known := id.Some? && id.value in repo;
    var action := if known then repo[id.value].action else SLEEP;
    var windows := [OffWindow(from, FOREVER)];
    AgentSchedule(Revision(action, windows), action, if known then repo[id.value].timezone else "UTC", windows)
  }

  function EffectiveWindows(schedule: Schedule, extensionUntil: Option<Instant>, now: Instant, ahead: int): seq<OffWindow> {
    ApplyExtension(Resolve(schedule, now, now + ahead), extensionUntil)
  }

  // ---------------------------------------------------------------- a device's power settings

  datatype PowerMode = ON | OFF
  datatype DeviceState = DeviceState(powerMode: PowerMode, offFrom: Option<Instant>, holdUntil: Option<Instant>,
                                     holdThenOff: bool, scheduleId: Option<ScheduleId>, extensionUntil: Option<Instant>)

  const FRESH_DEVICE := DeviceState(ON, None, None, false, None, None)

  /** What the device is told to enforce. The clock is read for the hold, and again when the rows are resolved. */
  function DeviceScheduleFor(repo: Repository, d: DeviceState, holdRead: Instant, now: Instant): Option<AgentSchedule> {
    if d.powerMode == OFF && d.offFrom.Some? then Some(ForcedOff(repo, d.scheduleId, d.offFrom.value))
    else if d.holdUntil.Some? && d.holdThenOff then Some(ForcedOff(repo, d.scheduleId, d.holdUntil.value))
    else
      var until := if d.holdUntil.Some? && d.holdUntil.value > holdRead then d.holdUntil else d.extensionUntil;
      ScheduleFor(repo, d.scheduleId, until, now)
  }

  datatype PowerState = SCHEDULE | OFF_PENDING | OFF_NOW | HOLD | HOLD_ENDED_OFF
  datatype PowerStatus = PowerStatus(state: PowerState, at: Option<Instant>, thenOff: bool)

  function PowerStatusOf(d: DeviceState, now: Instant): PowerStatus {
    if d.powerMode == OFF && d.offFrom.Some? then
      PowerStatus(if d.offFrom.value > now then OFF_PENDING else OFF_NOW, d.offFrom, false)
    else if d.holdUntil.Some? && d.holdUntil.value > now then PowerStatus(HOLD, d.holdUntil, d.holdThenOff)
    else if d.holdUntil.Some? && d.holdThenOff then PowerStatus(HOLD_ENDED_OFF, d.holdUntil, true)
    else PowerStatus(SCHEDULE, None, false)
  }

  datatype ApiError = INVALID_GRACE | INVALID_HOLD | POWER_OVERRIDE | NO_SCHEDULE | SCHEDULE_NOT_FOUND | NO_OFF_WINDOW
  datatype Outcome = Done(device: DeviceState) | Refused(error: ApiError)

  /** The administrator operations, each with the clock readings it takes, in order. */
  datatype Op =
    | PowerOn
    | PowerOff(graceMinutes: int, now: Instant)
    | HoldOn(minutes: int, thenOff: bool, now: Instant)
    | Extend(minutes: int, checkedAt: Instant, now: Instant, resolvedAt: Instant)
    | ClearExtension
    | AssignSchedule(id: Option<ScheduleId>)

  function PowerCleared(d: DeviceState): DeviceState {
    d.(powerMode := ON, offFrom := None, holdUntil := None, holdThenOff := false)
  }

  function ExtendOutcome(repo: Repository, d: DeviceState, minutes: int, checkedAt: Instant, now: Instant, resolvedAt: Instant): Outcome {
    if PowerStatusOf(d, checkedAt).state != SCHEDULE then Refused(POWER_OVERRIDE)
    else if d.scheduleId.None? then Refused(NO_SCHEDULE)
    else if d.scheduleId.value !in repo then Refused(SCHEDULE_NOT_FOUND)
    else
      var windows := EffectiveWindows(repo[d.scheduleId.value], d.extensionUntil, resolvedAt, EXTEND_AHEAD);
      if windows == [] then Refused(NO_OFF_WINDOW)
      else
        var base := if windows[0].offAt < now then now else windows[0].offAt;
        Done(d.(extensionUntil := Some(base + minutes * MINUTE)))
  }

  function Apply(repo: Repository, d: DeviceState, op: Op): Outcome {
    match op
    case PowerOn => Done(PowerCleared(d))
    case PowerOff(grace, now) =>
      if grace < 0 || grace > MAX_GRACE_MINUTES then Refused(INVALID_GRACE)
      else Done(PowerCleared(d).(extensionUntil := None, powerMode := OFF, offFrom := Some(now + grace * MINUTE)))
    case HoldOn(minutes, thenOff, now) =>
      if minutes < 1 || minutes > MAX_HOLD_MINUTES then Refused(INVALID_HOLD)
      else Done(PowerCleared(d).(extensionUntil := None, holdUntil := Some(now + minutes * MINUTE), holdThenOff := thenOff))
    case Extend(minutes, checkedAt, now, resolvedAt) => ExtendOutcome(repo, d, minutes, checkedAt, now, resolvedAt)
    case ClearExtension => Done(d.(extensionUntil := None))
    case AssignSchedule(id) =>
      if id.Some? && id.value !in repo then Refused(SCHEDULE_NOT_FOUND)
      else Done(d.(scheduleId := id, extensionUntil := None))
  }

  function StateAfter(d: DeviceState, outcome: Outcome): DeviceState {
    if outcome.Done? then outcome.device else d
  }

  /** A stored device; each operation sets its fields and saves it. */
  class Device {
    var powerMode: PowerMode
    var offFrom: Option<Instant>
    var holdUntil: Option<Instant>
    var holdThenOff: bool
    var scheduleId: Option<ScheduleId>
    var extensionUntil: Option<Instant>

    function State(): DeviceState
      reads this
    {
      DeviceState(powerMode, offFrom, holdUntil, holdThenOff, scheduleId, extensionUntil)
    }

    constructor ()
      ensures State() == FRESH_DEVICE
    {
      powerMode, offFrom, holdUntil, holdThenOff := ON, None, None, false;
      scheduleId, extensionUntil := None, None;
    }

    method ClearPower()
      modifies this
      ensures State() == PowerCleared(old(State()))
    {
      powerMode := ON;
      offFrom := None;
      holdUntil := None;
      holdThenOff := false;
    }

    method PowerOn(ghost repo: Repository)
      modifies this
      ensures State() == StateAfter(old(State()), Apply(repo, old(State()), Op.PowerOn))
    {
      ClearPower();
    }

    method PowerOff(graceMinutes: int, now: Instant, ghost repo: Repository) returns (error: Option<ApiError>)
      modifies this
      ensures var outcome := Apply(repo, old(State()), Op.PowerOff(graceMinutes, now));
              State() == StateAfter(old(State()), outcome) && error == if outcome.Refused? then Some(outcome.error) else None
    {
      if graceMinutes < 0 || graceMinutes > MAX_GRACE_MINUTES {
        return Some(INVALID_GRACE);
      }
      ClearPower();
      extensionUntil := None;
      powerMode := OFF;
      offFrom := Some(now + graceMinutes * MINUTE);
      return None;
    }

    method HoldOn(minutes: int, thenOff: bool, now: Instant, ghost repo: Repository) returns (error: Option<ApiError>)
      modifies this
      ensures var outcome := Apply(repo, old(State()), Op.HoldOn(minutes, thenOff, now));
              State() == StateAfter(old(State()), outcome) && error == if outcome.Refused? then Some(outcome.error) else None
    {
      if minutes < 1 || minutes > MAX_HOLD_MINUTES {
        return Some(INVALID_HOLD);
      }
      ClearPower();
      extensionUntil := None;
      holdUntil := Some(now + minutes * MINUTE);
      holdThenOff := thenOff;
      return None;
    }

    method Extend(repo: Repository, minutes: int, checkedAt: Instant, now: Instant, resolvedAt: Instant)
      returns (error: Option<ApiError>)
      modifies this
      ensures var outcome := Apply(repo, old(State()), Op.Extend(minutes, checkedAt, now, resolvedAt));
              State() == StateAfter(old(State()), outcome) && error == if outcome.Refused? then Some(outcome.error) else None
    {
      hide OffWindows, ApplyExtension;
      if PowerStatusOf(State(), checkedAt).state != SCHEDULE {
        return Some(POWER_OVERRIDE);
      }
      if scheduleId.None? {
        return Some(NO_SCHEDULE);
      }
      if scheduleId.value !in repo {
        return Some(SCHEDULE_NOT_FOUND);
      }
      var schedule := repo[scheduleId.value];
      var resolved := ResolveOff(schedule.zone, schedule.rules, schedule.overrides, resolvedAt, resolvedAt + EXTEND_AHEAD);
      var windows := ApplyExtension(resolved, extensionUntil);
      if windows == [] {
        return Some(NO_OFF_WINDOW);
      }
      var base := if windows[0].offAt < now then now else windows[0].offAt;
      extensionUntil := Some(base + minutes * MINUTE);
      return None;
    }

    method ClearExtension(ghost repo: Repository)
      modifies this
      ensures State() == StateAfter(old(State()), Apply(repo, old(State()), Op.ClearExtension))
    {
      extensionUntil := None;
    }

    method AssignSchedule(repo: Repository, id: Option<ScheduleId>) returns (error: Option<ApiError>)
      modifies this
      ensures var outcome := Apply(repo, old(State()), Op.AssignSchedule(id));
              State() == StateAfter(old(State()), outcome) && error == if outcome.Refused? then Some(outcome.error) else None
    {
      if id.Some? && id.value !in repo {
        return Some(SCHEDULE_NOT_FOUND);
      }
      scheduleId := id;
      extensionUntil := None;
      return None;
    }
  }

  // ---------------------------------------------------------------- the agent's side

  /** The first window that contains `now`. */
  function ActiveWindow(windows: seq<OffWindow>, now: Instant): (r: Option<OffWindow>)
    ensures r.Some? <==> InOff(windows, now)
    ensures r.Some? ==> r.value in windows && r.value.offAt <= now < r.value.onAt
  {
    if windows == [] then None
    else if windows[0].offAt <= now < windows[0].onAt then Some(windows[0])
    else
      assert forall i :: 1 <= i < |windows| ==> windows[i] == windows[1..][i - 1];
      ActiveWindow(windows[1..], now)
  }

  /** The earliest start after `now`. */
  function NextOffAt(windows: seq<OffWindow>, now: Instant): (r: Option<Instant>)
    ensures r.Some? ==> r.value > now && exists w :: w in windows && w.offAt == r.value
    ensures forall w :: w in windows && w.offAt > now ==> r.Some? && r.value <= w.offAt
  {
    if windows == [] then None
    else
      var rest := NextOffAt(windows[1..], now);
      var first := windows[0].offAt;
      if first > now && (rest.None? || first <= rest.value) then
        assert windows[0] in windows;
        Some(first)
      else
        rest
  }

  predicate AgentOff(schedule: Option<AgentSchedule>, t: Instant) {
    schedule.Some? && ActiveWindow(schedule.value.windows, t).Some?
  }

  /** An agent outside every window may sleep until the next start: it stays outside until then. */
  lemma {:induction false} NothingBeforeNextOff(windows: seq<OffWindow>, now: Instant, t: Instant)
    requires ActiveWindow(windows, now).None? && now <= t
    requires NextOffAt(windows, now).Some? ==> t < NextOffAt(windows, now).value
    ensures ActiveWindow(windows, t).None?
  {
    forall i | 0 <= i < |windows|
      ensures !(windows[i].offAt <= t < windows[i].onAt)
    {
      assert windows[i] in windows;
      assert windows[i].offAt > now || windows[i].onAt <= now;
    }
  }
}
