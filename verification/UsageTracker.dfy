/** Spans of actual use, derived from session and power notifications. */
module UsageTracker {
  import opened Lists

  type Instant = int
  type SessionId = nat

  datatype SessionEvent =
    | Logon(id: SessionId) | Logoff(id: SessionId)
    | Lock(id: SessionId) | Unlock(id: SessionId)
    | ConsoleConnect(id: SessionId) | ConsoleDisconnect(id: SessionId)
    | RemoteConnect(id: SessionId) | RemoteDisconnect(id: SessionId)
    | Suspend | Resume

  datatype EndReason = LOCK | LOGOFF | SUSPEND | CONSOLE_DISCONNECT | REMOTE_DISCONNECT | AGENT_RESTART | AGENT_SHUTDOWN
  datatype UsageSessionRecord = UsageSessionRecord(start: Instant, end: Instant, endReason: EndReason)
  datatype Transition = NoChange | Started(start: Instant) | Ended(record: UsageSessionRecord)

  /** `sessions` says of each known session whether it is visible. */
  datatype TrackerState = TrackerState(sessions: map<SessionId, bool>, suspended: bool, openSince: Option<Instant>)

  const NEW_TRACKER := TrackerState(map[], false, None)

  function ResumeOpenSession(startedAt: Instant): TrackerState {
    TrackerState(map[], false, Some(startedAt))
  }

  predicate AnyVisible(s: TrackerState) {
    !s.suspended && exists id :: id in s.sessions && s.sessions[id]
  }

  /** The sessions and power state after an event, before usage is recomputed. */
  function Observed(s: TrackerState, event: SessionEvent): TrackerState {
    match event
    case Logon(id) => s.(sessions := s.sessions[id := true])
    case Unlock(id) => s.(sessions := s.sessions[id := true])
    case ConsoleConnect(id) => s.(sessions := s.sessions[id := true])
    case RemoteConnect(id) => s.(sessions := s.sessions[id := true])
    case Lock(id) => s.(sessions := s.sessions[id := false])
    case ConsoleDisconnect(id) => s.(sessions := s.sessions[id := false])
    case RemoteDisconnect(id) => s.(sessions := s.sessions[id := false])
    case Logoff(id) => s.(sessions := s.sessions - {id})
    case Suspend => s.(suspended := true)
    case Resume => s.(suspended := false)
  }

  function ReasonFor(event: SessionEvent): Option<EndReason> {
    match event
    case Lock(_) => Some(LOCK)
    case ConsoleDisconnect(_) => Some(CONSOLE_DISCONNECT)
    case RemoteDisconnect(_) => Some(REMOTE_DISCONNECT)
    case Logoff(_) => Some(LOGOFF)
    case Suspend => Some(SUSPEND)
    case _ => None
  }

  function TransitionOf(s: TrackerState, at: Instant, reason: Option<EndReason>): Transition {
    if s.openSince.None? && AnyVisible(s) then Started(at)
    else if s.openSince.Some? && !AnyVisible(s) then
      Ended(UsageSessionRecord(s.openSince.value, at, if reason.Some? then reason.value else LOGOFF))
    else NoChange
  }

  function Recomputed(s: TrackerState, at: Instant): TrackerState {
    if s.openSince.None? && AnyVisible(s) then s.(openSince := Some(at))
    else if s.openSince.Some? && !AnyVisible(s) then s.(openSince := None)
    else s
  }

  function Applied(s: TrackerState, event: SessionEvent, at: Instant): TrackerState {
    Recomputed(Observed(s, event), at)
  }

  function AppliedTransition(s: TrackerState, event: SessionEvent, at: Instant): Transition {
    TransitionOf(Observed(s, event), at, ReasonFor(event))
  }

  class UsageTracker {
    var sessions: map<SessionId, bool>
    var suspended: bool
    var openSince: Option<Instant>

    function State(): TrackerState
      reads this
    {
      TrackerState(sessions, suspended, openSince)
    }

    constructor ()
      ensures State() == NEW_TRACKER
    {
      sessions, suspended, openSince := map[], false, None;
    }

    constructor Resumed(startedAt: Instant)
      ensures State() == ResumeOpenSession(startedAt)
    {
      sessions, suspended, openSince := map[], false, Some(startedAt);
    }

    method Apply(event: SessionEvent, at: Instant) returns (t: Transition)
      modifies this
      ensures State() == Applied(old(State()), event, at)
      ensures t == AppliedTransition(old(State()), event, at)
    {
      match event
      case Logon(id) =>
        sessions := sessions[id := true];
        t := Recompute(at, None);
      case Unlock(id) =>
        sessions := sessions[id := true];
        t := Recompute(at, None);
      case ConsoleConnect(id) =>
        sessions := sessions[id := true];
        t := Recompute(at, None);
      case RemoteConnect(id) =>
        sessions := sessions[id := true];
        t := Recompute(at, None);
      case Lock(id) =>
        SetVisible(id, false);
        t := Recompute(at, Some(LOCK));
      case ConsoleDisconnect(id) =>
        SetVisible(id, false);
        t := Recompute(at, Some(CONSOLE_DISCONNECT));
      case RemoteDisconnect(id) =>
        SetVisible(id, false);
        t := Recompute(at, Some(REMOTE_DISCONNECT));
      case Logoff(id) =>
        sessions := sessions - {id};
        t := Recompute(at, Some(LOGOFF));
      case Suspend =>
        suspended := true;
        t := Recompute(at, Some(SUSPEND));
      case Resume =>
        suspended := false;
        t := Recompute(at, None);
    }

    method SetVisible(id: SessionId, visible: bool)
      modifies this
      ensures State() == old(State()).(sessions := old(sessions)[id := visible])
    {
      sessions := sessions[id := visible];
    }

    method Recompute(at: Instant, endReasonIfClosing: Option<EndReason>) returns (t: Transition)
      modifies this
      ensures State() == Recomputed(old(State()), at)
      ensures t == TransitionOf(old(State()), at, endReasonIfClosing)
    {
      var shouldBeActive := !suspended && exists id :: id in sessions && sessions[id];
      if openSince.None? && shouldBeActive {
        openSince := Some(at);
        return Started(at);
      }
      if openSince.Some? && !shouldBeActive {
        var start := openSince.value;
        openSince := None;
        return Ended(UsageSessionRecord(start, at, if endReasonIfClosing.Some? then endReasonIfClosing.value else LOGOFF));
      }
      return NoChange;
    }

    method Close(at: Instant, reason: EndReason) returns (record: Option<UsageSessionRecord>)
      modifies this
      ensures State() == old(State()).(openSince := None)
      ensures record == if old(openSince).Some? then Some(UsageSessionRecord(old(openSince).value, at, reason)) else None
    {
      record := if openSince.Some? then Some(UsageSessionRecord(openSince.value, at, reason)) else None;
      openSince := None;
    }
  }

  // ---------------------------------------------------------------- use, said declaratively

  datatype Timed = Timed(event: SessionEvent, at: Instant)

  predicate Shows(event: SessionEvent, id: SessionId) {
    event == Logon(id) || event == Unlock(id) || event == ConsoleConnect(id) || event == RemoteConnect(id)
  }

  predicate Concerns(event: SessionEvent, id: SessionId) {
    !event.Suspend? && !event.Resume? && event.id == id
  }

  /** The latest of the first `n` events about the session shows it. */
  ghost predicate VisibleAfter(events: seq<Timed>, n: nat, id: SessionId)
    requires n <= |events|
  {
    exists j :: 0 <= j < n && Shows(events[j].event, id) && forall k :: j < k < n ==> !Concerns(events[k].event, id)
  }

  /** The latest of the first `n` events about power is a suspend. */
  ghost predicate SuspendedAfter(events: seq<Timed>, n: nat)
    requires n <= |events|
  {
    exists j :: 0 <= j < n && events[j].event == Suspend && forall k :: j < k < n ==> events[k].event != Resume
  }

  ghost predicate InUse(events: seq<Timed>, n: nat)
    requires n <= |events|
  {
    !SuspendedAfter(events, n) && exists id :: VisibleAfter(events, n, id)
  }

  ghost predicate TimeOrdered(events: seq<Timed>) {
    forall i, j :: 0 <= i < j < |events| ==> events[i].at <= events[j].at
  }

  /** How many events have happened by `t`. */
  function HappenedBy(events: seq<Timed>, t: Instant): (n: nat)
    ensures n <= |events|
  {
    if events == [] then 0
    else HappenedBy(events[..|events| - 1], t) + if events[|events| - 1].at <= t then 1 else 0
  }

  ghost predicate InUseAt(events: seq<Timed>, t: Instant) {
    InUse(events, HappenedBy(events, t))
  }

  // ---------------------------------------------------------------- what the tracker records

  function StateAfter(events: seq<Timed>): TrackerState {
    if events == [] then NEW_TRACKER
    else
      var last := events[|events| - 1];
      Applied(StateAfter(events[..|events| - 1]), last.event, last.at)
  }

  function RecordsAfter(events: seq<Timed>): seq<UsageSessionRecord> {
    if events == [] then []
    else
      var front, last := events[..|events| - 1], events[|events| - 1];
      var t := AppliedTransition(StateAfter(front), last.event, last.at);
      RecordsAfter(front) + if t.Ended? then [t.record] else []
  }

  ghost predicate Recorded(records: seq<UsageSessionRecord>, openSince: Option<Instant>, t: Instant) {
    || (exists i :: 0 <= i < |records| && records[i].start <= t < records[i].end)
    || (openSince.Some? && openSince.value <= t)
  }

  function TotalLength(records: seq<UsageSessionRecord>): int {
    if records == [] then 0
    else TotalLength(records[..|records| - 1]) + (records[|records| - 1].end - records[|records| - 1].start)
  }

  /** The number of instants in [from, until) at which the device is in use. */
  ghost function InstantsInUse(events: seq<Timed>, from: Instant, until: Instant): nat
    decreases until - from
  {
    if until <= from then 0
    else InstantsInUse(events, from, until - 1) + if InUseAt(events, until - 1) then 1 else 0
  }
}
