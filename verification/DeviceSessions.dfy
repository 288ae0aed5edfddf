/** Active-use sessions reconstructed from the event log. Times are milliseconds. */
module DeviceSessions {
  import opened Lists

  type Instant = int

  const MAX_SESSION_GAP := 3 * 60_000

  datatype EventType =
    | USER_LOGON | USER_UNLOCK | USER_LOGOFF | USER_LOCK | AGENT_STOPPING | SYSTEM_SHUTDOWN | SYSTEM_SUSPEND | HEARTBEAT_SENT
  datatype DeviceEvent = DeviceEvent(eventType: EventType, occurredAt: Instant, username: string)

  datatype EndReason = DISAPPEARED | LOGGED_OUT | LOCKED | STOPPED | SUSPENDED
  datatype Session = Session(username: string, start: Instant, end: Option<Instant>, reason: Option<EndReason>, durationSeconds: nat)

  predicate ExceedsGap(from: Instant, to: Instant) {
    to - from > MAX_SESSION_GAP
  }

  /** Whole seconds of the clock between two instants, at least none. */
  function DurationSeconds(start: Instant, end: Instant): nat {
    var d := end / 1000 - start / 1000;
    if d < 0 then 0 else d
  }

  function ClosedSession(username: string, start: Instant, end: Instant, reason: EndReason): Session {
    Session(username, start, Some(end), Some(reason), DurationSeconds(start, end))
  }

  function OpenSession(username: string, start: Instant, now: Instant): Session {
    Session(username, start, None, None, DurationSeconds(start, now))
  }

  // ---------------------------------------------------------------- sessions, said declaratively

  predicate Opens(e: DeviceEvent) {
    e.eventType == USER_LOGON || e.eventType == USER_UNLOCK
  }

  predicate Closes(e: DeviceEvent) {
    !Opens(e) && e.eventType != HEARTBEAT_SENT
  }

  function ReasonOf(t: EventType): EndReason {
    match t
    case USER_LOGOFF => LOGGED_OUT
    case USER_LOCK => LOCKED
    case AGENT_STOPPING => STOPPED
    case SYSTEM_SHUTDOWN => STOPPED
    case SYSTEM_SUSPEND => SUSPENDED
    case _ => DISAPPEARED
  }

  /** Event `j` ends whatever session is open: any event but a heartbeat, or one that follows too long a silence. */
  predicate Terminates(events: seq<DeviceEvent>, j: nat)
    requires 0 < j < |events|
  {
    events[j].eventType != HEARTBEAT_SENT || ExceedsGap(events[j - 1].occurredAt, events[j].occurredAt)
  }

  /** The first event from `j` on that terminates, or the end of the log. */
  function EndIndex(events: seq<DeviceEvent>, j: nat): (e: nat)
    requires 0 < j <= |events|
    ensures j <= e <= |events|
    ensures forall k :: j <= k < e ==> !Terminates(events, k)
    ensures e < |events| ==> Terminates(events, e)
    decreases |events| - j
  {
    if j == |events| || Terminates(events, j) then j else EndIndex(events, j + 1)
  }

  /**
    The session opened by event `i`. It ends at the first closing event, at the last event before a new logon or
    unlock, or at the last event before too long a silence, whichever comes first; failing all of these it is
    ongoing if the device is online and was heard of recently. The clock is read for that, and again for how long an
    ongoing session has lasted.
  */
  function SessionAt(events: seq<DeviceEvent>, i: nat, online: bool, checkedAt: Instant, now: Instant): Session
    requires i < |events|
  {
    var e := EndIndex(events, i + 1);
    var lastSeen := events[e - 1].occurredAt;
    if e < |events| && Closes(events[e]) then
      ClosedSession(events[i].username, events[i].occurredAt, events[e].occurredAt, ReasonOf(events[e].eventType))
    else if e == |events| && online && !ExceedsGap(lastSeen, checkedAt) then
      OpenSession(events[i].username, events[i].occurredAt, now)
    else ClosedSession(events[i].username, events[i].occurredAt, lastSeen, DISAPPEARED)
  }

  /** The positions of the logons and unlocks among the first `n` events, in order. */
  function Openings(events: seq<DeviceEvent>, n: nat): (r: seq<nat>)
    requires n <= |events|
    ensures forall k :: 0 <= k < |r| ==> r[k] < n
  {
    if n == 0 then []
    else Openings(events, n - 1) + if Opens(events[n - 1]) then [n - 1] else []
  }

  lemma {:induction false} OpeningsExact(events: seq<DeviceEvent>, n: nat)
    requires n <= |events|
    ensures forall i :: i in Openings(events, n) <==> 0 <= i < n && Opens(events[i])
    ensures forall k, l :: 0 <= k < l < |Openings(events, n)| ==> Openings(events, n)[k] < Openings(events, n)[l]
  {
    if n > 0 {
      OpeningsExact(events, n - 1);
    }
  }

  function SessionsAt(events: seq<DeviceEvent>, openings: seq<nat>, online: bool, checkedAt: Instant, now: Instant): (r: seq<Session>)
    requires forall k :: 0 <= k < |openings| ==> openings[k] < |events|
    ensures |r| == |openings|
    ensures forall k :: 0 <= k < |openings| ==> r[k] == SessionAt(events, openings[k], online, checkedAt, now)
  {
    seq(|openings|, k requires 0 <= k < |openings| => SessionAt(events, openings[k], online, checkedAt, now))
  }

  function Reversed<T>(s: seq<T>): (r: seq<T>)
    ensures |r| == |s| && forall k :: 0 <= k < |s| ==> r[k] == s[|s| - 1 - k]
  {
    seq(|s|, k requires 0 <= k < |s| => s[|s| - 1 - k])
  }

  /** Newest first: one session for each logon or unlock. */
  function SessionsOf(events: seq<DeviceEvent>, online: bool, checkedAt: Instant, now: Instant): seq<Session> {
    Reversed(SessionsAt(events, Openings(events, |events|), online, checkedAt, now))
  }

  // ---------------------------------------------------------------- the loop over the log

  /** The loop after `n` events with no session open: every session so far has ended. */
  ghost predicate IdleState(events: seq<DeviceEvent>, n: nat, online: bool, checkedAt: Instant, now: Instant, sessions: seq<Session>)
    requires n <= |events|
  {
    var openings := Openings(events, n);
    && sessions == SessionsAt(events, openings, online, checkedAt, now)
    && forall k :: 0 <= k < |openings| ==> EndIndex(events, openings[k] + 1) < n
  }

  /** The loop after `n` events with the newest session open and all others ended. */
  ghost predicate OpenState(events: seq<DeviceEvent>, n: nat, online: bool, checkedAt: Instant, now: Instant, sessions: seq<Session>,
                            start: Instant, lastSeen: Instant, username: string)
    requires n <= |events|
  {
    var openings := Openings(events, n);
    && openings != []
    && var i := openings[|openings| - 1];
       && sessions == SessionsAt(events, openings[..|openings| - 1], online, checkedAt, now)
       && start == events[i].occurredAt && username == events[i].username
       && lastSeen == events[n - 1].occurredAt
       && n <= EndIndex(events, i + 1)
       && forall k :: 0 <= k < |openings| - 1 ==> EndIndex(events, openings[k] + 1) <= i
  }

  ghost predicate LoopState(events: seq<DeviceEvent>, n: nat, online: bool, checkedAt: Instant, now: Instant, sessions: seq<Session>,
                            sessionStart: Option<Instant>, lastSeenAt: Option<Instant>, username: string)
    requires n <= |events|
  {
    if sessionStart.None? then IdleState(events, n, online, checkedAt, now, sessions)
    else lastSeenAt.Some? && OpenState(events, n, online, checkedAt, now, sessions, sessionStart.value, lastSeenAt.value, username)
  }

  /** The session open in the loop, once it is known where it ends. */
  lemma {:induction false} OpenEndsAt(events: seq<DeviceEvent>, i: nat, n: nat, online: bool, checkedAt: Instant, now: Instant)
    requires i < n < |events| && n <= EndIndex(events, i + 1) && Terminates(events, n)
    ensures EndIndex(events, i + 1) == n
    ensures SessionAt(events, i, online, checkedAt, now)
         == if Closes(events[n]) then ClosedSession(events[i].username, events[i].occurredAt, events[n].occurredAt, ReasonOf(events[n].eventType))
            else ClosedSession(events[i].username, events[i].occurredAt, events[n - 1].occurredAt, DISAPPEARED)
  {}

  lemma {:induction false} SessionsAtAppend(events: seq<DeviceEvent>, openings: seq<nat>, online: bool, checkedAt: Instant, now: Instant)
    requires openings != [] && forall k :: 0 <= k < |openings| ==> openings[k] < |events|
    ensures SessionsAt(events, openings, online, checkedAt, now)
         == SessionsAt(events, openings[..|openings| - 1], online, checkedAt, now) + [SessionAt(events, openings[|openings| - 1], online, checkedAt, now)]
  {}

  lemma {:induction false} StepOpens(events: seq<DeviceEvent>, n: nat)
    requires n < |events|
    ensures Openings(events, n + 1) == Openings(events, n) + if Opens(events[n]) then [n] else []
  {}

  lemma {:induction false} NothingYet(events: seq<DeviceEvent>, online: bool, checkedAt: Instant, now: Instant)
    ensures IdleState(events, 0, online, checkedAt, now, [])
  {}

  lemma {:induction false} IdleAtEnd(events: seq<DeviceEvent>, online: bool, checkedAt: Instant, now: Instant, sessions: seq<Session>)
    requires IdleState(events, |events|, online, checkedAt, now, sessions)
    ensures sessions == SessionsAt(events, Openings(events, |events|), online, checkedAt, now)
  {}

  lemma {:induction false} OpeningStep(events: seq<DeviceEvent>, n: nat,
                                       online: bool, checkedAt: Instant, now: Instant, sessions: seq<Session>)
    requires n < |events| && IdleState(events, n, online, checkedAt, now, sessions) && Opens(events[n])
    ensures OpenState(events, n + 1, online, checkedAt, now, sessions, events[n].occurredAt, events[n].occurredAt, events[n].username)
  {
    hide SessionAt;
    StepOpens(events, n);
    var openings := Openings(events, n);
    assert (openings + [n])[..|openings|] == openings;
  }

  lemma {:induction false} IdleStep(events: seq<DeviceEvent>, n: nat,
                                    online: bool, checkedAt: Instant, now: Instant, sessions: seq<Session>)
    requires n < |events| && IdleState(events, n, online, checkedAt, now, sessions) && !Opens(events[n])
    ensures IdleState(events, n + 1, online, checkedAt, now, sessions)
  {
    hide SessionAt;
    StepOpens(events, n);
  }

  /** The open session ends at event `n`; seen just before that event, every session so far has ended. */
  lemma {:induction false} EndingFound(events: seq<DeviceEvent>, n: nat,
                                       online: bool, checkedAt: Instant, now: Instant, sessions: seq<Session>,
                                       start: Instant, last: Instant, username: string)
    requires n < |events| && OpenState(events, n, online, checkedAt, now, sessions, start, last, username)
    requires events[n].eventType != HEARTBEAT_SENT || ExceedsGap(last, events[n].occurredAt)
    ensures var end := if Closes(events[n]) then events[n].occurredAt else last;
            var reason := if Closes(events[n]) then ReasonOf(events[n].eventType) else DISAPPEARED;
            && sessions + [ClosedSession(username, start, end, reason)] == SessionsAt(events, Openings(events, n), online, checkedAt, now)
            && forall k :: 0 <= k < |Openings(events, n)| ==> EndIndex(events, Openings(events, n)[k] + 1) <= n
  {
    hide SessionAt, Openings, Terminates, ClosedSession, SessionsAt;
    var openings := Openings(events, n);
    var i := openings[|openings| - 1];
    TerminatesIff(events, n);
    OpenEndsAt(events, i, n, online, checkedAt, now);
    SessionsAtAppend(events, openings, online, checkedAt, now);
  }

  lemma {:induction false} TerminatesIff(events: seq<DeviceEvent>, n: nat)
    requires 0 < n < |events|
    ensures Terminates(events, n) <==> events[n].eventType != HEARTBEAT_SENT || ExceedsGap(events[n - 1].occurredAt, events[n].occurredAt)
  {}

  /** After an event that ended the open session. */
  lemma {:induction false} EndingStep(events: seq<DeviceEvent>, n: nat,
                                      online: bool, checkedAt: Instant, now: Instant, sessions: seq<Session>)
    requires n < |events| && sessions == SessionsAt(events, Openings(events, n), online, checkedAt, now)
    requires forall k :: 0 <= k < |Openings(events, n)| ==> EndIndex(events, Openings(events, n)[k] + 1) <= n
    ensures Opens(events[n]) ==> OpenState(events, n + 1, online, checkedAt, now, sessions, events[n].occurredAt, events[n].occurredAt, events[n].username)
    ensures !Opens(events[n]) ==> IdleState(events, n + 1, online, checkedAt, now, sessions)
  {
    hide SessionAt;
    StepOpens(events, n);
    var openings := Openings(events, n);
    assert (openings + [n])[..|openings|] == openings;
  }

  /** A heartbeat soon enough keeps the open session going. */
  lemma {:induction false} BeatStep(events: seq<DeviceEvent>, n: nat,
                                    online: bool, checkedAt: Instant, now: Instant, sessions: seq<Session>,
                                    start: Instant, last: Instant, username: string)
    requires n < |events| && OpenState(events, n, online, checkedAt, now, sessions, start, last, username)
    requires events[n].eventType == HEARTBEAT_SENT && !ExceedsGap(last, events[n].occurredAt)
    ensures OpenState(events, n + 1, online, checkedAt, now, sessions, start, events[n].occurredAt, username)
  {
    hide SessionAt;
    StepOpens(events, n);
    assert !Terminates(events, n);
  }

  lemma {:induction false} EndOfLog(events: seq<DeviceEvent>, online: bool, checkedAt: Instant, now: Instant, sessions: seq<Session>,
                                    start: Instant, last: Instant, username: string)
    requires OpenState(events, |events|, online, checkedAt, now, sessions, start, last, username)
    ensures SessionsAt(events, Openings(events, |events|), online, checkedAt, now)
         == sessions + [if online && !ExceedsGap(last, checkedAt) then OpenSession(username, start, now)
                        else ClosedSession(username, start, last, DISAPPEARED)]
  {
    SessionsAtAppend(events, Openings(events, |events|), online, checkedAt, now);
  }

  method SessionsFor(events: seq<DeviceEvent>, online: bool, checkedAt: Instant, now: Instant) returns (r: seq<Session>)
    ensures r == SessionsOf(events, online, checkedAt, now)
  {
    hide IdleState, OpenState, SessionsAt, Openings, ClosedSession, OpenSession, EndIndex;
    NothingYet(events, online, checkedAt, now);
    var sessions: seq<Session> := [];
    var sessionStart: Option<Instant> := None;
    var lastSeenAt: Option<Instant> := None;
    var sessionUsername := "";
    for n := 0 to |events|
      invariant LoopState(events, n, online, checkedAt, now, sessions, sessionStart, lastSeenAt, sessionUsername)
    {
      var event := events[n];
      ghost var before, start, last, username := sessions, sessionStart, lastSeenAt, sessionUsername;
      match event.eventType {
        case USER_LOGON | USER_UNLOCK =>
          if sessionStart.Some? {
            sessions := sessions + [ClosedSession(sessionUsername, sessionStart.value, lastSeenAt.value, DISAPPEARED)];
          }
          sessionStart, lastSeenAt, sessionUsername := Some(event.occurredAt), Some(event.occurredAt), event.username;
        case USER_LOGOFF =>
          if sessionStart.Some? {
            sessions := sessions + [ClosedSession(sessionUsername, sessionStart.value, event.occurredAt, LOGGED_OUT)];
            sessionStart, lastSeenAt, sessionUsername := None, None, "";
          }
        case USER_LOCK =>
          if sessionStart.Some? {
            sessions := sessions + [ClosedSession(sessionUsername, sessionStart.value, event.occurredAt, LOCKED)];
            sessionStart, lastSeenAt, sessionUsername := None, None, "";
          }
        case AGENT_STOPPING | SYSTEM_SHUTDOWN =>
          if sessionStart.Some? {
            sessions := sessions + [ClosedSession(sessionUsername, sessionStart.value, event.occurredAt, STOPPED)];
            sessionStart, lastSeenAt, sessionUsername := None, None, "";
          }
        case SYSTEM_SUSPEND =>
          if sessionStart.Some? {
            sessions := sessions + [ClosedSession(sessionUsername, sessionStart.value, event.occurredAt, SUSPENDED)];
            sessionStart, lastSeenAt, sessionUsername := None, None, "";
          }
        case HEARTBEAT_SENT =>
          if sessionStart.Some? {
            if lastSeenAt.Some? && ExceedsGap(lastSeenAt.value, event.occurredAt) {
              sessions := sessions + [ClosedSession(sessionUsername, sessionStart.value, lastSeenAt.value, DISAPPEARED)];
              sessionStart, sessionUsername := None, "";
            } else {
              lastSeenAt := Some(event.occurredAt);
            }
          }
      }
      if start.None? {
        if Opens(event) {
          OpeningStep(events, n, online, checkedAt, now, before);
        } else {
          IdleStep(events, n, online, checkedAt, now, before);
        }
      } else if event.eventType == HEARTBEAT_SENT && sessionStart.Some? {
        BeatStep(events, n, online, checkedAt, now, before, start.value, last.value, username);
      } else {
        EndingFound(events, n, online, checkedAt, now, before, start.value, last.value, username);
        EndingStep(events, n, online, checkedAt, now, sessions);
      }
    }
    if sessionStart.Some? {
      EndOfLog(events, online, checkedAt, now, sessions, sessionStart.value, lastSeenAt.value, sessionUsername);
    } else {
      IdleAtEnd(events, online, checkedAt, now, sessions);
    }
    if sessionStart.Some? {
      var started := sessionStart.value;
      var stillFresh := lastSeenAt.Some? && !ExceedsGap(lastSeenAt.value, checkedAt);
      if online && stillFresh {
        sessions := sessions + [OpenSession(sessionUsername, started, now)];
      } else {
        var end := if lastSeenAt.Some? then lastSeenAt.value else started;
        sessions := sessions + [ClosedSession(sessionUsername, started, end, DISAPPEARED)];
      }
    }
    r := Reversed(sessions);
  }

  // ---------------------------------------------------------------- what the sessions are

  ghost predicate TimeOrdered(events: seq<DeviceEvent>) {
    forall i, j :: 0 <= i < j < |events| ==> events[i].occurredAt <= events[j].occurredAt
  }

  predicate EndedBy(s: Session, at: Instant) {
    s.end.Some? && s.end.value <= at
  }

  /** A session ends no earlier than it starts, and before any later logon or unlock. */
  lemma {:induction false} SessionBounds(events: seq<DeviceEvent>, i: nat, later: nat, online: bool, checkedAt: Instant, now: Instant)
    requires TimeOrdered(events) && i < |events| && later <= |events|
    requires later < |events| ==> i < later && Opens(events[later])
    ensures var s := SessionAt(events, i, online, checkedAt, now);
            && s.start == events[i].occurredAt
            && (s.end.Some? ==> s.start <= s.end.value)
            && (later < |events| ==> s.end.Some? && s.end.value <= events[later].occurredAt)
            && (s.end.Some? <==> s.reason.Some?)
  {
    var e := EndIndex(events, i + 1);
    if later < |events| {
      assert Terminates(events, later);
      assert e <= later;
    }
  }

  lemma {:induction false} SessionCount(events: seq<DeviceEvent>, online: bool, checkedAt: Instant, now: Instant)
    ensures |SessionsOf(events, online, checkedAt, now)| == |Openings(events, |events|)|
  {
    hide SessionAt, Openings;
  }

  lemma {:induction false} NthSession(events: seq<DeviceEvent>, online: bool, checkedAt: Instant, now: Instant, k: nat)
    requires k < |SessionsOf(events, online, checkedAt, now)|
    ensures |SessionsOf(events, online, checkedAt, now)| == |Openings(events, |events|)|
    ensures SessionsOf(events, online, checkedAt, now)[k]
         == SessionAt(events, Openings(events, |events|)[|Openings(events, |events|)| - 1 - k], online, checkedAt, now)
  {
    hide SessionAt, Openings;
  }

  /** The k-th newest session starts with the k-th newest logon or unlock and does not end before it. */
  lemma {:induction false} StartsWithOpening(events: seq<DeviceEvent>, online: bool, checkedAt: Instant, now: Instant, k: nat)
    requires TimeOrdered(events) && k < |SessionsOf(events, online, checkedAt, now)|
    ensures |SessionsOf(events, online, checkedAt, now)| == |Openings(events, |events|)|
    ensures var s := SessionsOf(events, online, checkedAt, now)[k];
            && s.start == events[Openings(events, |events|)[|Openings(events, |events|)| - 1 - k]].occurredAt
            && (s.end.Some? ==> s.start <= s.end.value)
  {
    hide SessionAt, Openings, SessionsOf, TimeOrdered;
    NthSession(events, online, checkedAt, now, k);
    SessionBounds(events, Openings(events, |events|)[|Openings(events, |events|)| - 1 - k], |events|, online, checkedAt, now);
  }

  lemma {:induction false} NewerStartsAfter(events: seq<DeviceEvent>, online: bool, checkedAt: Instant, now: Instant, k: nat, l: nat)
    requires TimeOrdered(events) && k < l < |SessionsOf(events, online, checkedAt, now)|
    ensures var r := SessionsOf(events, online, checkedAt, now); EndedBy(r[l], r[k].start)
  {
    hide SessionAt, Openings, SessionsOf, TimeOrdered;
    var openings := Openings(events, |events|);
    NthSession(events, online, checkedAt, now, k);
    NthSession(events, online, checkedAt, now, l);
    OpeningsExact(events, |events|);
    var newer, older := openings[|openings| - 1 - k], openings[|openings| - 1 - l];
    assert newer in openings;
    SessionBounds(events, older, newer, online, checkedAt, now);
    SessionBounds(events, newer, |events|, online, checkedAt, now);
  }

  /**
    Main result, beside the loop's own contract: one session for each logon or unlock, newest first, each starting
    with its own; on a time-ordered log no two overlap and only the newest can be ongoing.
  */
  lemma {:induction false} SessionsNeverOverlap(events: seq<DeviceEvent>, online: bool, checkedAt: Instant, now: Instant)
    requires TimeOrdered(events)
    ensures var r, openings := SessionsOf(events, online, checkedAt, now), Openings(events, |events|);
            && |r| == |openings|
            && (forall k :: 0 <= k < |r| ==> r[k].start == events[openings[|r| - 1 - k]].occurredAt
                                             && (r[k].end.Some? ==> r[k].start <= r[k].end.value))
            && forall k, l :: 0 <= k < l < |r| ==> EndedBy(r[l], r[k].start)
  {
    hide SessionAt, Openings, SessionsOf, TimeOrdered;
    var r, openings := SessionsOf(events, online, checkedAt, now), Openings(events, |events|);
    SessionCount(events, online, checkedAt, now);
    forall k | 0 <= k < |r|
      ensures r[k].start == events[openings[|r| - 1 - k]].occurredAt && (r[k].end.Some? ==> r[k].start <= r[k].end.value)
    {
      StartsWithOpening(events, online, checkedAt, now, k);
    }
    forall k, l | 0 <= k < l < |r|
      ensures EndedBy(r[l], r[k].start)
    {
      NewerStartsAfter(events, online, checkedAt, now, k, l);
    }
  }

  // ---------------------------------------------------------------- where each session ends

  /** Nothing but heartbeats strictly between events `i` and `e`, each within 180 seconds of the event before it. */
  predicate Beats(events: seq<DeviceEvent>, i: nat, e: nat) {
    && i < e <= |events|
    && forall k :: i < k < e ==> events[k].eventType == HEARTBEAT_SENT && events[k].occurredAt - events[k - 1].occurredAt <= 180_000
  }

  /** And event `e` is none such: the log is over, or it is another kind of event, or a heartbeat after a longer silence. */
  predicate EndsBefore(events: seq<DeviceEvent>, i: nat, e: nat) {
    && Beats(events, i, e)
    && (e < |events| ==> events[e].eventType != HEARTBEAT_SENT || events[e].occurredAt - events[e - 1].occurredAt > 180_000)
  }

  /** There is one such event, and only one. */
  lemma {:induction false} EndsSomewhere(events: seq<DeviceEvent>, i: nat) returns (e: nat)
    requires i < |events|
    ensures EndsBefore(events, i, e)
    ensures forall x: nat :: EndsBefore(events, i, x) ==> x == e
  {
    e := EndIndex(events, i + 1);
    forall x: nat | EndsBefore(events, i, x)
      ensures x == e
    {
      EndsAtIndex(events, i, x);
    }
    forall k | i < k < e
      ensures events[k].eventType == HEARTBEAT_SENT && events[k].occurredAt - events[k - 1].occurredAt <= 180_000
    {
      assert !Terminates(events, k);
    }
  }

  lemma {:induction false} EndsAtIndex(events: seq<DeviceEvent>, i: nat, e: nat)
    requires EndsBefore(events, i, e)
    ensures EndIndex(events, i + 1) == e
  {
    assert forall k :: i < k < e ==> !Terminates(events, k);
    assert e < |events| ==> Terminates(events, e);
  }

  /** How the session of a logon or unlock ends, from what comes at the event that follows its last heartbeat. */
  ghost predicate EndsAs(events: seq<DeviceEvent>, e: nat, online: bool, checkedAt: Instant, end: Option<Instant>, reason: Option<EndReason>)
    requires 0 < e <= |events|
  {
    var last := events[e - 1].occurredAt;
    if e == |events| then
      if online && checkedAt - last <= 180_000 then end == None && reason == None
      else end == Some(last) && reason == Some(DISAPPEARED)
    else
      match events[e].eventType
      case USER_LOGOFF => end == Some(events[e].occurredAt) && reason == Some(LOGGED_OUT)
      case USER_LOCK => end == Some(events[e].occurredAt) && reason == Some(LOCKED)
      case AGENT_STOPPING => end == Some(events[e].occurredAt) && reason == Some(STOPPED)
      case SYSTEM_SHUTDOWN => end == Some(events[e].occurredAt) && reason == Some(STOPPED)
      case SYSTEM_SUSPEND => end == Some(events[e].occurredAt) && reason == Some(SUSPENDED)
      case USER_LOGON => end == Some(last) && reason == Some(DISAPPEARED)
      case USER_UNLOCK => end == Some(last) && reason == Some(DISAPPEARED)
      case HEARTBEAT_SENT => end == Some(last) && reason == Some(DISAPPEARED)
  }

  /**
    Main result: every logon and unlock has its session, found by counting the later ones; it has that event's user and
    start, runs on over heartbeats no more than three minutes apart, and ends as the next event says, at that event or
    at the last one heard; it is ongoing only at the end of the log, with the device online and heard of in the last
    three minutes.
  */
  lemma {:induction false} SessionExact(events: seq<DeviceEvent>, i: nat, e: nat, online: bool, checkedAt: Instant, now: Instant) returns (k: nat)
    requires i < |events| && (events[i].eventType == USER_LOGON || events[i].eventType == USER_UNLOCK) && EndsBefore(events, i, e)
    ensures k < |SessionsOf(events, online, checkedAt, now)| && k == OpeningsAfter(events, i)
    ensures var s := SessionsOf(events, online, checkedAt, now)[k];
            var seconds := (if s.end.Some? then s.end.value else now) / 1000 - s.start / 1000;
            && s.username == events[i].username && s.start == events[i].occurredAt
            && EndsAs(events, e, online, checkedAt, s.end, s.reason)
            && s.durationSeconds == if seconds < 0 then 0 else seconds
  {
    hide Openings, EndIndex, EndsBefore, SessionsOf, SessionAt, OpeningsAfter, EndsAs;
    k := OpeningsAfter(events, i);
    OpeningFound(events, i, |events|);
    SessionCount(events, online, checkedAt, now);
    NthSession(events, online, checkedAt, now, k);
    SessionAtEnds(events, i, e, online, checkedAt, now);
  }

  /** How many logons and unlocks come after event `i`. */
  function OpeningsAfter(events: seq<DeviceEvent>, i: nat): nat
    requires i < |events|
    decreases |events| - i
  {
    if i + 1 == |events| then 0
    else OpeningsAfter(events, i + 1) + if events[i + 1].eventType == USER_LOGON || events[i + 1].eventType == USER_UNLOCK then 1 else 0
  }

  lemma {:induction false} OpeningFound(events: seq<DeviceEvent>, i: nat, n: nat)
    requires i < n == |events| && Opens(events[i])
    ensures var openings, k := Openings(events, n), OpeningsAfter(events, i); k < |openings| && openings[|openings| - 1 - k] == i
  {
    OpeningsSplit(events, i);
  }

  /** The openings are those up to event `i` and then as many as come after it. */
  lemma {:induction false} OpeningsSplit(events: seq<DeviceEvent>, i: nat)
    requires i < |events|
    ensures |Openings(events, i + 1)| + OpeningsAfter(events, i) == |Openings(events, |events|)|
    ensures Openings(events, |events|)[..|Openings(events, i + 1)|] == Openings(events, i + 1)
    decreases |events| - i
  {
    if i + 1 < |events| {
      OpeningsSplit(events, i + 1);
      StepOpens(events, i + 1);
    }
  }

  lemma {:induction false} SessionAtEnds(events: seq<DeviceEvent>, i: nat, e: nat, online: bool, checkedAt: Instant, now: Instant)
    requires i < |events| && EndsBefore(events, i, e)
    ensures var s := SessionAt(events, i, online, checkedAt, now);
            var seconds := (if s.end.Some? then s.end.value else now) / 1000 - s.start / 1000;
            && s.username == events[i].username && s.start == events[i].occurredAt
            && EndsAs(events, e, online, checkedAt, s.end, s.reason)
            && s.durationSeconds == if seconds < 0 then 0 else seconds
  {
    EndsAtIndex(events, i, e);
    hide EndIndex, Beats;
  }
}
