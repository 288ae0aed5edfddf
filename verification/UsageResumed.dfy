/** What a tracker records when it takes over an open span from an earlier run: that span is use until the first event. */
module UsageResumed {
  import opened Lists
  import opened UsageTracker
  import opened UsageTime

  function ResumedAfter(start: Instant, events: seq<Timed>): TrackerState {
    if events == [] then ResumeOpenSession(start)
    else
      var last := events[|events| - 1];
      Applied(ResumedAfter(start, events[..|events| - 1]), last.event, last.at)
  }

  function ResumedRecords(start: Instant, events: seq<Timed>): seq<UsageSessionRecord> {
    if events == [] then []
    else
      var front, last := events[..|events| - 1], events[|events| - 1];
      var t := AppliedTransition(ResumedAfter(start, front), last.event, last.at);
      ResumedRecords(start, front) + if t.Ended? then [t.record] else []
  }

  /** In use after the first `n` events, counting the time before the first as use. */
  ghost predicate ResumedInUse(events: seq<Timed>, n: nat)
    requires n <= |events|
  {
    n == 0 || InUse(events, n)
  }

  function ReasonOrLogoff(event: SessionEvent): EndReason {
    if ReasonFor(event).Some? then ReasonFor(event).value else LOGOFF
  }

  /** Nothing has ended yet: a tracker started anew is open since the first event, the resumed one since `start`. */
  ghost predicate StillOpen(anew: seq<UsageSessionRecord>, anewOpen: Option<Instant>,
                            resumed: seq<UsageSessionRecord>, resumedOpen: Option<Instant>, start: Instant, first: Timed) {
    anew == [] && resumed == [] && anewOpen == Some(first.at) && resumedOpen == Some(start)
  }

  /** The first record of a tracker started anew begins at the first event, that of the resumed one at `start`. */
  ghost predicate Prolonged(anew: seq<UsageSessionRecord>, anewOpen: Option<Instant>,
                            resumed: seq<UsageSessionRecord>, resumedOpen: Option<Instant>, start: Instant, first: Timed) {
    && resumedOpen == anewOpen && anew != [] && anew[0].start == first.at <= anew[0].end
    && resumed == [anew[0].(start := start)] + anew[1..]
  }

  /** The resumed span ended at the first event; for the rest the two agree. */
  ghost predicate EndedAtFirst(anew: seq<UsageSessionRecord>, anewOpen: Option<Instant>,
                               resumed: seq<UsageSessionRecord>, resumedOpen: Option<Instant>, start: Instant, first: Timed) {
    resumedOpen == anewOpen && resumed == [UsageSessionRecord(start, first.at, ReasonOrLogoff(first.event))] + anew
  }

  /** How the resumed tracker differs from one started anew with the same events. */
  ghost predicate Continues(start: Instant, events: seq<Timed>)
    requires events != []
  {
    var anew, anewOpen := RecordsAfter(events), StateAfter(events).openSince;
    var resumed, resumedOpen := ResumedRecords(start, events), ResumedAfter(start, events).openSince;
    || StillOpen(anew, anewOpen, resumed, resumedOpen, start, events[0])
    || Prolonged(anew, anewOpen, resumed, resumedOpen, start, events[0])
    || EndedAtFirst(anew, anewOpen, resumed, resumedOpen, start, events[0])
  }

  ghost predicate SameSessions(s: TrackerState, r: TrackerState) {
    s.sessions == r.sessions && s.suspended == r.suspended
  }

  /** The open span plays no part in which sessions are visible. */
  lemma {:induction false} StepSessions(s: TrackerState, r: TrackerState, event: SessionEvent, at: Instant)
    requires SameSessions(s, r)
    ensures SameSessions(Applied(s, event, at), Applied(r, event, at))
    ensures AnyVisible(Observed(s, event)) <==> AnyVisible(Observed(r, event))
    ensures Observed(s, event).openSince == s.openSince && Observed(r, event).openSince == r.openSince
  {}

  lemma {:induction false} AlwaysSameSessions(start: Instant, events: seq<Timed>)
    ensures SameSessions(StateAfter(events), ResumedAfter(start, events))
  {
    if events != [] {
      hide Applied;
      var front, last := events[..|events| - 1], events[|events| - 1];
      AlwaysSameSessions(start, front);
      StepSessions(StateAfter(front), ResumedAfter(start, front), last.event, last.at);
    }
  }

  /** With the same open span the two do the same; with an open span each, they keep or end it together. */
  lemma {:induction false} StepTransitions(s: TrackerState, r: TrackerState, event: SessionEvent, at: Instant)
    requires SameSessions(s, r)
    ensures var t, u := AppliedTransition(s, event, at), AppliedTransition(r, event, at);
            var s', r' := Applied(s, event, at), Applied(r, event, at);
            && (s.openSince == r.openSince ==> t == u && s'.openSince == r'.openSince)
            && (s.openSince.Some? && r.openSince.Some? ==>
                  if t.Ended? then
                    && t.record == UsageSessionRecord(s.openSince.value, at, ReasonOrLogoff(event)) && s'.openSince.None?
                    && u == Ended(UsageSessionRecord(r.openSince.value, at, ReasonOrLogoff(event))) && r'.openSince.None?
                  else t == NoChange && u == NoChange && s'.openSince == s.openSince && r'.openSince == r.openSince)
            && (s.openSince.None? && r.openSince.Some? ==>
                  if t.Started? then s'.openSince == Some(at) && u == NoChange && r'.openSince == r.openSince
                  else t == NoChange && s'.openSince.None? && r'.openSince.None?
                       && u == Ended(UsageSessionRecord(r.openSince.value, at, ReasonOrLogoff(event))))
  {
    StepSessions(s, r, event, at);
    hide AnyVisible, Observed;
  }

  lemma {:induction false} AnewStep(front: seq<Timed>, last: Timed)
    ensures StateAfter(front + [last]) == Applied(StateAfter(front), last.event, last.at)
    ensures var t := AppliedTransition(StateAfter(front), last.event, last.at);
            RecordsAfter(front + [last]) == RecordsAfter(front) + if t.Ended? then [t.record] else []
  {
    hide Applied, AppliedTransition;
    assert (front + [last])[..|front|] == front;
  }

  lemma {:induction false} ResumedStep(start: Instant, front: seq<Timed>, last: Timed)
    ensures ResumedAfter(start, front + [last]) == Applied(ResumedAfter(start, front), last.event, last.at)
    ensures var u := AppliedTransition(ResumedAfter(start, front), last.event, last.at);
            ResumedRecords(start, front + [last]) == ResumedRecords(start, front) + if u.Ended? then [u.record] else []
  {
    hide Applied, AppliedTransition;
    assert (front + [last])[..|front|] == front;
  }

  lemma {:induction false} BeforeAnyEvent(start: Instant)
    ensures StateAfter([]) == NEW_TRACKER && RecordsAfter([]) == []
    ensures ResumedAfter(start, []) == ResumeOpenSession(start) && ResumedRecords(start, []) == []
    ensures SameSessions(NEW_TRACKER, ResumeOpenSession(start))
  {}

  lemma {:induction false} ContinuesFirst(start: Instant, first: Timed)
    ensures Continues(start, [first])
  {
    hide Applied, AppliedTransition, StateAfter, ResumedAfter, RecordsAfter, ResumedRecords, SameSessions;
    BeforeAnyEvent(start);
    AnewStep([], first);
    ResumedStep(start, [], first);
    assert [] + [first] == [first];
    StepTransitions(NEW_TRACKER, ResumeOpenSession(start), first.event, first.at);
  }

  /** One more event, in each of the three cases. */
  lemma {:induction false} ContinuesStep(start: Instant, front: seq<Timed>, last: Timed)
    requires front != [] && Continues(start, front) && front[0].at <= last.at
    ensures Continues(start, front + [last])
  {
    hide Applied, AppliedTransition, StateAfter, ResumedAfter, RecordsAfter, ResumedRecords, SameSessions;
    assert (front + [last])[0] == front[0];
    AnewStep(front, last);
    ResumedStep(start, front, last);
    AlwaysSameSessions(start, front);
    StepTransitions(StateAfter(front), ResumedAfter(start, front), last.event, last.at);
  }

  /**
    The resumed tracker records what one started anew does, but for the beginning: its first record, or open span, reaches
    back to `start`, or a record from `start` to the first event comes first.
  */
  lemma {:induction false} ResumedContinues(start: Instant, events: seq<Timed>)
    requires TimeOrdered(events) && events != []
    ensures Continues(start, events)
  {
    if |events| == 1 {
      assert events == [events[0]];
      ContinuesFirst(start, events[0]);
    } else {
      hide Continues;
      var front, last := events[..|events| - 1], events[|events| - 1];
      ResumedContinues(start, front);
      assert events == front + [last];
      ContinuesStep(start, front, last);
    }
  }

  lemma {:induction false} ContinuedRecorded(anew: seq<UsageSessionRecord>, anewOpen: Option<Instant>, resumed: seq<UsageSessionRecord>,
                                             resumedOpen: Option<Instant>, start: Instant, first: Timed, t: Instant)
    requires StillOpen(anew, anewOpen, resumed, resumedOpen, start, first) || Prolonged(anew, anewOpen, resumed, resumedOpen, start, first)
             || EndedAtFirst(anew, anewOpen, resumed, resumedOpen, start, first)
    requires start <= first.at
    ensures Recorded(resumed, resumedOpen, t) <==> Recorded(anew, anewOpen, t) || start <= t < first.at
  {
    if Prolonged(anew, anewOpen, resumed, resumedOpen, start, first) {
      assert resumed[0] == anew[0].(start := start);
      assert forall i :: 1 <= i < |anew| ==> resumed[i] == anew[i];
    } else if EndedAtFirst(anew, anewOpen, resumed, resumedOpen, start, first) {
      assert forall i :: 0 <= i < |anew| ==> resumed[i + 1] == anew[i];
      assert resumed[0].start == start && resumed[0].end == first.at;
    }
  }

  lemma {:induction false} NothingHappenedBefore(events: seq<Timed>, t: Instant)
    requires TimeOrdered(events) && events != []
    ensures HappenedBy(events, t) == 0 <==> t < events[0].at
  {
    if |events| > 1 {
      NothingHappenedBefore(events[..|events| - 1], t);
    }
  }

  /**
    Main result for a tracker that resumes a span open since `start`: an instant is recorded exactly when it is not before
    `start` and the device was in use then, the time up to the first event counting as use.
  */
  lemma {:induction false} ResumedIsInUse(start: Instant, events: seq<Timed>, t: Instant)
    requires TimeOrdered(events) && (events != [] ==> start <= events[0].at)
    ensures Recorded(ResumedRecords(start, events), ResumedAfter(start, events).openSince, t)
       <==> start <= t && ResumedInUse(events, HappenedBy(events, t))
  {
    if events != [] {
      hide ResumedRecords, ResumedAfter, RecordsAfter, StateAfter, Recorded, HappenedBy, InUse;
      ResumedContinues(start, events);
      ContinuedRecorded(RecordsAfter(events), StateAfter(events).openSince, ResumedRecords(start, events), ResumedAfter(start, events).openSince,
                        start, events[0], t);
      RecordedIsInUse(events, t);
      NothingHappenedBefore(events, t);
      NotInUseYet(events);
    }
  }

  lemma {:induction false} NotInUseYet(events: seq<Timed>)
    ensures !InUse(events, 0)
  {}

  /** The first event ends the resumed span unless it shows a session; a resume from sleep, which says nothing of why, ends it as a logoff. */
  lemma {:induction false} FirstEventEnds(start: Instant, first: Timed)
    ensures var e, records := first.event, ResumedRecords(start, [first]);
            if e.Logon? || e.Unlock? || e.ConsoleConnect? || e.RemoteConnect? then
              records == [] && ResumedAfter(start, [first]).openSince == Some(start)
            else
              && ResumedAfter(start, [first]).openSince == None
              && records == [UsageSessionRecord(start, first.at,
                                                if e.Lock? then LOCK else if e.Suspend? then SUSPEND
                                                else if e.ConsoleDisconnect? then CONSOLE_DISCONNECT
                                                else if e.RemoteDisconnect? then REMOTE_DISCONNECT else LOGOFF)]
  {
    hide ResumedAfter, ResumedRecords;
    BeforeAnyEvent(start);
    ResumedStep(start, [], first);
    assert [] + [first] == [first];
    var s := Observed(ResumeOpenSession(start), first.event);
    if first.event.Logon? || first.event.Unlock? || first.event.ConsoleConnect? || first.event.RemoteConnect? {
      assert first.event.id in s.sessions && s.sessions[first.event.id];
    }
  }
}
