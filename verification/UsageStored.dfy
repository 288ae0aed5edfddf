/** What the stored rows say of real use, in terms of the notifications alone. */
module UsageStored {
  import opened Lists
  import opened UsageTracker
  import opened UsageTime
  import opened UsageResumed
  import Recorder = UsageRecorder

  /** Some event among the first `n` is about the session, and no logoff of it has come since. */
  ghost predicate Known(events: seq<Timed>, n: nat, id: SessionId)
    requires n <= |events|
  {
    exists j: nat :: KnownSince(events, j, n, id)
  }

  ghost predicate KnownSince(events: seq<Timed>, j: nat, n: nat, id: SessionId)
    requires n <= |events|
  {
    j < n && Concerns(events[j].event, id) && forall k :: j <= k < n ==> events[k].event != Logoff(id)
  }

  /** Event `n` logs on a session that is known already. */
  ghost predicate Repeated(events: seq<Timed>, n: nat)
    requires n < |events|
  {
    events[n].event.Logon? && Known(events, n, events[n].event.id)
  }

  ghost function WithoutRepeated(events: seq<Timed>): (r: seq<Timed>)
    ensures forall x :: x in r ==> x in events
  {
    if events == [] then []
    else
      var front, last := events[..|events| - 1], events[|events| - 1];
      assert events == front + [last];
      WithoutRepeated(front) + if Repeated(events, |events| - 1) then [] else [last]
  }

  /** The agent runs on, told of one event after another. */
  predicate Undisturbed(run: seq<Recorder.Op>) {
    forall i :: 0 <= i < |run| ==> run[i].Notified?
  }

  function EventsOf(run: seq<Recorder.Op>): (r: seq<Timed>)
    requires Undisturbed(run)
    ensures |r| == |run| && forall i :: 0 <= i < |r| ==> r[i] == Timed(run[i].event, run[i].at)
  {
    seq(|run|, i requires 0 <= i < |run| => Timed(run[i].event, run[i].at))
  }

  // ---------------------------------------------------------------- which notifications reach the tracker

  lemma {:induction false} KnownStep(events: seq<Timed>, n: nat, id: SessionId)
    requires n < |events|
    ensures Known(events, n + 1, id) <==> events[n].event != Logoff(id) && (Concerns(events[n].event, id) || Known(events, n, id))
  {
    hide KnownSince;
    KnownSinceStep(events, n, n, id);
    var m := n + 1;
    if Known(events, m, id) {
      var j: nat :| KnownSince(events, j, m, id);
      KnownSinceStep(events, j, n, id);
    }
    if events[n].event != Logoff(id) && Known(events, n, id) {
      var j: nat :| KnownSince(events, j, n, id);
      KnownSinceStep(events, j, n, id);
    }
  }

  lemma {:induction false} KnownSinceStep(events: seq<Timed>, j: nat, n: nat, id: SessionId)
    requires n < |events|
    ensures KnownSince(events, j, n + 1, id)
       <==> events[n].event != Logoff(id) && (KnownSince(events, j, n, id) || (j == n && Concerns(events[n].event, id)))
  {
    hide Concerns;
  }

  lemma {:induction false} RepeatedIs(events: seq<Timed>)
    requires events != []
    ensures var n, last := |events| - 1, events[|events| - 1].event;
            Repeated(events, n) <==> last.Logon? && Known(events[..n], n, last.id)
  {
    var n, last := |events| - 1, events[|events| - 1].event;
    if last.Logon? {
      KnownStays(events, n, last.id);
    }
  }

  lemma {:induction false} KnownStays(events: seq<Timed>, n: nat, id: SessionId)
    requires n <= |events|
    ensures Known(events[..n], n, id) <==> Known(events, n, id)
  {
    hide Concerns;
    assert forall j: nat :: KnownSince(events[..n], j, n, id) <==> KnownSince(events, j, n, id);
  }

  lemma {:induction false} ObservedKnows(s: TrackerState, event: SessionEvent, id: SessionId)
    ensures id in Observed(s, event).sessions <==> event != Logoff(id) && (Concerns(event, id) || id in s.sessions)
  {}

  /** What a tracker does that has just been started, with an open span handed on to it or none. */
  function TrackedSince(open: Option<Instant>, events: seq<Timed>): TrackerState {
    if open.Some? then ResumedAfter(open.value, events) else StateAfter(events)
  }

  function RecordedSince(open: Option<Instant>, events: seq<Timed>): seq<UsageSessionRecord> {
    if open.Some? then ResumedRecords(open.value, events) else RecordsAfter(events)
  }

  lemma {:induction false} SinceStep(open: Option<Instant>, front: seq<Timed>, last: Timed)
    ensures TrackedSince(open, []) == TrackerState(map[], false, open) && RecordedSince(open, []) == []
    ensures TrackedSince(open, front + [last]) == Applied(TrackedSince(open, front), last.event, last.at)
    ensures RecordedSince(open, front + [last])
         == RecordedSince(open, front)
            + var t := AppliedTransition(TrackedSince(open, front), last.event, last.at); if t.Ended? then [t.record] else []
  {
    hide Applied, AppliedTransition;
    if open.Some? {
      ResumedStep(open.value, front, last);
    } else {
      AnewStep(front, last);
    }
  }

  lemma {:induction false} LastRepeated(events: seq<Timed>)
    requires events != []
    ensures var front, last := events[..|events| - 1], events[|events| - 1];
            WithoutRepeated(events) == if Repeated(events, |events| - 1) then WithoutRepeated(front) else WithoutRepeated(front) + [last]
  {
    hide Repeated;
  }

  /** The tracker's sessions, fed without repeated logons, are the ones the events make known. */
  lemma {:induction false} SessionsAreKnown(open: Option<Instant>, events: seq<Timed>, id: SessionId)
    ensures id in TrackedSince(open, WithoutRepeated(events)).sessions <==> Known(events, |events|, id)
  {
    hide Applied, Known, KnownSince, TrackedSince, Observed, Repeated, WithoutRepeated;
    if events != [] {
      var front, last := events[..|events| - 1], events[|events| - 1];
      SessionsAreKnown(open, front, id);
      KnownStep(events, |front|, id);
      KnownStays(events, |front|, id);
      RepeatedIs(events);
      LastRepeated(events);
      if !Repeated(events, |events| - 1) {
        SinceStep(open, WithoutRepeated(front), last);
        AppliedFields(TrackedSince(open, WithoutRepeated(front)), last.event, last.at);
        ObservedKnows(TrackedSince(open, WithoutRepeated(front)), last.event, id);
      }
    } else {
      NothingKnownYet(open, id);
    }
  }

  lemma {:induction false} NothingKnownYet(open: Option<Instant>, id: SessionId)
    ensures WithoutRepeated([]) == [] && id !in TrackedSince(open, []).sessions && !Known([], 0, id)
  {}

  lemma {:induction false} WithoutRepeatedStep(open: Option<Instant>, front: seq<Timed>, last: Timed)
    ensures WithoutRepeated(front + [last])
         == if last.event.Logon? && last.event.id in TrackedSince(open, WithoutRepeated(front)).sessions then WithoutRepeated(front)
            else WithoutRepeated(front) + [last]
  {
    hide TrackedSince, Known, Repeated;
    assert (front + [last])[..|front|] == front;
    RepeatedIs(front + [last]);
    if last.event.Logon? {
      SessionsAreKnown(open, front, last.event.id);
    }
  }

  /** The agent has just been started, for the first time or again, on the rows the run has left. */
  predicate JustStarted(run: seq<Recorder.Op>) {
    run == [] || !(run[|run| - 1].Notified? || run[|run| - 1].StoppedCleanly?)
  }

  lemma {:induction false} StartedFresh(run: seq<Recorder.Op>)
    requires JustStarted(run)
    ensures var tracker := Recorder.StateAfter(run).tracker; tracker == TrackerState(map[], false, tracker.openSince)
  {
    hide Recorder.Dangling;
  }

  /**
    Main result: after any run that has just started the agent, told of one event after another the recorder tracks and
    records exactly what those events say once repeated logons are left out, beside what was recorded before.
  */
  lemma {:induction false} RecorderFollowsEvents(before: seq<Recorder.Op>, run: seq<Recorder.Op>)
    requires JustStarted(before) && Undisturbed(run)
    ensures var open, events := Recorder.StateAfter(before).tracker.openSince, WithoutRepeated(EventsOf(run));
            && Recorder.StateAfter(before + run).tracker == TrackedSince(open, events)
            && Recorder.RecordsDuring(before + run) == Recorder.RecordsDuring(before) + RecordedSince(open, events)
  {
    hide TrackedSince, RecordedSince, Known, Applied, AppliedTransition, EventsOf, Recorder.After, Recorder.RecordDuring, Repeated,
         WithoutRepeated, JustStarted, Recorder.StateAfter, Recorder.RecordsDuring;
    var open := Recorder.StateAfter(before).tracker.openSince;
    if run == [] {
      assert before + run == before && EventsOf(run) == [];
      StartedFresh(before);
      NothingKnownYet(open, 0);
      SinceStep(open, [], Timed(Suspend, 0));
    } else {
      var front, op := run[..|run| - 1], run[|run| - 1];
      RecorderFollowsEvents(before, front);
      var events, last := EventsOf(front), Timed(op.event, op.at);
      assert EventsOf(run) == events + [last];
      WithoutRepeatedStep(open, events, last);
      SinceStep(open, WithoutRepeated(events), last);
      assert before + run == (before + front) + [op];
      RecorderStep(before + front, op);
      NotificationReachesTracker(Recorder.StateAfter(before + front), op);
    }
  }

  lemma {:induction false} RecorderStep(front: seq<Recorder.Op>, op: Recorder.Op)
    ensures Recorder.StateAfter(front + [op]) == Recorder.After(Recorder.StateAfter(front), op)
    ensures Recorder.RecordsDuring(front + [op]) == Recorder.RecordsDuring(front) + Recorder.RecordDuring(Recorder.StateAfter(front), op)
  {
    hide Recorder.After, Recorder.RecordDuring;
    assert (front + [op])[..|front|] == front;
  }

  /** Every notification but the logon of a session the tracker has reaches it. */
  lemma {:induction false} NotificationReachesTracker(s: Recorder.RecorderState, op: Recorder.Op)
    requires op.Notified?
    ensures var known := op.event.Logon? && op.event.id in s.tracker.sessions;
            var t := AppliedTransition(s.tracker, op.event, op.at);
            && Recorder.After(s, op).tracker == (if known then s.tracker else Applied(s.tracker, op.event, op.at))
            && Recorder.RecordDuring(s, op) == if !known && t.Ended? then [t.record] else []
  {
    hide Applied, AppliedTransition, Recorder.RowClosed, Recorder.RowStarted;
  }

  lemma {:induction false} NothingStoredYet()
    ensures Recorder.StateAfter([]).tracker == NEW_TRACKER && Recorder.StateAfter([]).rows == [] && Recorder.RecordsDuring([]) == []
  {
    Recorder.DanglingIsLast([]);
  }

  // ---------------------------------------------------------------- the rows in time

  /** The row says that the device was in use at `t`. */
  predicate Covers(row: Recorder.SessionRow, t: Instant) {
    row.start <= t && (row.end.Some? ==> t < row.end.value)
  }

  /** Some row, with an end or without, covers the instant. */
  ghost predicate Covered(rows: seq<Recorder.SessionRow>, t: Instant) {
    exists row :: row in rows && Covers(row, t)
  }

  ghost predicate CoveredByClosed(rows: seq<Recorder.SessionRow>, t: Instant) {
    exists row :: row in rows && row.end.Some? && Covers(row, t)
  }

  lemma {:induction false} OrderKept(events: seq<Timed>)
    requires TimeOrdered(events)
    ensures TimeOrdered(WithoutRepeated(events))
  {
    if events != [] {
      hide Repeated;
      var front, last := events[..|events| - 1], events[|events| - 1];
      OrderKept(front);
      var r := WithoutRepeated(front);
      forall i | 0 <= i < |r|
        ensures r[i].at <= last.at
      {
        assert r[i] in front;
      }
    }
  }

  lemma {:induction false} RowsCoverRecords(s: Recorder.RecorderState, records: seq<UsageSessionRecord>, t: Instant)
    requires Recorder.Agree(s, records)
    ensures Covered(s.rows, t) <==> Recorded(records, s.tracker.openSince, t)
  {
    if row :| row in s.rows && Covers(row, t) {
      var i :| 0 <= i < |s.rows| && s.rows[i] == row;
      if i < |records| {
        RowIsRecord(s, records, i);
      }
    }
    if i :| 0 <= i < |records| && records[i].start <= t < records[i].end {
      RowIsRecord(s, records, i);
      assert s.rows[i] in s.rows && Covers(s.rows[i], t);
    }
    if s.tracker.openSince.Some? && s.tracker.openSince.value <= t {
      assert s.rows[|s.rows| - 1] in s.rows && Covers(s.rows[|s.rows| - 1], t);
    }
  }

  lemma {:induction false} RowIsRecord(s: Recorder.RecorderState, records: seq<UsageSessionRecord>, i: nat)
    requires Recorder.Agree(s, records) && i < |records|
    ensures i < |s.rows| && s.rows[i].start == records[i].start && s.rows[i].end == Some(records[i].end)
  {
    if s.openSessionId.Some? {
      var front := s.rows[..|s.rows| - 1];
      assert Recorder.Over(front[i]) && front[i] == s.rows[i];
    } else {
      assert Recorder.Over(s.rows[i]);
    }
  }

  lemma {:induction false} ClosedRowsCover(s: Recorder.RecorderState, records: seq<UsageSessionRecord>, t: Instant)
    requires Recorder.Agree(s, records)
    ensures CoveredByClosed(s.rows, t) <==> Recorded(records, None, t)
  {
    if row :| row in s.rows && row.end.Some? && Covers(row, t) {
      var i :| 0 <= i < |s.rows| && s.rows[i] == row;
      assert i < |records|;
      RowIsRecord(s, records, i);
    }
    if i :| 0 <= i < |records| && records[i].start <= t < records[i].end {
      RowIsRecord(s, records, i);
      assert s.rows[i] in s.rows && Covers(s.rows[i], t);
    }
  }

  lemma {:induction false} RecordedEither(a: seq<UsageSessionRecord>, b: seq<UsageSessionRecord>, open: Option<Instant>, t: Instant)
    ensures Recorded(a + b, open, t) <==> Recorded(a, None, t) || Recorded(b, open, t)
  {
    if i :| 0 <= i < |a| && a[i].start <= t < a[i].end {
      assert (a + b)[i] == a[i];
    }
    if i :| 0 <= i < |b| && b[i].start <= t < b[i].end {
      assert (a + b)[|a| + i] == b[i];
    }
  }

  /** In use, by the events since the start; with an open span handed on, also from its start up to the first of them. */
  ghost predicate InUseSince(open: Option<Instant>, events: seq<Timed>, t: Instant) {
    if open.Some? then open.value <= t && ResumedInUse(events, HappenedBy(events, t)) else InUseAt(events, t)
  }

  lemma {:induction false} SinceIsInUse(open: Option<Instant>, events: seq<Timed>, t: Instant)
    requires TimeOrdered(events) && (open.Some? && events != [] ==> open.value <= events[0].at)
    ensures Recorded(RecordedSince(open, events), TrackedSince(open, events).openSince, t) <==> InUseSince(open, events, t)
  {
    hide Recorded, InUseAt, ResumedInUse;
    if open.Some? {
      ResumedIsInUse(open.value, events, t);
    } else {
      RecordedIsInUse(events, t);
    }
  }

  /**
    Main result: after any run that has just started the agent and then time-ordered notifications, some row covers an
    instant exactly when a row closed before covers it or, by the notifications without repeated logons, the device was
    in use then since the start: not suspended, and some session visible.
  */
  lemma {:induction false} RowsAreUse(before: seq<Recorder.Op>, run: seq<Recorder.Op>, t: Instant)
    requires JustStarted(before) && Undisturbed(run) && Recorder.FreshIds(before + run) && TimeOrdered(EventsOf(run))
    requires var open := Recorder.StateAfter(before).tracker.openSince; open.Some? ==> forall i :: 0 <= i < |run| ==> open.value <= run[i].at
    ensures var s := Recorder.StateAfter(before);
            Covered(Recorder.StateAfter(before + run).rows, t)
            <==> CoveredByClosed(s.rows, t) || InUseSince(s.tracker.openSince, WithoutRepeated(EventsOf(run)), t)
  {
    hide Recorder.FreshIds, Recorder.Agree, TimeOrdered, Recorder.StateAfter, Recorder.RecordsDuring, Covered, CoveredByClosed,
         Recorded, InUseSince, TrackedSince, RecordedSince, JustStarted, WithoutRepeated;
    var open, events := Recorder.StateAfter(before).tracker.openSince, WithoutRepeated(EventsOf(run));
    FreshBefore(before, run);
    Recorder.StoreAgreesInEveryRun(before);
    Recorder.StoreAgreesInEveryRun(before + run);
    RecorderFollowsEvents(before, run);
    OrderKept(EventsOf(run));
    if events != [] {
      assert events[0] in events && events[0] in EventsOf(run);
    }
    SinceIsInUse(open, events, t);
    RecordedEither(Recorder.RecordsDuring(before), RecordedSince(open, events), TrackedSince(open, events).openSince, t);
    ClosedRowsCover(Recorder.StateAfter(before), Recorder.RecordsDuring(before), t);
    RowsCoverRecords(Recorder.StateAfter(before + run), Recorder.RecordsDuring(before + run), t);
  }

  lemma {:induction false} FreshBefore(before: seq<Recorder.Op>, run: seq<Recorder.Op>)
    requires Recorder.FreshIds(before + run)
    ensures Recorder.FreshIds(before)
  {
    hide Recorder.StateAfter;
    forall i | 0 <= i < |before|
      ensures (before + run)[..i] == before[..i] && (before + run)[i] == before[i]
    {}
  }

  /** From an empty store, some row covers an instant exactly when the device was in use then. */
  lemma {:induction false} StoredIsInUse(run: seq<Recorder.Op>, t: Instant)
    requires Undisturbed(run) && Recorder.FreshIds(run) && TimeOrdered(EventsOf(run))
    ensures Covered(Recorder.StateAfter(run).rows, t) <==> InUseAt(WithoutRepeated(EventsOf(run)), t)
  {
    hide Recorder.FreshIds, EventsOf, TimeOrdered, Recorder.StateAfter, Covers, InUseAt;
    NothingStoredYet();
    assert [] + run == run;
    RowsAreUse([], run, t);
  }

  // ---------------------------------------------------------------- a clean stop

  /** A clean stop ends the open row, and no other, at the time of the stop, and says so. */
  lemma {:induction false} StopClosesOpenRow(run: seq<Recorder.Op>, at: Instant)
    requires Recorder.FreshIds(run)
    ensures var before, after := Recorder.StateAfter(run).rows, Recorder.ShutDown(Recorder.StateAfter(run), at).rows;
            && |after| == |before|
            && forall i :: 0 <= i < |before| ==>
                 after[i] == if before[i].end.None? then before[i].(end := Some(at), endReason := Some(AGENT_SHUTDOWN)) else before[i]
  {
    hide Recorder.FreshIds, Recorder.StateAfter;
    Recorder.AtMostOneOpenRow(run);
    Recorder.StoreAgreesInEveryRun(run);
    OthersHaveOtherIds(Recorder.StateAfter(run), Recorder.RecordsDuring(run));
  }

  lemma {:induction false} OthersHaveOtherIds(s: Recorder.RecorderState, records: seq<UsageSessionRecord>)
    requires Recorder.Agree(s, records)
    ensures s.openSessionId.Some? ==> forall i :: 0 <= i < |s.rows| ==> (s.rows[i].id == s.openSessionId.value <==> i == |s.rows| - 1)
  {}

  /** After a clean stop the rows cover the instants in use before it. */
  lemma {:induction false} StoppedIsInUse(run: seq<Recorder.Op>, at: Instant, t: Instant)
    requires Undisturbed(run) && Recorder.FreshIds(run) && TimeOrdered(EventsOf(run))
    requires forall i :: 0 <= i < |run| ==> run[i].at <= at
    ensures Covered(Recorder.StateAfter(run + [Recorder.StoppedCleanly(at)]).rows, t)
       <==> t < at && InUseAt(WithoutRepeated(EventsOf(run)), t)
  {
    hide Recorder.StateAfter, Recorder.ShutDown, Recorder.FreshIds, InUseAt, Undisturbed, TimeOrdered, EventsOf;
    var s, s' := Recorder.StateAfter(run), Recorder.ShutDown(Recorder.StateAfter(run), at);
    StateAfterStop(run, at);
    StopClosesOpenRow(run, at);
    StoredIsInUse(run, t);
    RowsEndBefore(run, at);
    if row :| row in s'.rows && Covers(row, t) {
      var i :| 0 <= i < |s'.rows| && s'.rows[i] == row;
      assert s.rows[i] in s.rows && Covers(s.rows[i], t);
    }
    if t < at && Covered(s.rows, t) {
      var row :| row in s.rows && Covers(row, t);
      var i :| 0 <= i < |s.rows| && s.rows[i] == row;
      assert s'.rows[i] in s'.rows && Covers(s'.rows[i], t);
    }
  }

  lemma {:induction false} StateAfterStop(run: seq<Recorder.Op>, at: Instant)
    ensures Recorder.StateAfter(run + [Recorder.StoppedCleanly(at)]) == Recorder.ShutDown(Recorder.StateAfter(run), at)
  {
    hide Recorder.ShutDown, Recorder.StateAfter;
    RecorderStep(run, Recorder.StoppedCleanly(at));
  }

  lemma {:induction false} RowsEndBefore(run: seq<Recorder.Op>, at: Instant)
    requires Undisturbed(run) && Recorder.FreshIds(run) && TimeOrdered(EventsOf(run))
    requires forall i :: 0 <= i < |run| ==> run[i].at <= at
    ensures forall row :: row in Recorder.StateAfter(run).rows && row.end.Some? ==> row.end.value <= at
  {
    hide Recorder.FreshIds, Recorder.StateAfter, Recorder.RecordsDuring, StateAfter, RecordsAfter, InOrder;
    var events := WithoutRepeated(EventsOf(run));
    forall i | 0 <= i < |events|
      ensures events[i].at <= at
    {
      assert events[i] in EventsOf(run);
    }
    Recorder.StoreAgreesInEveryRun(run);
    NothingStoredYet();
    assert [] + run == run;
    RecorderFollowsEvents([], run);
    OrderKept(EventsOf(run));
    RecordsInOrder(events, at);
    EndsOfRows(Recorder.StateAfter(run), RecordsAfter(events), at);
  }

  lemma {:induction false} EndsOfRows(s: Recorder.RecorderState, records: seq<UsageSessionRecord>, at: Instant)
    requires Recorder.Agree(s, records) && WithinNow(records, s.tracker.openSince, at)
    ensures forall row :: row in s.rows && row.end.Some? ==> row.end.value <= at
  {
    forall row | row in s.rows && row.end.Some?
      ensures row.end.value <= at
    {
      var i :| 0 <= i < |s.rows| && s.rows[i] == row;
      if i < |records| {
        RowIsRecord(s, records, i);
      }
    }
  }
}
