/** Tracked usage time is the real usage time. */
module UsageTime {
  import opened Lists
  import opened UsageTracker

  lemma {:induction false} VisibleStep(events: seq<Timed>, id: SessionId)
    requires events != []
    ensures var n, last := |events| - 1, events[|events| - 1].event;
            VisibleAfter(events, n + 1, id) <==> Shows(last, id) || (!Concerns(last, id) && VisibleAfter(events[..n], n, id))
  {
    var n, last := |events| - 1, events[|events| - 1].event;
    if Shows(last, id) {
      assert Shows(events[n].event, id);
    } else if !Concerns(last, id) && VisibleAfter(events[..n], n, id) {
      var j :| 0 <= j < n && Shows(events[..n][j].event, id) && forall k :: j < k < n ==> !Concerns(events[..n][k].event, id);
      assert Shows(events[j].event, id);
      assert forall k :: j < k < n ==> events[..n][k] == events[k];
    }
    if VisibleAfter(events, n + 1, id) {
      var j :| 0 <= j < n + 1 && Shows(events[j].event, id) && forall k :: j < k < n + 1 ==> !Concerns(events[k].event, id);
      if j < n {
        assert Shows(events[..n][j].event, id);
      }
    }
  }

  lemma {:induction false} SuspendedStep(events: seq<Timed>)
    requires events != []
    ensures var n, last := |events| - 1, events[|events| - 1].event;
            SuspendedAfter(events, n + 1) <==> last == Suspend || (last != Resume && SuspendedAfter(events[..n], n))
  {
    var n, last := |events| - 1, events[|events| - 1].event;
    if last == Suspend {
      assert events[n].event == Suspend;
    } else if last != Resume && SuspendedAfter(events[..n], n) {
      var j :| 0 <= j < n && events[..n][j].event == Suspend && forall k :: j < k < n ==> events[..n][k].event != Resume;
      assert events[j].event == Suspend;
      assert forall k :: j < k < n ==> events[..n][k] == events[k];
    }
    if SuspendedAfter(events, n + 1) {
      var j :| 0 <= j < n + 1 && events[j].event == Suspend && forall k :: j < k < n + 1 ==> events[k].event != Resume;
      if j < n {
        assert events[..n][j].event == Suspend;
      }
    }
  }

  lemma {:induction false} ObservedVisible(s: TrackerState, event: SessionEvent, id: SessionId)
    ensures var v := (x: TrackerState) => id in x.sessions && x.sessions[id];
            v(Observed(s, event)) <==> Shows(event, id) || (!Concerns(event, id) && v(s))
  {}

  lemma {:induction false} AppliedFields(s: TrackerState, event: SessionEvent, at: Instant)
    ensures var s' := Applied(s, event, at);
            && s'.sessions == Observed(s, event).sessions && s'.suspended == Observed(s, event).suspended
            && (s'.openSince.Some? <==> AnyVisible(Observed(s, event)))
  {
    hide Observed;
  }

  lemma {:induction false} VisibleAgrees(events: seq<Timed>, id: SessionId)
    ensures (id in StateAfter(events).sessions && StateAfter(events).sessions[id]) <==> VisibleAfter(events, |events|, id)
  {
    if events != [] {
      hide Applied, VisibleAfter;
      var front, last := events[..|events| - 1], events[|events| - 1];
      VisibleAgrees(front, id);
      VisibleStep(events, id);
      ObservedVisible(StateAfter(front), last.event, id);
      AppliedFields(StateAfter(front), last.event, last.at);
    }
  }

  lemma {:induction false} SuspendedAgrees(events: seq<Timed>)
    ensures StateAfter(events).suspended <==> SuspendedAfter(events, |events|)
  {
    if events != [] {
      hide Applied, SuspendedAfter;
      var front, last := events[..|events| - 1], events[|events| - 1];
      SuspendedAgrees(front);
      SuspendedStep(events);
      AppliedFields(StateAfter(front), last.event, last.at);
    }
  }

  /** The tracker has an open span exactly when, as the events say, some session is visible and power is not suspended. */
  lemma {:induction false} TrackerAgrees(events: seq<Timed>)
    ensures StateAfter(events).openSince.Some? <==> InUse(events, |events|)
  {
    if events != [] {
      hide Applied, VisibleAfter, SuspendedAfter, Observed;
      var front, last := events[..|events| - 1], events[|events| - 1];
      AppliedFields(StateAfter(front), last.event, last.at);
      SuspendedAgrees(events);
      forall id
        ensures (id in StateAfter(events).sessions && StateAfter(events).sessions[id]) <==> VisibleAfter(events, |events|, id)
      {
        VisibleAgrees(events, id);
      }
    }
  }

  /** What held after the first `n` events does not depend on later ones. */
  lemma {:induction false} InUsePrefix(events: seq<Timed>, m: nat, n: nat)
    requires n <= m <= |events|
    ensures InUse(events[..m], n) <==> InUse(events, n)
  {
    var front := events[..m];
    forall id
      ensures VisibleAfter(front, n, id) <==> VisibleAfter(events, n, id)
    {
      if VisibleAfter(front, n, id) {
        var j :| 0 <= j < n && Shows(front[j].event, id) && forall k :: j < k < n ==> !Concerns(front[k].event, id);
        assert Shows(events[j].event, id) && forall k :: j < k < n ==> front[k] == events[k];
      }
      if VisibleAfter(events, n, id) {
        var j :| 0 <= j < n && Shows(events[j].event, id) && forall k :: j < k < n ==> !Concerns(events[k].event, id);
        assert Shows(front[j].event, id) && forall k :: j < k < n ==> front[k] == events[k];
      }
    }
    if SuspendedAfter(front, n) {
      var j :| 0 <= j < n && front[j].event == Suspend && forall k :: j < k < n ==> front[k].event != Resume;
      assert events[j].event == Suspend && forall k :: j < k < n ==> front[k] == events[k];
    }
    if SuspendedAfter(events, n) {
      var j :| 0 <= j < n && events[j].event == Suspend && forall k :: j < k < n ==> events[k].event != Resume;
      assert front[j].event == Suspend && forall k :: j < k < n ==> front[k] == events[k];
    }
  }

  lemma {:induction false} AllHappened(events: seq<Timed>, t: Instant)
    requires forall i :: 0 <= i < |events| ==> events[i].at <= t
    ensures HappenedBy(events, t) == |events|
  {
    if events != [] {
      AllHappened(events[..|events| - 1], t);
    }
  }

  // ---------------------------------------------------------------- the records in time

  ghost predicate InOrder(records: seq<UsageSessionRecord>) {
    && (forall i :: 0 <= i < |records| ==> records[i].start <= records[i].end)
    && forall i, j :: 0 <= i < j < |records| ==> records[i].end <= records[j].start
  }

  lemma {:induction false} RecordedAppend(records: seq<UsageSessionRecord>, r: UsageSessionRecord, open: Option<Instant>, t: Instant)
    ensures Recorded(records + [r], open, t) <==> Recorded(records, open, t) || r.start <= t < r.end
  {
    if i :| 0 <= i < |records| && records[i].start <= t < records[i].end {
      assert (records + [r])[i] == records[i];
    }
    assert (records + [r])[|records|] == r;
  }

  /** The bounds kept by the records and the open span up to `now`. */
  ghost predicate WithinNow(records: seq<UsageSessionRecord>, open: Option<Instant>, now: Instant) {
    && InOrder(records) && (open.Some? ==> open.value <= now)
    && forall i :: 0 <= i < |records| ==> records[i].end <= if open.Some? then open.value else now
  }

  /** What one event at `at` does to the recorded time: nothing before `at`, and after it all or nothing. */
  lemma {:induction false} TransitionRecords(records: seq<UsageSessionRecord>, s: TrackerState, at: Instant, reason: Option<EndReason>, t: Instant)
    requires WithinNow(records, s.openSince, at)
    ensures var transition, open' := TransitionOf(s, at, reason), Recomputed(s, at).openSince;
            var records' := records + if transition.Ended? then [transition.record] else [];
            && WithinNow(records', open', at)
            && (t < at ==> (Recorded(records', open', t) <==> Recorded(records, s.openSince, t)))
            && (at <= t ==> (Recorded(records', open', t) <==> open'.Some?))
  {
    hide AnyVisible;
    var transition := TransitionOf(s, at, reason);
    if transition.Ended? {
      RecordedAppend(records, transition.record, None, t);
    } else {
      assert records + [] == records;
    }
  }

  lemma {:induction false} RecordsStep(front: seq<Timed>, last: Timed)
    ensures var events, s := front + [last], Observed(StateAfter(front), last.event);
            var transition := TransitionOf(s, last.at, ReasonFor(last.event));
            && RecordsAfter(events) == RecordsAfter(front) + (if transition.Ended? then [transition.record] else [])
            && StateAfter(events).openSince == Recomputed(s, last.at).openSince
            && s.openSince == StateAfter(front).openSince
  {
    assert (front + [last])[..|front|] == front;
  }

  lemma {:induction false} WithinLater(records: seq<UsageSessionRecord>, open: Option<Instant>, now: Instant, later: Instant)
    requires WithinNow(records, open, now) && now <= later
    ensures WithinNow(records, open, later)
  {}

  /** Records are ordered and disjoint, and an open span starts after all of them; nothing lies in the future. */
  lemma {:induction false} RecordsInOrder(events: seq<Timed>, now: Instant)
    requires TimeOrdered(events) && forall i :: 0 <= i < |events| ==> events[i].at <= now
    ensures WithinNow(RecordsAfter(events), StateAfter(events).openSince, now)
  {
    if events != [] {
      hide Observed, TransitionOf, Recomputed, Recorded;
      var front, last := events[..|events| - 1], events[|events| - 1];
      assert events == front + [last];
      RecordsInOrder(front, last.at);
      RecordsStep(front, last);
      TransitionRecords(RecordsAfter(front), Observed(StateAfter(front), last.event), last.at, ReasonFor(last.event), now);
      WithinLater(RecordsAfter(events), StateAfter(events).openSince, last.at, now);
    }
  }

  lemma {:induction false} InUseAtStep(front: seq<Timed>, last: Timed, t: Instant)
    requires forall i :: 0 <= i < |front| ==> front[i].at <= last.at
    ensures t < last.at ==> (InUseAt(front + [last], t) <==> InUseAt(front, t))
    ensures last.at <= t ==> (InUseAt(front + [last], t) <==> InUse(front + [last], |front| + 1))
  {
    hide InUse;
    var events := front + [last];
    assert events[..|front|] == front;
    if last.at <= t {
      AllHappened(front, t);
    } else {
      InUsePrefix(events, |front|, HappenedBy(front, t));
    }
  }

  /**
    Main result: an instant is in a record, or in the open span, exactly when at that instant the device is not
    suspended and some session is visible.
  */
  lemma {:induction false} RecordedIsInUse(events: seq<Timed>, t: Instant)
    requires TimeOrdered(events)
    ensures Recorded(RecordsAfter(events), StateAfter(events).openSince, t) <==> InUseAt(events, t)
  {
    if events == [] {
      assert !InUse(events, 0);
    } else {
      hide InUse, InUseAt, Observed, TransitionOf, Recomputed, Recorded, WithinNow;
      var front, last := events[..|events| - 1], events[|events| - 1];
      assert events == front + [last];
      RecordedIsInUse(front, t);
      TrackerAgrees(events);
      RecordsInOrder(front, last.at);
      RecordsStep(front, last);
      TransitionRecords(RecordsAfter(front), Observed(StateAfter(front), last.event), last.at, ReasonFor(last.event), t);
      InUseAtStep(front, last, t);
    }
  }

  // ---------------------------------------------------------------- lengths

  /** How much of a span lies before `t`. */
  function Before(start: Instant, end: Instant, t: Instant): int {
    if t <= start then 0 else if t <= end then t - start else end - start
  }

  function LengthBefore(records: seq<UsageSessionRecord>, t: Instant): int {
    if records == [] then 0
    else LengthBefore(records[..|records| - 1], t) + Before(records[|records| - 1].start, records[|records| - 1].end, t)
  }

  function OpenBefore(open: Option<Instant>, t: Instant): int {
    if open.Some? && open.value < t then t - open.value else 0
  }

  lemma {:induction false} LengthStep(records: seq<UsageSessionRecord>, t: Instant)
    requires InOrder(records)
    ensures LengthBefore(records, t + 1) == LengthBefore(records, t) + if Recorded(records, None, t) then 1 else 0
  {
    if records != [] {
      var front, last := records[..|records| - 1], records[|records| - 1];
      LengthStep(front, t);
      RecordedAppend(front, last, None, t);
      assert records == front + [last];
    }
  }

  lemma {:induction false} OpenOrRecorded(records: seq<UsageSessionRecord>, open: Option<Instant>, now: Instant, t: Instant)
    requires WithinNow(records, open, now)
    ensures Recorded(records, open, t) <==> Recorded(records, None, t) || (open.Some? && open.value <= t)
    ensures !(Recorded(records, None, t) && open.Some? && open.value <= t)
  {}

  lemma {:induction false} LengthAtEnds(records: seq<UsageSessionRecord>, from: Instant, until: Instant)
    requires InOrder(records)
    requires forall i :: 0 <= i < |records| ==> from <= records[i].start && records[i].end <= until
    ensures LengthBefore(records, from) == 0 && LengthBefore(records, until) == TotalLength(records)
  {
    if records != [] {
      LengthAtEnds(records[..|records| - 1], from, until);
    }
  }

  lemma {:induction false} StartsNotBefore(events: seq<Timed>, from: Instant)
    requires forall i :: 0 <= i < |events| ==> from <= events[i].at
    ensures forall i :: 0 <= i < |RecordsAfter(events)| ==> from <= RecordsAfter(events)[i].start
    ensures StateAfter(events).openSince.Some? ==> from <= StateAfter(events).openSince.value
  {
    if events != [] {
      hide Observed, AnyVisible;
      var front, last := events[..|events| - 1], events[|events| - 1];
      assert events == front + [last];
      StartsNotBefore(front, from);
      RecordsStep(front, last);
    }
  }

  lemma {:induction false} CountUpTo(events: seq<Timed>, now: Instant, from: Instant, until: Instant)
    requires TimeOrdered(events) && from <= until
    requires WithinNow(RecordsAfter(events), StateAfter(events).openSince, now)
    ensures InstantsInUse(events, from, until)
         == LengthBefore(RecordsAfter(events), until) + OpenBefore(StateAfter(events).openSince, until)
            - LengthBefore(RecordsAfter(events), from) - OpenBefore(StateAfter(events).openSince, from)
    decreases until - from
  {
    if from < until {
      hide RecordsAfter, StateAfter, InUseAt, Recorded, LengthBefore;
      var records, open := RecordsAfter(events), StateAfter(events).openSince;
      CountUpTo(events, now, from, until - 1);
      LengthStep(records, until - 1);
      OpenOrRecorded(records, open, now, until - 1);
      RecordedIsInUse(events, until - 1);
    }
  }

  /**
    Recorded lengths add up: over any span that contains all the events, the number of instants in use is the total
    length of the records plus that of the open span so far.
  */
  lemma {:induction false} UsageAddsUp(events: seq<Timed>, from: Instant, until: Instant)
    requires TimeOrdered(events) && from <= until
    requires forall i :: 0 <= i < |events| ==> from <= events[i].at <= until
    ensures InstantsInUse(events, from, until)
         == TotalLength(RecordsAfter(events))
            + if StateAfter(events).openSince.Some? then until - StateAfter(events).openSince.value else 0
  {
    hide RecordsAfter, StateAfter, LengthBefore, TotalLength, InstantsInUse;
    RecordsInOrder(events, until);
    StartsNotBefore(events, from);
    CountUpTo(events, until, from, until);
    LengthAtEnds(RecordsAfter(events), from, until);
  }

  // ---------------------------------------------------------------- one record for each maximal run of use

  /** In use after each event from `a` up to the one before `b`, and neither before `a` nor after `b`. */
  ghost predicate UseRun(events: seq<Timed>, a: nat, b: nat) {
    && a < b < |events| && !InUse(events, a) && !InUse(events, b + 1)
    && forall k :: a < k <= b ==> InUse(events, k)
  }

  ghost predicate OpenRun(events: seq<Timed>, a: nat) {
    && a < |events| && !InUse(events, a)
    && forall k :: a < k <= |events| ==> InUse(events, k)
  }

  function RecordOf(events: seq<Timed>, a: nat, b: nat): UsageSessionRecord
    requires a < |events| && b < |events|
  {
    UsageSessionRecord(events[a].at, events[b].at, if ReasonFor(events[b].event).Some? then ReasonFor(events[b].event).value else LOGOFF)
  }

  /** The positions of the events that start and end a run. */
  datatype Span = Span(first: nat, last: nat)

  ghost predicate RunsMatch(events: seq<Timed>, runs: seq<Span>) {
    && |runs| == |RecordsAfter(events)|
    && (forall i :: 0 <= i < |runs| ==> UseRun(events, runs[i].first, runs[i].last))
    && (forall i :: 0 <= i < |runs| ==> runs[i].first < |events| && runs[i].last < |events|)
    && (forall i :: 0 <= i < |runs| ==> RecordsAfter(events)[i] == RecordOf(events, runs[i].first, runs[i].last))
    && (forall i, j :: 0 <= i < j < |runs| ==> runs[i].last < runs[j].first)
    && (forall a: nat, b: nat :: UseRun(events, a, b) ==> Span(a, b) in runs)
  }

  lemma {:induction false} UseRunPrefix(front: seq<Timed>, last: Timed, a: nat, b: nat)
    requires b < |front|
    ensures UseRun(front + [last], a, b) <==> UseRun(front, a, b)
  {
    hide InUse;
    var events := front + [last];
    assert events[..|front|] == front;
    forall k: nat | k <= |front|
      ensures InUse(events, k) <==> InUse(front, k)
    {
      InUsePrefix(events, |front|, k);
    }
  }

  lemma {:induction false} OpenRunStep(front: seq<Timed>, last: Timed, a: nat)
    ensures var events := front + [last];
            && (a < |front| ==> (OpenRun(events, a) <==> OpenRun(front, a) && InUse(events, |events|)))
            && (a < |front| ==> (UseRun(events, a, |front|) <==> OpenRun(front, a) && !InUse(events, |events|)))
            && (OpenRun(events, |front|) <==> !InUse(front, |front|) && InUse(events, |events|))
  {
    hide InUse;
    var events := front + [last];
    assert events[..|front|] == front;
    forall k: nat | k <= |front|
      ensures InUse(events, k) <==> InUse(front, k)
    {
      InUsePrefix(events, |front|, k);
    }
    if a < |front| && OpenRun(events, a) {
      assert forall k :: a < k <= |front| ==> InUse(front, k);
    }
    if a < |front| && UseRun(events, a, |front|) {
      assert forall k :: a < k <= |front| ==> InUse(front, k);
    }
  }

  /** The open run is the only one, and it starts with the event that opened the tracker's span. */
  lemma {:induction false} OpenRunFound(events: seq<Timed>) returns (a: nat)
    requires StateAfter(events).openSince.Some?
    ensures OpenRun(events, a) && StateAfter(events).openSince == Some(events[a].at)
    ensures forall b: nat :: OpenRun(events, b) ==> b == a
  {
    hide InUse, Observed, AnyVisible;
    var front, last := events[..|events| - 1], events[|events| - 1];
    assert events == front + [last];
    TrackerAgrees(front);
    TrackerAgrees(events);
    RecordsStep(front, last);
    if StateAfter(front).openSince.Some? {
      a := OpenRunFound(front);
    } else {
      a := |front|;
    }
    OpenRunStep(front, last, a);
    forall b: nat | OpenRun(events, b)
      ensures b == a
    {
      OpenRunStep(front, last, b);
      TrackerAgrees(front);
    }
  }

  lemma {:induction false} RunsMatchKept(front: seq<Timed>, last: Timed, runs: seq<Span>)
    requires RunsMatch(front, runs) && RecordsAfter(front + [last]) == RecordsAfter(front)
    requires forall a: nat :: !UseRun(front + [last], a, |front|)
    ensures RunsMatch(front + [last], runs)
  {
    hide UseRun;
    forall a: nat, b: nat
      ensures b < |front| ==> (UseRun(front + [last], a, b) <==> UseRun(front, a, b))
      ensures UseRun(front + [last], a, b) ==> b <= |front|
    {
      UseRunBounds(front + [last], a, b);
      if b < |front| {
        UseRunPrefix(front, last, a, b);
      }
    }
  }

  lemma {:induction false} UseRunBounds(events: seq<Timed>, a: nat, b: nat)
    ensures UseRun(events, a, b) ==> a < b < |events|
  {}

  lemma {:induction false} RunsMatchGrows(front: seq<Timed>, last: Timed, runs: seq<Span>, a: nat)
    requires RunsMatch(front, runs) && a < |front|
    requires RecordsAfter(front + [last]) == RecordsAfter(front) + [RecordOf(front + [last], a, |front|)]
    requires UseRun(front + [last], a, |front|) && forall x: nat :: UseRun(front + [last], x, |front|) ==> x == a
    requires forall i :: 0 <= i < |runs| ==> runs[i].last < a
    ensures RunsMatch(front + [last], runs + [Span(a, |front|)])
  {
    hide UseRun;
    forall x: nat, b: nat
      ensures b < |front| ==> (UseRun(front + [last], x, b) <==> UseRun(front, x, b))
      ensures UseRun(front + [last], x, b) ==> b <= |front|
    {
      UseRunBounds(front + [last], x, b);
      if b < |front| {
        UseRunPrefix(front, last, x, b);
      }
    }
    forall x: nat, b: nat | UseRun(front + [last], x, b)
      ensures Span(x, b) in runs + [Span(a, |front|)]
    {
      if b < |front| {
        assert Span(x, b) in runs;
      } else {
        assert (runs + [Span(a, |front|)])[|runs|] == Span(x, b);
      }
    }
  }

  /** A run that is over lies before an open one. */
  lemma {:induction false} RunBeforeOpen(events: seq<Timed>, a: nat, b: nat, open: nat)
    requires UseRun(events, a, b) && OpenRun(events, open)
    ensures b < open
  {
    hide InUse;
    assert b + 1 <= |events| && !InUse(events, b + 1);
  }

  /**
    Main result: the records are exactly the maximal runs of use, one each, in order: the matching positions of the
    events that started and ended them.
  */
  lemma {:induction false} RecordsAreMaximalRuns(events: seq<Timed>) returns (runs: seq<Span>)
    ensures RunsMatch(events, runs)
  {
    hide InUse, Observed, AnyVisible, UseRun, OpenRun;
    if events == [] {
      runs := [];
      forall a: nat, b: nat
        ensures !UseRun(events, a, b)
      {
        UseRunBounds(events, a, b);
      }
    } else {
      var front, last := events[..|events| - 1], events[|events| - 1];
      assert events == front + [last];
      runs := RecordsAreMaximalRuns(front);
      RecordsStep(front, last);
      TrackerAgrees(front);
      TrackerAgrees(events);
      forall a: nat
        ensures UseRun(events, a, |front|) ==> a < |front| && OpenRun(front, a) && !InUse(events, |events|)
        ensures a < |front| && OpenRun(front, a) && !InUse(events, |events|) ==> UseRun(events, a, |front|)
      {
        UseRunBounds(events, a, |front|);
        OpenRunStep(front, last, a);
      }
      if AppliedTransition(StateAfter(front), last.event, last.at).Ended? {
        var a := OpenRunFound(front);
        OpenRunBounds(front, a);
        forall i | 0 <= i < |runs|
          ensures runs[i].last < a
        {
          RunBeforeOpen(front, runs[i].first, runs[i].last, a);
        }
        RunsMatchGrows(front, last, runs, a);
        runs := runs + [Span(a, |front|)];
      } else {
        NoOpenRunWhenIdle(front);
        RunsMatchKept(front, last, runs);
      }
    }
  }

  lemma {:induction false} OpenRunBounds(events: seq<Timed>, a: nat)
    requires OpenRun(events, a)
    ensures a < |events|
  {}

  lemma {:induction false} NoOpenRunWhenIdle(events: seq<Timed>)
    ensures !InUse(events, |events|) ==> forall a: nat :: !OpenRun(events, a)
  {
    hide InUse;
  }

  // ---------------------------------------------------------------- what starts and ends a run

  /** Only a lock, a logoff, a disconnection or a suspend can end use, and none of these can start it. */
  lemma {:induction false} UseStep(events: seq<Timed>, n: nat)
    requires n < |events|
    ensures InUse(events, n) && !InUse(events, n + 1) ==>
              var e := events[n].event; e.Lock? || e.Logoff? || e.ConsoleDisconnect? || e.RemoteDisconnect? || e == Suspend
    ensures !InUse(events, n) && InUse(events, n + 1) ==>
              var e := events[n].event; e.Logon? || e.Unlock? || e.ConsoleConnect? || e.RemoteConnect? || e == Resume
  {
    hide VisibleAfter, SuspendedAfter;
    var first, e := events[..n + 1], events[n].event;
    assert first[..n] == events[..n];
    SuspendedStep(first);
    forall id
      ensures VisibleAfter(first, n + 1, id) <==> Shows(e, id) || (!Concerns(e, id) && VisibleAfter(events[..n], n, id))
    {
      VisibleStep(first, id);
    }
    InUsePrefix(events, n + 1, n + 1);
    InUsePrefix(events, n, n);
    if InUse(first, n + 1) && !InUse(events[..n], n) {
      var id :| VisibleAfter(first, n + 1, id);
      assert Shows(e, id) || VisibleAfter(events[..n], n, id);
    }
  }

  /** The record of a run: from the event that made the device in use to the one that ended it, which gives the reason. */
  lemma {:induction false} RunRecord(events: seq<Timed>, a: nat, b: nat)
    requires UseRun(events, a, b)
    ensures var r, began := RecordOf(events, a, b), events[a].event;
            && r.start == events[a].at && r.end == events[b].at
            && (began.Logon? || began.Unlock? || began.ConsoleConnect? || began.RemoteConnect? || began == Resume)
            && match r.endReason
               case LOCK => events[b].event.Lock?
               case LOGOFF => events[b].event.Logoff?
               case SUSPEND => events[b].event.Suspend?
               case CONSOLE_DISCONNECT => events[b].event.ConsoleDisconnect?
               case REMOTE_DISCONNECT => events[b].event.RemoteDisconnect?
               case AGENT_RESTART => false
               case AGENT_SHUTDOWN => false
  {
    hide InUse;
    assert InUse(events, a + 1) && InUse(events, b);
    UseStep(events, a);
    UseStep(events, b);
  }
}
