/** Events are delivered as they were enqueued, and the agent's loop over a batch is a run of the protocol's steps. */
module DeliveredEvents {
  import opened Lists
  import opened EventQueue
  import opened EventStore
  import opened Delivery

  // ---------------------------------------------------------------- whole events, not only their ids

  /** The events handed to the queue by the first `n` steps. */
  function EnqueuedBy(labels: seq<Label>, n: nat): set<QueuedEvent>
    requires n <= |labels|
  {
    set i | 0 <= i < n && labels[i].Enqueue? :: labels[i].event
  }

  /** Every event in the queue, in a request or in the store is one of `events`, body and all. */
  ghost predicate Genuine(s: State, events: set<QueuedEvent>) {
    && (forall r :: r in s.queue.rows ==> r.event in events)
    && (forall q, i :: 0 <= q < |s.requests| && 0 <= i < |s.requests[q]| ==> s.requests[q][i] in events)
    && (forall e :: e in s.store ==> e in events)
  }

  lemma {:induction false} StoreMembers(store: seq<QueuedEvent>, items: seq<QueuedEvent>)
    ensures forall e :: e in StoreAfter(store, items) ==> e in store || e in items
  {
    if items != [] {
      StoreMembers(store, items[..|items| - 1]);
      hide Stored;
    }
  }

  lemma {:induction false} EnqueueGenuine(s: State, event: QueuedEvent, now: Instant, s': State, events: set<QueuedEvent>)
    requires Safe(s) && Genuine(s, events) && Next(s, Enqueue(event, now), s')
    ensures Genuine(s', events + {event})
  {
    hide Enqueued, Discarded, Conserved, PhaseOk, RepliesOk, CountsOk, WellFormed, NoDuplicates;
    EnqueueKeepsTable(s, event, now);
  }

  lemma {:induction false} FetchGenuine(s: State, now: Instant, s': State, events: set<QueuedEvent>)
    requires Safe(s) && Genuine(s, events) && Next(s, Fetch(now), s')
    ensures Genuine(s', events)
  {
    hide DueRows, Conserved, PhaseOk, RepliesOk, CountsOk, WellFormed, NoDuplicates;
    DueRowsAreDue(s.queue, now, EVENT_BATCH_SIZE);
    var rows, sent := DueRows(s.queue, now, EVENT_BATCH_SIZE), s'.requests[|s.requests|];
    forall i | 0 <= i < |sent|
      ensures sent[i] in events
    {
      assert rows[i] in rows && sent[i] == rows[i].event;
    }
  }

  lemma {:induction false} ItemGenuine(s: State, h: nat, s': State, events: set<QueuedEvent>)
    requires Genuine(s, events) && Next(s, HandleItem(h), s')
    ensures Genuine(s', events)
  {
    hide StoreAfter, ResultsOf;
    var item := s.requests[s.handling[h].request][|s.handling[h].results|];
    StoreMembers(s.store, [item]);
    assert item in events;
  }

  lemma {:induction false} MarkGenuine(s: State, now: Instant, s': State, events: set<QueuedEvent>)
    requires Safe(s) && Genuine(s, events) && Next(s, MarkNext(now), s')
    ensures Genuine(s', events)
  {
    hide AfterMark, Conserved, PhaseOk, RepliesOk, CountsOk, WellFormed, NoDuplicates, Marked;
    MarkedRows(s.queue, s.phase.todo[0], now);
    AfterMarkTable(s, s.phase.todo[0], now);
  }

  lemma {:induction false} StepGenuine(s: State, l: Label, s': State, events: set<QueuedEvent>)
    requires Safe(s) && Genuine(s, events) && Next(s, l, s')
    ensures Genuine(s', if l.Enqueue? then events + {l.event} else events)
  {
    match l {
      case Enqueue(event, now) =>
        hide Safe, Genuine, Next;
        EnqueueGenuine(s, event, now, s', events);
      case Fetch(now) =>
        hide Safe, Genuine, Next;
        FetchGenuine(s, now, s', events);
      case HandleItem(h) =>
        hide Safe, Genuine, Next;
        ItemGenuine(s, h, s', events);
      case MarkNext(now) =>
        hide Safe, Genuine, Next;
        MarkGenuine(s, now, s', events);
      case Deliver(_) =>
        hide Safe;
      case Respond(_) =>
        hide Safe;
      case StopController =>
        hide Safe;
      case Receive(results) =>
        hide Safe;
      case GiveUp =>
        hide Safe;
      case FinishMarking =>
        hide Safe;
      case Crash =>
        hide Safe;
    }
  }

  lemma {:induction false} StepOfRun(states: seq<State>, labels: seq<Label>, n: nat)
    requires Run(states, labels) && n < |labels|
    ensures Safe(states[n]) && Next(states[n], labels[n], states[n + 1])
  {
    hide Next, Safe;
    EveryStateSafe(states, labels, n);
  }

  /** In every reachable state nothing is queued, sent or stored that was not enqueued, body and all. */
  lemma {:induction false} EveryStateGenuine(states: seq<State>, labels: seq<Label>, n: nat)
    requires Run(states, labels) && n <= |labels|
    ensures Genuine(states[n], EnqueuedBy(labels, n))
  {
    if n == 0 {
      hide Next;
      assert states[0] == INITIAL;
    } else {
      hide Next, Genuine, Safe, EnqueuedBy;
      EveryStateGenuine(states, labels, n - 1);
      StepOfRun(states, labels, n - 1);
      StepGenuine(states[n - 1], labels[n - 1], states[n], EnqueuedBy(labels, n - 1));
      EnqueuedStep(labels, n - 1);
    }
  }

  lemma {:induction false} EnqueuedStep(labels: seq<Label>, n: nat)
    requires n < |labels|
    ensures EnqueuedBy(labels, n + 1) == if labels[n].Enqueue? then EnqueuedBy(labels, n) + {labels[n].event} else EnqueuedBy(labels, n)
  {
    var before, after := EnqueuedBy(labels, n), EnqueuedBy(labels, n + 1);
    forall e | e in before
      ensures e in after
    {
      var i :| 0 <= i < n && labels[i].Enqueue? && labels[i].event == e;
      assert 0 <= i < n + 1;
    }
    forall e | e in after
      ensures e in before || labels[n] == Enqueue(e, labels[n].now)
    {
      var i :| 0 <= i < n + 1 && labels[i].Enqueue? && labels[i].event == e;
    }
  }

  /** No id is ever enqueued with two bodies. */
  ghost predicate OneBodyEach(labels: seq<Label>) {
    forall i, j :: 0 <= i < j < |labels| && labels[i].Enqueue? && labels[j].Enqueue? ==>
      labels[i].event.eventId == labels[j].event.eventId ==> labels[i].event == labels[j].event
  }

  lemma {:induction false} SameEvent(labels: seq<Label>, n: nat, d: QueuedEvent, e: QueuedEvent)
    requires OneBodyEach(labels) && n <= |labels| && d in EnqueuedBy(labels, n) && e in EnqueuedBy(labels, n) && d.eventId == e.eventId
    ensures d == e
  {
    var i :| 0 <= i < n && labels[i].Enqueue? && labels[i].event == d;
    var j :| 0 <= j < n && labels[j].Enqueue? && labels[j].event == e;
  }

  lemma {:induction false} StoredWhole(s: State, labels: seq<Label>, n: nat, e: QueuedEvent)
    requires OneBodyEach(labels) && n <= |labels| && Genuine(s, EnqueuedBy(labels, n))
    requires e in EnqueuedBy(labels, n) && Stored(s.store, e.eventId)
    ensures e in s.store
  {
    hide EnqueuedBy, OneBodyEach;
    var i :| 0 <= i < |s.store| && s.store[i].eventId == e.eventId;
    assert s.store[i] in s.store;
    SameEvent(labels, n, s.store[i], e);
  }

  /**
    Main result: if no id is ever enqueued with two bodies, a row taken off the queue as delivered is stored at the
    controller with the body it was enqueued with.
  */
  lemma {:induction false} DeliveredWhole(states: seq<State>, labels: seq<Label>, n: nat, r: Row)
    requires Run(states, labels) && n < |labels| && OneBodyEach(labels)
    requires labels[n].MarkNext? && states[n].phase.Marking? && states[n].phase.todo != [] && states[n].phase.todo[0].verdict == DELIVERED
    requires r in states[n].queue.rows && r !in states[n + 1].queue.rows
    ensures r.event in states[n + 1].store
  {
    DeliveredMeansStored(states, labels, n, r);
    EveryStateGenuine(states, labels, n);
    EveryStateGenuine(states, labels, n + 1);
    EnqueuedStep(labels, n);
    hide Run, EnqueuedBy, OneBodyEach, Stored;
    assert r.event in EnqueuedBy(labels, n + 1);
    StoredWhole(states[n + 1], labels, n + 1, r.event);
  }

  // ---------------------------------------------------------------- a batch handled without interruption

  /** The state after the first `k` items of a delivery just taken up have been stored, one after the other. */
  function AfterItems(s: State, h: nat, k: nat): (r: State)
    requires h < |s.handling| && s.handling[h].request < |s.requests| && s.handling[h].results == []
    requires k <= |s.requests[s.handling[h].request]|
    ensures r.requests == s.requests && |r.handling| == |s.handling|
    ensures r.handling[h].request == s.handling[h].request && |r.handling[h].results| == k
  {
    if k == 0 then s
    else
      OneResult(AfterItems(s, h, k - 1).store, s.requests[s.handling[h].request][k - 1]);
      AfterItem(AfterItems(s, h, k - 1), h)
  }

  lemma {:induction false} OneResult(store: seq<QueuedEvent>, item: QueuedEvent)
    ensures |ResultsOf(store, [item])| == 1
  {
    OneItem(store, item);
  }

  /** The controller's loop over a batch is a run of the protocol, if nothing comes between its items. */
  lemma {:induction false} SubmitIsSteps(s: State, h: nat, k: nat)
    requires h < |s.handling| && s.handling[h].request < |s.requests| && s.handling[h].results == []
    requires k <= |s.requests[s.handling[h].request]|
    ensures var items := s.requests[s.handling[h].request];
            && (k < |items| ==> Next(AfterItems(s, h, k), HandleItem(h), AfterItems(s, h, k + 1)))
            && AfterItems(s, h, k).store == StoreAfter(s.store, items[..k])
            && AfterItems(s, h, k).handling[h].results == ResultsOf(s.store, items[..k])
  {
    hide StoreAfter, ResultsOf, Stored, Next, AfterItem;
    var items := s.requests[s.handling[h].request];
    if k < |items| {
      ItemIsStep(AfterItems(s, h, k), h);
    }
    if k == 0 {
      NothingSubmitted(s.store);
      assert items[..0] == [];
    } else {
      SubmitIsSteps(s, h, k - 1);
      ItemStores(AfterItems(s, h, k - 1), h);
      SubmitStep(s.store, items, k - 1);
    }
  }

  lemma {:induction false} ItemIsStep(s: State, h: nat)
    requires h < |s.handling| && Unfinished(s, s.handling[h])
    ensures Next(s, HandleItem(h), AfterItem(s, h))
  {
    hide AfterItem;
  }

  lemma {:induction false} ItemStores(s: State, h: nat)
    requires h < |s.handling| && Unfinished(s, s.handling[h])
    ensures var d := s.handling[h];
            var item := s.requests[d.request][|d.results|];
            && AfterItem(s, h).store == (if Stored(s.store, item.eventId) then s.store else s.store + [item])
            && AfterItem(s, h).handling[h].results
               == d.results + [EventResult(item.eventId, if Stored(s.store, item.eventId) then DUPLICATE else ACCEPTED)]
  {
    hide StoreAfter, ResultsOf, Stored;
    var d := s.handling[h];
    OneItem(s.store, s.requests[d.request][|d.results|]);
  }

  lemma {:induction false} NothingSubmitted(store: seq<QueuedEvent>)
    ensures StoreAfter(store, []) == store && ResultsOf(store, []) == []
  {}

  lemma {:induction false} SubmitStep(store: seq<QueuedEvent>, items: seq<QueuedEvent>, k: nat)
    requires k < |items|
    ensures var before := StoreAfter(store, items[..k]);
            && StoreAfter(store, items[..k + 1]) == (if Stored(before, items[k].eventId) then before else before + [items[k]])
            && ResultsOf(store, items[..k + 1])
               == ResultsOf(store, items[..k]) + [EventResult(items[k].eventId, if Stored(before, items[k].eventId) then DUPLICATE else ACCEPTED)]
  {
    hide Stored;
    assert items[..k + 1][..k] == items[..k];
  }

  // ---------------------------------------------------------------- the loop over a batch, step by step

  /** The state after the first `k` rows of a batch have been marked at the times `nows`. */
  function AfterMarks(s: State, nows: seq<Instant>, k: nat): State
    requires s.phase.Marking? && k <= |s.phase.todo| == |nows|
  {
    if k == 0 then s
    else AfterMark(AfterMarks(s, nows, k - 1), s.phase.todo[k - 1], nows[k - 1]).(phase := Marking(s.phase.todo[k..]))
  }

  /**
    The agent's loop is a run of the protocol: marking the rows of a batch one after the other, with whatever steps it
    takes for each, leaves the queue as the loop's contract says.
  */
  lemma {:induction false} LoopIsSteps(s: State, nows: seq<Instant>, k: nat)
    requires s.phase.Marking? && k <= |s.phase.todo| == |nows|
    ensures k < |nows| ==> Next(AfterMarks(s, nows, k), MarkNext(nows[k]), AfterMarks(s, nows, k + 1))
    ensures AfterMarks(s, nows, k).phase == Marking(s.phase.todo[k..])
    ensures AfterMarks(s, nows, k).queue == AllMarked(s.queue, s.phase.todo[..k], nows[..k])
  {
    hide AfterMark;
    if k > 0 {
      LoopIsSteps(s, nows, k - 1);
      AfterMarkTable(AfterMarks(s, nows, k - 1), s.phase.todo[k - 1], nows[k - 1]);
      assert s.phase.todo[..k][..k - 1] == s.phase.todo[..k - 1] && nows[..k][..k - 1] == nows[..k - 1];
    }
    if k < |nows| {
      assert s.phase.todo[k..][0] == s.phase.todo[k] && s.phase.todo[k..][1..] == s.phase.todo[k + 1..];
    }
  }

  /** The whole loop: the marks are those the protocol takes from a reply or a failure, and the end is an empty batch. */
  lemma {:induction false} BatchIsMarked(s: State, batch: seq<PendingDelivery>, response: Option<seq<EventResult>>, nows: seq<Instant>)
    requires s.phase == Marking(Outcome(batch, response)) && |nows| == |s.phase.todo|
    ensures AfterMarks(s, nows, |nows|).phase == Marking([])
    ensures AfterMarks(s, nows, |nows|).queue == AllMarked(s.queue, Outcome(batch, response), nows)
  {
    hide AfterMarks, AllMarked, Outcome;
    LoopIsSteps(s, nows, |nows|);
    assert s.phase.todo[..|nows|] == s.phase.todo && nows[..|nows|] == nows;
  }
}
