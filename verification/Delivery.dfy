/**
  Event delivery as a protocol: the agent's queue, a link that may lose, delay or repeat requests and lose replies,
  the controller's store, and crashes of the agent between any two statements.
*/
module Delivery {
  import opened Lists
  import opened EventQueue
  import opened EventStore

  const EVENT_BATCH_SIZE := 100

  type RequestId = nat

  /** What the agent is to do with a row of its batch once the outcome of the request is known. */
  datatype Verdict = DELIVERED | FAILED
  datatype Mark = Mark(delivery: PendingDelivery, verdict: Verdict)

  datatype Phase =
    | Idle
    | Awaiting(batch: seq<PendingDelivery>, request: RequestId)
    | Marking(todo: seq<Mark>)

  function EventsOf(batch: seq<PendingDelivery>): (r: seq<QueuedEvent>)
    ensures |r| == |batch| && forall i :: 0 <= i < |batch| ==> r[i] == batch[i].event
  {
    seq(|batch|, i requires 0 <= i < |batch| => batch[i].event)
  }

  function VerdictOf(status: ResultStatus): Verdict {
    if status == REJECTED then FAILED else DELIVERED
  }

  /** Deliveries and results are paired by position, as far as the shorter list goes. */
  function MarksFor(batch: seq<PendingDelivery>, results: seq<EventResult>): (r: seq<Mark>)
    ensures |r| == if |batch| < |results| then |batch| else |results|
    ensures forall i :: 0 <= i < |r| ==> r[i] == Mark(batch[i], VerdictOf(results[i].status))
  {
    seq(if |batch| < |results| then |batch| else |results|,
        i requires 0 <= i < |batch| && i < |results| => Mark(batch[i], VerdictOf(results[i].status)))
  }

  function AllFailed(batch: seq<PendingDelivery>): (r: seq<Mark>)
    ensures |r| == |batch| && forall i :: 0 <= i < |batch| ==> r[i] == Mark(batch[i], FAILED)
  {
    seq(|batch|, i requires 0 <= i < |batch| => Mark(batch[i], FAILED))
  }

  function Marked(t: Table, mark: Mark, now: Instant): Table {
    if mark.verdict == DELIVERED then Without(t, mark.delivery.rowId)
    else Failed(t, mark.delivery.rowId, mark.delivery.attemptCount, now)
  }

  function AllMarked(t: Table, marks: seq<Mark>, nows: seq<Instant>): Table
    requires |nows| == |marks|
  {
    if marks == [] then t
    else Marked(AllMarked(t, marks[..|marks| - 1], nows[..|marks| - 1]), marks[|marks| - 1], nows[|marks| - 1])
  }

  function Outcome(batch: seq<PendingDelivery>, response: Option<seq<EventResult>>): seq<Mark> {
    if response.Some? then MarksFor(batch, response.value) else AllFailed(batch)
  }

  /** The agent's loop over a batch once the request has been answered, or has failed; `nows` are its clock readings. */
  method MarkBatch(queue: EventQueue, pending: seq<PendingDelivery>, response: Option<seq<EventResult>>, nows: seq<Instant>)
    requires |nows| == |Outcome(pending, response)|
    modifies queue
    ensures queue.Contents() == AllMarked(old(queue.Contents()), Outcome(pending, response), nows)
  {
    ghost var marks := Outcome(pending, response);
    for i := 0 to |nows|
      invariant queue.Contents() == AllMarked(old(queue.Contents()), marks[..i], nows[..i])
    {
      assert marks[..i + 1][..i] == marks[..i] && nows[..i + 1][..i] == nows[..i];
      var delivery := pending[i];
      if response.None? {
        queue.MarkFailed(delivery.rowId, delivery.attemptCount, nows[i]);
      } else {
        match response.value[i].status
        case ACCEPTED | DUPLICATE => queue.MarkDelivered(delivery.rowId);
        case REJECTED => queue.MarkFailed(delivery.rowId, delivery.attemptCount, nows[i]);
      }
    }
    assert marks[..|nows|] == marks && nows[..|nows|] == nows;
  }

  // ---------------------------------------------------------------- the protocol

  /**
    `requests` holds every request ever sent: the link may deliver any of them, any number of times, or never. `handling`
    holds the deliveries the controller has taken up, each with its answers so far; items are stored one at a time, and
    those of different deliveries in any order. The last four fields are history, kept only to state properties.
  */
  datatype Handling = Handling(request: RequestId, results: seq<EventResult>)

  datatype State = State(queue: Table, phase: Phase, requests: seq<seq<QueuedEvent>>, handling: seq<Handling>,
                         replies: set<(RequestId, seq<EventResult>)>, store: seq<QueuedEvent>, clock: Instant,
                         enqueued: set<EventId>, overCapacity: set<EventId>, undeliverable: map<RowId, EventId>,
                         failures: map<RowId, seq<Instant>>)

  const INITIAL := State(Table([], 0), Idle, [], [], {}, [], 0, {}, {}, map[], map[])

  datatype Label =
    | Enqueue(event: QueuedEvent, now: Instant)
    | Fetch(now: Instant)
    | Deliver(request: RequestId)
    | HandleItem(h: nat)
    | Respond(h: nat)
    | StopController
    | Receive(results: seq<EventResult>)
    | GiveUp
    | MarkNext(now: Instant)
    | FinishMarking
    | Crash

  function EventIds(rows: seq<Row>): set<EventId> {
    set r | r in rows :: r.event.eventId
  }

  function FailuresOf(s: State, row: RowId): seq<Instant> {
    if row in s.failures then s.failures[row] else []
  }

  /** The table and the history after the next row of a batch has been marked. */
  function AfterMark(s: State, mark: Mark, now: Instant): State {
    var id := mark.delivery.rowId;
    var present := exists i :: 0 <= i < |s.queue.rows| && s.queue.rows[i].id == id;
    var t := Marked(s.queue, mark, now);
    if mark.verdict == DELIVERED || !present then s.(queue := t, clock := now)
    else
      s.(queue := t, clock := now, failures := s.failures[id := FailuresOf(s, id) + [now]],
         undeliverable := if mark.delivery.attemptCount + 1 >= MAX_ATTEMPTS then s.undeliverable[id := mark.delivery.event.eventId]
                          else s.undeliverable)
  }

  predicate Unfinished(s: State, h: Handling) {
    h.request < |s.requests| && |h.results| < |s.requests[h.request]|
  }

  /** The state after the controller has stored the next item of a delivery, on its own. */
  function AfterItem(s: State, h: nat): State
    requires h < |s.handling| && Unfinished(s, s.handling[h])
  {
    var d := s.handling[h];
    var item := s.requests[d.request][|d.results|];
    s.(store := StoreAfter(s.store, [item]), handling := s.handling[h := Handling(d.request, d.results + ResultsOf(s.store, [item]))])
  }

  predicate Next(s: State, l: Label, s': State) {
    match l
    case Enqueue(event, now) =>
      s' == s.(queue := Enqueued(s.queue, event, now), clock := now, enqueued := s.enqueued + {event.eventId},
               overCapacity := s.overCapacity + EventIds(Discarded(Inserted(s.queue, event, now), MAX_QUEUE_SIZE)))
    case Fetch(now) =>
      var batch := DueBatchOf(s.queue, now, EVENT_BATCH_SIZE);
      s.phase == Idle && batch != []
      && s' == s.(phase := Awaiting(batch, |s.requests|), requests := s.requests + [EventsOf(batch)], clock := now)
    case Deliver(request) =>
      request < |s.requests| && s' == s.(handling := s.handling + [Handling(request, [])])
    case HandleItem(h) =>
      h < |s.handling| && Unfinished(s, s.handling[h]) && s' == AfterItem(s, h)
    case Respond(h) =>
      h < |s.handling| && s.handling[h].request < |s.requests| && |s.handling[h].results| == |s.requests[s.handling[h].request]|
      && s' == s.(replies := s.replies + {(s.handling[h].request, s.handling[h].results)})
    case StopController =>
      s' == s.(handling := [])
    case Receive(results) =>
      s.phase.Awaiting? && (s.phase.request, results) in s.replies
      && s' == s.(phase := Marking(MarksFor(s.phase.batch, results)))
    case GiveUp =>
      s.phase.Awaiting? && s' == s.(phase := Marking(AllFailed(s.phase.batch)))
    case MarkNext(now) =>
      s.phase.Marking? && s.phase.todo != []
      && s' == AfterMark(s, s.phase.todo[0], now).(phase := Marking(s.phase.todo[1..]))
    case FinishMarking =>
      s.phase == Marking([]) && s' == s.(phase := Idle)
    case Crash =>
      s' == s.(phase := Idle)
  }

  /** A run: states joined by labels. */
  ghost predicate Run(states: seq<State>, labels: seq<Label>) {
    && |states| == |labels| + 1 && states[0] == INITIAL
    && forall i :: 0 <= i < |labels| ==> Next(states[i], labels[i], states[i + 1])
  }

  // ---------------------------------------------------------------- safety

  predicate InQueue(s: State, e: EventId) {
    exists i :: 0 <= i < |s.queue.rows| && s.queue.rows[i].event.eventId == e
  }

  /** Dropped by its 48th failure. */
  ghost predicate GivenUp(s: State, e: EventId) {
    exists row :: row in s.undeliverable && s.undeliverable[row] == e && |FailuresOf(s, row)| == MAX_ATTEMPTS
  }

  ghost predicate Conserved(s: State) {
    forall e :: e in s.enqueued ==> InQueue(s, e) || Stored(s.store, e) || e in s.overCapacity || GivenUp(s, e)
  }

  /** If its row is still there, a delivery of the batch still describes it. */
  ghost predicate Current(s: State, d: PendingDelivery) {
    && d.rowId < s.queue.nextRowId
    && forall r :: r in s.queue.rows && r.id == d.rowId ==> r.event == d.event && r.attemptCount == d.attemptCount
  }

  ghost predicate PhaseOk(s: State) {
    match s.phase
    case Idle => true
    case Awaiting(batch, request) =>
      && request < |s.requests| && s.requests[request] == EventsOf(batch)
      && (forall i :: 0 <= i < |batch| ==> Current(s, batch[i]))
      && (forall i, j :: 0 <= i < j < |batch| ==> batch[i].rowId != batch[j].rowId)
    case Marking(todo) =>
      && (forall i :: 0 <= i < |todo| ==> Current(s, todo[i].delivery))
      && (forall i :: 0 <= i < |todo| && todo[i].verdict == DELIVERED ==> Stored(s.store, todo[i].delivery.event.eventId))
      && (forall i, j :: 0 <= i < j < |todo| ==> todo[i].delivery.rowId != todo[j].delivery.rowId)
  }

  /** The answers so far are for the first items of the request, in order, and those items are stored. */
  ghost predicate Answered(s: State, request: RequestId, results: seq<EventResult>) {
    && request < |s.requests| && |results| <= |s.requests[request]|
    && (forall i :: 0 <= i < |results| ==> results[i].eventId == s.requests[request][i].eventId)
    && (forall i :: 0 <= i < |results| ==> Stored(s.store, s.requests[request][i].eventId))
  }

  ghost predicate ReplyOk(s: State, request: RequestId, results: seq<EventResult>) {
    Answered(s, request, results) && |results| == |s.requests[request]|
  }

  /** Every reply in flight answers its request item by item, in order, and all its items are stored. */
  ghost predicate RepliesOk(s: State) {
    && (forall reply :: reply in s.replies ==> ReplyOk(s, reply.0, reply.1))
    && (forall i :: 0 <= i < |s.handling| ==> Answered(s, s.handling[i].request, s.handling[i].results))
  }

  lemma {:induction false} AnsweredStays(s: State, s': State, request: RequestId, results: seq<EventResult>)
    requires Answered(s, request, results) && s.requests <= s'.requests
    requires forall e :: Stored(s.store, e) ==> Stored(s'.store, e)
    ensures Answered(s', request, results) && request < |s.requests| && s'.requests[request] == s.requests[request]
  {
    hide Stored;
  }

  /** Answers stay right while requests are added and nothing stored is forgotten. */
  lemma {:induction false} RepliesStay(s: State, s': State)
    requires RepliesOk(s) && s'.replies == s.replies && s'.handling == s.handling && s.requests <= s'.requests
    requires forall e :: Stored(s.store, e) ==> Stored(s'.store, e)
    ensures RepliesOk(s')
  {
    hide Stored, Answered;
    forall reply | reply in s'.replies
      ensures ReplyOk(s', reply.0, reply.1)
    {
      assert ReplyOk(s, reply.0, reply.1);
      AnsweredStays(s, s', reply.0, reply.1);
    }
    forall i | 0 <= i < |s'.handling|
      ensures Answered(s', s'.handling[i].request, s'.handling[i].results)
    {
      AnsweredStays(s, s', s.handling[i].request, s.handling[i].results);
    }
  }

  /** Failures recorded for a row: as many as its attempt count while it is queued, and 48 once it is given up. */
  ghost predicate CountsOk(s: State) {
    && (forall r :: r in s.queue.rows ==> r.attemptCount == |FailuresOf(s, r.id)| < MAX_ATTEMPTS)
    && (forall row :: row in s.failures ==> row < s.queue.nextRowId)
    && (forall row :: row in s.undeliverable ==> |FailuresOf(s, row)| == MAX_ATTEMPTS && row < s.queue.nextRowId)
    && (forall row :: |FailuresOf(s, row)| <= MAX_ATTEMPTS)
  }

  ghost predicate Safe(s: State) {
    && WellFormed(s.queue) && |s.queue.rows| <= MAX_QUEUE_SIZE
    && NoDuplicates(s.store)
    && Conserved(s) && PhaseOk(s) && RepliesOk(s) && CountsOk(s)
  }

  lemma {:induction false} InQueueIff(s: State, e: EventId)
    ensures InQueue(s, e) <==> exists r :: r in s.queue.rows && r.event.eventId == e
  {
    if InQueue(s, e) {
      var i :| 0 <= i < |s.queue.rows| && s.queue.rows[i].event.eventId == e;
      assert s.queue.rows[i] in s.queue.rows;
    }
  }

  /** The conclusions about one step, kept apart from the definition of the step. */
  lemma {:induction false} EnqueueKeepsTable(s: State, event: QueuedEvent, now: Instant)
    requires WellFormed(s.queue)
    ensures WellFormed(Enqueued(s.queue, event, now)) && |Enqueued(s.queue, event, now).rows| <= MAX_QUEUE_SIZE
    ensures s.queue.nextRowId <= Enqueued(s.queue, event, now).nextRowId
    ensures forall r :: r in Enqueued(s.queue, event, now).rows
                    ==> r in s.queue.rows || (r == Row(s.queue.nextRowId, event, 0, now, now) && r.id < Enqueued(s.queue, event, now).nextRowId)
  {
    hide Discarded, Capped, Inserted;
    var t := Inserted(s.queue, event, now);
    InsertedWellFormed(s.queue, event, now);
    CappedWellFormed(t, MAX_QUEUE_SIZE);
    CapacityRespected(t, MAX_QUEUE_SIZE);
    CappedMembers(t, MAX_QUEUE_SIZE);
    NextRowIdGrows(s.queue, event, now);
  }

  lemma {:induction false} NextRowIdGrows(t: Table, event: QueuedEvent, now: Instant)
    ensures Enqueued(t, event, now).nextRowId == Inserted(t, event, now).nextRowId >= t.nextRowId
  {}

  /** Every event of the table is still there or among the discarded ones, and so is the new one. */
  lemma {:induction false} EnqueueConserves(s: State, event: QueuedEvent, now: Instant, s': State, e: EventId)
    requires WellFormed(s.queue) && Next(s, Enqueue(event, now), s')
    requires e == event.eventId || InQueue(s, e)
    ensures InQueue(s', e) || e in s'.overCapacity
  {
    hide Discarded, Capped, Inserted, InQueue;
    var t := Inserted(s.queue, event, now);
    InQueueIff(s, e);
    InQueueIff(s', e);
    InsertedWellFormed(s.queue, event, now);
    CappedMembers(t, MAX_QUEUE_SIZE);
    var r :| r in t.rows && r.event.eventId == e;
    if r in Discarded(t, MAX_QUEUE_SIZE) {
      assert e in EventIds(Discarded(t, MAX_QUEUE_SIZE));
    }
  }

  lemma {:induction false} EnqueueKeepsPhase(s: State, event: QueuedEvent, now: Instant, s': State)
    requires WellFormed(s.queue) && PhaseOk(s) && CountsOk(s) && RepliesOk(s) && Next(s, Enqueue(event, now), s')
    ensures PhaseOk(s') && CountsOk(s') && RepliesOk(s')
  {
    hide Discarded, Enqueued, InQueue, Stored, WellFormed;
    EnqueueKeepsTable(s, event, now);
    assert forall row :: FailuresOf(s', row) == FailuresOf(s, row);
    assert FailuresOf(s, s.queue.nextRowId) == [];
    assert forall d :: Current(s, d) ==> Current(s', d);
    RepliesStay(s, s');
  }

  lemma {:induction false} EnqueueSafe(s: State, event: QueuedEvent, now: Instant, s': State)
    requires Safe(s) && Next(s, Enqueue(event, now), s')
    ensures Safe(s')
  {
    hide Discarded, Enqueued, InQueue, Stored, PhaseOk, CountsOk, RepliesOk;
    EnqueueKeepsTable(s, event, now);
    EnqueueKeepsPhase(s, event, now, s');
    forall e | e in s'.enqueued
      ensures InQueue(s', e) || Stored(s'.store, e) || e in s'.overCapacity || GivenUp(s', e)
    {
      if e == event.eventId || InQueue(s, e) {
        EnqueueConserves(s, event, now, s', e);
      } else if GivenUp(s, e) {
        var row :| row in s.undeliverable && s.undeliverable[row] == e && |FailuresOf(s, row)| == MAX_ATTEMPTS;
        assert FailuresOf(s', row) == FailuresOf(s, row);
      }
    }
  }

  lemma {:induction false} ConservedStays(s: State, s': State)
    requires Conserved(s) && s'.queue == s.queue && s'.enqueued == s.enqueued && s'.overCapacity == s.overCapacity
    requires s'.undeliverable == s.undeliverable && s'.failures == s.failures
    requires forall e :: Stored(s.store, e) ==> Stored(s'.store, e)
    ensures Conserved(s')
  {
    hide Stored;
    forall e | e in s'.enqueued
      ensures InQueue(s', e) || Stored(s'.store, e) || e in s'.overCapacity || GivenUp(s', e)
    {
      if GivenUp(s, e) {
        var row :| row in s.undeliverable && s.undeliverable[row] == e && |FailuresOf(s, row)| == MAX_ATTEMPTS;
        assert FailuresOf(s', row) == FailuresOf(s, row);
      } else if InQueue(s, e) {
        assert InQueue(s', e);
      }
    }
  }

  lemma {:induction false} CountsStay(s: State, s': State)
    requires CountsOk(s) && s'.queue == s.queue && s'.undeliverable == s.undeliverable && s'.failures == s.failures
    ensures CountsOk(s')
  {
    assert forall row :: FailuresOf(s', row) == FailuresOf(s, row);
  }

  lemma {:induction false} FetchSafe(s: State, now: Instant, s': State)
    requires Safe(s) && Next(s, Fetch(now), s')
    ensures Safe(s')
  {
    hide Conserved, CountsOk, Stored;
    ConservedStays(s, s');
    CountsStay(s, s');
    DueRowsAreDue(s.queue, now, EVENT_BATCH_SIZE);
    FetchedCurrent(s, now, s');
    RepliesStay(s, s');
  }

  lemma {:induction false} FetchedCurrent(s: State, now: Instant, s': State)
    requires WellFormed(s.queue) && Next(s, Fetch(now), s')
    ensures PhaseOk(s')
  {
    hide DueRows;
    var rows := DueRows(s.queue, now, EVENT_BATCH_SIZE);
    DueRowsAreDue(s.queue, now, EVENT_BATCH_SIZE);
    forall i | 0 <= i < |rows|
      ensures Current(s', s'.phase.batch[i])
    {
      assert rows[i] in rows;
      forall r | r in s.queue.rows && r.id == rows[i].id
        ensures r == rows[i]
      {
        DistinctMembers(IdOf, s.queue.rows, r, rows[i]);
      }
    }
    forall i, j | 0 <= i < j < |rows|
      ensures s'.phase.batch[i].rowId != s'.phase.batch[j].rowId
    {
      assert IdOf(rows[i]) != IdOf(rows[j]);
    }
  }

  lemma {:induction false} ItemAnswered(s: State, h: nat)
    requires h < |s.handling| && Unfinished(s, s.handling[h]) && RepliesOk(s)
    ensures RepliesOk(AfterItem(s, h))
    ensures forall e :: Stored(s.store, e) ==> Stored(AfterItem(s, h).store, e)
  {
    var d, s' := s.handling[h], AfterItem(s, h);
    var item := s.requests[d.request][|d.results|];
    SubmitStoresAll(s.store, [item]);
    OneItem(s.store, item);
    hide StoreAfter, ResultsOf, Stored;
    ItemStored(item);
    RepliesStay(s, s'.(handling := s.handling));
    hide Answered;
    forall i | 0 <= i < |s'.handling|
      ensures Answered(s', s'.handling[i].request, s'.handling[i].results)
    {
      AnsweredStays(s, s', s.handling[i].request, s.handling[i].results);
      if i == h {
        OneMoreAnswer(s', d.request, d.results, s'.handling[h].results);
      }
    }
    forall reply | reply in s'.replies
      ensures ReplyOk(s', reply.0, reply.1)
    {
      assert ReplyOk(s, reply.0, reply.1);
      AnsweredStays(s, s', reply.0, reply.1);
    }
  }

  lemma {:induction false} OneMoreAnswer(s: State, request: RequestId, results: seq<EventResult>, more: seq<EventResult>)
    requires Answered(s, request, results) && |results| < |s.requests[request]|
    requires |more| == |results| + 1 && more == results + [more[|results|]]
    requires more[|results|].eventId == s.requests[request][|results|].eventId && Stored(s.store, s.requests[request][|results|].eventId)
    ensures Answered(s, request, more)
  {
    hide Stored;
  }

  lemma {:induction false} ItemStored(item: QueuedEvent)
    ensures Stored([item], item.eventId)
  {
    assert [item][0] == item;
  }

  lemma {:induction false} ItemSafe(s: State, h: nat, s': State)
    requires Safe(s) && Next(s, HandleItem(h), s')
    ensures Safe(s')
  {
    hide Conserved, CountsOk, Stored, StoreAfter, ResultsOf, NoDuplicates, RepliesOk;
    SubmitStoresAll(s.store, [s.requests[s.handling[h].request][|s.handling[h].results|]]);
    ItemAnswered(s, h);
    ConservedStays(s, s');
    CountsStay(s, s');
    assert forall d :: Current(s', d) <==> Current(s, d);
  }

  lemma {:induction false} ControllerSafe(s: State, l: Label, s': State)
    requires Safe(s) && Next(s, l, s') && (l.Deliver? || l.Respond? || l.StopController?)
    ensures Safe(s')
  {
    hide Conserved, CountsOk, Stored, NoDuplicates;
    ConservedStays(s, s');
    CountsStay(s, s');
    assert forall d :: Current(s', d) <==> Current(s, d);
    assert forall request, results :: Answered(s', request, results) <==> Answered(s, request, results);
    hide Answered;
    NothingAnswered(s);
  }

  lemma {:induction false} NothingAnswered(s: State)
    ensures forall request: nat :: request < |s.requests| ==> Answered(s, request, [])
  {}

  lemma {:induction false} ReceiveSafe(s: State, results: seq<EventResult>, s': State)
    requires Safe(s) && Next(s, Receive(results), s')
    ensures Safe(s')
  {
    hide Conserved, CountsOk, Stored, NoDuplicates;
    ConservedStays(s, s');
    CountsStay(s, s');
    assert ReplyOk(s, s.phase.request, results);
    assert forall d :: Current(s', d) <==> Current(s, d);
    RepliesStay(s, s');
  }

  lemma {:induction false} LocalStepSafe(s: State, l: Label, s': State)
    requires Safe(s) && Next(s, l, s') && (l.GiveUp? || l.FinishMarking? || l.Crash?)
    ensures Safe(s')
  {
    hide Conserved, CountsOk, Stored, NoDuplicates;
    ConservedStays(s, s');
    CountsStay(s, s');
    assert forall d :: Current(s', d) <==> Current(s, d);
    RepliesStay(s, s');
  }

  // ---------------------------------------------------------------- marking one row

  lemma {:induction false} RowGone(t: Table, rowId: RowId)
    requires WellFormed(t)
    ensures var t' := Without(t, rowId);
            && WellFormed(t') && |t'.rows| <= |t.rows| && t'.nextRowId == t.nextRowId
            && forall r :: r in t'.rows <==> r in t.rows && r.id != rowId
  {
    hide WellFormed;
    WithoutWellFormed(t, rowId);
    FilterLength(Other(rowId), t.rows);
  }

  lemma {:induction false} RowAgain(t: Table, rowId: RowId, attempts: nat, at: Instant)
    requires WellFormed(t)
    ensures var rows := Rescheduled(t.rows, rowId, attempts, at);
            && WellFormed(t.(rows := rows)) && |rows| == |t.rows|
            && (forall r :: r in t.rows && r.id != rowId ==> r in rows)
            && (forall r :: r in rows && r.id != rowId ==> r in t.rows)
            && (forall r :: r in rows && r.id == rowId
                            ==> exists x :: x in t.rows && x.id == rowId && r == x.(attemptCount := attempts, nextAttemptAt := at))
            && forall x :: x in t.rows && x.id == rowId ==> x.(attemptCount := attempts, nextAttemptAt := at) in rows
  {
    hide WellFormed;
    RescheduledWellFormed(t, rowId, attempts, at);
  }

  /** The row a mark is for: gone if delivered or failed for the last time, rescheduled otherwise; others untouched. */
  lemma {:induction false} MarkedRows(t: Table, mark: Mark, now: Instant)
    requires WellFormed(t)
    ensures var d, t' := mark.delivery, Marked(t, mark, now);
            && WellFormed(t') && |t'.rows| <= |t.rows| && t'.nextRowId == t.nextRowId
            && (forall r :: r in t.rows && r.id != d.rowId ==> r in t'.rows)
            && (forall r :: r in t'.rows && r.id != d.rowId ==> r in t.rows)
            && (mark.verdict == DELIVERED || d.attemptCount + 1 >= MAX_ATTEMPTS ==> forall r :: r in t'.rows ==> r.id != d.rowId)
            && (mark.verdict == FAILED && d.attemptCount + 1 < MAX_ATTEMPTS
                ==> (forall r :: r in t'.rows && r.id == d.rowId
                                 ==> exists x :: x in t.rows && x.id == d.rowId
                                                 && r == x.(attemptCount := d.attemptCount + 1, nextAttemptAt := now + BackoffDelay(d.attemptCount + 1)))
                    && forall x :: x in t.rows && x.id == d.rowId
                                 ==> x.(attemptCount := d.attemptCount + 1, nextAttemptAt := now + BackoffDelay(d.attemptCount + 1)) in t'.rows)
  {
    hide BackoffDelay, WellFormed, Without, Rescheduled;
    var d := mark.delivery;
    var next := d.attemptCount + 1;
    if mark.verdict == DELIVERED || next >= MAX_ATTEMPTS {
      RowGone(t, d.rowId);
    } else {
      RowAgain(t, d.rowId, next, now + BackoffDelay(next));
    }
  }

  ghost predicate ReadyToMark(s: State, mark: Mark) {
    && WellFormed(s.queue) && CountsOk(s) && Current(s, mark.delivery)
    && (mark.verdict == DELIVERED ==> Stored(s.store, mark.delivery.event.eventId))
  }

  lemma {:induction false} PresentIff(rows: seq<Row>, id: RowId)
    ensures (exists i :: 0 <= i < |rows| && rows[i].id == id) <==> exists r :: r in rows && r.id == id
  {
    if i :| 0 <= i < |rows| && rows[i].id == id {
      assert rows[i] in rows;
    }
  }

  lemma {:induction false} MarkKeepsOthersCurrent(s: State, mark: Mark, now: Instant, d: PendingDelivery)
    requires ReadyToMark(s, mark) && Current(s, d) && d.rowId != mark.delivery.rowId
    ensures Current(AfterMark(s, mark, now), d)
  {
    hide Marked, WellFormed, CountsOk;
    MarkedRows(s.queue, mark, now);
  }

  lemma {:induction false} FailuresAfterMark(s: State, mark: Mark, now: Instant)
    requires ReadyToMark(s, mark)
    ensures var s', id := AfterMark(s, mark, now), mark.delivery.rowId;
            && (forall row :: row != id ==> FailuresOf(s', row) == FailuresOf(s, row) && (row in s'.undeliverable <==> row in s.undeliverable))
            && (mark.verdict == DELIVERED || (forall r :: r in s.queue.rows ==> r.id != id)
                ==> s'.failures == s.failures && s'.undeliverable == s.undeliverable)
            && (mark.verdict == FAILED && (exists r :: r in s.queue.rows && r.id == id)
                ==> && FailuresOf(s', id) == FailuresOf(s, id) + [now]
                    && |FailuresOf(s, id)| == mark.delivery.attemptCount < MAX_ATTEMPTS
                    && s'.undeliverable == if mark.delivery.attemptCount + 1 >= MAX_ATTEMPTS then s.undeliverable[id := mark.delivery.event.eventId]
                                           else s.undeliverable)
  {
    hide Marked, WellFormed;
    PresentIff(s.queue.rows, mark.delivery.rowId);
  }

  lemma {:induction false} MarkKeepsCounts(s: State, mark: Mark, now: Instant)
    requires ReadyToMark(s, mark)
    ensures CountsOk(AfterMark(s, mark, now))
  {
    hide Marked, WellFormed, AfterMark, FailuresOf;
    var s', d := AfterMark(s, mark, now), mark.delivery;
    MarkedRows(s.queue, mark, now);
    FailuresAfterMark(s, mark, now);
    AfterMarkTable(s, mark, now);
    forall r | r in s'.queue.rows
      ensures r.attemptCount == |FailuresOf(s', r.id)| < MAX_ATTEMPTS
    {
      if r.id == d.rowId {
        var x :| x in s.queue.rows && x.id == d.rowId;
      }
    }
    forall row | row in s'.undeliverable
      ensures |FailuresOf(s', row)| == MAX_ATTEMPTS && row < s'.queue.nextRowId
    {
      if mark.verdict == DELIVERED || (forall r :: r in s.queue.rows ==> r.id != d.rowId) {
        SameFailures(s, s', row);
      }
    }
    forall row
      ensures |FailuresOf(s', row)| <= MAX_ATTEMPTS
    {
      if row == d.rowId && !(exists r :: r in s.queue.rows && r.id == d.rowId) {
        SameFailures(s, s', row);
      } else if row == d.rowId && mark.verdict == DELIVERED {
        SameFailures(s, s', row);
      }
    }
    KeysAfterMark(s, mark, now);
  }

  lemma {:induction false} SameFailures(s: State, s': State, row: RowId)
    requires s'.failures == s.failures
    ensures FailuresOf(s', row) == FailuresOf(s, row)
  {}

  lemma {:induction false} KeysAfterMark(s: State, mark: Mark, now: Instant)
    ensures forall row :: row in AfterMark(s, mark, now).failures ==> row in s.failures || row == mark.delivery.rowId
    ensures forall row :: row in AfterMark(s, mark, now).undeliverable ==> row in s.undeliverable || row == mark.delivery.rowId
  {
    hide Marked;
  }

  lemma {:induction false} AfterMarkTable(s: State, mark: Mark, now: Instant)
    ensures AfterMark(s, mark, now).queue == Marked(s.queue, mark, now)
    ensures var s' := AfterMark(s, mark, now);
            s'.clock == now && s'.enqueued == s.enqueued && s'.overCapacity == s.overCapacity
            && s'.store == s.store && s'.requests == s.requests && s'.replies == s.replies && s'.handling == s.handling
  {
    hide Marked;
  }

  lemma {:induction false} MarkConserves(s: State, mark: Mark, now: Instant)
    requires ReadyToMark(s, mark) && Conserved(s)
    ensures Conserved(AfterMark(s, mark, now))
  {
    hide Marked, WellFormed, AfterMark, FailuresOf, InQueue, Stored, BackoffDelay;
    var s', d := AfterMark(s, mark, now), mark.delivery;
    MarkedRows(s.queue, mark, now);
    FailuresAfterMark(s, mark, now);
    AfterMarkTable(s, mark, now);
    forall e | e in s'.enqueued
      ensures InQueue(s', e) || Stored(s'.store, e) || e in s'.overCapacity || GivenUp(s', e)
    {
      InQueueIff(s, e);
      InQueueIff(s', e);
      if r :| r in s.queue.rows && r.event.eventId == e {
        RowAfterMark(s, mark, now, r);
      } else if GivenUp(s, e) {
        GivenUpStays(s, mark, now, e);
      }
    }
  }

  /** A queued row stays queued, or its event is stored, or this was its 48th failure. */
  lemma {:induction false} RowAfterMark(s: State, mark: Mark, now: Instant, r: Row)
    requires ReadyToMark(s, mark) && r in s.queue.rows
    ensures var s' := AfterMark(s, mark, now);
            InQueue(s', r.event.eventId) || Stored(s'.store, r.event.eventId) || GivenUp(s', r.event.eventId)
  {
    hide Marked, WellFormed, AfterMark, FailuresOf, InQueue, Stored, BackoffDelay;
    var s', d := AfterMark(s, mark, now), mark.delivery;
    MarkedRows(s.queue, mark, now);
    FailuresAfterMark(s, mark, now);
    AfterMarkTable(s, mark, now);
    InQueueIff(s', r.event.eventId);
    if r.id == d.rowId && mark.verdict == FAILED && d.attemptCount + 1 >= MAX_ATTEMPTS {
      assert d.rowId in s'.undeliverable && s'.undeliverable[d.rowId] == r.event.eventId;
    }
  }

  lemma {:induction false} GivenUpStays(s: State, mark: Mark, now: Instant, e: EventId)
    requires ReadyToMark(s, mark) && GivenUp(s, e)
    ensures GivenUp(AfterMark(s, mark, now), e)
  {
    hide Marked, WellFormed, AfterMark, BackoffDelay;
    var s', d := AfterMark(s, mark, now), mark.delivery;
    FailuresAfterMark(s, mark, now);
    var row :| row in s.undeliverable && s.undeliverable[row] == e && |FailuresOf(s, row)| == MAX_ATTEMPTS;
    if row != d.rowId {
      assert FailuresOf(s', row) == FailuresOf(s, row);
      UndeliverableStays(s, mark, now, row);
    }
  }

  lemma {:induction false} UndeliverableStays(s: State, mark: Mark, now: Instant, row: RowId)
    requires row in s.undeliverable && row != mark.delivery.rowId
    ensures row in AfterMark(s, mark, now).undeliverable && AfterMark(s, mark, now).undeliverable[row] == s.undeliverable[row]
  {
    hide Marked;
  }

  lemma {:induction false} MarkNextSafe(s: State, now: Instant, s': State)
    requires Safe(s) && Next(s, MarkNext(now), s')
    ensures Safe(s')
  {
    hide Conserved, CountsOk, Stored, NoDuplicates, AfterMark, WellFormed, BackoffDelay, Current;
    var mark := s.phase.todo[0];
    var m := AfterMark(s, mark, now);
    MarkConserves(s, mark, now);
    MarkKeepsCounts(s, mark, now);
    MarkedRows(s.queue, mark, now);
    AfterMarkTable(s, mark, now);
    ConservedStays(m, s');
    CountsStay(m, s');
    forall i | 0 <= i < |s'.phase.todo|
      ensures Current(s', s'.phase.todo[i].delivery)
    {
      assert s'.phase.todo[i] == s.phase.todo[i + 1];
      MarkKeepsOthersCurrent(s, mark, now, s.phase.todo[i + 1].delivery);
      CurrentSameQueue(m, s', s'.phase.todo[i].delivery);
    }
    RepliesStay(s, s');
  }

  lemma {:induction false} CurrentSameQueue(s: State, s': State, d: PendingDelivery)
    requires s'.queue == s.queue && Current(s, d)
    ensures Current(s', d)
  {}

  // ---------------------------------------------------------------- every run

  lemma {:induction false} StepSafe(s: State, l: Label, s': State)
    requires Safe(s) && Next(s, l, s')
    ensures Safe(s')
  {
    hide Safe, Next;
    match l
    case Enqueue(event, now) => EnqueueSafe(s, event, now, s');
    case Fetch(now) => FetchSafe(s, now, s');
    case Deliver(_) => ControllerSafe(s, l, s');
    case HandleItem(h) => ItemSafe(s, h, s');
    case Respond(_) => ControllerSafe(s, l, s');
    case StopController => ControllerSafe(s, l, s');
    case Receive(results) => ReceiveSafe(s, results, s');
    case MarkNext(now) => MarkNextSafe(s, now, s');
    case GiveUp => LocalStepSafe(s, l, s');
    case FinishMarking => LocalStepSafe(s, l, s');
    case Crash => LocalStepSafe(s, l, s');
  }

  lemma {:induction false} EveryStateSafe(states: seq<State>, labels: seq<Label>, n: nat)
    requires Run(states, labels) && n <= |labels|
    ensures Safe(states[n])
  {
    hide Next;
    if n == 0 {
      InitialSafe();
    } else {
      EveryStateSafe(states, labels, n - 1);
      assert Next(states[n - 1], labels[n - 1], states[n - 1 + 1]);
      StepSafe(states[n - 1], labels[n - 1], states[n]);
    }
  }

  lemma {:induction false} InitialSafe()
    ensures Safe(INITIAL)
  {
    assert forall row :: FailuresOf(INITIAL, row) == [];
  }

  /**
    Main result: no event is lost or stored twice. In every reachable state, every event ever enqueued is in the queue,
    in the controller's store, was discarded by the capacity limit, or was given up after exactly 48 failures; and the
    store holds each event at most once.
  */
  lemma {:induction false} NoEventLostOrStoredTwice(states: seq<State>, labels: seq<Label>, n: nat, e: EventId)
    requires Run(states, labels) && n <= |labels|
    ensures e in states[n].enqueued
        ==> InQueue(states[n], e) || Stored(states[n].store, e) || e in states[n].overCapacity || GivenUp(states[n], e)
    ensures NoDuplicates(states[n].store)
    ensures |states[n].queue.rows| <= MAX_QUEUE_SIZE
  {
    hide Next, InQueue, Stored;
    EveryStateSafe(states, labels, n);
  }

  /** A row taken off the queue as delivered is stored at the controller. */
  lemma {:induction false} DeliveredMeansStored(states: seq<State>, labels: seq<Label>, n: nat, r: Row)
    requires Run(states, labels) && n < |labels|
    requires labels[n].MarkNext? && states[n].phase.Marking? && states[n].phase.todo != [] && states[n].phase.todo[0].verdict == DELIVERED
    requires r in states[n].queue.rows && r !in states[n + 1].queue.rows
    ensures Stored(states[n + 1].store, r.event.eventId)
  {
    hide Stored, AfterMark, BackoffDelay, Conserved, CountsOk;
    EveryStateSafe(states, labels, n);
    var s, now := states[n], labels[n].now;
    assert Next(s, labels[n], states[n + 1]);
    MarkedRows(s.queue, s.phase.todo[0], now);
    AfterMarkTable(s, s.phase.todo[0], now);
  }
}
