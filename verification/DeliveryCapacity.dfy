/** When the queue's capacity drops an event, what a fetch takes, and what an answer does to a row. */
module DeliveryCapacity {
  import opened Lists
  import opened EventQueue
  import opened EventStore
  import opened Delivery
  import opened DeliveredEvents

  // ---------------------------------------------------------------- events dropped by the capacity

  lemma {:induction false} InsertedByOne(t: Table, event: QueuedEvent, now: Instant)
    ensures |t.rows| <= |Inserted(t, event, now).rows| <= |t.rows| + 1
  {}

  lemma {:induction false} DiscardedOnlyWhenFull(t: Table, event: QueuedEvent, now: Instant)
    requires |t.rows| < 5_000
    ensures Discarded(Inserted(t, event, now), MAX_QUEUE_SIZE) == []
    ensures Enqueued(t, event, now) == Inserted(t, event, now)
  {
    hide Inserted;
    InsertedByOne(t, event, now);
    CappedExactly(Inserted(t, event, now), MAX_QUEUE_SIZE);
  }

  /** Only an enqueue that finds 5000 rows drops anything for want of room. */
  lemma {:induction false} DroppedOnlyWhenFull(states: seq<State>, labels: seq<Label>, n: nat, e: EventId)
    requires Run(states, labels) && n < |labels| && e in states[n + 1].overCapacity && e !in states[n].overCapacity
    ensures labels[n].Enqueue? && |states[n].queue.rows| == 5_000
  {
    hide Inserted, Discarded, Enqueued, AfterMark, StoreAfter, ResultsOf;
    StepOfRun(states, labels, n);
    OverCapacityStep(states[n], labels[n], states[n + 1], e);
  }

  lemma {:induction false} OverCapacityStep(s: State, l: Label, s': State, e: EventId)
    requires Safe(s) && Next(s, l, s') && e in s'.overCapacity && e !in s.overCapacity
    ensures l.Enqueue? && |s.queue.rows| == 5_000
  {
    hide Inserted, Discarded, Enqueued, AfterMark, StoreAfter, ResultsOf, Conserved, PhaseOk, RepliesOk, CountsOk, WellFormed, NoDuplicates;
    if l.MarkNext? {
      AfterMarkTable(s, s.phase.todo[0], l.now);
    } else if l.Enqueue? && |s.queue.rows| < 5_000 {
      DiscardedOnlyWhenFull(s.queue, l.event, l.now);
    }
  }

  lemma {:induction false} NothingDropped(states: seq<State>, labels: seq<Label>, n: nat)
    requires Run(states, labels) && n <= |labels| && forall k :: 0 <= k < n ==> |states[k].queue.rows| < 5_000
    ensures states[n].overCapacity == {}
  {
    hide Next;
    if n > 0 {
      NothingDropped(states, labels, n - 1);
      if e :| e in states[n].overCapacity {
        DroppedOnlyWhenFull(states, labels, n - 1, e);
      }
    }
  }

  /**
    Main result: as long as the queue never holds 5000 rows, every event ever enqueued is queued, stored at the controller,
    or was given up after 48 failures.
  */
  lemma {:induction false} NothingLostWithRoom(states: seq<State>, labels: seq<Label>, n: nat, e: EventId)
    requires Run(states, labels) && n <= |labels| && forall k :: 0 <= k < n ==> |states[k].queue.rows| < 5_000
    requires e in states[n].enqueued
    ensures InQueue(states[n], e) || Stored(states[n].store, e) || GivenUp(states[n], e)
  {
    hide Next, InQueue, Stored, GivenUp;
    NothingDropped(states, labels, n);
    NoEventLostOrStoredTwice(states, labels, n, e);
  }

  // ---------------------------------------------------------------- what an enqueue adds

  /** A known id adds nothing; a new event is added last, due at once and without failures. */
  lemma {:induction false} AddedOnce(t: Table, event: QueuedEvent, now: Instant)
    ensures var known, after := exists r :: r in t.rows && r.event.eventId == event.eventId, Inserted(t, event, now);
            && (known ==> after == t)
            && (!known ==>
                  && |after.rows| == |t.rows| + 1 && after.rows[..|t.rows|] == t.rows
                  && var r := after.rows[|t.rows|]; r.event == event && r.nextAttemptAt == r.createdAt == now && r.attemptCount == 0)
  {
    FilterMembers(WithEvent(event.eventId), t.rows);
    hide Filter;
    var same := Filter(WithEvent(event.eventId), t.rows);
    if same != [] {
      assert same[0] in same;
    }
  }

  // ---------------------------------------------------------------- what a fetch takes

  /** A batch holds the events of at most 100 due rows, and of every due row if there are fewer than 100. */
  lemma {:induction false} BatchTakesDue(t: Table, now: Instant)
    requires WellFormed(t)
    ensures var sent := EventsOf(DueBatchOf(t, now, 100));
            && |sent| <= 100
            && (forall e :: e in sent ==> exists r :: r in t.rows && r.event == e && r.nextAttemptAt <= now)
            && (|sent| < 100 ==> forall r :: r in t.rows && r.nextAttemptAt <= now ==> r.event in sent)
  {
    hide DueRows, WellFormed, DistinctBy, SortedBy;
    DueRowsAreDue(t, now, 100);
    var rows, sent := DueRows(t, now, 100), EventsOf(DueBatchOf(t, now, 100));
    EventsOfRows(rows);
    forall e | e in sent
      ensures exists r :: r in t.rows && r.event == e && r.nextAttemptAt <= now
    {
      var i :| 0 <= i < |sent| && sent[i] == e;
      var r := rows[i];
      assert r in rows;
      assert r in t.rows && r.event == e && r.nextAttemptAt <= now;
    }
  }

  lemma {:induction false} EventsOfRows(rows: seq<Row>)
    ensures var sent := EventsOf(Pending(rows));
            && |sent| == |rows|
            && (forall i :: 0 <= i < |sent| ==> rows[i] in rows && rows[i].event == sent[i])
            && forall r :: r in rows ==> r.event in sent
  {
    var sent := EventsOf(Pending(rows));
    forall r | r in rows
      ensures r.event in sent
    {
      var i :| 0 <= i < |rows| && rows[i] == r;
      assert sent[i] == r.event;
    }
  }

  /** A fetch sends such a batch, and is not made when nothing is due. */
  lemma {:induction false} FetchTakesDue(s: State, now: Instant, s': State)
    requires Safe(s) && Next(s, Fetch(now), s')
    ensures var sent := EventsOf(DueBatchOf(s.queue, now, 100)); sent != [] && s'.requests == s.requests + [sent]
    ensures exists r :: r in s.queue.rows && r.nextAttemptAt <= now
  {
    hide EventsOf, DueRows, Conserved, PhaseOk, RepliesOk, CountsOk, WellFormed, NoDuplicates, DistinctBy, SortedBy;
    BatchTakesDue(s.queue, now);
    var sent := EventsOf(DueBatchOf(s.queue, now, 100));
    assert sent != [] && sent[0] in sent;
    var r :| r in s.queue.rows && r.event == sent[0] && r.nextAttemptAt <= now;
  }

  // ---------------------------------------------------------------- what an answer does

  /** A row answered as accepted or as a duplicate leaves the queue; one rejected, or not answered, fails once. */
  lemma {:induction false} AnswerMarks(t: Table, batch: seq<PendingDelivery>, response: Option<seq<EventResult>>, i: nat, now: Instant)
    requires WellFormed(t)
    ensures i < |Outcome(batch, response)| <==> i < |batch| && (response.Some? ==> i < |response.value|)
    ensures i < |Outcome(batch, response)| ==>
              var mark := Outcome(batch, response)[i];
              && mark.delivery == batch[i]
              && (response.Some? && response.value[i].status != REJECTED ==>
                    forall r :: r in Marked(t, mark, now).rows <==> r in t.rows && r.id != batch[i].rowId)
              && (response.None? || response.value[i].status == REJECTED ==>
                    Marked(t, mark, now) == Failed(t, batch[i].rowId, batch[i].attemptCount, now))
  {
    hide Failed, Without, WellFormed;
    if i < |batch| {
      RowGone(t, batch[i].rowId);
    }
  }
}
