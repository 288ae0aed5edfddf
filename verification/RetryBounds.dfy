/** Retrying has real bounds when the agent's clock does not run backwards. */
module RetryBounds {
  import opened Lists
  import opened EventQueue
  import opened EventStore
  import opened Delivery

  /** Each failure comes at least the backoff of the one before it later. */
  ghost predicate Spaced(failures: seq<Instant>) {
    forall k :: 0 < k < |failures| ==> failures[k - 1] + BackoffDelay(k) <= failures[k]
  }

  ghost predicate Monotone(s: State, l: Label) {
    match l
    case Enqueue(_, now) => s.clock <= now
    case Fetch(now) => s.clock <= now
    case MarkNext(now) => s.clock <= now
    case _ => true
  }

  /** The backoff of a row's last recorded failure is over by `t`. */
  ghost predicate Rested(s: State, row: RowId, t: Instant) {
    var f := FailuresOf(s, row);
    f != [] ==> f[|f| - 1] + BackoffDelay(|f|) <= t
  }

  function Deliveries(phase: Phase): (r: seq<PendingDelivery>) {
    match phase
    case Idle => []
    case Awaiting(batch, _) => batch
    case Marking(todo) => seq(|todo|, i requires 0 <= i < |todo| => todo[i].delivery)
  }

  ghost predicate Timed(s: State) {
    && (forall row :: Spaced(FailuresOf(s, row)))
    && (forall r :: r in s.queue.rows ==> Rested(s, r.id, r.nextAttemptAt))
    && (forall d, r :: d in Deliveries(s.phase) && r in s.queue.rows && r.id == d.rowId ==> Rested(s, d.rowId, s.clock))
  }

  lemma {:induction false} SameHistory(s: State, s': State)
    requires s'.failures == s.failures
    ensures forall row :: FailuresOf(s', row) == FailuresOf(s, row)
    ensures forall row, t, t' :: Rested(s, row, t) && t <= t' ==> Rested(s', row, t')
  {}

  lemma {:induction false} EnqueueTimed(s: State, event: QueuedEvent, now: Instant, s': State)
    requires Safe(s) && Timed(s) && Next(s, Enqueue(event, now), s') && s.clock <= now
    ensures Timed(s')
  {
    hide Enqueued, Discarded, Rested, Spaced, BackoffDelay;
    SameHistory(s, s');
    EnqueueKeepsTable(s, event, now);
    forall r | r in s'.queue.rows
      ensures Rested(s', r.id, r.nextAttemptAt)
    {
      if r !in s.queue.rows {
        NoFailuresYet(s, s', r.id, r.nextAttemptAt);
      }
    }
    forall d, r | d in Deliveries(s'.phase) && r in s'.queue.rows && r.id == d.rowId
      ensures Rested(s', d.rowId, s'.clock)
    {
      if r !in s.queue.rows {
        NoFailuresYet(s, s', r.id, s'.clock);
      }
    }
  }

  lemma {:induction false} NoFailuresYet(s: State, s': State, row: RowId, t: Instant)
    requires CountsOk(s) && s'.failures == s.failures && s.queue.nextRowId <= row
    ensures Rested(s', row, t)
  {}

  lemma {:induction false} FetchTimed(s: State, now: Instant, s': State)
    requires Safe(s) && Timed(s) && Next(s, Fetch(now), s') && s.clock <= now
    ensures Timed(s')
  {
    hide DueRows, Rested, Spaced, BackoffDelay;
    SameHistory(s, s');
    var rows := DueRows(s.queue, now, EVENT_BATCH_SIZE);
    DueRowsAreDue(s.queue, now, EVENT_BATCH_SIZE);
    forall d, r | d in Deliveries(s'.phase) && r in s'.queue.rows && r.id == d.rowId
      ensures Rested(s', d.rowId, s'.clock)
    {
      var i :| 0 <= i < |rows| && s'.phase.batch[i] == d;
      assert rows[i] in rows;
    }
  }

  lemma {:induction false} OtherTimed(s: State, l: Label, s': State)
    requires Timed(s) && Next(s, l, s') && !l.Enqueue? && !l.Fetch? && !l.MarkNext?
    ensures Timed(s')
  {
    hide Rested, Spaced, BackoffDelay;
    SameHistory(s, s');
    assert forall d :: d in Deliveries(s'.phase) ==> d in Deliveries(s.phase);
  }

  lemma {:induction false} MarkTimed(s: State, now: Instant, s': State)
    requires Safe(s) && Timed(s) && Next(s, MarkNext(now), s') && s.clock <= now
    ensures Timed(s')
  {
    hide AfterMark, BackoffDelay, Conserved, CountsOk, Stored, WellFormed, Rested, Spaced, FailuresOf, Current;
    var mark := s.phase.todo[0];
    var m, d := AfterMark(s, mark, now), mark.delivery;
    MarkedRows(s.queue, mark, now);
    AfterMarkTable(s, mark, now);
    SameHistory(m, s');
    assert d == Deliveries(s.phase)[0] && d in Deliveries(s.phase);
    forall row
      ensures Spaced(FailuresOf(s', row))
    {
      MarkSpacing(s, mark, now, row);
    }
    forall r | r in s'.queue.rows
      ensures Rested(s', r.id, r.nextAttemptAt)
    {
      MarkedRowRests(s, mark, now, r);
    }
    forall x, r | x in Deliveries(s'.phase) && r in s'.queue.rows && r.id == x.rowId
      ensures Rested(s', x.rowId, s'.clock)
    {
      var i :| 0 <= i < |s'.phase.todo| && s'.phase.todo[i].delivery == x;
      assert s'.phase.todo[i] == s.phase.todo[i + 1];
      assert x == Deliveries(s.phase)[i + 1];
      OtherRowRests(s, mark, now, x.rowId, s.clock);
    }
  }

  lemma {:induction false} OtherRowRests(s: State, mark: Mark, now: Instant, row: RowId, t: Instant)
    requires ReadyToMark(s, mark) && row != mark.delivery.rowId && Rested(s, row, t)
    ensures Rested(AfterMark(s, mark, now), row, t)
  {
    hide AfterMark, BackoffDelay, WellFormed, CountsOk, Stored, Current;
    FailuresAfterMark(s, mark, now);
  }

  lemma {:induction false} MarkSpacing(s: State, mark: Mark, now: Instant, row: RowId)
    requires ReadyToMark(s, mark) && Spaced(FailuresOf(s, row)) && s.clock <= now
    requires (exists r :: r in s.queue.rows && r.id == mark.delivery.rowId) ==> Rested(s, mark.delivery.rowId, s.clock)
    ensures Spaced(FailuresOf(AfterMark(s, mark, now), row))
  {
    hide AfterMark, BackoffDelay, WellFormed, CountsOk, Stored, Current, FailuresOf;
    FailuresAfterMark(s, mark, now);
    if row == mark.delivery.rowId && (mark.verdict == DELIVERED || forall r :: r in s.queue.rows ==> r.id != row) {
      SameFailures(s, AfterMark(s, mark, now), row);
    }
  }

  lemma {:induction false} MarkedRowRests(s: State, mark: Mark, now: Instant, r: Row)
    requires ReadyToMark(s, mark) && r in Marked(s.queue, mark, now).rows
    requires forall x :: x in s.queue.rows ==> Rested(s, x.id, x.nextAttemptAt)
    ensures Rested(AfterMark(s, mark, now), r.id, r.nextAttemptAt)
  {
    hide AfterMark, BackoffDelay, WellFormed, CountsOk, Stored, FailuresOf, Marked, Current;
    MarkedRows(s.queue, mark, now);
    FailuresAfterMark(s, mark, now);
    if r.id == mark.delivery.rowId {
      var x :| x in s.queue.rows && x.id == mark.delivery.rowId;
    } else {
      OtherRowRests(s, mark, now, r.id, r.nextAttemptAt);
    }
  }

  lemma {:induction false} StepTimed(s: State, l: Label, s': State)
    requires Safe(s) && Timed(s) && Next(s, l, s') && Monotone(s, l)
    ensures Timed(s')
  {
    hide Safe, Timed, Next;
    match l
    case Enqueue(event, now) => EnqueueTimed(s, event, now, s');
    case Fetch(now) => FetchTimed(s, now, s');
    case MarkNext(now) => MarkTimed(s, now, s');
    case _ => OtherTimed(s, l, s');
  }

  lemma {:induction false} EveryStateTimed(states: seq<State>, labels: seq<Label>, n: nat)
    requires Run(states, labels) && n <= |labels|
    requires forall i :: 0 <= i < |labels| ==> Monotone(states[i], labels[i])
    ensures Timed(states[n])
  {
    hide Next, Safe, Timed;
    if n == 0 {
      InitialTimed();
    } else {
      EveryStateTimed(states, labels, n - 1);
      EveryStateSafe(states, labels, n - 1);
      assert Next(states[n - 1], labels[n - 1], states[n - 1 + 1]);
      StepTimed(states[n - 1], labels[n - 1], states[n]);
    }
  }

  lemma {:induction false} InitialTimed()
    ensures Timed(INITIAL)
  {}

  // ---------------------------------------------------------------- the total

  function TotalBackoff(failures: nat): nat {
    if failures == 0 then 0 else TotalBackoff(failures - 1) + BackoffDelay(failures)
  }

  /** 10 s, 30 s, 1 min, 5 min and 15 min, then half an hour each. */
  lemma {:induction false} TotalBackoffValue(failures: nat)
    requires 5 <= failures
    ensures TotalBackoff(failures) == (1300 + 1800 * (failures - 5)) * SECOND
  {
    if failures > 5 {
      TotalBackoffValue(failures - 1);
      assert BackoffDelay(failures) == 1800 * SECOND;
    } else {
      assert BackoffDelay(1) == 10 * SECOND && BackoffDelay(2) == 30 * SECOND && BackoffDelay(3) == 60 * SECOND;
      assert BackoffDelay(4) == 300 * SECOND && BackoffDelay(5) == 900 * SECOND;
      assert TotalBackoff(1) == 10 * SECOND && TotalBackoff(2) == 40 * SECOND && TotalBackoff(3) == 100 * SECOND;
      assert TotalBackoff(4) == 400 * SECOND;
    }
  }

  lemma {:induction false} SpacedAddsUp(failures: seq<Instant>, k: nat)
    requires Spaced(failures) && k < |failures|
    ensures failures[0] + TotalBackoff(k) <= failures[k]
  {
    if k > 0 {
      SpacedAddsUp(failures, k - 1);
    }
  }

  /**
    Main result: an event given up as undeliverable was tried and failed exactly 48 times, the last time no sooner
    than 76900 seconds after the first; while a row is queued its recorded failures are fewer than 48.
  */
  lemma {:induction false} GivenUpOnlyAfter76900Seconds(states: seq<State>, labels: seq<Label>, n: nat, row: RowId)
    requires Run(states, labels) && n <= |labels|
    requires forall i :: 0 <= i < |labels| ==> Monotone(states[i], labels[i])
    ensures var f := FailuresOf(states[n], row);
            row in states[n].undeliverable ==> |f| == 48 && f[0] + 76_900 * SECOND <= f[47]
    ensures forall r :: r in states[n].queue.rows ==> r.attemptCount == |FailuresOf(states[n], r.id)| < 48
  {
    hide Next, Conserved, PhaseOk, RepliesOk, WellFormed, NoDuplicates, FailuresOf, BackoffDelay, TotalBackoff;
    EveryStateSafe(states, labels, n);
    EveryStateTimed(states, labels, n);
    if row in states[n].undeliverable {
      SpacedAddsUp(FailuresOf(states[n], row), 47);
      TotalBackoffValue(47);
    }
  }
}
