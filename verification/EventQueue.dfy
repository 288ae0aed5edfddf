/** The agent's durable event queue: one table of rows, changed by single statements. Times are milliseconds. */
module EventQueue {
  import opened Lists

  type Instant = int
  type EventId = nat
  type RowId = nat

  const SECOND := 1000
  const BACKOFF_SCHEDULE_SECONDS: seq<nat> := [10, 30, 60, 300, 900, 1800]
  const MAX_ATTEMPTS := 48
  const MAX_QUEUE_SIZE := 5000

  /** `body` stands for the type, time, severity, source, session, user and data of the event. */
  datatype QueuedEvent = QueuedEvent(eventId: EventId, body: string)
  datatype Row = Row(id: RowId, event: QueuedEvent, attemptCount: nat, nextAttemptAt: Instant, createdAt: Instant)
  datatype PendingDelivery = PendingDelivery(rowId: RowId, event: QueuedEvent, attemptCount: nat)

  /** The table; row ids are assigned in increasing order and never used again. */
  datatype Table = Table(rows: seq<Row>, nextRowId: RowId)

  function CreatedAt(r: Row): int { r.createdAt }
  function IdOf(r: Row): int { r.id }
  function EventIdOf(r: Row): int { r.event.eventId }

  /** `attempt` counts the failures so far; the last delay is kept for any further one. */
  function BackoffDelay(attempt: nat): (ms: nat)
  {
    var previous := if attempt == 0 then 0 else attempt - 1;
    BACKOFF_SCHEDULE_SECONDS[if previous < |BACKOFF_SCHEDULE_SECONDS| - 1 then previous else |BACKOFF_SCHEDULE_SECONDS| - 1] * SECOND
  }

  function WithEvent(eventId: EventId): Row -> bool { (r: Row) => r.event.eventId == eventId }
  function Other(id: RowId): Row -> bool { (r: Row) => r.id != id }
  function DueAt(now: Instant): Row -> bool { (r: Row) => r.nextAttemptAt <= now }

  function Inserted(t: Table, event: QueuedEvent, now: Instant): Table {
    if Filter(WithEvent(event.eventId), t.rows) != [] then t
    else Table(t.rows + [Row(t.nextRowId, event, 0, now, now)], t.nextRowId + 1)
  }

  function Overflow(t: Table, cap: nat): nat {
    if |t.rows| > cap then |t.rows| - cap else 0
  }

  /** The oldest rows past the capacity. */
  function Discarded(t: Table, cap: nat): seq<Row> {
    SortBySorts(CreatedAt, t.rows);
    SortBy(CreatedAt, t.rows)[..Overflow(t, cap)]
  }

  function Capped(t: Table, cap: nat): Table {
    SortBySorts(CreatedAt, t.rows);
    if Overflow(t, cap) == 0 then t else t.(rows := SortBy(CreatedAt, t.rows)[Overflow(t, cap)..])
  }

  function Enqueued(t: Table, event: QueuedEvent, now: Instant): Table {
    Capped(Inserted(t, event, now), MAX_QUEUE_SIZE)
  }

  function Pending(rows: seq<Row>): (r: seq<PendingDelivery>)
    ensures |r| == |rows|
    ensures forall i :: 0 <= i < |rows| ==> r[i] == PendingDelivery(rows[i].id, rows[i].event, rows[i].attemptCount)
  {
    seq(|rows|, i requires 0 <= i < |rows| => PendingDelivery(rows[i].id, rows[i].event, rows[i].attemptCount))
  }

  function DueRows(t: Table, now: Instant, limit: nat): seq<Row> {
    var due := SortBy(CreatedAt, Filter(DueAt(now), t.rows));
    if |due| > limit then due[..limit] else due
  }

  function DueBatchOf(t: Table, now: Instant, limit: nat): seq<PendingDelivery> {
    Pending(DueRows(t, now, limit))
  }

  function Without(t: Table, rowId: RowId): Table {
    t.(rows := Filter(Other(rowId), t.rows))
  }

  function Rescheduled(rows: seq<Row>, rowId: RowId, attemptCount: nat, nextAttemptAt: Instant): (r: seq<Row>)
    ensures |r| == |rows|
    ensures forall i :: 0 <= i < |rows|
                    ==> r[i] == if rows[i].id == rowId then rows[i].(attemptCount := attemptCount, nextAttemptAt := nextAttemptAt)
                                else rows[i]
  {
    seq(|rows|, i requires 0 <= i < |rows| =>
          if rows[i].id == rowId then rows[i].(attemptCount := attemptCount, nextAttemptAt := nextAttemptAt) else rows[i])
  }

  function Failed(t: Table, rowId: RowId, attemptCount: nat, now: Instant): Table {
    var next := attemptCount + 1;
    if next >= MAX_ATTEMPTS then Without(t, rowId)
    else t.(rows := Rescheduled(t.rows, rowId, next, now + BackoffDelay(next)))
  }

  ghost predicate WellFormed(t: Table) {
    && DistinctBy(IdOf, t.rows) && DistinctBy(EventIdOf, t.rows)
    && forall r :: r in t.rows ==> r.id < t.nextRowId
  }

  class EventQueue {
    var rows: seq<Row>
    var nextRowId: RowId

    function Contents(): Table
      reads this
    {
      Table(rows, nextRowId)
    }

    constructor ()
      ensures Contents() == Table([], 0)
    {
      rows, nextRowId := [], 0;
    }

    method Enqueue(event: QueuedEvent, now: Instant)
      modifies this
      ensures Contents() == Enqueued(old(Contents()), event, now)
    {
      if Filter(WithEvent(event.eventId), rows) == [] {
        rows := rows + [Row(nextRowId, event, 0, now, now)];
        nextRowId := nextRowId + 1;
      }
      EnforceMaxSizeWithCap(MAX_QUEUE_SIZE);
    }

    method EnforceMaxSizeWithCap(cap: nat)
      modifies this
      ensures Contents() == Capped(old(Contents()), cap)
    {
      var overflow := |rows| - cap;
      if overflow > 0 {
        SortBySorts(CreatedAt, rows);
        rows := SortBy(CreatedAt, rows)[overflow..];
      }
    }

    method DueBatch(now: Instant, limit: nat) returns (batch: seq<PendingDelivery>)
      ensures batch == DueBatchOf(Contents(), now, limit)
    {
      var due := SortBy(CreatedAt, Filter(DueAt(now), rows));
      batch := Pending(if |due| > limit then due[..limit] else due);
    }

    method MarkDelivered(rowId: RowId)
      modifies this
      ensures Contents() == Without(old(Contents()), rowId)
    {
      rows := Filter(Other(rowId), rows);
    }

    method MarkFailed(rowId: RowId, attemptCount: nat, now: Instant)
      modifies this
      ensures Contents() == Failed(old(Contents()), rowId, attemptCount, now)
    {
      var nextAttemptCount := attemptCount + 1;
      if nextAttemptCount >= MAX_ATTEMPTS {
        rows := Filter(Other(rowId), rows);
        return;
      }
      rows := Rescheduled(rows, rowId, nextAttemptCount, now + BackoffDelay(nextAttemptCount));
    }
  }

  // ---------------------------------------------------------------- what each statement does to the table

  /** Enqueueing never leaves more rows than the capacity, and discards only rows at least as old as any it keeps. */
  lemma {:induction false} CapacityRespected(t: Table, cap: nat)
    ensures |Capped(t, cap).rows| <= cap
    ensures multiset(t.rows) == multiset(Discarded(t, cap)) + multiset(Capped(t, cap).rows)
    ensures forall a, b :: a in Discarded(t, cap) && b in Capped(t, cap).rows ==> a.createdAt <= b.createdAt
  {
    SortBySorts(CreatedAt, t.rows);
    var sorted, k := SortBy(CreatedAt, t.rows), Overflow(t, cap);
    hide SortBy;
    assert sorted == sorted[..k] + sorted[k..];
    if k > 0 {
      forall a, b | a in sorted[..k] && b in sorted[k..]
        ensures a.createdAt <= b.createdAt
      {
        var i :| 0 <= i < k && sorted[i] == a;
        var j :| k <= j < |sorted| && sorted[j] == b;
        assert CreatedAt(sorted[i]) <= CreatedAt(sorted[j]);
      }
    }
  }

  /** Exactly the overflow is dropped, and nothing below the capacity. */
  lemma {:induction false} CappedExactly(t: Table, cap: nat)
    ensures |Capped(t, cap).rows| == if |t.rows| <= cap then |t.rows| else cap
    ensures |t.rows| <= cap ==> Capped(t, cap) == t && Discarded(t, cap) == []
  {
    SortBySorts(CreatedAt, t.rows);
    hide SortBy;
  }

  /** The pauses after the first to the fifth failure, and after every later one, in seconds. */
  lemma {:induction false} BackoffIs(failures: nat)
    ensures BackoffDelay(failures) == 1000 * (if failures <= 1 then 10 else if failures == 2 then 30 else if failures == 3 then 60
                                              else if failures == 4 then 300 else if failures == 5 then 900 else 1800)
  {}

  /** The 48th failure drops the row; any other puts it off by the pause for that many failures, and touches no other row. */
  lemma {:induction false} FailedExactly(t: Table, rowId: RowId, attemptCount: nat, now: Instant)
    ensures var rows, failures := Failed(t, rowId, attemptCount, now).rows, attemptCount + 1;
            && (48 <= failures ==> forall r :: r in rows <==> r in t.rows && r.id != rowId)
            && (failures < 48 ==>
                  && |rows| == |t.rows|
                  && forall i :: 0 <= i < |rows| ==>
                       if t.rows[i].id != rowId then rows[i] == t.rows[i]
                       else && rows[i].id == rowId && rows[i].event == t.rows[i].event && rows[i].createdAt == t.rows[i].createdAt
                            && rows[i].attemptCount == failures
                            && rows[i].nextAttemptAt - now
                               == 1000 * if failures == 1 then 10 else if failures == 2 then 30 else if failures == 3 then 60
                                         else if failures == 4 then 300 else if failures == 5 then 900 else 1800)
  {
    FilterMembers(Other(rowId), t.rows);
    BackoffIs(attemptCount + 1);
    hide Filter, BackoffDelay;
  }

  lemma {:induction false} CappedMembers(t: Table, cap: nat)
    ensures forall r :: r in t.rows <==> r in Discarded(t, cap) || r in Capped(t, cap).rows
  {
    CapacityRespected(t, cap);
    forall r
      ensures r in t.rows <==> r in Discarded(t, cap) || r in Capped(t, cap).rows
    {
      assert r in t.rows <==> r in multiset(t.rows);
    }
  }

  lemma {:induction false} CappedWellFormed(t: Table, cap: nat)
    requires WellFormed(t)
    ensures WellFormed(Capped(t, cap))
  {
    SortByDistinct(CreatedAt, IdOf, t.rows);
    SortByDistinct(CreatedAt, EventIdOf, t.rows);
    CappedMembers(t, cap);
  }

  lemma {:induction false} InsertedWellFormed(t: Table, event: QueuedEvent, now: Instant)
    requires WellFormed(t)
    ensures WellFormed(Inserted(t, event, now))
    ensures exists r :: r in Inserted(t, event, now).rows && r.event.eventId == event.eventId
    ensures forall r :: r in t.rows ==> r in Inserted(t, event, now).rows
    ensures forall r :: r in Inserted(t, event, now).rows ==> r in t.rows || r == Row(t.nextRowId, event, 0, now, now)
  {
    var same := Filter(WithEvent(event.eventId), t.rows);
    FilterMembers(WithEvent(event.eventId), t.rows);
    if same != [] {
      assert same[0] in same;
    } else {
      var row := Row(t.nextRowId, event, 0, now, now);
      forall i | 0 <= i < |t.rows|
        ensures IdOf(t.rows[i]) != IdOf(row) && EventIdOf(t.rows[i]) != EventIdOf(row)
      {
        assert t.rows[i] in t.rows && t.rows[i] !in same;
      }
      assert (t.rows + [row])[|t.rows|] == row;
    }
  }

  lemma {:induction false} WithoutWellFormed(t: Table, rowId: RowId)
    requires WellFormed(t)
    ensures WellFormed(Without(t, rowId))
    ensures forall r :: r in Without(t, rowId).rows <==> r in t.rows && r.id != rowId
  {
    FilterMembers(Other(rowId), t.rows);
    FilterDistinct(Other(rowId), IdOf, t.rows);
    FilterDistinct(Other(rowId), EventIdOf, t.rows);
  }

  /** Rescheduling changes one row's count and time, and nothing else. */
  lemma {:induction false} RescheduledWellFormed(t: Table, rowId: RowId, attemptCount: nat, nextAttemptAt: Instant)
    requires WellFormed(t)
    ensures var r := Rescheduled(t.rows, rowId, attemptCount, nextAttemptAt);
            && WellFormed(t.(rows := r))
            && (forall x :: x in t.rows ==> (if x.id == rowId then x.(attemptCount := attemptCount, nextAttemptAt := nextAttemptAt) else x) in r)
            && (forall y :: y in r ==>
                  exists x :: x in t.rows && y == if x.id == rowId then x.(attemptCount := attemptCount, nextAttemptAt := nextAttemptAt) else x)
  {
    var r := Rescheduled(t.rows, rowId, attemptCount, nextAttemptAt);
    forall i, j | 0 <= i < j < |r|
      ensures IdOf(r[i]) != IdOf(r[j]) && EventIdOf(r[i]) != EventIdOf(r[j])
    {
      assert IdOf(t.rows[i]) != IdOf(t.rows[j]) && EventIdOf(t.rows[i]) != EventIdOf(t.rows[j]);
    }
    forall x | x in t.rows
      ensures (if x.id == rowId then x.(attemptCount := attemptCount, nextAttemptAt := nextAttemptAt) else x) in r
    {
      var i :| 0 <= i < |t.rows| && t.rows[i] == x;
      assert r[i] in r;
    }
  }

  /** A batch holds distinct due rows, oldest first; a due row is left out only by the limit, for rows no newer than it. */
  lemma {:induction false} DueRowsAreDue(t: Table, now: Instant, limit: nat)
    requires WellFormed(t)
    ensures |DueRows(t, now, limit)| <= limit
    ensures DistinctBy(IdOf, DueRows(t, now, limit)) && SortedBy(CreatedAt, DueRows(t, now, limit))
    ensures forall r :: r in DueRows(t, now, limit) ==> r in t.rows && r.nextAttemptAt <= now
    ensures forall r :: r in t.rows && r.nextAttemptAt <= now && r !in DueRows(t, now, limit) ==>
              |DueRows(t, now, limit)| == limit && forall d :: d in DueRows(t, now, limit) ==> d.createdAt <= r.createdAt
  {
    DueSorted(t, now);
    hide Filter, SortBy, WellFormed, DistinctBy, SortedBy;
    var sorted := SortBy(CreatedAt, Filter(DueAt(now), t.rows));
    OldestTaken(sorted, limit);
    if |sorted| > limit {
      TakenInOrder(sorted, limit);
    }
  }

  lemma {:induction false} TakenInOrder(sorted: seq<Row>, limit: nat)
    requires limit <= |sorted| && DistinctBy(IdOf, sorted) && SortedBy(CreatedAt, sorted)
    ensures DistinctBy(IdOf, sorted[..limit]) && SortedBy(CreatedAt, sorted[..limit])
  {}

  lemma {:induction false} DueSorted(t: Table, now: Instant)
    requires WellFormed(t)
    ensures var sorted := SortBy(CreatedAt, Filter(DueAt(now), t.rows));
            && DistinctBy(IdOf, sorted) && SortedBy(CreatedAt, sorted)
            && forall r :: r in sorted <==> r in t.rows && r.nextAttemptAt <= now
  {
    var due := Filter(DueAt(now), t.rows);
    FilterMembers(DueAt(now), t.rows);
    FilterDistinct(DueAt(now), IdOf, t.rows);
    SortByDistinct(CreatedAt, IdOf, due);
    SortBySorts(CreatedAt, due);
    hide Filter, SortBy, DistinctBy, SortedBy;
  }

  lemma {:induction false} OldestTaken(sorted: seq<Row>, limit: nat)
    requires SortedBy(CreatedAt, sorted)
    ensures var taken := if |sorted| > limit then sorted[..limit] else sorted;
            forall r :: r in sorted && r !in taken ==> |taken| == limit && forall d :: d in taken ==> d.createdAt <= r.createdAt
  {
    if |sorted| > limit {
      var taken := sorted[..limit];
      forall i | 0 <= i < limit
        ensures sorted[i] in taken
      {
        assert taken[i] == sorted[i];
      }
      forall r, d | r in sorted && r !in taken && d in taken
        ensures d.createdAt <= r.createdAt
      {
        var i :| 0 <= i < limit && sorted[i] == d;
        var j :| 0 <= j < |sorted| && sorted[j] == r;
        assert CreatedAt(sorted[i]) <= CreatedAt(sorted[j]);
      }
    }
  }
}
