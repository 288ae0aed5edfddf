/** The recorder that ties the usage tracker to the local table of usage sessions, across crashes and restarts. */
module UsageRecorder {
  import opened Lists
  import opened UsageTracker

  type RecordId = nat

  /** A row whose end is missing is a session still open, or left open by a crash. */
  datatype SessionRow = SessionRow(id: RecordId, start: Instant, end: Option<Instant>, endReason: Option<EndReason>)

  function StartOf(r: SessionRow): int { r.start }
  function IsOpen(): SessionRow -> bool { (r: SessionRow) => r.end.None? }

  function RowStarted(rows: seq<SessionRow>, id: RecordId, start: Instant): seq<SessionRow> {
    rows + [SessionRow(id, start, None, None)]
  }

  function RowClosed(rows: seq<SessionRow>, id: RecordId, end: Instant, reason: EndReason): (r: seq<SessionRow>)
    ensures |r| == |rows|
    ensures forall i :: 0 <= i < |rows| ==> r[i] == if rows[i].id == id then rows[i].(end := Some(end), endReason := Some(reason)) else rows[i]
  {
    seq(|rows|, i requires 0 <= i < |rows| =>
          if rows[i].id == id then rows[i].(end := Some(end), endReason := Some(reason)) else rows[i])
  }

  /** The open row with the latest start. */
  function Dangling(rows: seq<SessionRow>): Option<SessionRow> {
    var byStart := SortBy(StartOf, Filter(IsOpen(), rows));
    if byStart == [] then None else Some(byStart[|byStart| - 1])
  }

  class Store {
    var rows: seq<SessionRow>

    constructor ()
      ensures rows == []
    {
      rows := [];
    }

    method StartSession(start: Instant, freshId: RecordId)
      modifies this
      ensures rows == RowStarted(old(rows), freshId, start)
    {
      rows := rows + [SessionRow(freshId, start, None, None)];
    }

    method EndSession(id: RecordId, end: Instant, reason: EndReason)
      modifies this
      ensures rows == RowClosed(old(rows), id, end, reason)
    {
      rows := RowClosed(rows, id, end, reason);
    }

    method InsertClosedSession(record: UsageSessionRecord, freshId: RecordId)
      modifies this
      ensures rows == old(rows) + [SessionRow(freshId, record.start, Some(record.end), Some(record.endReason))]
    {
      rows := rows + [SessionRow(freshId, record.start, Some(record.end), Some(record.endReason))];
    }

    method FindDanglingSession() returns (row: Option<SessionRow>)
      ensures row == Dangling(rows)
    {
      var byStart := SortBy(StartOf, Filter(IsOpen(), rows));
      row := if byStart == [] then None else Some(byStart[|byStart| - 1]);
    }
  }

  /** `standalone` says whether a record was ever stored without a row of its own to close. */
  datatype RecorderState =
    RecorderState(tracker: TrackerState, rows: seq<SessionRow>, openSessionId: Option<RecordId>, standalone: bool)

  function FromStore(rows: seq<SessionRow>, standalone: bool): RecorderState {
    var dangling := Dangling(rows);
    if dangling.Some? then
      RecorderState(ResumeOpenSession(dangling.value.start), rows, Some(dangling.value.id), standalone)
    else RecorderState(NEW_TRACKER, rows, None, standalone)
  }

  /** A repeated logon of a known session is ignored. */
  predicate Ignored(s: TrackerState, event: SessionEvent) {
    event.Logon? && event.id in s.sessions
  }

  function Handled(s: RecorderState, event: SessionEvent, now: Instant, freshId: RecordId): RecorderState {
    if Ignored(s.tracker, event) then s
    else
      var tracker := Applied(s.tracker, event, now);
      match AppliedTransition(s.tracker, event, now)
      case Started(start) => s.(tracker := tracker, rows := RowStarted(s.rows, freshId, start), openSessionId := Some(freshId))
      case Ended(record) =>
        if s.openSessionId.Some? then
          s.(tracker := tracker, rows := RowClosed(s.rows, s.openSessionId.value, record.end, record.endReason), openSessionId := None)
        else
          s.(tracker := tracker, standalone := true,
             rows := s.rows + [SessionRow(freshId, record.start, Some(record.end), Some(record.endReason))])
      case NoChange => s.(tracker := tracker)
  }

  function ShutDown(s: RecorderState, now: Instant): RecorderState {
    var stopped := s.(tracker := s.tracker.(openSince := None), openSessionId := None);
    if s.tracker.openSince.Some? && s.openSessionId.Some? then
      stopped.(rows := RowClosed(s.rows, s.openSessionId.value, now, AGENT_SHUTDOWN))
    else stopped
  }

  class UsageRecorder {
    const tracker: UsageTracker
    const store: Store
    var openSessionId: Option<RecordId>
    ghost var standalone: bool

    ghost function State(): RecorderState
      reads this, tracker, store
    {
      RecorderState(tracker.State(), store.rows, openSessionId, standalone)
    }

    constructor (store: Store)
      ensures this.store == store && fresh(tracker)
      ensures State() == FromStore(store.rows, false)
    {
      var row := store.FindDanglingSession();
      this.store := store;
      standalone := false;
      if row.Some? {
        var resumed := new UsageTracker.Resumed(row.value.start);
        tracker, openSessionId := resumed, Some(row.value.id);
      } else {
        var created := new UsageTracker();
        tracker, openSessionId := created, None;
      }
    }

    method HandleAt(event: SessionEvent, now: Instant, freshId: RecordId)
      modifies this, tracker, store
      ensures State() == Handled(old(State()), event, now, freshId)
    {
      if event.Logon? && event.id in tracker.sessions {
        return;
      }
      var transition := tracker.Apply(event, now);
      match transition
      case Started(start) =>
        store.StartSession(start, freshId);
        openSessionId := Some(freshId);
      case Ended(record) =>
        if openSessionId.Some? {
          store.EndSession(openSessionId.value, record.end, record.endReason);
          openSessionId := None;
        } else {
          store.InsertClosedSession(record, freshId);
          standalone := true;
        }
      case NoChange =>
    }

    method Shutdown(now: Instant)
      modifies this, tracker, store
      ensures State() == ShutDown(old(State()), now)
    {
      var record := tracker.Close(now, AGENT_SHUTDOWN);
      if record.Some? && openSessionId.Some? {
        store.EndSession(openSessionId.value, record.value.end, record.value.endReason);
      }
      openSessionId := None;
    }
  }

  // ---------------------------------------------------------------- every run, with crashes and restarts

  /**
    `Restarted` is the agent starting again, whether it was stopped cleanly or killed before. `KilledHandling` and
    `KilledStopping` are the agent killed after the tracker has changed but before the store has, and starting again.
  */
  datatype Op =
    | Notified(event: SessionEvent, at: Instant, freshId: RecordId)
    | StoppedCleanly(at: Instant)
    | Restarted
    | KilledHandling(event: SessionEvent, at: Instant)
    | KilledStopping(at: Instant)

  function After(s: RecorderState, op: Op): RecorderState {
    match op
    case Notified(event, at, freshId) => Handled(s, event, at, freshId)
    case StoppedCleanly(at) => ShutDown(s, at)
    case Restarted => FromStore(s.rows, s.standalone)
    case KilledHandling(_, _) => FromStore(s.rows, s.standalone)
    case KilledStopping(_) => FromStore(s.rows, s.standalone)
  }

  /** The record the tracker hands over when it is told of an event, if any. */
  function RecordOfEvent(s: RecorderState, event: SessionEvent, at: Instant): (r: seq<UsageSessionRecord>)
    ensures |r| <= 1
  {
    var t := AppliedTransition(s.tracker, event, at);
    if !Ignored(s.tracker, event) && t.Ended? then [t.record] else []
  }

  function RecordOfStop(s: RecorderState, at: Instant): (r: seq<UsageSessionRecord>)
    ensures |r| <= 1
  {
    if s.tracker.openSince.Some? then [UsageSessionRecord(s.tracker.openSince.value, at, AGENT_SHUTDOWN)] else []
  }

  /** The record that reaches the store during an operation, if any. */
  function RecordDuring(s: RecorderState, op: Op): seq<UsageSessionRecord> {
    match op
    case Notified(event, at, _) => RecordOfEvent(s, event, at)
    case StoppedCleanly(at) => RecordOfStop(s, at)
    case Restarted => []
    case KilledHandling(_, _) => []
    case KilledStopping(_) => []
  }

  /** The record that the tracker produced but the store never saw, if any. */
  function CutDuring(s: RecorderState, op: Op): (r: seq<UsageSessionRecord>)
    ensures |r| <= 1
  {
    match op
    case Notified(_, _, _) => []
    case StoppedCleanly(_) => []
    case Restarted => []
    case KilledHandling(event, at) => RecordOfEvent(s, event, at)
    case KilledStopping(at) => RecordOfStop(s, at)
  }

  function StateAfter(run: seq<Op>): RecorderState {
    if run == [] then FromStore([], false)
    else After(StateAfter(run[..|run| - 1]), run[|run| - 1])
  }

  function RecordsDuring(run: seq<Op>): seq<UsageSessionRecord> {
    if run == [] then []
    else RecordsDuring(run[..|run| - 1]) + RecordDuring(StateAfter(run[..|run| - 1]), run[|run| - 1])
  }

  /** All that the tracker produced, stored or cut off. */
  function ProducedDuring(run: seq<Op>): seq<UsageSessionRecord> {
    if run == [] then []
    else
      var s, op := StateAfter(run[..|run| - 1]), run[|run| - 1];
      ProducedDuring(run[..|run| - 1]) + RecordDuring(s, op) + CutDuring(s, op)
  }

  /** New row ids are random and never repeat one already stored. */
  ghost predicate FreshIds(run: seq<Op>) {
    forall i :: 0 <= i < |run| && run[i].Notified? ==> forall r :: r in StateAfter(run[..i]).rows ==> r.id != run[i].freshId
  }

  function EndedRecord(r: SessionRow): UsageSessionRecord
    requires r.end.Some? && r.endReason.Some?
  {
    UsageSessionRecord(r.start, r.end.value, r.endReason.value)
  }

  ghost predicate Over(r: SessionRow) {
    r.end.Some? && r.endReason.Some?
  }

  /** The rows that are over, as the records they hold. */
  ghost predicate Holds(rows: seq<SessionRow>, records: seq<UsageSessionRecord>) {
    |rows| == |records| && forall i :: 0 <= i < |rows| ==> Over(rows[i]) && EndedRecord(rows[i]) == records[i]
  }

  /**
    The store agrees with the tracker: with no open row id every row is over and the tracker idle; otherwise the last
    row, and no other, is open, under that id and with the start the tracker has.
  */
  ghost predicate Agree(s: RecorderState, records: seq<UsageSessionRecord>) {
    && !s.standalone
    && match s.openSessionId
       case None => s.tracker.openSince.None? && Holds(s.rows, records)
       case Some(id) =>
         && s.rows != [] && Holds(s.rows[..|s.rows| - 1], records)
         && s.tracker.openSince.Some? && s.rows[|s.rows| - 1] == SessionRow(id, s.tracker.openSince.value, None, None)
         && forall i :: 0 <= i < |s.rows| - 1 ==> s.rows[i].id != id
  }

  /** The row resumed is an open one, and none that is open started later. */
  lemma {:induction false} DanglingExact(rows: seq<SessionRow>)
    ensures Dangling(rows).None? <==> forall r :: r in rows ==> r.end.Some?
    ensures Dangling(rows).Some? ==>
              var row := Dangling(rows).value;
              row in rows && row.end.None? && forall r :: r in rows && r.end.None? ==> r.start <= row.start
  {
    var open := Filter(IsOpen(), rows);
    FilterMembers(IsOpen(), rows);
    SortBySorts(StartOf, open);
    hide Filter, SortBy;
    var byStart := SortBy(StartOf, open);
    if byStart != [] {
      var last := byStart[|byStart| - 1];
      assert last in byStart;
      forall r | r in rows && r.end.None?
        ensures r.start <= last.start
      {
        assert r in byStart;
        var i :| 0 <= i < |byStart| && byStart[i] == r;
        assert StartOf(byStart[i]) <= StartOf(last);
      }
    } else {
      assert forall r :: r in rows && r.end.None? ==> r in byStart;
    }
  }

  lemma {:induction false} DanglingIsLast(rows: seq<SessionRow>)
    requires forall i :: 0 <= i < |rows| - 1 ==> rows[i].end.Some?
    ensures Dangling(rows) == if rows != [] && rows[|rows| - 1].end.None? then Some(rows[|rows| - 1]) else None
  {
    if rows != [] {
      var front, last := rows[..|rows| - 1], rows[|rows| - 1];
      FilterMembers(IsOpen(), front);
      if Filter(IsOpen(), front) != [] {
        assert Filter(IsOpen(), front)[0] in front;
      }
      assert Filter(IsOpen(), rows) == if last.end.None? then [last] else [];
      assert [last][..0] == [];
      assert SortBy(StartOf, [last]) == [last];
    }
  }

  lemma {:induction false} RestartAgrees(s: RecorderState, records: seq<UsageSessionRecord>)
    requires Agree(s, records)
    ensures Agree(FromStore(s.rows, s.standalone), records)
  {
    hide Dangling;
    DanglingIsLast(s.rows);
  }

  /** Closing the last row under its id leaves the others alone. */
  lemma {:induction false} CloseLast(rows: seq<SessionRow>, id: RecordId, end: Instant, reason: EndReason, records: seq<UsageSessionRecord>)
    requires rows != [] && Holds(rows[..|rows| - 1], records) && rows[|rows| - 1].id == id
    requires forall i :: 0 <= i < |rows| - 1 ==> rows[i].id != id
    ensures Holds(RowClosed(rows, id, end, reason), records + [UsageSessionRecord(rows[|rows| - 1].start, end, reason)])
  {
    forall i | 0 <= i < |rows| - 1
      ensures Over(rows[i]) && EndedRecord(rows[i]) == records[i]
    {
      assert rows[i] == rows[..|rows| - 1][i];
    }
  }

  lemma {:induction false} TransitionFacts(s: TrackerState, event: SessionEvent, at: Instant)
    ensures var t, s' := AppliedTransition(s, event, at), Applied(s, event, at);
            && (t.Started? ==> s.openSince.None? && s'.openSince == Some(t.start))
            && (t.Ended? ==> s.openSince == Some(t.record.start) && s'.openSince.None?)
            && (t.NoChange? ==> s'.openSince == s.openSince)
  {
    hide AnyVisible;
  }

  lemma {:induction false} NotifiedAgrees(s: RecorderState, event: SessionEvent, at: Instant, freshId: RecordId, records: seq<UsageSessionRecord>)
    requires Agree(s, records)
    requires forall r :: r in s.rows ==> r.id != freshId
    ensures Agree(Handled(s, event, at, freshId), records + RecordDuring(s, Notified(event, at, freshId)))
  {
    hide Applied, AppliedTransition, Holds;
    TransitionFacts(s.tracker, event, at);
    var t := AppliedTransition(s.tracker, event, at);
    if Ignored(s.tracker, event) || t.NoChange? {
      assert records + [] == records;
    } else if t.Started? {
      assert RowStarted(s.rows, freshId, t.start)[..|s.rows|] == s.rows;
      assert records + [] == records;
    } else {
      CloseLast(s.rows, s.openSessionId.value, t.record.end, t.record.endReason, records);
    }
  }

  lemma {:induction false} StoppedAgrees(s: RecorderState, at: Instant, records: seq<UsageSessionRecord>)
    requires Agree(s, records)
    ensures Agree(ShutDown(s, at), records + RecordDuring(s, StoppedCleanly(at)))
  {
    hide Holds;
    if s.openSessionId.Some? {
      CloseLast(s.rows, s.openSessionId.value, at, AGENT_SHUTDOWN, records);
    } else {
      assert records + [] == records;
    }
  }

  /**
    Main result: over every run, with notifications, clean stops, kills at any point and restarts in any order, the
    store agrees with the tracker, holds every record that reached it, once and in order, and no record was ever stored
    without a row of its own.
  */
  lemma {:induction false} StoreAgreesInEveryRun(run: seq<Op>)
    requires FreshIds(run)
    ensures Agree(StateAfter(run), RecordsDuring(run))
  {
    if run == [] {
      hide Dangling;
      DanglingIsLast([]);
    } else {
      hide Agree, Handled, ShutDown, FromStore, RecordDuring;
      var front, op := run[..|run| - 1], run[|run| - 1];
      forall i | 0 <= i < |front|
        ensures front[..i] == run[..i]
      {}
      StoreAgreesInEveryRun(front);
      var s, records := StateAfter(front), RecordsDuring(front);
      match op
      case Notified(event, at, freshId) => NotifiedAgrees(s, event, at, freshId, records);
      case StoppedCleanly(at) => StoppedAgrees(s, at, records);
      case _ =>
        RestartAgrees(s, records);
        NothingDuringRestart(s, op, records);
    }
  }

  lemma {:induction false} NothingDuringRestart(s: RecorderState, op: Op, records: seq<UsageSessionRecord>)
    requires op.Restarted? || op.KilledHandling? || op.KilledStopping?
    ensures records + RecordDuring(s, op) == records
    ensures After(s, op) == FromStore(s.rows, s.standalone)
  {}

  ghost predicate NothingCut(run: seq<Op>) {
    forall i :: 0 <= i < |run| ==> CutDuring(StateAfter(run[..i]), run[i]) == []
  }

  lemma {:induction false} ProducedAtLeast(run: seq<Op>)
    ensures |RecordsDuring(run)| <= |ProducedDuring(run)|
    ensures NothingCut(run) ==> RecordsDuring(run) == ProducedDuring(run)
    ensures !NothingCut(run) ==> |RecordsDuring(run)| < |ProducedDuring(run)|
  {
    if run != [] {
      hide StateAfter, CutDuring, RecordDuring, NothingCut;
      ProducedAtLeast(run[..|run| - 1]);
      CutAtEnd(run);
    }
  }

  lemma {:induction false} CutAtEnd(run: seq<Op>)
    requires run != []
    ensures NothingCut(run) <==> NothingCut(run[..|run| - 1]) && CutDuring(StateAfter(run[..|run| - 1]), run[|run| - 1]) == []
  {
    hide StateAfter, CutDuring;
    var front := run[..|run| - 1];
    forall i | 0 <= i < |front|
      ensures run[..i] == front[..i] && run[i] == front[i]
    {}
  }

  /**
    The store holds everything the tracker produced exactly when no kill came between a record and its statement.
  */
  lemma {:induction false} AllStoredExactlyWhen(run: seq<Op>)
    requires FreshIds(run)
    ensures Agree(StateAfter(run), ProducedDuring(run)) <==> NothingCut(run)
  {
    StoreAgreesInEveryRun(run);
    ProducedAtLeast(run);
    hide StateAfter, RecordsDuring, ProducedDuring, NothingCut;
    if Agree(StateAfter(run), ProducedDuring(run)) {
      AgreeingLength(StateAfter(run), RecordsDuring(run), ProducedDuring(run));
    }
  }

  lemma {:induction false} AgreeingLength(s: RecorderState, a: seq<UsageSessionRecord>, b: seq<UsageSessionRecord>)
    requires Agree(s, a) && Agree(s, b)
    ensures |a| == |b|
  {}

  /** A record cut off by a kill is not lost time: its span is open again after the restart, with the same start. */
  lemma {:induction false} CutSpanResumes(run: seq<Op>, op: Op)
    requires FreshIds(run) && CutDuring(StateAfter(run), op) != []
    ensures var before, after := StateAfter(run), After(StateAfter(run), op);
            && after.tracker.openSince == Some(CutDuring(before, op)[0].start)
            && after.openSessionId == before.openSessionId && after.rows == before.rows
  {
    StoreAgreesInEveryRun(run);
    hide StateAfter, RecordsDuring, Applied;
    var s := StateAfter(run);
    if op.KilledHandling? {
      TransitionFacts(s.tracker, op.event, op.at);
    }
    hide AppliedTransition, Dangling;
    OpenIsDangling(s, RecordsDuring(run));
  }

  lemma {:induction false} OpenIsDangling(s: RecorderState, records: seq<UsageSessionRecord>)
    requires Agree(s, records) && s.tracker.openSince.Some?
    ensures var r := FromStore(s.rows, s.standalone);
            r.tracker.openSince == s.tracker.openSince && r.openSessionId == s.openSessionId && r.rows == s.rows
  {
    hide Dangling;
    DanglingIsLast(s.rows);
  }

  /** The last row, and no other, has no end, if an open row id is held; otherwise every row has one. */
  ghost predicate OnlyLastOpen(s: RecorderState) {
    && (s.openSessionId.Some? ==> s.rows != [] && s.rows[|s.rows| - 1].id == s.openSessionId.value)
    && forall i :: 0 <= i < |s.rows| ==> (s.rows[i].end.None? <==> s.openSessionId.Some? && i == |s.rows| - 1)
  }

  lemma {:induction false} AgreeingOpensOne(s: RecorderState, records: seq<UsageSessionRecord>)
    requires Agree(s, records)
    ensures OnlyLastOpen(s)
  {
    if s.openSessionId.Some? {
      forall i | 0 <= i < |s.rows| - 1
        ensures s.rows[i].end.Some?
      {
        assert Over(s.rows[..|s.rows| - 1][i]);
      }
    }
  }

  /** At most one row has no end, and the tracker is active exactly when an open row id is held. */
  lemma {:induction false} AtMostOneOpenRow(run: seq<Op>)
    requires FreshIds(run)
    ensures var s := StateAfter(run);
            && OnlyLastOpen(s)
            && (s.tracker.openSince.Some? <==> s.openSessionId.Some?)
            && !s.standalone
  {
    StoreAgreesInEveryRun(run);
    hide StateAfter, OnlyLastOpen, Holds;
    AgreeingOpensOne(StateAfter(run), RecordsDuring(run));
  }
}
