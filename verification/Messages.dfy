/** Administrator messages at the controller, in the agent's store and in the notifier. Times are milliseconds. */
module Messages {
  import opened Lists

  type Instant = int
  type MessageId = int
  type SeqNo = int

  const MAX_TITLE := 100
  const MAX_BODY := 500
  const DEFAULT_EXPIRY_MINUTES := 240
  const MAX_EXPIRY_MINUTES := 7 * 24 * 60
  const MINUTE_MS := 60_000

  datatype AgentMessage =
    AgentMessage(seqNo: SeqNo, id: MessageId, title: Option<string>, body: string, createdAt: Instant, expiresAt: Instant)

  function SeqOf(m: AgentMessage): int {
    m.seqNo
  }

  function IdOf(m: AgentMessage): int {
    m.id
  }

  function SentOf(m: AgentMessage): int {
    m.createdAt
  }

  function Unexpired(now: Instant): AgentMessage -> bool {
    (m: AgentMessage) => m.expiresAt > now
  }

  // ---------------------------------------------------------------- the controller

  /** Text as it is once surrounding white space is gone. */
  datatype MessageRequest = MessageRequest(title: string, body: string, expiresInMinutes: Option<int>)
  datatype QueueResult = Queued(message: AgentMessage) | InvalidMessage

  function QueuedMessage(request: MessageRequest, seqNo: SeqNo, id: MessageId, now: Instant): QueueResult {
    var minutes := if request.expiresInMinutes.Some? then request.expiresInMinutes.value else DEFAULT_EXPIRY_MINUTES;
    if request.body == "" || |request.body| > MAX_BODY || |request.title| > MAX_TITLE then InvalidMessage
    else if minutes < 1 || minutes > MAX_EXPIRY_MINUTES then InvalidMessage
    else Queued(AgentMessage(seqNo, id, if request.title == "" then None else Some(request.title), request.body, now, now + minutes * MINUTE_MS))
  }

  function Undelivered(after: SeqNo, now: Instant): AgentMessage -> bool {
    (m: AgentMessage) => m.seqNo > after && m.expiresAt > now
  }

  /** The messages past the cursor that have not expired, in order of their sequence numbers. */
  function PendingOf(queued: seq<AgentMessage>, after: SeqNo, now: Instant): seq<AgentMessage> {
    SortBy(SeqOf, Filter(Undelivered(after, now), queued))
  }

  lemma {:induction false} PendingMembers(queued: seq<AgentMessage>, after: SeqNo, now: Instant)
    ensures forall m :: m in PendingOf(queued, after, now) <==> m in queued && m.seqNo > after && m.expiresAt > now
    ensures var found := PendingOf(queued, after, now); forall i, j :: 0 <= i < j < |found| ==> found[i].seqNo <= found[j].seqNo
    ensures DistinctBy(IdOf, queued) ==> DistinctBy(IdOf, PendingOf(queued, after, now))
  {
    var p := Undelivered(after, now);
    FilterMembers(p, queued);
    SortBySorts(SeqOf, Filter(p, queued));
    PendingInOrder(PendingOf(queued, after, now));
    if DistinctBy(IdOf, queued) {
      FilterDistinct(p, IdOf, queued);
      SortByDistinct(SeqOf, IdOf, Filter(p, queued));
    }
  }

  lemma {:induction false} PendingInOrder(found: seq<AgentMessage>)
    requires SortedBy(SeqOf, found)
    ensures forall i, j :: 0 <= i < j < |found| ==> found[i].seqNo <= found[j].seqNo
  {
    forall i, j | 0 <= i < j < |found|
      ensures found[i].seqNo <= found[j].seqNo
    {
      assert SeqOf(found[i]) <= SeqOf(found[j]);
    }
  }

  /** Sequence numbers grow in the order of queueing; ids are random and never repeat. */
  ghost predicate NewMessage(queued: seq<AgentMessage>, message: AgentMessage) {
    message.seqNo > 0 && forall m :: m in queued ==> m.seqNo < message.seqNo && m.id != message.id
  }

  datatype DeviceMessage = DeviceMessage(message: AgentMessage, deliveredAt: Option<Instant>)

  class MessageService {
    var rows: seq<DeviceMessage>
    var nextSeq: SeqNo

    function QueuedMessages(): (r: seq<AgentMessage>)
      reads this
      ensures |r| == |rows| && forall i :: 0 <= i < |r| ==> r[i] == rows[i].message
    {
      var all := rows;
      seq(|all|, i requires 0 <= i < |all| => all[i].message)
    }

    ghost predicate Valid()
      reads this
    {
      nextSeq > 0 && forall i :: 0 <= i < |rows| ==> rows[i].message.seqNo < nextSeq
    }

    constructor ()
      ensures Valid() && rows == [] && nextSeq == 1
    {
      rows, nextSeq := [], 1;
    }

    method Queue(request: MessageRequest, id: MessageId, now: Instant) returns (result: QueueResult)
      requires Valid() && forall i :: 0 <= i < |rows| ==> rows[i].message.id != id
      modifies this
      ensures Valid()
      ensures result == QueuedMessage(request, old(nextSeq), id, now)
      ensures result.InvalidMessage? ==> rows == old(rows) && nextSeq == old(nextSeq)
      ensures result.Queued? ==> rows == old(rows) + [DeviceMessage(result.message, None)] && nextSeq == old(nextSeq) + 1
      ensures result.Queued? ==>
                && QueuedMessages() == old(QueuedMessages()) + [result.message]
                && NewMessage(old(QueuedMessages()), result.message) && now < result.message.expiresAt
    {
      if request.body == "" || |request.body| > MAX_BODY || |request.title| > MAX_TITLE {
        return InvalidMessage;
      }
      var minutes := if request.expiresInMinutes.Some? then request.expiresInMinutes.value else DEFAULT_EXPIRY_MINUTES;
      if minutes < 1 || minutes > MAX_EXPIRY_MINUTES {
        return InvalidMessage;
      }
      var title := if request.title == "" then None else Some(request.title);
      var message := AgentMessage(nextSeq, id, title, request.body, now, now + minutes * MINUTE_MS);
      rows, nextSeq := rows + [DeviceMessage(message, None)], nextSeq + 1;
      return Queued(message);
    }

    /** Answers a poll; every row returned is now marked delivered, and no message is changed. */
    method Pending(after: SeqNo, now: Instant) returns (found: seq<AgentMessage>)
      requires Valid()
      modifies this`rows
      ensures Valid()
      ensures QueuedMessages() == old(QueuedMessages())
      ensures found == PendingOf(old(QueuedMessages()), after, now)
      ensures forall i :: 0 <= i < |rows| ==>
                rows[i].deliveredAt == if old(rows)[i].deliveredAt.None? && rows[i].message in found then Some(now) else old(rows)[i].deliveredAt
    {
      found := PendingOf(QueuedMessages(), after, now);
      hide PendingOf;
      for i := 0 to |rows|
        invariant |rows| == |old(rows)| && forall j :: i <= j < |rows| ==> rows[j] == old(rows)[j]
        invariant forall j :: 0 <= j < i ==> rows[j].message == old(rows)[j].message
        invariant forall j :: 0 <= j < i ==>
                    rows[j].deliveredAt == if old(rows)[j].deliveredAt.None? && rows[j].message in found then Some(now) else old(rows)[j].deliveredAt
      {
        if rows[i].message in found && rows[i].deliveredAt.None? {
          rows := rows[i := rows[i].(deliveredAt := Some(now))];
        }
      }
    }
  }

  // ---------------------------------------------------------------- the agent's store

  /** `lastSeq` is the cursor the controller is polled from. */
  datatype StoreState = StoreState(lastSeq: SeqNo, messages: seq<AgentMessage>)

  predicate Holds(messages: seq<AgentMessage>, id: MessageId) {
    exists i :: 0 <= i < |messages| && messages[i].id == id
  }

  function AddedOne(s: StoreState, m: AgentMessage): StoreState {
    StoreState(if m.seqNo > s.lastSeq then m.seqNo else s.lastSeq, if Holds(s.messages, m.id) then s.messages else s.messages + [m])
  }

  function Added(s: StoreState, incoming: seq<AgentMessage>): StoreState {
    if incoming == [] then s else AddedOne(Added(s, incoming[..|incoming| - 1]), incoming[|incoming| - 1])
  }

  function Applied(s: StoreState, incoming: seq<AgentMessage>, now: Instant): StoreState {
    var added := Added(s, incoming);
    StoreState(added.lastSeq, Filter(Unexpired(now), added.messages))
  }

  class MessageStore {
    var lastSeq: SeqNo
    var messages: seq<AgentMessage>

    ghost function State(): StoreState
      reads this
    {
      StoreState(lastSeq, messages)
    }

    constructor ()
      ensures State() == StoreState(0, [])
    {
      lastSeq, messages := 0, [];
    }

    method Apply(incoming: seq<AgentMessage>, now: Instant) returns (changed: bool)
      modifies this
      ensures State() == Applied(old(State()), incoming, now)
      ensures changed <==> State() != old(State())
    {
      var beforeSeq, beforeMessages := lastSeq, messages;
      for i := 0 to |incoming|
        invariant State() == Added(old(State()), incoming[..i])
      {
        assert incoming[..i + 1][..i] == incoming[..i];
        var message := incoming[i];
        lastSeq := if message.seqNo > lastSeq then message.seqNo else lastSeq;
        if !Holds(messages, message.id) {
          messages := messages + [message];
        }
      }
      assert incoming[..|incoming|] == incoming;
      messages := Filter(Unexpired(now), messages);
      changed := lastSeq != beforeSeq || messages != beforeMessages;
    }

    method Live(now: Instant) returns (live: seq<AgentMessage>)
      ensures live == Filter(Unexpired(now), messages)
      ensures forall m :: m in live <==> m in messages && m.expiresAt > now
    {
      live := Filter(Unexpired(now), messages);
      FilterMembers(Unexpired(now), messages);
    }
  }

  // ---------------------------------------------------------------- the notifier

  function IdsOf(messages: seq<AgentMessage>): set<MessageId> {
    set m | m in messages :: m.id
  }

  function Unseen(shown: set<MessageId>, now: Instant): AgentMessage -> bool {
    (m: AgentMessage) => m.expiresAt > now && m.id !in shown
  }

  /** The reported messages neither shown before nor expired, oldest first. */
  function FreshOf(shown: set<MessageId>, reported: seq<AgentMessage>, now: Instant): seq<AgentMessage> {
    SortBy(SentOf, Filter(Unseen(shown, now), reported))
  }

  /** Ids no longer reported are forgotten. */
  function ShownAfter(shown: set<MessageId>, reported: seq<AgentMessage>, now: Instant): set<MessageId> {
    (shown + IdsOf(FreshOf(shown, reported, now))) * IdsOf(reported)
  }

  lemma {:induction false} FreshMembers(shown: set<MessageId>, reported: seq<AgentMessage>, now: Instant)
    ensures forall m :: m in FreshOf(shown, reported, now) <==> m in reported && m.expiresAt > now && m.id !in shown
    ensures SortedBy(SentOf, FreshOf(shown, reported, now))
    ensures DistinctBy(IdOf, reported) ==> DistinctBy(IdOf, FreshOf(shown, reported, now))
  {
    var p := Unseen(shown, now);
    FilterMembers(p, reported);
    SortBySorts(SentOf, Filter(p, reported));
    if DistinctBy(IdOf, reported) {
      FilterDistinct(p, IdOf, reported);
      SortByDistinct(SentOf, IdOf, Filter(p, reported));
    }
  }

  /** Remembered afterwards are exactly the reported messages that were remembered or are unexpired; the others are forgotten. */
  lemma {:induction false} RememberedExact(shown: set<MessageId>, reported: seq<AgentMessage>, now: Instant)
    ensures forall id :: id in ShownAfter(shown, reported, now)
                    <==> exists m :: m in reported && m.id == id && (m.id in shown || m.expiresAt > now)
  {
    FreshMembers(shown, reported, now);
    hide FreshOf;
    var unseen := FreshOf(shown, reported, now);
    forall id | exists m :: m in reported && m.id == id && (m.id in shown || m.expiresAt > now)
      ensures id in ShownAfter(shown, reported, now)
    {
      var m :| m in reported && m.id == id && (m.id in shown || m.expiresAt > now);
      assert m.id in shown || m in unseen;
    }
  }

  class MessageTracker {
    var shown: set<MessageId>

    constructor WithShown(ids: set<MessageId>)
      ensures shown == ids
    {
      shown := ids;
    }

    method TakeNew(reported: seq<AgentMessage>, now: Instant) returns (unseen: seq<AgentMessage>)
      modifies this
      ensures unseen == FreshOf(old(shown), reported, now)
      ensures shown == ShownAfter(old(shown), reported, now)
    {
      unseen := SortBy(SentOf, Filter(Unseen(shown, now), reported));
      shown := shown + IdsOf(unseen);
      shown := set id | id in shown && id in IdsOf(reported);
    }
  }

  // ---------------------------------------------------------------- what is queued

  /** A request is refused by its lengths and its expiry alone, and otherwise queued as given, for four hours by default. */
  lemma {:induction false} QueuedExactly(request: MessageRequest, seqNo: SeqNo, id: MessageId, now: Instant)
    ensures var result, minutes := QueuedMessage(request, seqNo, id, now), request.expiresInMinutes;
            && (result.Queued? <==> && 1 <= |request.body| <= 500 && |request.title| <= 100
                                    && (minutes.Some? ==> 1 <= minutes.value <= 10_080))
            && (result.Queued? ==>
                  && result.message.seqNo == seqNo && result.message.id == id
                  && result.message.body == request.body
                  && (request.title == "" ==> result.message.title == None)
                  && (request.title != "" ==> result.message.title == Some(request.title))
                  && result.message.createdAt == now
                  && result.message.expiresAt - now == if minutes.Some? then minutes.value * 60_000 else 14_400_000)
  {}
}
