/**
  Messages as a protocol: queued at the controller, fetched by cursor into the agent's store over a link that may lose
  replies, and shown by a notifier that then saves what it has shown; the agent and the notifier may restart at any point.
*/
module MessageDelivery {
  import opened Lists
  import opened Messages

  /** A reply on its way; `upTo` says how many messages were queued when it was made (history only). */
  datatype Reply = Reply(messages: seq<AgentMessage>, upTo: nat)
  /** `poll` numbers the notifier's polls. */
  datatype Showing = Showing(message: AgentMessage, at: Instant, poll: nat)

  /**
    `clock` is the agent's trusted time when last read, `controllerClock` the latest reading of the controller's own.
    The notifier has `shown` in memory and `saved` on disk; between a poll and the save that ends it it is not `idle` and
    has the messages `toShow` left, judged at `polled`. `shows`, `poll`, `savedPolls` and `covered`, the number of messages
    fetched so far, are history.
  */
  datatype State = State(queued: seq<AgentMessage>, controllerClock: Instant, outstanding: Option<Reply>, store: StoreState,
                         clock: Instant, shown: set<MessageId>, saved: set<MessageId>, idle: bool, polled: Instant,
                         toShow: seq<AgentMessage>, poll: nat, savedPolls: set<nat>, shows: seq<Showing>, covered: nat)

  datatype Label =
    | Enqueue(message: AgentMessage)
    | Answer(now: Instant)
    | LoseReply
    | Receive(now: Instant)
    | RestartAgent
    | Notify(read: Instant, now: Instant)
    | ShowNext
    | Save
    | RestartNotifier

  predicate Initial(s: State) {
    && s.queued == [] && s.outstanding.None? && s.store == StoreState(0, []) && s.covered == 0
    && s.shown == {} && s.saved == {} && s.idle && s.toShow == [] && s.poll == 0 && s.savedPolls == {} && s.shows == []
  }

  function Reported(messages: seq<AgentMessage>, read: Instant, now: Instant): seq<AgentMessage> {
    Filter(Unexpired(now), Filter(Unexpired(read), messages))
  }

  function Later(a: Instant, b: Instant): Instant {
    if a < b then b else a
  }

  function AfterReceive(s: State, reply: Reply, now: Instant): State {
    s.(store := Applied(s.store, reply.messages, now), outstanding := None, clock := now,
       covered := if reply.upTo > s.covered then reply.upTo else s.covered)
  }

  function AfterNotify(s: State, read: Instant, now: Instant): State {
    var reported := Reported(s.store.messages, read, now);
    s.(toShow := FreshOf(s.shown, reported, now), shown := ShownAfter(s.shown, reported, now),
       idle := false, polled := now, poll := s.poll + 1, clock := now)
  }

  function AfterShow(s: State): State
    requires s.toShow != []
  {
    s.(shows := s.shows + [Showing(s.toShow[0], s.polled, s.poll)], toShow := s.toShow[1..])
  }

  function AfterSave(s: State): State {
    s.(saved := s.shown, savedPolls := s.savedPolls + {s.poll}, idle := true)
  }

  function AfterRestart(s: State): State {
    s.(shown := s.saved, toShow := [], idle := true)
  }

  ghost predicate Next(s: State, l: Label, s': State) {
    match l
    case Enqueue(message) => NewMessage(s.queued, message) && s' == s.(queued := s.queued + [message])
    case Answer(now) =>
      s' == s.(outstanding := Some(Reply(PendingOf(s.queued, s.store.lastSeq, now), |s.queued|)), controllerClock := Later(s.controllerClock, now))
    case LoseReply => s' == s.(outstanding := None)
    case Receive(now) => s.outstanding.Some? && s.clock <= now && s' == AfterReceive(s, s.outstanding.value, now)
    case RestartAgent => s' == s.(outstanding := None)
    case Notify(read, now) => s.idle && s.clock <= read <= now && s' == AfterNotify(s, read, now)
    case ShowNext => s.toShow != [] && s' == AfterShow(s)
    case Save => !s.idle && s.toShow == [] && s' == AfterSave(s)
    case RestartNotifier => s' == AfterRestart(s)
  }

  ghost predicate Run(states: seq<State>, labels: seq<Label>) {
    && |states| == |labels| + 1 && Initial(states[0])
    && forall i :: 0 <= i < |labels| ==> Next(states[i], labels[i], states[i + 1])
  }

  // ---------------------------------------------------------------- the invariant

  function Latest(s: State): Instant {
    Later(s.clock, s.controllerClock)
  }

  ghost predicate InOrder(queued: seq<AgentMessage>) {
    && (forall i :: 0 <= i < |queued| ==> queued[i].seqNo > 0)
    && (forall i, j :: 0 <= i < j < |queued| ==> queued[i].seqNo < queued[j].seqNo && queued[i].id != queued[j].id)
  }

  function LastQueued(queued: seq<AgentMessage>): SeqNo {
    if queued == [] then 0 else queued[|queued| - 1].seqNo
  }

  /** The store holds queued messages, each once, and neither they nor the cursor are past what was queued. */
  ghost predicate StoreOk(queued: seq<AgentMessage>, store: StoreState) {
    && DistinctBy(IdOf, store.messages)
    && (forall m :: m in store.messages ==> m in queued && m.seqNo <= store.lastSeq)
    && store.lastSeq <= LastQueued(queued)
  }

  /** Everything fetched so far is in the store or expired, and the cursor has passed nothing else. */
  ghost predicate CoverOk(queued: seq<AgentMessage>, store: StoreState, covered: nat, latest: Instant) {
    && covered <= |queued|
    && (forall i :: 0 <= i < covered ==> queued[i] in store.messages || queued[i].expiresAt <= latest)
    && (forall i :: 0 <= i < |queued| && queued[i].seqNo <= store.lastSeq ==> i < covered)
  }

  /** A reply on its way has every message then queued past the cursor, but for those expired. */
  ghost predicate ReplyOk(queued: seq<AgentMessage>, lastSeq: SeqNo, reply: Reply, controllerClock: Instant) {
    && reply.upTo <= |queued|
    && (forall m :: m in reply.messages ==> m in queued[..reply.upTo] && m.seqNo > lastSeq)
    && (forall i :: 0 <= i < reply.upTo && queued[i].seqNo > lastSeq ==> queued[i] in reply.messages || queued[i].expiresAt <= controllerClock)
  }

  predicate WasShown(shows: seq<Showing>, id: MessageId) {
    exists i :: 0 <= i < |shows| && shows[i].message.id == id
  }

  /** The message was shown in one of the polls. */
  predicate ShownIn(shows: seq<Showing>, id: MessageId, polls: set<nat>) {
    exists i :: 0 <= i < |shows| && shows[i].message.id == id && shows[i].poll in polls
  }

  /** Every showing was of a queued message, before it expired. */
  ghost predicate InTime(queued: seq<AgentMessage>, shows: seq<Showing>, poll: nat) {
    forall i :: 0 <= i < |shows| ==> shows[i].message in queued && shows[i].at < shows[i].message.expiresAt && 1 <= shows[i].poll <= poll
  }

  /** A message is shown again only in a later poll, and only if the earlier one was never saved. */
  ghost predicate OncePerSave(shows: seq<Showing>, savedPolls: set<nat>) {
    forall i, j :: 0 <= i < j < |shows| && shows[i].message.id == shows[j].message.id ==>
      shows[i].poll < shows[j].poll && shows[i].poll !in savedPolls
  }

  /** An unexpired message shown in one of the polls is remembered and still in the store. */
  ghost predicate Told(clock: Instant, messages: seq<AgentMessage>, remembered: set<MessageId>, shows: seq<Showing>, polls: set<nat>) {
    forall i :: 0 <= i < |shows| && shows[i].poll in polls && shows[i].message.expiresAt > clock ==>
      shows[i].message.id in remembered && shows[i].message in messages
  }

  ghost predicate Remembered(remembered: set<MessageId>, shows: seq<Showing>, polls: set<nat>, toShow: seq<AgentMessage>) {
    forall id :: id in remembered ==> ShownIn(shows, id, polls) || id in IdsOf(toShow)
  }

  /** Messages about to be shown: queued, unexpired at the poll, each once, and in none of the polls so far. */
  ghost predicate DueOk(queued: seq<AgentMessage>, toShow: seq<AgentMessage>, polled: Instant, shows: seq<Showing>, polls: set<nat>) {
    && DistinctBy(IdOf, toShow)
    && forall m :: m in toShow ==> m in queued && m.expiresAt > polled && !ShownIn(shows, m.id, polls)
  }

  /** And, while they have not expired, remembered and in the store. */
  ghost predicate DueKept(clock: Instant, messages: seq<AgentMessage>, shown: set<MessageId>, toShow: seq<AgentMessage>) {
    forall m :: m in toShow && m.expiresAt > clock ==> m.id in shown && m in messages
  }

  /** The saved polls and, until it is saved, the one under way. */
  function PollsToNow(s: State): set<nat> {
    if s.idle then s.savedPolls else s.savedPolls + {s.poll}
  }

  ghost predicate PollsOk(s: State) {
    && (forall p :: p in s.savedPolls ==> p <= s.poll)
    && (s.idle ==> s.shown == s.saved && s.toShow == [])
    && (!s.idle ==> s.poll !in s.savedPolls && s.poll >= 1)
  }

  ghost predicate MemoryOk(s: State) {
    && PollsOk(s)
    && Told(s.clock, s.store.messages, s.saved, s.shows, s.savedPolls)
    && Told(s.clock, s.store.messages, s.shown, s.shows, PollsToNow(s))
    && Remembered(s.saved, s.shows, s.savedPolls, [])
    && Remembered(s.shown, s.shows, PollsToNow(s), s.toShow)
    && DueOk(s.queued, s.toShow, s.polled, s.shows, PollsToNow(s))
    && DueKept(s.clock, s.store.messages, s.shown, s.toShow)
  }

  ghost predicate Good(s: State) {
    && InOrder(s.queued) && StoreOk(s.queued, s.store) && CoverOk(s.queued, s.store, s.covered, Latest(s))
    && (s.outstanding.Some? ==> ReplyOk(s.queued, s.store.lastSeq, s.outstanding.value, s.controllerClock))
    && InTime(s.queued, s.shows, s.poll) && OncePerSave(s.shows, s.savedPolls) && MemoryOk(s)
  }

  lemma {:induction false} SameId(queued: seq<AgentMessage>, a: AgentMessage, b: AgentMessage)
    requires InOrder(queued) && a in queued && b in queued && a.id == b.id
    ensures a == b
  {}

  // ---------------------------------------------------------------- queueing

  lemma {:induction false} QueueGrows(queued: seq<AgentMessage>, message: AgentMessage, store: StoreState)
    requires InOrder(queued) && NewMessage(queued, message) && StoreOk(queued, store)
    ensures InOrder(queued + [message]) && StoreOk(queued + [message], store) && store.lastSeq < message.seqNo
  {
    if queued != [] {
      assert queued[|queued| - 1] in queued;
    }
  }

  lemma {:induction false} CoverGrows(queued: seq<AgentMessage>, message: AgentMessage, store: StoreState, covered: nat, latest: Instant)
    requires CoverOk(queued, store, covered, latest) && store.lastSeq < message.seqNo
    ensures CoverOk(queued + [message], store, covered, latest)
  {}

  lemma {:induction false} ReplyGrows(queued: seq<AgentMessage>, message: AgentMessage, lastSeq: SeqNo, reply: Reply, controllerClock: Instant)
    requires ReplyOk(queued, lastSeq, reply, controllerClock)
    ensures ReplyOk(queued + [message], lastSeq, reply, controllerClock)
  {
    assert (queued + [message])[..reply.upTo] == queued[..reply.upTo];
  }

  lemma {:induction false} ShowsGrow(queued: seq<AgentMessage>, message: AgentMessage, shows: seq<Showing>, poll: nat,
                                     toShow: seq<AgentMessage>, polled: Instant, polls: set<nat>)
    requires InTime(queued, shows, poll) && DueOk(queued, toShow, polled, shows, polls)
    ensures InTime(queued + [message], shows, poll) && DueOk(queued + [message], toShow, polled, shows, polls)
  {}

  lemma {:induction false} EnqueueKeepsGood(s: State, message: AgentMessage)
    requires Good(s) && NewMessage(s.queued, message)
    ensures Good(s.(queued := s.queued + [message]))
  {
    hide InOrder, StoreOk, CoverOk, ReplyOk, NewMessage, InTime, OncePerSave, Told, Remembered, DueOk, DueKept;
    QueueGrows(s.queued, message, s.store);
    CoverGrows(s.queued, message, s.store, s.covered, Latest(s));
    ShowsGrow(s.queued, message, s.shows, s.poll, s.toShow, s.polled, PollsToNow(s));
    if s.outstanding.Some? {
      ReplyGrows(s.queued, message, s.store.lastSeq, s.outstanding.value, s.controllerClock);
    }
  }

  // ---------------------------------------------------------------- answering

  lemma {:induction false} LaterKeepsCover(queued: seq<AgentMessage>, store: StoreState, covered: nat, latest: Instant, later: Instant)
    requires CoverOk(queued, store, covered, latest) && latest <= later
    ensures CoverOk(queued, store, covered, later)
  {}

  lemma {:induction false} AnswerOk(queued: seq<AgentMessage>, lastSeq: SeqNo, now: Instant, controllerClock: Instant)
    requires now <= controllerClock
    ensures ReplyOk(queued, lastSeq, Reply(PendingOf(queued, lastSeq, now), |queued|), controllerClock)
  {
    PendingMembers(queued, lastSeq, now);
    hide PendingOf;
    assert queued[..|queued|] == queued;
  }

  lemma {:induction false} AnswerKeepsGood(s: State, now: Instant)
    requires Good(s)
    ensures Good(s.(outstanding := Some(Reply(PendingOf(s.queued, s.store.lastSeq, now), |s.queued|)),
                    controllerClock := Later(s.controllerClock, now)))
  {
    hide InOrder, StoreOk, CoverOk, ReplyOk, PendingOf, InTime, OncePerSave, Told, Remembered, DueOk, DueKept;
    var later := Later(s.controllerClock, now);
    AnswerOk(s.queued, s.store.lastSeq, now, later);
    LaterKeepsCover(s.queued, s.store, s.covered, Latest(s), Later(s.clock, later));
  }

  // ---------------------------------------------------------------- receiving

  ghost predicate AllQueued(messages: seq<AgentMessage>, queued: seq<AgentMessage>) {
    forall m :: m in messages ==> m in queued
  }

  lemma {:induction false} AddedMembers(queued: seq<AgentMessage>, s: StoreState, incoming: seq<AgentMessage>)
    requires InOrder(queued) && AllQueued(s.messages, queued) && AllQueued(incoming, queued) && DistinctBy(IdOf, s.messages)
    ensures DistinctBy(IdOf, Added(s, incoming).messages)
    ensures forall m :: m in Added(s, incoming).messages <==> m in s.messages || m in incoming
  {
    if incoming != [] {
      hide InOrder;
      var front, m := incoming[..|incoming| - 1], incoming[|incoming| - 1];
      assert incoming == front + [m];
      AddedMembers(queued, s, front);
      var before := Added(s, front).messages;
      if Holds(before, m.id) {
        var i :| 0 <= i < |before| && before[i].id == m.id;
        assert before[i] in before;
        SameId(queued, before[i], m);
      }
    }
  }

  lemma {:induction false} AddedCursor(s: StoreState, incoming: seq<AgentMessage>)
    ensures s.lastSeq <= Added(s, incoming).lastSeq
    ensures forall m :: m in incoming ==> m.seqNo <= Added(s, incoming).lastSeq
    ensures Added(s, incoming).lastSeq == s.lastSeq || exists m :: m in incoming && m.seqNo == Added(s, incoming).lastSeq
  {
    if incoming != [] {
      var front, m := incoming[..|incoming| - 1], incoming[|incoming| - 1];
      assert incoming == front + [m];
      AddedCursor(s, front);
    }
  }

  /** What the store holds after a reply: the unexpired of its own messages and the reply's. */
  lemma {:induction false} AppliedMembers(queued: seq<AgentMessage>, s: StoreState, reply: Reply, controllerClock: Instant, now: Instant)
    requires InOrder(queued) && StoreOk(queued, s) && ReplyOk(queued, s.lastSeq, reply, controllerClock)
    ensures var t := Applied(s, reply.messages, now);
            && DistinctBy(IdOf, t.messages)
            && forall m :: m in t.messages <==> (m in s.messages || m in reply.messages) && m.expiresAt > now
  {
    hide InOrder;
    assert AllQueued(s.messages, queued) && AllQueued(reply.messages, queued);
    AddedMembers(queued, s, reply.messages);
    hide Added;
    FilterMembers(Unexpired(now), Added(s, reply.messages).messages);
    FilterDistinct(Unexpired(now), IdOf, Added(s, reply.messages).messages);
  }

  lemma {:induction false} SeqWithin(queued: seq<AgentMessage>, m: AgentMessage)
    requires InOrder(queued) && m in queued
    ensures m.seqNo <= LastQueued(queued)
  {
    var i :| 0 <= i < |queued| && queued[i] == m;
    assert i < |queued| - 1 ==> queued[i].seqNo < queued[|queued| - 1].seqNo;
  }

  lemma {:induction false} ReceiveStore(queued: seq<AgentMessage>, s: StoreState, reply: Reply, controllerClock: Instant, now: Instant)
    requires InOrder(queued) && StoreOk(queued, s) && ReplyOk(queued, s.lastSeq, reply, controllerClock)
    ensures StoreOk(queued, Applied(s, reply.messages, now))
  {
    AppliedMembers(queued, s, reply, controllerClock, now);
    AddedCursor(s, reply.messages);
    hide InOrder, Added, Filter, LastQueued;
    if Added(s, reply.messages).lastSeq != s.lastSeq {
      var m :| m in reply.messages && m.seqNo == Added(s, reply.messages).lastSeq;
      SeqWithin(queued, m);
    }
  }

  lemma {:induction false} ReceivePasses(queued: seq<AgentMessage>, s: StoreState, reply: Reply, covered: nat,
                                         controllerClock: Instant, latest: Instant, i: nat)
    requires InOrder(queued) && ReplyOk(queued, s.lastSeq, reply, controllerClock) && CoverOk(queued, s, covered, latest)
    requires i < |queued| && queued[i].seqNo <= Added(s, reply.messages).lastSeq
    ensures i < covered || i < reply.upTo
  {
    AddedCursor(s, reply.messages);
    hide Added;
    if queued[i].seqNo > s.lastSeq {
      var m :| m in reply.messages && m.seqNo == Added(s, reply.messages).lastSeq;
      var j :| 0 <= j < reply.upTo && queued[..reply.upTo][j] == m;
      assert i <= j;
    }
  }

  lemma {:induction false} ReceiveCover(queued: seq<AgentMessage>, s: StoreState, reply: Reply, covered: nat, controllerClock: Instant,
                                        latest: Instant, now: Instant, later: Instant)
    requires InOrder(queued) && StoreOk(queued, s) && ReplyOk(queued, s.lastSeq, reply, controllerClock) && CoverOk(queued, s, covered, latest)
    requires latest <= later && controllerClock <= later && now <= later
    ensures CoverOk(queued, Applied(s, reply.messages, now), if reply.upTo > covered then reply.upTo else covered, later)
  {
    hide InOrder, Added, Filter;
    AppliedMembers(queued, s, reply, controllerClock, now);
    forall i | 0 <= i < |queued| && queued[i].seqNo <= Added(s, reply.messages).lastSeq
      ensures i < covered || i < reply.upTo
    {
      ReceivePasses(queued, s, reply, covered, controllerClock, latest, i);
    }
  }

  /** What is unexpired and in the store stays there as time passes and replies arrive. */
  lemma {:induction false} KeptLater(clock: Instant, now: Instant, before: seq<AgentMessage>, after: seq<AgentMessage>, remembered: set<MessageId>,
                                     shows: seq<Showing>, polls: set<nat>, toShow: seq<AgentMessage>)
    requires clock <= now && forall m :: m in before && m.expiresAt > now ==> m in after
    ensures Told(clock, before, remembered, shows, polls) ==> Told(now, after, remembered, shows, polls)
    ensures DueKept(clock, before, remembered, toShow) ==> DueKept(now, after, remembered, toShow)
  {}

  lemma {:induction false} ReceiveMemory(s: State, now: Instant)
    requires Good(s) && s.outstanding.Some? && s.clock <= now
    ensures MemoryOk(AfterReceive(s, s.outstanding.value, now))
  {
    var reply := s.outstanding.value;
    AppliedMembers(s.queued, s.store, reply, s.controllerClock, now);
    hide InOrder, StoreOk, CoverOk, ReplyOk, InTime, OncePerSave, Told, Remembered, DueOk, DueKept, Applied;
    var after := Applied(s.store, reply.messages, now).messages;
    KeptLater(s.clock, now, s.store.messages, after, s.saved, s.shows, s.savedPolls, s.toShow);
    KeptLater(s.clock, now, s.store.messages, after, s.shown, s.shows, PollsToNow(s), s.toShow);
  }

  lemma {:induction false} ReceiveKeepsGood(s: State, now: Instant)
    requires Good(s) && s.outstanding.Some? && s.clock <= now
    ensures Good(AfterReceive(s, s.outstanding.value, now))
  {
    ReceiveMemory(s, now);
    hide InOrder, StoreOk, CoverOk, ReplyOk, MemoryOk, InTime, OncePerSave, Applied;
    var reply, later := s.outstanding.value, Later(now, s.controllerClock);
    ReceiveStore(s.queued, s.store, reply, s.controllerClock, now);
    ReceiveCover(s.queued, s.store, reply, s.covered, s.controllerClock, Latest(s), now, later);
  }

  // ---------------------------------------------------------------- showing

  lemma {:induction false} ReportedMembers(messages: seq<AgentMessage>, read: Instant, now: Instant)
    requires read <= now
    ensures forall m :: m in Reported(messages, read, now) <==> m in messages && m.expiresAt > now
    ensures DistinctBy(IdOf, messages) ==> DistinctBy(IdOf, Reported(messages, read, now))
  {
    FilterMembers(Unexpired(read), messages);
    FilterMembers(Unexpired(now), Filter(Unexpired(read), messages));
    if DistinctBy(IdOf, messages) {
      FilterDistinct(Unexpired(read), IdOf, messages);
      FilterDistinct(Unexpired(now), IdOf, Filter(Unexpired(read), messages));
    }
  }

  /** An unexpired message shown in one of the polls is remembered. */
  lemma {:induction false} FreshIsNew(queued: seq<AgentMessage>, clock: Instant, shown: set<MessageId>, messages: seq<AgentMessage>,
                                      shows: seq<Showing>, poll: nat, polls: set<nat>, m: AgentMessage)
    requires InOrder(queued) && InTime(queued, shows, poll) && Told(clock, messages, shown, shows, polls)
    requires m in queued && m.expiresAt > clock && ShownIn(shows, m.id, polls)
    ensures m.id in shown
  {
    var i :| 0 <= i < |shows| && shows[i].message.id == m.id && shows[i].poll in polls;
    SameId(queued, shows[i].message, m);
  }

  /** Afterwards every unexpired message of the store is remembered, and those not remembered before were shown just now. */
  lemma {:induction false} ShownIs(shown: set<MessageId>, messages: seq<AgentMessage>, read: Instant, now: Instant)
    requires read <= now
    ensures forall id :: id in ShownAfter(shown, Reported(messages, read, now), now) ==>
              id in shown || id in IdsOf(FreshOf(shown, Reported(messages, read, now), now))
    ensures forall m :: m in messages && m.expiresAt > now ==> m.id in ShownAfter(shown, Reported(messages, read, now), now)
    ensures forall m :: m in messages && m.expiresAt > now && m.id !in shown ==> m in FreshOf(shown, Reported(messages, read, now), now)
  {
    ReportedMembers(messages, read, now);
    FreshMembers(shown, Reported(messages, read, now), now);
    hide Reported, FreshOf;
  }

  /** No showing is in a poll that has not begun. */
  lemma {:induction false} NotInNewPoll(queued: seq<AgentMessage>, shows: seq<Showing>, poll: nat, polls: set<nat>, id: MessageId)
    requires InTime(queued, shows, poll)
    ensures ShownIn(shows, id, polls + {poll + 1}) <==> ShownIn(shows, id, polls)
  {}

  lemma {:induction false} NotifyTold(queued: seq<AgentMessage>, clock: Instant, now: Instant, messages: seq<AgentMessage>, shown: set<MessageId>,
                                      after: set<MessageId>, shows: seq<Showing>, poll: nat, polls: set<nat>)
    requires InTime(queued, shows, poll) && Told(clock, messages, shown, shows, polls) && clock <= now
    requires forall m :: m in messages && m.expiresAt > now ==> m.id in after
    ensures Told(now, messages, after, shows, polls + {poll + 1})
  {}

  lemma {:induction false} NotifyDue(s: State, read: Instant, now: Instant)
    requires Good(s) && s.idle && s.clock <= read <= now
    ensures var s' := AfterNotify(s, read, now);
            && DueOk(s'.queued, s'.toShow, s'.polled, s'.shows, PollsToNow(s'))
            && DueKept(s'.clock, s'.store.messages, s'.shown, s'.toShow)
  {
    var reported := Reported(s.store.messages, read, now);
    ReportedMembers(s.store.messages, read, now);
    FreshMembers(s.shown, reported, now);
    ShownIs(s.shown, s.store.messages, read, now);
    hide InOrder, CoverOk, ReplyOk, InTime, OncePerSave, Told, Remembered, FreshOf, Reported, ShownAfter, ShownIn, LastQueued;
    var s' := AfterNotify(s, read, now);
    forall m | m in s'.toShow
      ensures !ShownIn(s.shows, m.id, PollsToNow(s'))
    {
      NotInNewPoll(s.queued, s.shows, s.poll, s.savedPolls, m.id);
      if ShownIn(s.shows, m.id, s.savedPolls) {
        FreshIsNew(s.queued, s.clock, s.shown, s.store.messages, s.shows, s.poll, s.savedPolls, m);
      }
    }
  }

  lemma {:induction false} NotifyRemembered(s: State, read: Instant, now: Instant)
    requires Good(s) && s.idle && s.clock <= read <= now
    ensures var s' := AfterNotify(s, read, now); Remembered(s'.shown, s'.shows, PollsToNow(s'), s'.toShow)
  {
    ShownIs(s.shown, s.store.messages, read, now);
    hide InOrder, CoverOk, StoreOk, ReplyOk, InTime, OncePerSave, Told, FreshOf, Reported, ShownAfter, ShownIn, IdsOf, DueOk, DueKept;
    var s' := AfterNotify(s, read, now);
    forall id | id in s'.shown
      ensures ShownIn(s.shows, id, PollsToNow(s')) || id in IdsOf(s'.toShow)
    {
      NotInNewPoll(s.queued, s.shows, s.poll, s.savedPolls, id);
      if id in s.shown {
        NothingInNoIds(id);
      }
    }
  }

  lemma {:induction false} NothingInNoIds(id: MessageId)
    ensures id !in IdsOf([])
  {}

  lemma {:induction false} NotifyKeepsGood(s: State, read: Instant, now: Instant)
    requires Good(s) && s.idle && s.clock <= read <= now
    ensures Good(AfterNotify(s, read, now))
  {
    NotifyDue(s, read, now);
    NotifyRemembered(s, read, now);
    ShownIs(s.shown, s.store.messages, read, now);
    PollGrows(s.queued, s.shows, s.poll);
    hide InOrder, StoreOk, CoverOk, ReplyOk, InTime, OncePerSave, Told, Remembered, DueOk, DueKept, FreshOf, Reported, ShownAfter;
    var s' := AfterNotify(s, read, now);
    NotifyTold(s.queued, s.clock, now, s.store.messages, s.shown, s'.shown, s.shows, s.poll, s.savedPolls);
    KeptLater(s.clock, now, s.store.messages, s.store.messages, s.saved, s.shows, s.savedPolls, []);
    LaterKeepsCover(s.queued, s.store, s.covered, Latest(s), Later(now, s.controllerClock));
  }

  lemma {:induction false} PollGrows(queued: seq<AgentMessage>, shows: seq<Showing>, poll: nat)
    requires InTime(queued, shows, poll)
    ensures InTime(queued, shows, poll + 1)
  {}

  lemma {:induction false} ShownInAppend(shows: seq<Showing>, more: Showing, id: MessageId, polls: set<nat>)
    ensures ShownIn(shows + [more], id, polls) <==> ShownIn(shows, id, polls) || (more.message.id == id && more.poll in polls)
  {
    var all := shows + [more];
    if i :| 0 <= i < |shows| && shows[i].message.id == id && shows[i].poll in polls {
      assert all[i] == shows[i];
    }
    assert all[|shows|] == more;
  }

  lemma {:induction false} ShowOnce(shows: seq<Showing>, savedPolls: set<nat>, poll: nat, queued: seq<AgentMessage>, more: Showing)
    requires OncePerSave(shows, savedPolls) && InTime(queued, shows, poll) && more.poll == poll >= 1
    requires !ShownIn(shows, more.message.id, savedPolls + {poll})
    requires more.message in queued && more.at < more.message.expiresAt
    ensures OncePerSave(shows + [more], savedPolls) && InTime(queued, shows + [more], poll)
  {}

  lemma {:induction false} ShowTold(clock: Instant, messages: seq<AgentMessage>, remembered: set<MessageId>, shows: seq<Showing>, polls: set<nat>,
                                    more: Showing)
    requires Told(clock, messages, remembered, shows, polls)
    requires more.poll in polls && more.message.expiresAt > clock ==> more.message.id in remembered && more.message in messages
    ensures Told(clock, messages, remembered, shows + [more], polls)
  {}

  lemma {:induction false} ShowRemembered(remembered: set<MessageId>, shows: seq<Showing>, polls: set<nat>, toShow: seq<AgentMessage>, more: Showing)
    requires Remembered(remembered, shows, polls, toShow) && toShow != [] && more.message == toShow[0] && more.poll in polls
    ensures Remembered(remembered, shows + [more], polls, toShow[1..])
  {
    hide ShownIn;
    forall id | id in remembered
      ensures ShownIn(shows + [more], id, polls) || id in IdsOf(toShow[1..])
    {
      ShownInAppend(shows, more, id, polls);
      if id in IdsOf(toShow) && id != more.message.id {
        var m :| m in toShow && m.id == id;
        assert m in toShow[1..];
      }
    }
  }

  lemma {:induction false} SavedRemembered(remembered: set<MessageId>, shows: seq<Showing>, polls: set<nat>, more: Showing)
    requires Remembered(remembered, shows, polls, [])
    ensures Remembered(remembered, shows + [more], polls, [])
  {
    hide ShownIn;
    forall id | id in remembered
      ensures ShownIn(shows + [more], id, polls)
    {
      ShownInAppend(shows, more, id, polls);
    }
  }

  lemma {:induction false} ShowDue(queued: seq<AgentMessage>, toShow: seq<AgentMessage>, polled: Instant, shows: seq<Showing>, polls: set<nat>, more: Showing)
    requires DueOk(queued, toShow, polled, shows, polls) && toShow != [] && more.message == toShow[0]
    ensures DueOk(queued, toShow[1..], polled, shows + [more], polls)
  {
    hide ShownIn;
    var rest := toShow[1..];
    forall i, j | 0 <= i < j < |rest|
      ensures IdOf(rest[i]) != IdOf(rest[j])
    {
      assert IdOf(toShow[i + 1]) != IdOf(toShow[j + 1]);
    }
    forall m | m in rest
      ensures m in toShow && !ShownIn(shows + [more], m.id, polls)
    {
      var i :| 0 <= i < |rest| && rest[i] == m;
      assert IdOf(toShow[0]) != IdOf(toShow[i + 1]);
      ShownInAppend(shows, more, m.id, polls);
    }
  }

  lemma {:induction false} ShowKeepsGood(s: State)
    requires Good(s) && s.toShow != []
    ensures Good(AfterShow(s))
  {
    assert s.toShow[0] in s.toShow;
    var more := Showing(s.toShow[0], s.polled, s.poll);
    hide InOrder, StoreOk, CoverOk, ReplyOk, InTime, OncePerSave, Told, Remembered, ShownIn;
    ShowOnce(s.shows, s.savedPolls, s.poll, s.queued, more);
    ShowTold(s.clock, s.store.messages, s.saved, s.shows, s.savedPolls, more);
    ShowTold(s.clock, s.store.messages, s.shown, s.shows, PollsToNow(s), more);
    SavedRemembered(s.saved, s.shows, s.savedPolls, more);
    ShowRemembered(s.shown, s.shows, PollsToNow(s), s.toShow, more);
    ShowDue(s.queued, s.toShow, s.polled, s.shows, PollsToNow(s), more);
  }

  lemma {:induction false} SaveKeepsOnce(queued: seq<AgentMessage>, shows: seq<Showing>, savedPolls: set<nat>, poll: nat)
    requires OncePerSave(shows, savedPolls) && InTime(queued, shows, poll)
    ensures OncePerSave(shows, savedPolls + {poll})
  {}

  lemma {:induction false} SaveKeepsGood(s: State)
    requires Good(s) && !s.idle && s.toShow == []
    ensures Good(AfterSave(s))
  {
    hide InOrder, StoreOk, CoverOk, ReplyOk, InTime, OncePerSave, Told, Remembered, DueKept;
    SaveKeepsOnce(s.queued, s.shows, s.savedPolls, s.poll);
  }

  lemma {:induction false} RestartKeepsGood(s: State)
    requires Good(s)
    ensures Good(AfterRestart(s))
  {
    hide InOrder, StoreOk, CoverOk, ReplyOk, InTime, OncePerSave, Told, Remembered;
  }

  // ---------------------------------------------------------------- every run

  lemma {:induction false} InitialGood(s: State)
    requires Initial(s)
    ensures Good(s)
  {}

  lemma {:induction false} StepKeepsGood(s: State, l: Label, s': State)
    requires Good(s) && Next(s, l, s')
    ensures Good(s')
  {
    match l {
      case Enqueue(message) =>
        hide Good;
        EnqueueKeepsGood(s, message);
      case Answer(now) =>
        hide Good, PendingOf;
        AnswerKeepsGood(s, now);
      case Receive(now) =>
        hide Good, AfterReceive;
        ReceiveKeepsGood(s, now);
      case Notify(read, now) =>
        hide Good, AfterNotify;
        NotifyKeepsGood(s, read, now);
      case ShowNext =>
        hide Good, AfterShow;
        ShowKeepsGood(s);
      case Save =>
        hide Good, AfterSave;
        SaveKeepsGood(s);
      case RestartNotifier =>
        hide Good, AfterRestart;
        RestartKeepsGood(s);
      case LoseReply =>
        hide InOrder, StoreOk, CoverOk, ReplyOk, InTime, OncePerSave, Told, Remembered, DueOk, DueKept;
      case RestartAgent =>
        hide InOrder, StoreOk, CoverOk, ReplyOk, InTime, OncePerSave, Told, Remembered, DueOk, DueKept;
    }
  }

  lemma {:induction false} EveryStateGood(states: seq<State>, labels: seq<Label>, n: nat)
    requires Run(states, labels) && n < |states|
    ensures Good(states[n])
    decreases n
  {
    if n == 0 {
      InitialGood(states[0]);
    } else {
      hide Good, Next;
      EveryStateGood(states, labels, n - 1);
      assert Next(states[n - 1], labels[n - 1], states[n - 1 + 1]);
      StepKeepsGood(states[n - 1], labels[n - 1], states[n]);
    }
  }

  /**
    Main result: in every run, whatever is lost or restarted, a message is shown only while it has not expired and only
    if it was queued; and it is shown again only in a later poll, if the earlier one was never saved.
  */
  lemma {:induction false} ShownInTime(states: seq<State>, labels: seq<Label>, n: nat)
    requires Run(states, labels) && n < |states|
    ensures InTime(states[n].queued, states[n].shows, states[n].poll) && OncePerSave(states[n].shows, states[n].savedPolls)
  {
    EveryStateGood(states, labels, n);
  }

  /** Every poll so far, but for the one under way, was saved. */
  ghost predicate AllSaved(s: State) {
    forall p :: 1 <= p <= s.poll && (p < s.poll || s.idle) ==> p in s.savedPolls
  }

  lemma {:induction false} UninterruptedSaves(states: seq<State>, labels: seq<Label>, n: nat)
    requires Run(states, labels) && n < |states|
    requires forall k :: 0 <= k < n && labels[k].RestartNotifier? ==> states[k].idle
    ensures AllSaved(states[n])
    decreases n
  {
    hide Next, Good, Run, AllSaved;
    RunLength(states, labels);
    if n > 0 {
      UninterruptedSaves(states, labels, n - 1);
      StepOfRun(states, labels, n - 1);
      StepKeepsSaved(states[n - 1], labels[n - 1], states[n]);
    } else {
      NoPollYet(states, labels);
    }
  }

  lemma {:induction false} NoPollYet(states: seq<State>, labels: seq<Label>)
    requires Run(states, labels)
    ensures AllSaved(states[0])
  {
    hide Next;
  }

  lemma {:induction false} StepKeepsSaved(s: State, l: Label, s': State)
    requires Next(s, l, s') && AllSaved(s) && (l.RestartNotifier? ==> s.idle)
    ensures AllSaved(s')
  {
    hide Applied, FreshOf, ShownAfter, Reported, PendingOf, NewMessage;
  }

  /** Main result: if the notifier is never restarted between a poll and its save, each message is shown at most once. */
  lemma {:induction false} ShownOnce(states: seq<State>, labels: seq<Label>, n: nat)
    requires Run(states, labels) && n < |states|
    requires forall k :: 0 <= k < n && labels[k].RestartNotifier? ==> states[k].idle
    ensures forall i, j :: 0 <= i < j < |states[n].shows| ==> states[n].shows[i].message.id != states[n].shows[j].message.id
  {
    UninterruptedSaves(states, labels, n);
    EveryStateGood(states, labels, n);
    hide InOrder, StoreOk, CoverOk, ReplyOk, MemoryOk;
  }

  /**
    Main result: exactly when a message is shown again. At a poll an unexpired message of the agent's store is to be
    shown if and only if no poll that showed it was ever saved.
  */
  lemma {:induction false} ShownAgainExactlyWhen(states: seq<State>, labels: seq<Label>, n: nat, m: AgentMessage)
    requires Run(states, labels) && n < |labels| && labels[n].Notify?
    requires m in states[n].store.messages && m.expiresAt > labels[n].now
    ensures m in states[n + 1].toShow <==> !ShownIn(states[n].shows, m.id, states[n].savedPolls)
  {
    var s, read, now := states[n], labels[n].read, labels[n].now;
    EveryStateGood(states, labels, n);
    assert Next(states[n], labels[n], states[n + 1]);
    ReportedMembers(s.store.messages, read, now);
    FreshMembers(s.shown, Reported(s.store.messages, read, now), now);
    hide InOrder, CoverOk, ReplyOk, InTime, OncePerSave, Told, FreshOf, Reported, ShownAfter, ShownIn, Run, DueOk, DueKept;
    if ShownIn(s.shows, m.id, s.savedPolls) {
      FreshIsNew(s.queued, s.clock, s.shown, s.store.messages, s.shows, s.poll, s.savedPolls, m);
    }
    NothingInNoIds(m.id);
  }

  /** The cursor never passes a message: one behind it is in the agent's store, or expired by a clock already read. */
  lemma {:induction false} NothingSkipped(states: seq<State>, labels: seq<Label>, n: nat)
    requires Run(states, labels) && n < |states|
    ensures var s := states[n];
            forall i :: 0 <= i < |s.queued| && s.queued[i].seqNo <= s.store.lastSeq ==>
              s.queued[i] in s.store.messages || s.queued[i].expiresAt <= Latest(s)
  {
    EveryStateGood(states, labels, n);
  }

  /** Shown, or about to be. */
  predicate Due(s: State, m: AgentMessage) {
    WasShown(s.shows, m.id) || m in s.toShow
  }

  lemma {:induction false} NotifyMakesDue(s: State, read: Instant, now: Instant, m: AgentMessage)
    requires Good(s) && s.idle && s.clock <= read <= now && m in s.store.messages && m.expiresAt > now
    ensures Due(AfterNotify(s, read, now), m)
  {
    ShownIs(s.shown, s.store.messages, read, now);
    hide InOrder, CoverOk, ReplyOk, StoreOk, InTime, OncePerSave, Told, FreshOf, Reported, ShownAfter, DueOk, DueKept;
    NothingInNoIds(m.id);
  }

  lemma {:induction false} StepKeepsDue(s: State, l: Label, s': State, m: AgentMessage)
    requires Good(s) && Next(s, l, s') && !l.RestartNotifier? && Due(s, m)
    ensures Due(s', m)
  {
    hide InOrder, StoreOk, CoverOk, ReplyOk, InTime, OncePerSave, Told, Remembered, DueOk, DueKept, Applied, FreshOf, ShownAfter, Reported, PendingOf;
    if l.ShowNext? {
      assert s'.shows[|s.shows|].message == s.toShow[0];
      if i :| 0 <= i < |s.shows| && s.shows[i].message.id == m.id {
        assert s'.shows[i] == s.shows[i];
      } else if m != s.toShow[0] {
        assert m in s.toShow[1..];
      }
    }
  }

  lemma {:induction false} RunLength(states: seq<State>, labels: seq<Label>)
    requires Run(states, labels)
    ensures |states| == |labels| + 1
  {
    hide Next;
  }

  lemma {:induction false} StepOfRun(states: seq<State>, labels: seq<Label>, n: nat)
    requires Run(states, labels) && n < |labels|
    ensures Good(states[n]) && Next(states[n], labels[n], states[n + 1])
  {
    hide Good, Next;
    EveryStateGood(states, labels, n);
  }

  lemma {:induction false} StaysDue(states: seq<State>, labels: seq<Label>, n: nat, k: nat, m: AgentMessage)
    requires Run(states, labels) && n <= k < |states| && Due(states[n], m)
    requires forall j :: n <= j < k ==> !labels[j].RestartNotifier?
    ensures Due(states[k], m)
    decreases k
  {
    hide Next, Good, Due, Run;
    RunLength(states, labels);
    if n < k {
      StaysDue(states, labels, n, k - 1, m);
      StepOfRun(states, labels, k - 1);
      StepKeepsDue(states[k - 1], labels[k - 1], states[k], m);
    }
  }

  /** A message due at a poll has been shown once the notifier has saved, unless it was restarted first. */
  lemma {:induction false} DueIsShown(states: seq<State>, labels: seq<Label>, n: nat, k: nat, m: AgentMessage)
    requires Run(states, labels) && n < k < |labels| && labels[k].Save? && Due(states[n + 1], m)
    requires forall j :: n < j < k ==> !labels[j].RestartNotifier?
    ensures WasShown(states[k + 1].shows, m.id)
  {
    StaysDue(states, labels, n + 1, k, m);
    assert Next(states[k], labels[k], states[k + 1]);
    hide Run, WasShown;
  }

  /**
    Main result: once a poll is saved, every message that was unexpired in the agent's store at the poll has been shown,
    and so has every message queued before the last reply received by then, unless it had expired.
  */
  lemma {:induction false} EveryFetchedMessageShown(states: seq<State>, labels: seq<Label>, n: nat, k: nat)
    requires Run(states, labels) && n < k < |labels| && labels[n].Notify? && labels[k].Save?
    requires forall j :: n < j < k ==> !labels[j].RestartNotifier?
    ensures var s, shows := states[n + 1], states[k + 1].shows;
            && (forall m :: m in s.store.messages && m.expiresAt > s.clock ==> WasShown(shows, m.id))
            && (forall i :: 0 <= i < s.covered ==> i < |s.queued| && (WasShown(shows, s.queued[i].id) || s.queued[i].expiresAt <= Latest(s)))
            && (forall i :: 0 <= i < |s.queued| && s.queued[i].seqNo <= s.store.lastSeq ==> i < s.covered)
  {
    var s, shows := states[n + 1], states[k + 1].shows;
    EveryStateGood(states, labels, n);
    EveryStateGood(states, labels, n + 1);
    assert Next(states[n], labels[n], states[n + 1]);
    hide InOrder, ReplyOk, StoreOk, InTime, OncePerSave, MemoryOk, FreshOf, Reported, ShownAfter, WasShown, Due, Run;
    forall m | m in s.store.messages && m.expiresAt > s.clock
      ensures WasShown(shows, m.id)
    {
      NotifyMakesDue(states[n], labels[n].read, labels[n].now, m);
      DueIsShown(states, labels, n, k, m);
    }
  }

  // ---------------------------------------------------------------- a restart at the wrong moment

  lemma {:induction false} OneMessage(p: AgentMessage -> bool, key: AgentMessage -> int, m: AgentMessage)
    ensures Filter(p, [m]) == if p(m) then [m] else []
    ensures SortBy(key, [m]) == [m] && SortBy(key, []) == []
  {
    assert [m][..0] == [];
  }

  lemma {:induction false} OnlyQueued(m: AgentMessage, now: Instant)
    requires m.seqNo > 0 && m.expiresAt > now
    ensures PendingOf([m], 0, now) == [m]
    ensures Applied(StoreState(0, []), [m], now) == StoreState(m.seqNo, [m])
    ensures Reported([m], now, now) == [m] && FreshOf({}, [m], now) == [m]
  {
    OneMessage(Undelivered(0, now), SeqOf, m);
    OneMessage(Unexpired(now), SentOf, m);
    OneMessage(Unseen({}, now), SentOf, m);
    assert [m][..0] == [];
    hide Filter, SortBy;
    assert Added(StoreState(0, []), []) == StoreState(0, []);
    assert Added(StoreState(0, []), [m]) == StoreState(m.seqNo, [m]);
  }

  /** The states of a run that queues, fetches and shows one message, restarts the notifier before it saves, and polls again. */
  function Interrupted(m: AgentMessage, now: Instant): (r: seq<State>)
    ensures |r| == 9
  {
    var s0 := State([], now, None, StoreState(0, []), now, {}, {}, true, now, [], 0, {}, [], 0);
    var s1 := s0.(queued := [m]);
    var s2 := s1.(outstanding := Some(Reply([m], 1)));
    var s3 := s2.(outstanding := None, store := StoreState(m.seqNo, [m]), covered := 1);
    var s4 := s3.(toShow := [m], shown := {m.id}, idle := false, poll := 1);
    var s5 := s4.(toShow := [], shows := [Showing(m, now, 1)]);
    var s6 := s5.(shown := {}, idle := true);
    var s7 := s6.(toShow := [m], shown := {m.id}, idle := false, poll := 2);
    var s8 := s7.(toShow := [], shows := [Showing(m, now, 1), Showing(m, now, 2)]);
    [s0, s1, s2, s3, s4, s5, s6, s7, s8]
  }

  function InterruptedLabels(m: AgentMessage, now: Instant): (r: seq<Label>)
    ensures |r| == 8
  {
    [Enqueue(m), Answer(now), Receive(now), Notify(now, now), ShowNext, RestartNotifier, Notify(now, now), ShowNext]
  }

  lemma {:induction false} FirstShown(m: AgentMessage, now: Instant)
    requires FreshOf({}, [m], now) == [m]
    ensures ShownAfter({}, [m], now) == {m.id}
  {
    hide FreshOf;
    assert m in [m];
    assert IdsOf([m]) == {m.id};
  }

  lemma {:induction false} InterruptedNotify(s: State, m: AgentMessage, now: Instant)
    requires s.store.messages == [m] && s.shown == {} && m.seqNo > 0 && m.expiresAt > now
    ensures AfterNotify(s, now, now) == s.(toShow := [m], shown := {m.id}, idle := false, polled := now, poll := s.poll + 1, clock := now)
  {
    hide FreshOf, Reported, ShownAfter, PendingOf, Applied;
    OnlyQueued(m, now);
    FirstShown(m, now);
  }

  lemma {:induction false} InterruptedFetch(m: AgentMessage, now: Instant)
    requires m.seqNo > 0 && m.expiresAt > now
    ensures var r, l := Interrupted(m, now), InterruptedLabels(m, now);
            Next(r[0], l[0], r[1]) && Next(r[1], l[1], r[2]) && Next(r[2], l[2], r[3])
  {
    hide PendingOf, Applied, FreshOf, Reported, ShownAfter, AfterNotify;
    OnlyQueued(m, now);
  }

  lemma {:induction false} InterruptedPoll(m: AgentMessage, now: Instant)
    requires m.seqNo > 0 && m.expiresAt > now
    ensures var r, l := Interrupted(m, now), InterruptedLabels(m, now); Next(r[3], l[3], r[4]) && Next(r[6], l[6], r[7])
  {
    var r := Interrupted(m, now);
    hide PendingOf, Applied, FreshOf, Reported, ShownAfter, AfterNotify;
    InterruptedNotify(r[3], m, now);
    InterruptedNotify(r[6], m, now);
  }

  lemma {:induction false} InterruptedShow(m: AgentMessage, now: Instant)
    ensures var r, l := Interrupted(m, now), InterruptedLabels(m, now);
            Next(r[4], l[4], r[5]) && Next(r[5], l[5], r[6]) && Next(r[7], l[7], r[8])
  {
    hide PendingOf, Applied, FreshOf, Reported, ShownAfter, AfterNotify;
    assert [m][1..] == [];
  }

  lemma {:induction false} InterruptedStarts(m: AgentMessage, now: Instant)
    ensures Initial(Interrupted(m, now)[0])
    ensures Interrupted(m, now)[8].shows == [Showing(m, now, 1), Showing(m, now, 2)]
  {}

  /** A restart between showing a message and saving that it was shown does show it twice. */
  lemma {:induction false} InterruptedShowsTwice(m: AgentMessage, now: Instant)
    requires m.seqNo > 0 && m.expiresAt > now
    ensures Run(Interrupted(m, now), InterruptedLabels(m, now))
    ensures Interrupted(m, now)[8].shows == [Showing(m, now, 1), Showing(m, now, 2)]
  {
    hide Interrupted, InterruptedLabels, Next, Initial;
    InterruptedFetch(m, now);
    InterruptedPoll(m, now);
    InterruptedShow(m, now);
    InterruptedStarts(m, now);
  }
}
