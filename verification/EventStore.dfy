/** The controller's side of event delivery: an insert that treats a known id as a duplicate, and batches of inserts. */
module EventStore {
  import opened Lists
  import opened EventQueue

  datatype ResultStatus = ACCEPTED | DUPLICATE | REJECTED
  datatype EventResult = EventResult(eventId: EventId, status: ResultStatus)
  datatype SubmissionResponse = SubmissionResponse(accepted: nat, duplicates: nat, rejected: nat, results: seq<EventResult>)

  predicate Stored(store: seq<QueuedEvent>, id: EventId) {
    exists i :: 0 <= i < |store| && store[i].eventId == id
  }

  function StoreAfter(store: seq<QueuedEvent>, items: seq<QueuedEvent>): seq<QueuedEvent> {
    if items == [] then store
    else
      var before, item := StoreAfter(store, items[..|items| - 1]), items[|items| - 1];
      if Stored(before, item.eventId) then before else before + [item]
  }

  /** The answer to the i-th item depends on what was stored before it, including by earlier items of the batch. */
  function ResultsOf(store: seq<QueuedEvent>, items: seq<QueuedEvent>): seq<EventResult> {
    if items == [] then []
    else
      var front, item := items[..|items| - 1], items[|items| - 1];
      ResultsOf(store, front)
      + [EventResult(item.eventId, if Stored(StoreAfter(store, front), item.eventId) then DUPLICATE else ACCEPTED)]
  }

  function CountOf(results: seq<EventResult>, status: ResultStatus): nat {
    if results == [] then 0
    else CountOf(results[..|results| - 1], status) + if results[|results| - 1].status == status then 1 else 0
  }

  class EventStore {
    var events: seq<QueuedEvent>

    constructor ()
      ensures events == []
    {
      events := [];
    }

    method InsertIfAbsent(item: QueuedEvent) returns (result: EventResult)
      modifies this
      ensures events == StoreAfter(old(events), [item])
      ensures [result] == ResultsOf(old(events), [item])
    {
      assert [item][..0] == [];
      if Stored(events, item.eventId) {
        return EventResult(item.eventId, DUPLICATE);
      }
      events := events + [item];
      return EventResult(item.eventId, ACCEPTED);
    }

    method Submit(items: seq<QueuedEvent>) returns (response: SubmissionResponse)
      modifies this
      ensures events == StoreAfter(old(events), items)
      ensures response.results == ResultsOf(old(events), items)
      ensures response.accepted == CountOf(response.results, ACCEPTED)
      ensures response.duplicates == CountOf(response.results, DUPLICATE)
      ensures response.rejected == CountOf(response.results, REJECTED)
    {
      var results: seq<EventResult> := [];
      var accepted, duplicates, rejected := 0, 0, 0;
      for i := 0 to |items|
        invariant events == StoreAfter(old(events), items[..i])
        invariant results == ResultsOf(old(events), items[..i])
        invariant accepted == CountOf(results, ACCEPTED)
        invariant duplicates == CountOf(results, DUPLICATE)
        invariant rejected == CountOf(results, REJECTED)
      {
        ghost var before := events;
        assert items[..i + 1][..i] == items[..i];
        var result := InsertIfAbsent(items[i]);
        OneItem(before, items[i]);
        assert (results + [result])[..|results|] == results;
        results := results + [result];
        match result.status
        case ACCEPTED => accepted := accepted + 1;
        case DUPLICATE => duplicates := duplicates + 1;
        case REJECTED => rejected := rejected + 1;
      }
      assert items[..|items|] == items;
      response := SubmissionResponse(accepted, duplicates, rejected, results);
    }
  }

  lemma {:induction false} OneItem(store: seq<QueuedEvent>, item: QueuedEvent)
    ensures StoreAfter(store, [item]) == if Stored(store, item.eventId) then store else store + [item]
    ensures ResultsOf(store, [item]) == [EventResult(item.eventId, if Stored(store, item.eventId) then DUPLICATE else ACCEPTED)]
  {
    assert [item][..0] == [];
  }

  ghost predicate NoDuplicates(store: seq<QueuedEvent>) {
    forall i, j :: 0 <= i < j < |store| ==> store[i].eventId != store[j].eventId
  }

  /** A batch stores every item exactly once, whatever was stored before, and forgets nothing. */
  lemma {:induction false} SubmitStoresAll(store: seq<QueuedEvent>, items: seq<QueuedEvent>)
    ensures NoDuplicates(store) ==> NoDuplicates(StoreAfter(store, items))
    ensures store <= StoreAfter(store, items)
    ensures forall id :: Stored(StoreAfter(store, items), id) <==> Stored(store, id) || Stored(items, id)
  {
    if items != [] {
      var front, item := items[..|items| - 1], items[|items| - 1];
      SubmitStoresAll(store, front);
      var before := StoreAfter(store, front);
      forall id
        ensures Stored(items, id) <==> Stored(front, id) || item.eventId == id
        ensures Stored(before + [item], id) <==> Stored(before, id) || item.eventId == id
      {
        StoredAppend(front, item, id);
        StoredAppend(before, item, id);
        assert items == front + [item];
      }
    }
  }

  lemma {:induction false} StoredAppend(store: seq<QueuedEvent>, item: QueuedEvent, id: EventId)
    ensures Stored(store + [item], id) <==> Stored(store, id) || item.eventId == id
  {
    if Stored(store, id) {
      var i :| 0 <= i < |store| && store[i].eventId == id;
      assert (store + [item])[i] == store[i];
    }
    assert (store + [item])[|store|] == item;
  }

  /** One answer per item, in request order; a duplicate is one already stored, and nothing is rejected. */
  lemma {:induction false} ResultsInOrder(store: seq<QueuedEvent>, items: seq<QueuedEvent>)
    ensures |ResultsOf(store, items)| == |items|
    ensures forall i :: 0 <= i < |items| ==> ResultsOf(store, items)[i].eventId == items[i].eventId
    ensures forall i :: 0 <= i < |items|
                    ==> (ResultsOf(store, items)[i].status == DUPLICATE
                         <==> Stored(store, items[i].eventId) || Stored(items[..i], items[i].eventId))
    ensures forall i :: 0 <= i < |items| ==> ResultsOf(store, items)[i].status != REJECTED
  {
    if items != [] {
      hide Stored, StoreAfter;
      var n := |items| - 1;
      var front := items[..n];
      ResultsInOrder(store, front);
      LastResult(store, items);
      hide ResultsOf;
      forall i | 0 <= i < n
        ensures items[..i] == front[..i] && items[i] == front[i] && ResultsOf(store, items)[i] == ResultsOf(store, front)[i]
      {}
    }
  }

  lemma {:induction false} LastResult(store: seq<QueuedEvent>, items: seq<QueuedEvent>)
    requires items != []
    ensures var n := |items| - 1;
            var last := if Stored(store, items[n].eventId) || Stored(items[..n], items[n].eventId) then DUPLICATE else ACCEPTED;
            ResultsOf(store, items) == ResultsOf(store, items[..n]) + [EventResult(items[n].eventId, last)]
  {
    hide Stored, StoreAfter;
    SubmitStoresAll(store, items[..|items| - 1]);
  }

  /** The counts of a response add up to the number of items. */
  lemma {:induction false} CountsAddUp(results: seq<EventResult>)
    ensures CountOf(results, ACCEPTED) + CountOf(results, DUPLICATE) + CountOf(results, REJECTED) == |results|
  {
    if results != [] {
      CountsAddUp(results[..|results| - 1]);
    }
  }

  /** Each count is the number of results with that status. */
  lemma {:induction false} CountExact(results: seq<EventResult>, status: ResultStatus)
    ensures CountOf(results, status) == |set i | 0 <= i < |results| && results[i].status == status|
  {
    if results != [] {
      var n := |results| - 1;
      var front := results[..n];
      CountExact(front, status);
      assert CountOf(results, status) == CountOf(front, status) + if results[n].status == status then 1 else 0;
      hide CountOf;
      var before := set i | 0 <= i < |front| && front[i].status == status;
      var all := set i | 0 <= i < |results| && results[i].status == status;
      assert n !in before && forall i :: 0 <= i < n ==> front[i] == results[i];
      if results[n].status == status {
        assert all == before + {n};
      } else {
        assert all == before;
      }
    }
  }
}
