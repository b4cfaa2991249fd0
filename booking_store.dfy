/** The in-memory booking store: the list of bookings and the id counter that
    the service keeps for the lifetime of the process, with its list and
    batch-create operations. */
module BookingStore {
  import opened BookingModel

  /** What a batch create answers: the full store after the batch, or the
      room and date of the request that was refused. */
  datatype Outcome = Created(bookings: seq<Booking>) | Rejected(conflict: Slot)

  class Store {
    var bookings: seq<Booking>
    var nextId: nat

    /** Ids start at 1, strictly increase along the list and stay below the
        counter, so the next id minted is fresh; every room is in 1..9. */
    ghost predicate Valid()
      reads this
    {
      1 <= nextId
      && IdsIncreasing(bookings)
      && IdsWithin(bookings, 1, nextId)
      && RoomsValid(bookings)
    }

    /** The store at process start: no bookings, counter at 1. */
    constructor ()
      ensures Valid()
      ensures bookings == [] && nextId == 1
    {
      bookings := [];
      nextId := 1;
    }

    /** The read operation: the whole store, in insertion order. */
    method List() returns (r: seq<Booking>)
      ensures r == bookings
    {
      r := bookings;
    }

    /** The batch create as written: a pre-pass that checks every request
        against the committed bookings only and refuses the batch at the
        first clash, then the insertion of the whole batch. */
    method Create(payload: seq<Request>) returns (outcome: Outcome)
      requires Valid()
      requires forall k :: 0 <= k < |payload| ==> ValidRoom(payload[k].roomNumber)
      modifies this
      ensures Valid()
      ensures FirstConflict(old(bookings), payload) != None ==>
        && outcome == Rejected(FirstConflict(old(bookings), payload).value)
        && bookings == old(bookings)
        && nextId == old(nextId)
      ensures FirstConflict(old(bookings), payload) == None ==>
        && bookings == old(bookings) + Minted(payload, old(nextId))
        && nextId == old(nextId) + |payload|
        && outcome == Created(bookings)
    {
      for i := 0 to |payload|
        invariant forall k :: 0 <= k < i ==> !Clashes(bookings, payload[k])
      {
        var item := payload[i];
        if AlreadyReserved(bookings, item.roomNumber, item.bookingDate) {
          FirstConflictAt(bookings, payload, i);
          outcome := Rejected(item.Key());
          return;
        }
      }
      Insert(payload);
      outcome := Created(bookings);
    }

    /** The batch create with the stricter pre-pass, which also refuses a
        request whose room and date an earlier request of the batch takes. */
    method CreateStrict(payload: seq<Request>) returns (outcome: Outcome)
      requires Valid()
      requires forall k :: 0 <= k < |payload| ==> ValidRoom(payload[k].roomNumber)
      modifies this
      ensures Valid()
      ensures old(Unique(bookings)) ==> Unique(bookings)
      ensures outcome.Rejected? ==> exists k ::
        && 0 <= k < |payload|
        && TakenBefore(old(bookings), payload, k)
        && outcome.conflict == payload[k].Key()
        && forall j :: 0 <= j < k ==> !TakenBefore(old(bookings), payload, j)
      ensures FirstConflictStrict(old(bookings), payload) != None ==>
        && outcome == Rejected(FirstConflictStrict(old(bookings), payload).value)
        && bookings == old(bookings)
        && nextId == old(nextId)
      ensures FirstConflictStrict(old(bookings), payload) == None ==>
        && bookings == old(bookings) + Minted(payload, old(nextId))
        && nextId == old(nextId) + |payload|
        && outcome == Created(bookings)
    {
      var conflict := FirstConflictStrict(bookings, payload);
      if conflict.Some? {
        FirstConflictStrictIsFirst(bookings, payload);
        outcome := Rejected(conflict.value);
        return;
      }
      if Unique(bookings) {
        StrictCheckPreservesUnique(bookings, payload, nextId);
      }
      Insert(payload);
      outcome := Created(bookings);
    }

    /** The insertion loop: append each request with the next id and advance
        the counter. */
    method Insert(payload: seq<Request>)
      requires Valid()
      requires forall k :: 0 <= k < |payload| ==> ValidRoom(payload[k].roomNumber)
      modifies this
      ensures Valid()
      ensures bookings == old(bookings) + Minted(payload, old(nextId))
      ensures nextId == old(nextId) + |payload|
    {
      ghost var before, start := bookings, nextId;
      for i := 0 to |payload|
        invariant bookings == before + Minted(payload[..i], start)
        invariant nextId == start + i
      {
        MintedStep(payload, start, i);
        bookings := bookings + [payload[i].WithId(nextId)];
        nextId := nextId + 1;
      }
      assert payload[..|payload|] == payload;
      IdsAfterInsert(before, payload, start);
      RoomsAfterInsert(before, payload, start);
    }
  }

  /** An empty store books a request under id 1, then refuses the same room
      and date again and keeps its single booking. */
  method RebookScenario(q: Request) returns (first: Outcome, second: Outcome, after: seq<Booking>)
    requires ValidRoom(q.roomNumber)
    ensures first == Created([q.WithId(1)])
    ensures second == Rejected(q.Key())
    ensures after == [q.WithId(1)]
  {
    var store := new Store();
    first := store.Create([q]);
    assert Minted([q], 1) == [q.WithId(1)];
    assert store.bookings[0] == q.WithId(1);
    second := store.Create([q]);
    after := store.List();
  }

  /** A batch holding the same request twice is accepted by an empty store and
      leaves two bookings for the same room and date, with ids 1 and 2. */
  method DuplicateBatchScenario(q: Request) returns (outcome: Outcome)
    requires ValidRoom(q.roomNumber)
    ensures outcome == Created([q.WithId(1), q.WithId(2)])
    ensures !Unique(outcome.bookings)
  {
    var store := new Store();
    DuplicateBatchBreaksUnique([], q, 1);
    outcome := store.Create([q, q]);
    assert Minted([q, q], 1) == [q.WithId(1), q.WithId(2)];
  }
}
