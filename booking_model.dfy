/** Data shapes of the booking service and the pure functions that specify
    its store: the conflict query, the validation pre-pass and the bookings
    an accepted batch appends. */
module BookingModel {

  datatype Option<T> = None | Some(value: T)

  /** A calendar date. The service only ever compares dates for equality. */
  type Date(==)

  /** Rooms are numbered 1 to 9; requests outside that range are refused by
      schema validation before they reach the store. */
  predicate ValidRoom(roomNumber: int) {
    1 <= roomNumber <= 9
  }

  /** The pair that must be unique across the store; also what a conflict reports. */
  datatype Slot = Slot(roomNumber: int, date: Date)

  /** A booking request: the customer fields and the room fields plus a date. */
  datatype Request = Request(
    name: string,
    phone: string,
    email: string,
    roomNumber: int,
    roomName: Option<string>,
    description: Option<string>,
    bookingDate: Date)
  {
    function Key(): Slot {
      Slot(roomNumber, bookingDate)
    }

    /** The stored booking for this request: every field copied, plus `id`. */
    function WithId(id: int): (b: Booking)
      ensures b.id == id && b.AsRequest() == this
      ensures b.Key() == Key()
    {
      Booking(id, name, phone, email, roomNumber, roomName, description, bookingDate)
    }
  }

  /** A stored booking: a request together with its id. */
  datatype Booking = Booking(
    id: int,
    name: string,
    phone: string,
    email: string,
    roomNumber: int,
    roomName: Option<string>,
    description: Option<string>,
    bookingDate: Date)
  {
    function Key(): Slot {
      Slot(roomNumber, bookingDate)
    }

    /** The request fields of this booking, without its id. */
    function AsRequest(): Request {
      Request(name, phone, email, roomNumber, roomName, description, bookingDate)
    }
  }

  /** A booking is determined by its id and its request fields. */
  lemma BookingRoundTrip(b: Booking)
    ensures b.AsRequest().WithId(b.id) == b
  {
  }

  /** Whether some booking of `store` has this room on this day, scanning the
      store front to back as `any` does. */
  function AlreadyReserved(store: seq<Booking>, roomNumber: int, day: Date): (r: bool)
    ensures r <==> exists i :: 0 <= i < |store| && store[i].roomNumber == roomNumber && store[i].bookingDate == day
  {
    if store == [] then false
    else (store[0].roomNumber == roomNumber && store[0].bookingDate == day)
         || AlreadyReserved(store[1..], roomNumber, day)
  }

  /** Whether request `q` collides with a booking already in `store`. */
  predicate Clashes(store: seq<Booking>, q: Request) {
    AlreadyReserved(store, q.roomNumber, q.bookingDate)
  }

  /** The validation pre-pass: the slot of the first request, in payload
      order, that collides with a committed booking, if there is one. */
  function FirstConflict(store: seq<Booking>, payload: seq<Request>): (r: Option<Slot>)
    ensures r == None <==> forall k :: 0 <= k < |payload| ==> !Clashes(store, payload[k])
    ensures r != None ==>
      exists k :: 0 <= k < |payload| && Clashes(store, payload[k]) && r == Some(payload[k].Key())
        && forall j :: 0 <= j < k ==> !Clashes(store, payload[j])
  {
    if payload == [] then None
    else if Clashes(store, payload[0]) then Some(payload[0].Key())
    else
      var r := FirstConflict(store, payload[1..]);
      assert forall k :: 1 <= k < |payload| ==> payload[k] == payload[1..][k - 1];
      r
  }

  /** The bookings a successful batch appends: request `i` of the batch gets
      id `firstId + i`, every other field unchanged. */
  function Minted(payload: seq<Request>, firstId: int): (r: seq<Booking>)
    ensures |r| == |payload|
    ensures forall i :: 0 <= i < |payload| ==> r[i].id == firstId + i && r[i].AsRequest() == payload[i]
  {
    if payload == [] then []
    else [payload[0].WithId(firstId)] + Minted(payload[1..], firstId + 1)
  }

  /** Minting one more request of the batch appends one booking with the next id. */
  lemma MintedStep(payload: seq<Request>, firstId: int, i: nat)
    requires i < |payload|
    ensures Minted(payload[..i + 1], firstId) == Minted(payload[..i], firstId) + [payload[i].WithId(firstId + i)]
  {
    var longer, shorter := Minted(payload[..i + 1], firstId), Minted(payload[..i], firstId);
    forall k | 0 <= k < i + 1 ensures longer[k] == (shorter + [payload[i].WithId(firstId + i)])[k] {
      BookingRoundTrip(longer[k]);
      if k < i { BookingRoundTrip(shorter[k]); }
    }
  }

  /** No two bookings of the store share a room and a date. */
  predicate Unique(store: seq<Booking>) {
    forall i, j :: 0 <= i < j < |store| ==> store[i].Key() != store[j].Key()
  }

  /** No two requests of a batch share a room and a date. */
  predicate PairsDistinct(payload: seq<Request>) {
    forall i, j :: 0 <= i < j < |payload| ==> payload[i].Key() != payload[j].Key()
  }

  /** Ids strictly increase along the store. */
  predicate IdsIncreasing(store: seq<Booking>) {
    forall i, j :: 0 <= i < j < |store| ==> store[i].id < store[j].id
  }

  /** Every id of the store lies in `lo .. hi - 1`. */
  predicate IdsWithin(store: seq<Booking>, lo: int, hi: int) {
    forall i :: 0 <= i < |store| ==> lo <= store[i].id < hi
  }

  /** Every booking of the store is for a room in 1..9. */
  predicate RoomsValid(store: seq<Booking>) {
    forall i :: 0 <= i < |store| ==> ValidRoom(store[i].roomNumber)
  }

  // ----- Lemmas about the pre-pass -----

  /** If request `k` is the first that clashes, the pre-pass reports its slot. */
  lemma FirstConflictAt(store: seq<Booking>, payload: seq<Request>, k: nat)
    requires k < |payload| && Clashes(store, payload[k])
    requires forall j :: 0 <= j < k ==> !Clashes(store, payload[j])
    ensures FirstConflict(store, payload) == Some(payload[k].Key())
  {
  }

  /** Adding one booking to the store adds exactly its slot to the reserved ones. */
  lemma ReservedAfterAppend(store: seq<Booking>, b: Booking, roomNumber: int, day: Date)
    ensures AlreadyReserved(store + [b], roomNumber, day)
        <==> AlreadyReserved(store, roomNumber, day) || (b.roomNumber == roomNumber && b.bookingDate == day)
  {
    var s := store + [b];
    if AlreadyReserved(s, roomNumber, day) && !(b.roomNumber == roomNumber && b.bookingDate == day) {
      var i :| 0 <= i < |s| && s[i].roomNumber == roomNumber && s[i].bookingDate == day;
      assert i < |store| && store[i] == s[i];
    }
    if AlreadyReserved(store, roomNumber, day) {
      var i :| 0 <= i < |store| && store[i].roomNumber == roomNumber && store[i].bookingDate == day;
      assert s[i] == store[i];
    }
    assert s[|store|] == b;
  }

  // ----- Lemmas about the bookings an accepted batch appends -----

  /** With no clash against the store, the extended store is free of double
      bookings exactly when the store was and the batch has no two requests
      for the same room and date. */
  lemma UniqueAfterInsertIff(store: seq<Booking>, payload: seq<Request>, firstId: int)
    requires FirstConflict(store, payload) == None
    ensures Unique(store + Minted(payload, firstId)) <==> Unique(store) && PairsDistinct(payload)
  {
    var m := Minted(payload, firstId);
    var s := store + m;
    forall k | 0 <= k < |payload| ensures s[|store| + k].Key() == payload[k].Key() {
      assert s[|store| + k] == m[k];
      assert m[k].AsRequest() == payload[k];
    }
    if Unique(s) {
      forall i, j | 0 <= i < j < |store| ensures store[i].Key() != store[j].Key() {
        assert s[i] == store[i] && s[j] == store[j];
      }
      forall i, j | 0 <= i < j < |payload| ensures payload[i].Key() != payload[j].Key() {
        assert s[|store| + i].Key() == payload[i].Key();
        assert s[|store| + j].Key() == payload[j].Key();
      }
    }
    if Unique(store) && PairsDistinct(payload) {
      forall i, j | 0 <= i < j < |s| ensures s[i].Key() != s[j].Key() {
        if j < |store| {
          assert s[i] == store[i] && s[j] == store[j];
        } else if i < |store| {
          var k := j - |store|;
          assert s[j].Key() == payload[k].Key();
          assert !Clashes(store, payload[k]);
          assert s[i] == store[i];
        } else {
          assert s[i].Key() == payload[i - |store|].Key();
          assert s[j].Key() == payload[j - |store|].Key();
        }
      }
    }
  }

  /** Appending freshly minted ids keeps ids strictly increasing and at least
      one, and advances the bound on ids by the batch length. */
  lemma IdsAfterInsert(store: seq<Booking>, payload: seq<Request>, nextId: int)
    requires 1 <= nextId
    requires IdsIncreasing(store) && IdsWithin(store, 1, nextId)
    ensures IdsIncreasing(store + Minted(payload, nextId))
    ensures IdsWithin(store + Minted(payload, nextId), 1, nextId + |payload|)
  {
  }

  /** Appending bookings minted from rooms in 1..9 keeps every room in 1..9. */
  lemma RoomsAfterInsert(store: seq<Booking>, payload: seq<Request>, nextId: int)
    requires RoomsValid(store)
    requires forall k :: 0 <= k < |payload| ==> ValidRoom(payload[k].roomNumber)
    ensures RoomsValid(store + Minted(payload, nextId))
  {
  }

  /** A batch holding the same request twice passes the pre-pass against a
      store that does not reserve its slot, and yet leaves two bookings for the
      same room and date. */
  lemma DuplicateBatchBreaksUnique(store: seq<Booking>, q: Request, firstId: int)
    requires !Clashes(store, q)
    ensures FirstConflict(store, [q, q]) == None
    ensures !Unique(store + Minted([q, q], firstId))
  {
    var s := store + Minted([q, q], firstId);
    assert s[|store|].Key() == q.Key() == s[|store| + 1].Key();
  }

  // ----- Checking a batch against itself as well -----

  /** Whether the room and date of request `k` are already taken, by a
      committed booking or by an earlier request of the same batch. */
  predicate TakenBefore(store: seq<Booking>, payload: seq<Request>, k: nat)
    requires k < |payload|
  {
    Clashes(store, payload[k]) || exists j :: 0 <= j < k && payload[j].Key() == payload[k].Key()
  }

  /** The pre-pass as its contract intends it: each request is checked against
      the committed bookings and against the requests before it in the batch.
      Those earlier requests join the store under the placeholder id 0, since
      only their room and date matter to the check. */
  function FirstConflictStrict(store: seq<Booking>, payload: seq<Request>): (r: Option<Slot>)
    ensures r != None ==> exists k :: 0 <= k < |payload| && r == Some(payload[k].Key())
    decreases |payload|
  {
    if payload == [] then None
    else if Clashes(store, payload[0]) then Some(payload[0].Key())
    else
      var r := FirstConflictStrict(store + [payload[0].WithId(0)], payload[1..]);
      assert forall k :: 1 <= k < |payload| ==> payload[k] == payload[1..][k - 1];
      r
  }

  /** The stricter pre-pass accepts a batch exactly when the written one does
      and the batch has no two requests for the same room and date. */
  lemma {:induction false} StrictAcceptsIff(store: seq<Booking>, payload: seq<Request>)
    ensures FirstConflictStrict(store, payload) == None
        <==> FirstConflict(store, payload) == None && PairsDistinct(payload)
    decreases |payload|
  {
    if payload != [] {
      var q, rest := payload[0], payload[1..];
      var grown := store + [q.WithId(0)];
      StrictAcceptsIff(grown, rest);
      assert forall k :: 1 <= k < |payload| ==> payload[k] == rest[k - 1];
      forall k | 0 <= k < |rest|
        ensures Clashes(grown, rest[k]) <==> Clashes(store, rest[k]) || rest[k].Key() == q.Key()
      {
        ReservedAfterAppend(store, q.WithId(0), rest[k].roomNumber, rest[k].bookingDate);
      }
      if FirstConflict(store, payload) == None && PairsDistinct(payload) {
        assert !Clashes(store, q);
        forall k | 0 <= k < |rest| ensures !Clashes(grown, rest[k]) {
          assert !Clashes(store, payload[k + 1]);
          assert payload[0].Key() != payload[k + 1].Key();
        }
        forall i, j | 0 <= i < j < |rest| ensures rest[i].Key() != rest[j].Key() {
          assert payload[i + 1].Key() != payload[j + 1].Key();
        }
      }
      if FirstConflictStrict(store, payload) == None {
        assert !Clashes(store, q);
        assert FirstConflictStrict(grown, rest) == None;
        forall k | 0 <= k < |payload| ensures !Clashes(store, payload[k]) {
          if k > 0 { assert !Clashes(grown, rest[k - 1]); }
        }
        forall i, j | 0 <= i < j < |payload| ensures payload[i].Key() != payload[j].Key() {
          assert !Clashes(grown, rest[j - 1]);
          if i > 0 { assert rest[i - 1].Key() != rest[j - 1].Key(); }
        }
      }
    }
  }

  /** Once the first request of a batch has joined the store, a later request
      is taken in the rest of the batch exactly when it was taken in the whole. */
  lemma TakenAfterFirst(store: seq<Booking>, payload: seq<Request>, m: nat)
    requires m + 1 < |payload|
    ensures TakenBefore(store, payload, m + 1)
        <==> TakenBefore(store + [payload[0].WithId(0)], payload[1..], m)
  {
    var q, rest := payload[0], payload[1..];
    var grown := store + [q.WithId(0)];
    ReservedAfterAppend(store, q.WithId(0), rest[m].roomNumber, rest[m].bookingDate);
    assert payload[m + 1] == rest[m];
    if exists j :: 0 <= j < m + 1 && payload[j].Key() == payload[m + 1].Key() {
      var j :| 0 <= j < m + 1 && payload[j].Key() == payload[m + 1].Key();
      if j > 0 { assert rest[j - 1] == payload[j]; }
    }
    if exists j :: 0 <= j < m && rest[j].Key() == rest[m].Key() {
      var j :| 0 <= j < m && rest[j].Key() == rest[m].Key();
      assert payload[j + 1] == rest[j];
    }
  }

  /** A refusal by the stricter pre-pass names the room and date of the first
      request, in batch order, whose room and date are already taken. */
  lemma {:induction false} FirstConflictStrictIsFirst(store: seq<Booking>, payload: seq<Request>)
    requires FirstConflictStrict(store, payload) != None
    ensures exists k ::
      && 0 <= k < |payload|
      && TakenBefore(store, payload, k)
      && FirstConflictStrict(store, payload) == Some(payload[k].Key())
      && forall j :: 0 <= j < k ==> !TakenBefore(store, payload, j)
    decreases |payload|
  {
    var q, rest := payload[0], payload[1..];
    if Clashes(store, q) {
      assert TakenBefore(store, payload, 0);
    } else {
      var grown := store + [q.WithId(0)];
      FirstConflictStrictIsFirst(grown, rest);
      var m :| 0 <= m < |rest| && TakenBefore(grown, rest, m)
        && FirstConflictStrict(grown, rest) == Some(rest[m].Key())
        && forall j :: 0 <= j < m ==> !TakenBefore(grown, rest, j);
      TakenAfterFirst(store, payload, m);
      assert !TakenBefore(store, payload, 0);
      forall j | 0 <= j < m + 1 ensures !TakenBefore(store, payload, j) {
        if j > 0 { TakenAfterFirst(store, payload, j - 1); }
      }
      assert rest[m] == payload[m + 1];
    }
  }

  /** With the stricter pre-pass, an accepted batch always keeps the store free
      of double bookings. */
  lemma StrictCheckPreservesUnique(store: seq<Booking>, payload: seq<Request>, firstId: int)
    requires Unique(store)
    requires FirstConflictStrict(store, payload) == None
    ensures Unique(store + Minted(payload, firstId))
  {
    StrictAcceptsIff(store, payload);
    UniqueAfterInsertIff(store, payload, firstId);
  }
}
