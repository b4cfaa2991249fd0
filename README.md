# Booking store model

A Dafny model of the in-memory booking store of a small room-reservation
service (`main.py`). The service keeps every booking in a process-wide list
and mints ids from a counter that starts at 1. It offers two operations:

- listing the store;
- creating a batch of bookings. A validation pre-pass refuses the whole
  batch, naming the room and date, as soon as one request collides with a
  committed booking. Otherwise every request is appended with the next id.

Two modules:

- `BookingModel` (`booking_model.dfy`) holds the data shapes as datatypes and
  the pure functions that specify the store. `Request` has the customer and
  room fields plus the date. `Booking` is a request plus its id. `Slot` is the
  (room number, date) pair that must be unique. The abstract `Date` type
  offers nothing but equality. The specification functions are
  `AlreadyReserved`, `FirstConflict` (the pre-pass) and `Minted` (the bookings
  a batch appends). The lemmas about them are in the same module.
- `BookingStore` (`booking_store.dfy`) holds the `Store` class. Its fields are
  `bookings: seq<Booking>` and `nextId: nat`, standing for the module-level
  list and counter. `Valid()` is its invariant: ids start at 1, strictly
  increase along the list and stay below the counter, and every room is in
  1..9. `Create` is proved against `FirstConflict` and `Minted`. The module
  also holds two scenario methods that exercise the class on a fresh store,
  checked by the verifier.

The room range 1..9 is enforced by schema validation before the store sees a
request. Here it is a precondition of `Create` (`ValidRoom`), and `Valid()`
keeps it for every stored booking.

## Model

| member | source | states |
|---|---|---|
| `BookingModel.Request.WithId` | main.py:64 | the stored booking carries the given id and every request field unchanged, so it reserves the request's room and date |
| `BookingModel.BookingRoundTrip` | main.py:27-28 | a booking is exactly its request fields plus its id |
| `BookingModel.AlreadyReserved` | main.py:34-35 | true exactly when some booking of the store has that room number and that date |
| `BookingModel.FirstConflict` | main.py:54-60 | no conflict exactly when no request of the batch collides with the store; a reported conflict is the room and date of a colliding request with no colliding request before it |
| `BookingModel.FirstConflictAt` | main.py:54-59 | if request k is the first in payload order that collides, the pre-pass reports request k's room and date |
| `BookingModel.Minted` | main.py:63-65 | one booking per request, in request order; booking i has id firstId + i and the other fields of request i |
| `BookingModel.MintedStep` | main.py:63-65 | minting one more request of the batch appends exactly one booking, with the next id |
| `BookingModel.UniqueAfterInsertIff` | main.py:54-56 | for a batch that passes the pre-pass, the extended store has no double booking exactly when the old store had none and no two requests of the batch share a room and date |
| `BookingModel.DuplicateBatchBreaksUnique` | main.py:54-64 | a batch holding one free request twice passes the pre-pass, yet the store afterwards has two bookings for the same room and date |
| `BookingModel.IdsAfterInsert` | main.py:32 | appending minted ids keeps ids strictly increasing and at least 1, and below the counter advanced by the batch length, so no id is reused |
| `BookingModel.RoomsAfterInsert` | main.py:20 | appending requests for rooms in 1..9 keeps every stored room in 1..9 |
| `BookingModel.FirstConflictStrict` | main.py:47 | the stricter pre-pass reports the room and date of some request of the batch |
| `BookingModel.FirstConflictStrictIsFirst` | main.py:47 | a refusal by the stricter pre-pass names the room and date of the first request, in batch order, whose room and date a committed booking or an earlier request of the batch already takes |
| `BookingModel.StrictAcceptsIff` | main.py:47 | the stricter pre-pass accepts a batch exactly when the written pre-pass does and the batch has no internal duplicate room and date |
| `BookingModel.StrictCheckPreservesUnique` | main.py:47 | with the stricter pre-pass, an accepted batch always keeps the store free of double bookings |
| `BookingStore.Store.constructor` | main.py:31-32 | the store starts empty, with the counter at 1 |
| `BookingStore.Store.List` | main.py:39-41 | returns the whole store, in insertion order, and changes nothing |
| `BookingStore.Store.Create` | main.py:44-67 | on a clash, answers the first clashing request's room and date and leaves list and counter unchanged; otherwise appends the minted bookings after the old list, advances the counter by the batch length and returns the full new list; keeps `Valid()` |
| `BookingStore.Store.Insert` | main.py:63-65 | appends each request with the next id in order, advances the counter once per request, and keeps `Valid()` |
| `BookingStore.Store.CreateStrict` | main.py:47 | behaves like `Create`, but with the stricter pre-pass: a refusal names the first request whose room and date is already taken, by the store or by an earlier request of the batch, and leaves list and counter unchanged; an accepted batch keeps the store free of double bookings |
| `BookingStore.RebookScenario` | main.py:44-67 | an empty store books a request under id 1, then refuses the same room and date and still holds that one booking |
| `BookingStore.DuplicateBatchScenario` | main.py:54-65 | an empty store accepts a batch of the same request twice, with ids 1 and 2, and ends up with a double booking |

## Left out

- HTTP routing, status codes 200/409/422 and response models. The two outcomes are the `Outcome` datatype: `Created` with the full list, or `Rejected` with the room and date.
- Schema validation (the field types, `EmailStr` syntax, the `ge`/`le` bounds on the room number). Email is a plain string. The room bound is a precondition on requests.
- The wording of the conflict message and the `YYYY-MM-DD` rendering of dates. The refused room number and date are carried in the `Rejected` value instead.
- Calendar semantics of dates. The code only compares dates for equality, so `Date` is an abstract type with equality.
- `list_bookings` and `create_bookings` return the module-level list object itself, so a caller shares it with the store. The model returns a value copy of the list.
- The `Customer` and `Room` base classes are flattened into the fields of `Request` and `Booking`.
- Concurrency: the code has no locking around check-then-insert. The model assumes one request at a time.

## Findings

| source | as written | input that shows it | evidently intended | confidence | as-written member | corrected member |
|---|---|---|---|---|---|---|
| main.py:54-65 | the pre-pass checks each request only against committed bookings, never against earlier requests of the same batch | an empty store and a batch holding one request twice | a request whose room and date is already taken, including by an earlier request of the batch, is refused, as the docstring at main.py:47 says | medium, not executed | `BookingStore.DuplicateBatchScenario` | `BookingStore.Store.CreateStrict` |

`Store.Create` models the code as written. The gap is stated by
`UniqueAfterInsertIff` and `DuplicateBatchBreaksUnique`. `CreateStrict` and
`FirstConflictStrict` are the corrected pre-pass. They are proved to keep the
store free of double bookings for every batch, and a refusal names the first
request whose room and date is already taken (`FirstConflictStrictIsFirst`).
