# Reservation ledger of the gym booking backend, in Dafny

This project models the core of a backend that books places on timed group activities of limited
capacity: the reservation ledger of `backend/db/reservations.py` with its 15-minute cancellation
rule, the activity and user collections it works with, and the records those collections hold.
Everything is one sequential in-memory store.

- `wrappers.dfy` (`Wrappers`): `Option` for missing fields and `None` returns, `Result` for the
  `(value, error)` pairs.
- `object_ids.dfy` (`ObjectIds`): ids are strings; `ValidId` is the rule by which `ObjectId(s)`
  accepts a string (24 hexadecimal digits in either case), and `Canon(s)` is the text form of the
  ObjectId it converts to (the same digits in lower case). The ids the driver gives new documents
  are ObjectIds, whose text is canonical; the model takes new ids as given, and every lookup by
  `_id` goes through `Canon`.
- `ordering.dfy` (`Ordering`): the database's `sort` on one timestamp field, where a missing value
  sorts first. `SortBy` is an insertion sort proved to return a sorted permutation.
- `reservation_model.dfy` (`ReservationModel`): the five statuses and their stored strings, the
  stored reservation, listing rows, roster rows and the attendance request body.
- `activity_model.dfy` (`ActivityModel`): activity validation (required fields present, title 1..100 characters, capacity
  above 0, end after start, the end/start check skipped without a usable start), the partial update
  body and its `$set`, and the stored document with its booked count.
- `activity_store.dfy` (`ActivityStore.ActivityCollection`): a class over a map of activity
  documents. It creates, looks up, lists (sorted, `skip`, `limit`), updates and deletes them, and
  applies the `$inc` of the booked counter.
- `user_directory.dfy` (`UserDirectory.UserCollection`): a class over a map of user documents.
  It registers users (refused for an email already taken; only the password hash is stored),
  looks them up by email, lists them newest first with no password hash, and deletes them.
- `reservation_rules.dfy` (`ReservationRules`): the ledger's rules as functions of the two
  collections (`Book`, `Cancel`, `SetAttendance`), the 15-minute rule `ReleasesSlot`, the
  invariants and the lemmas about them.
- `reservations.dfy` (`Reservations.ReservationLedger`): a class holding the reservations map and
  the two collection objects. Its methods `Book`, `Cancel`, `SetAttendance`, `ListByUser` and
  `ListByActivity` work step by step, as the source does. The postconditions of `Book`, `Cancel`
  and `SetAttendance` tie the new state and the result to the function of the same name in
  `ReservationRules`. `Book` and `Cancel` also promise outright that they keep `Invariant`:
  counts matching, capacity, and uniqueness on the id text. The two listings change nothing; their postconditions give the rows as the
  sets `UserRows` and `RosterRows` of `Reservations`, and the order of the user listing.

Modelling choices:
- Times are integer microseconds. The late-cancellation test is the exact
  `start - now <= 15 * 60 * 10^6`. `ReleasesSlotByMinutes` shows that it agrees with comparing the
  exact minutes left against 15.
- `now`, the id the driver gives a new document and the password hasher are parameters.
- A stored field that the source reads with a default (`.get(key, default)`) or a presence test is
  optional in the model: activity `title` and `booked_count`; user `email`, `full_name`,
  `hashed_password` and `created_at`. Fields read with `doc[key]` are always present.
- The stores start from arbitrary contents, and every invariant is proved as one that the
  operations preserve.

The counter invariant is `CountsMatch`: an activity's booked count equals the number of its
reservations whose status is anything but CANCELLED. Counting only ACTIVE, ATTENDED and ABSENT
reservations would not match the code: a late cancellation never lowers the count
(backend/db/reservations.py:103-106, 115-119), and the roster query still lists it
(backend/db/reservations.py:137-140). Bookings and cancellations, in any sequence, keep this
invariant, keep every activity within capacity, and keep at most one ACTIVE reservation per
(user id text, activity id text) pair (`RunKeepsInvariants`). They also never drive a counter
below zero, because the reservation being cancelled is itself counted (`CancelNeverNegative`).

Activity ids are compared two ways. The activity is found by the ObjectId its id converts to
(backend/db/reservations.py:13, 19, 82), so the counter follows `Canon`. The duplicate check, the
partial unique index and the roster query compare the id text (backend/db/reservations.py:27-31,
137-140; backend/init_db.py:40-44). A user who books once as "aaaa…" and once as "AAAA…" therefore
holds two ACTIVE reservations for one activity, whose count is raised twice, and the roster of
"aaaa…" lists one of them (`CaseVariantDoubleBooking`, `CaseVariantRosterShort`). One ACTIVE
reservation per user and activity, and a roster equal to the counted reservations, are proved
when every booking names its activity in lower case, the form the listings print
(`CanonicalRunKeepsUniquePerActivity`, `RosterIsHolding`).

Two more gaps in the source are stated as lemmas, not hidden:
- An attendance write can move a CANCELLED reservation to ACTIVE, ATTENDED or ABSENT without
  touching the counter (`ReactivationBreaksCounts`). The counter is kept only when the reservation
  written was not CANCELLED (`SetAttendanceKeepsCounts`).
- An activity update can lower the capacity below the booked count, because nothing checks it
  (`ActivityModel.UpdateCanUnderCutBooked`).

A reservation's title and start-time snapshot is written once, at booking. Activity edits only
change the activities collection (`ActivityCollection.Update` modifies that object alone), so
snapshots survive them.

## Model

| member | source | states |
|---|---|---|
| `ObjectIds.CanonProperties` | backend/db/reservations.py:13-16 | converting keeps exactly the well-formed ids well formed, gives a lower-case form, and changes nothing already in lower case |
| `ObjectIds.CaseVariants` | backend/db/activities.py:17-21 | an upper-case and a lower-case spelling of the same digits are different texts that convert to the same id |
| `ReservationModel.FromWire` | backend/models/reservation.py:6-11 | a string read as a status is that status's stored string |
| `ReservationModel.WireRoundTrip` | backend/models/reservation.py:6-11 | reading back the stored string of any status gives that status |
| `ReservationModel.FromWireExact` | backend/models/reservation.py:6-11 | a string is accepted exactly when it is the stored string of one of the five statuses |
| `ReservationModel.WireInjective` | backend/models/reservation.py:6-11 | the five stored strings are pairwise distinct |
| `ReservationModel.WithDefaults` | backend/models/reservation.py:19-27 | with only the required fields given, a reservation is ACTIVE and both snapshot fields are absent |
| `ReservationModel.Unhydrated` | backend/models/reservation.py:33-35 | a roster row starts with the owner's name and email absent |
| `ReservationModel.ParseAttendanceUpdate` | backend/models/reservation.py:37-38 | an attendance body is accepted exactly for the string of one of the five statuses, and carries that status |
| `ActivityModel.Validate` | backend/models/activity.py:5-18 | a refused activity body is refused with at least one error |
| `ActivityModel.ValidateAccepts` | backend/models/activity.py:5-18 | a body is accepted iff title, start, end, capacity, location and instructor are all present, the title has 1 to 100 characters, the capacity is above 0 and the end is strictly after the start; what is accepted keeps every field |
| `ActivityModel.MissingFieldRefused` | backend/models/activity.py:6-12 | a body without title, capacity, location or instructor is refused with that field's error; the description is optional and changes no error |
| `ActivityModel.OrderCheckNeedsStart` | backend/models/activity.py:14-18 | without a usable start time the end/start check raises nothing |
| `ActivityModel.FieldCount` | backend/models/activity.py:23-30 | an update body gives none of its seven fields exactly when it is the all-None body |
| `ActivityModel.BookedOf` | backend/models/activity.py:34 | a document without a booked count reads as 0; otherwise as its stored count |
| `ActivityModel.NewDoc` | backend/db/activities.py:28-29 | a created document has booked count 0, whatever the input, and keeps the validated fields |
| `ActivityModel.ApplyUpdateFields` | backend/db/activities.py:42-47 | an update changes exactly the fields it gives and never the booked count; an empty update changes nothing |
| `ActivityModel.ApplyUpdateIdempotent` | backend/db/activities.py:42-47 | applying an update twice is the same as applying it once |
| `ActivityModel.UpdateCanUnderCutBooked` | backend/db/activities.py:42-47 | an update can set the capacity below the booked count of an activity that was within capacity |
| `ActivityStore.Window` | backend/db/activities.py:9-13 | the page is the rows from position `skip` on, at most `limit` of them (0 meaning no limit) |
| `ActivityStore.WindowOfSorted` | backend/db/activities.py:9 | a page holds only rows of the listing it is cut from, in the listing's order |
| `ActivityStore.ActivityCollection.Create` | backend/db/activities.py:26-33 | exactly one document is added, under the new id, with booked count 0 |
| `ActivityStore.ActivityCollection.Get` | backend/db/activities.py:15-24 | there is a row iff the id is well formed and the id it converts to is stored; the row is that document with the id in canonical text |
| `ActivityStore.ActivityCollection.Update` | backend/db/activities.py:35-49 | absent and no change for a malformed id; otherwise only the given fields of the activity the id converts to change, and the result is 1 iff the document changed |
| `ActivityStore.ActivityCollection.Delete` | backend/db/activities.py:51-58 | absent and no change for a malformed id; otherwise the activity the id converts to is removed and the result is the number removed |
| `ActivityStore.ActivityCollection.IncBooked` | backend/db/reservations.py:50-53 | the booked count of that one activity moves by `delta`, a missing count counting from 0; nothing else changes |
| `ActivityStore.ActivityCollection.GetAll` | backend/db/activities.py:6-13 | the page is cut, by `skip` and `limit`, from a listing that holds every activity once sorted by start time ascending; the page itself is sorted and holds only stored activities |
| `UserDirectory.Listed` | backend/db/users.py:40-51 | a listing entry keeps the id and every field but the password hash, which the entry type lacks |
| `UserDirectory.UserCollection.GetByEmail` | backend/db/users.py:7-10 | a user is found iff a document has that email, and the one found has it |
| `UserDirectory.UserCollection.Create` | backend/db/users.py:12-34 | a taken email returns absent and inserts nothing; otherwise exactly one document is added with the email, name, role, the password's hash and the creation time |
| `UserDirectory.UserCollection.GetAll` | backend/db/users.py:36-52 | every user once, without the password hash, newest first |
| `UserDirectory.UserCollection.Delete` | backend/db/users.py:54-62 | false and no change for a malformed id; otherwise true iff the user the id converts to existed, and only that user is removed |
| `ReservationRules.ReleasesSlotByMinutes` | backend/db/reservations.py:96-106 | the slot is kept exactly when the exact number of minutes left is at most 15 |
| `ReservationRules.ReleasesSlotBoundaries` | backend/db/reservations.py:103-106 | exactly 15 minutes before the start, or after the start, keeps the slot; 16 minutes before releases it |
| `ReservationRules.BookErrorMessagesDistinct` | backend/db/reservations.py:12-33 | each booking error has its own message |
| `ReservationRules.SnapshotFromDefaults` | backend/db/reservations.py:36-41 | a booking inserts the default reservation (ACTIVE) with both snapshot fields filled in |
| `ReservationRules.BookOutcome` | backend/db/reservations.py:12-34 | errors in the order: malformed id, activity not found (by converted id), full, duplicate active (by id text); a refusal changes nothing; success iff every check passes |
| `ReservationRules.BookEffects` | backend/db/reservations.py:36-55 | success inserts exactly one ACTIVE reservation with the user, activity, title (or "Unknown") and start, and raises that activity's count by exactly 1; nothing else changes |
| `ReservationRules.HoldingInsert` | backend/db/reservations.py:47-53 | inserting a slot-holding reservation adds one to the holders of its activity only |
| `ReservationRules.BookKeepsCounts` | backend/db/reservations.py:36-53 | booking keeps every booked count equal to the number of reservations not CANCELLED |
| `ReservationRules.BookKeepsCapacity` | backend/db/reservations.py:23-24 | a successful booking leaves the count at most the capacity; booking keeps every activity within capacity |
| `ReservationRules.BookKeepsUniqueActive` | backend/db/reservations.py:26-33 | booking never creates a second ACTIVE reservation for a (user id text, activity id text) pair |
| `ReservationRules.CancelErrorMessagesDistinct` | backend/db/reservations.py:63-88 | each cancellation error has its own message |
| `ReservationRules.CancelOutcomeOrder` | backend/db/reservations.py:63-88 | errors in the order: malformed id, not found, not the owner, not active, activity not found; a refusal changes nothing; success iff every check passes |
| `ReservationRules.CancelEffects` | backend/db/reservations.py:90-121 | only that reservation's status changes: CANCELLED with the count lowered by exactly 1 when more than 15 minutes remain, otherwise LATE_CANCELLED with the count unchanged |
| `ReservationRules.HoldingCancel` | backend/db/reservations.py:99-119 | a releasing cancellation removes one holder of its activity; a late one removes none |
| `ReservationRules.CancelKeepsCounts` | backend/db/reservations.py:99-119 | cancelling keeps every booked count equal to the number of reservations not CANCELLED |
| `ReservationRules.CancelNeverNegative` | backend/db/reservations.py:114-119 | while counts match, a successful cancellation finds its count at least 1, so the decrement never goes below 0 |
| `ReservationRules.CancelKeepsCapacityAndUniqueness` | backend/db/reservations.py:108-119 | cancelling keeps every activity within capacity and creates no second ACTIVE reservation |
| `ReservationRules.CancelLiftsDuplicateBlock` | backend/db/reservations.py:27-33 | once a user's active reservation is cancelled, late or not, that user holds no ACTIVE reservation under that activity id text, so the duplicate check no longer refuses a rebooking; a late cancellation frees no slot, so a full activity still refuses it |
| `ReservationRules.LateCancelRebookingStillFull` | backend/db/reservations.py:23-33 | capacity 1: A books, cancels 5 minutes ahead (late, slot kept), and A's rebooking is refused as full |
| `ReservationRules.CapacityOneScenario` | backend/db/reservations.py:8-121 | capacity 1: A books, B is refused as full, A cancels 30 minutes ahead and releases the slot, then B books |
| `ReservationRules.SetAttendanceOutcome` | backend/db/reservations.py:158-172 | statuses other than ATTENDED, ABSENT and ACTIVE are refused with no change; otherwise only that reservation's status is overwritten; true iff the stored status changed |
| `ReservationRules.SetAttendanceIdempotent` | backend/db/reservations.py:168-172 | repeating an attendance write leaves the same state and returns false |
| `ReservationRules.SetAttendanceKeepsCounts` | backend/db/reservations.py:165-171 | on a reservation that was not CANCELLED, an attendance write keeps the counts matching |
| `ReservationRules.SetAttendanceKeepsUniqueActive` | backend/db/reservations.py:165-171 | an attendance write that does not set ACTIVE creates no second ACTIVE reservation |
| `ReservationRules.ReactivationBreaksCounts` | backend/db/reservations.py:165-171 | writing ACTIVE, ATTENDED or ABSENT onto a CANCELLED reservation succeeds and breaks the counter invariant |
| `ReservationRules.ActivityEditsKeepCounts` | backend/db/activities.py:35-58 | editing or deleting an activity keeps the counts matching |
| `ReservationRules.RunKeepsInvariants` | backend/db/reservations.py:8-121 | any sequence of bookings and cancellations keeps every activity within capacity, the counts matching, and at most one ACTIVE reservation per (user id text, activity id text) |
| `ReservationRules.CaseVariantDoubleBooking` | backend/db/reservations.py:13-33 | booking one activity as "aaaa…" and then as "AAAA…" succeeds twice: two ACTIVE reservations of one user for one activity, count 2, while the text-level uniqueness still holds |
| `ReservationRules.BookKeepsCanonicalNames` | backend/db/reservations.py:36-41 | a booking that names its activity in lower case keeps every reservation canonically named |
| `ReservationRules.StatusWritesKeepCanonicalNames` | backend/db/reservations.py:108-112 | cancellations and attendance writes keep every reservation canonically named |
| `ReservationRules.CanonicalNamingGivesUniquePerActivity` | backend/init_db.py:40-44 | with canonical names, one ACTIVE reservation per id text is one per user and activity |
| `ReservationRules.CanonicalRunKeepsUniquePerActivity` | backend/db/reservations.py:26-33 | when every booking names its activity in lower case, any sequence of bookings and cancellations leaves at most one ACTIVE reservation per user and activity |
| `Reservations.Hydrate` | backend/db/reservations.py:145-153 | "Unknown" as name for a malformed owner id; the stored name and email (each "Unknown" when missing) for a found owner; neither when not found |
| `Reservations.UserRowsExact` | backend/db/reservations.py:126-130 | a user's rows are exactly that user's reservations |
| `Reservations.RosterIsHolding` | backend/db/reservations.py:137-140 | with canonical names, the roster lists exactly the reservations the booked count counts |
| `Reservations.CaseVariantRosterShort` | backend/db/reservations.py:137-140 | after the two case-variant bookings the count is 2 and matches, but the roster of "aaaa…" lists one reservation |
| `Reservations.RosterRowsExact` | backend/db/reservations.py:137-155 | a roster holds exactly the activity's reservations that are not CANCELLED, each with its owner details |
| `Reservations.ReservationLedger.Book` | backend/db/reservations.py:8-58 | the new reservations and activities, and the result, are those of `ReservationRules.Book` on the old state; counts matching, capacity and uniqueness on the id text are kept |
| `Reservations.ReservationLedger.Cancel` | backend/db/reservations.py:60-121 | the new state and the result are those of `ReservationRules.Cancel` on the old state; counts matching, capacity and uniqueness on the id text are kept |
| `Reservations.ReservationLedger.SetAttendance` | backend/db/reservations.py:158-172 | the new reservations and the result are those of `ReservationRules.SetAttendance`; the activities are untouched |
| `Reservations.ReservationLedger.ListByUser` | backend/db/reservations.py:123-130 | every reservation of the user once, latest snapshotted start first |
| `Reservations.ReservationLedger.ListByActivity` | backend/db/reservations.py:132-156 | every reservation of the activity that is not CANCELLED, once, with its owner details |
| `Ordering.SortBy` | backend/db/reservations.py:126 | the result is a sorted permutation of the input |

## Left out

- Concurrency. Calls are sequential. The check-then-increment race in booking and the
  database's unique indexes are not modelled: the partial index on (user, activity) for ACTIVE
  reservations and the unique index on user email. `booked_count <= capacity` and at most one
  ACTIVE reservation per pair are therefore proved for a sequential ledger only.
- ReservationRules.SetAttendanceKeepsUniqueActive: stated only for targets other than ACTIVE. Setting
  ACTIVE while another ACTIVE reservation exists for the pair is refused by the partial index, which
  is not modelled.
- A crash between the insert and the counter increment is not modelled. The text of the
  "Reservation failed: ..." error is not modelled either. The model takes that branch only when the
  id chosen for the new reservation is already taken.
- Clocks. `datetime.utcnow()` is the parameter `now`, and the time-zone stripping of the start time
  is not modelled. Reservation and activity `created_at` stamps are not modelled. The user
  `created_at` is a parameter because the user listing is ordered by it.
- Float minutes. `total_seconds() / 60` compared with 15 is replaced by the exact integer
  comparison. Floating-point rounding is not modelled.
- ObjectId parsing is the `ValidId` predicate and the conversion is `Canon`. The byte form of an
  ObjectId is not modelled: a document is keyed by the text of its id. The ids the driver gives
  new documents are taken as given; the model does not require them to be canonical, and a
  document stored under a non-canonical id is never found by a lookup.
- bcrypt. The hasher is a function parameter, and its random salt is not modelled.
- `json_encoders` datetime formatting, pydantic's type coercion of string fields, and serialising
  `_id` as text beyond attaching the id to each row.
- Missing fields read with `doc[key]` (start time, capacity, owner, status) would make the source
  raise. The model's documents always have them.
- Ordering.SortBy: promises some sorted permutation. The database's order among equal keys, and the
  natural order of the unsorted roster query, are not modelled, so listings are specified as
  multisets.
- Sorting by a timestamp knows only "missing" and integer values, not Mongo's full cross-type order.
- `get_all_activities`: a negative `skip` makes the driver raise, so `skip` is a `nat`. A negative
  `limit` returns one batch, and the model takes that batch to be as many rows as the limit's
  magnitude.
- HTTP routes, authentication, JWT decoding and the admin-only checks on rosters and attendance
  writes; application wiring, index creation, seeding and configuration; the desktop client.
