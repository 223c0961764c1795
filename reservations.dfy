/** The reservation ledger: one sequential in-memory store holding the reservations collection,
    working on the activities collection's booked counters and reading the users collection for
    roster details. */
module Reservations {
  import opened Wrappers
  import opened ObjectIds
  import opened Ordering
  import opened ReservationModel
  import opened ActivityModel
  import opened ReservationRules
  import opened ActivityStore
  import opened UserDirectory

  /** The sort key of a user's listing: the snapshotted activity start time. */
  function SnapshotStartKey(r: ReservationInDB): Option<int> {
    r.doc.activityStart
  }

  /** The statuses listed on an activity's roster: every one but CANCELLED. */
  predicate OnRoster(s: Status) {
    s == Active || s == LateCancelled || s == Attended || s == Absent
  }

  /** A roster row with the owner's details: "Unknown" as the name when the owner id is malformed,
      the stored name and email (each "Unknown" when missing) when the owner is found by the
      ObjectId the owner id converts to, and neither when no such user exists. */
  function Hydrate(row: ReservationInDB, users: map<Id, UserDoc>): (h: ReservationAttendance)
    ensures h.row == row
    ensures !ValidId(row.doc.userId) ==> h.userName == Some("Unknown") && h.userEmail.None?
    ensures ValidId(row.doc.userId) && Canon(row.doc.userId) in users ==>
      h.userName == Some(users[Canon(row.doc.userId)].fullName.GetOr("Unknown"))
      && h.userEmail == Some(users[Canon(row.doc.userId)].email.GetOr("Unknown"))
    ensures ValidId(row.doc.userId) && Canon(row.doc.userId) !in users ==> h == Unhydrated(row)
  {
    var u := Canon(row.doc.userId);
    if !ValidId(row.doc.userId) then ReservationAttendance(row, Some("Unknown"), None)
    else if u in users then
      ReservationAttendance(row, Some(users[u].fullName.GetOr("Unknown")), Some(users[u].email.GetOr("Unknown")))
    else Unhydrated(row)
  }

  /** The rows of user `u`'s reservations, one per reservation. */
  function UserRows(res: ReservationMap, u: Id): set<ReservationInDB> {
    set id | id in res && res[id].userId == u :: ReservationInDB(id, res[id])
  }

  /** The roster rows of activity `a`, one per reservation of `a` that is not fully cancelled. */
  function RosterRows(res: ReservationMap, users: map<Id, UserDoc>, a: Id): set<ReservationAttendance> {
    set id | id in res && res[id].activityId == a && OnRoster(res[id].status) :: Hydrate(ReservationInDB(id, res[id]), users)
  }

  /** A user's listing holds exactly that user's reservations. */
  lemma UserRowsExact(res: ReservationMap, u: Id)
    ensures forall r :: r in UserRows(res, u) ==> r.id in res && r.doc == res[r.id] && r.doc.userId == u
    ensures forall id :: id in res && res[id].userId == u ==> ReservationInDB(id, res[id]) in UserRows(res, u)
  {
  }

  /** A roster holds exactly the activity's reservations that are not fully cancelled, each with the
      owner's details. */
  lemma RosterRowsExact(res: ReservationMap, users: map<Id, UserDoc>, a: Id)
    ensures forall h :: h in RosterRows(res, users, a) ==>
      h.row.id in res && h.row.doc == res[h.row.id] && h.row.doc.activityId == a && h.row.doc.status != Cancelled
      && h == Hydrate(h.row, users)
    ensures forall id :: id in res && res[id].activityId == a && res[id].status != Cancelled ==>
      Hydrate(ReservationInDB(id, res[id]), users) in RosterRows(res, users, a)
  {
  }

  /** Where every reservation names its activity canonically, the roster of an activity lists
      exactly the reservations its booked count counts. */
  lemma RosterIsHolding(res: ReservationMap, users: map<Id, UserDoc>, a: Id)
    requires CanonicallyNamed(res)
    ensures (set h | h in RosterRows(res, users, a) :: h.row.id) == Holding(res, a)
  {
    RosterRowsExact(res, users, a);
    forall id | id in Holding(res, a) ensures id in (set h | h in RosterRows(res, users, a) :: h.row.id) {
      assert Canon(res[id].activityId) == res[id].activityId;
      assert Hydrate(ReservationInDB(id, res[id]), users) in RosterRows(res, users, a);
    }
  }

  /** The roster query compares the activity id text. After one booking with the lower-case id
      and one with the upper-case spelling, the activity's booked count is 2 and matches its slot
      holders, but its roster lists one reservation. */
  lemma CaseVariantRosterShort(start: int, users: map<Id, UserDoc>)
    ensures var lower := "aaaaaaaaaaaaaaaaaaaaaaaa";
      var upper := "AAAAAAAAAAAAAAAAAAAAAAAA";
      var user := "111111111111111111111111";
      var r1 := "333333333333333333333333";
      var r2 := "444444444444444444444444";
      var l0 := Ledger(map[lower := ActivityDoc(Some("Yoga"), None, start, start + 1, 2, "Room", "Ana", Some(0))], map[]);
      var l2 := ReservationRules.Book(ReservationRules.Book(l0, user, lower, r1).after, user, upper, r2).after;
      && BookedOf(l2.acts[lower]) == 2 && CountsMatch(l2)
      && (set h | h in RosterRows(l2.res, users, lower) :: h.row.id) == {r1}
  {
    var lower := "aaaaaaaaaaaaaaaaaaaaaaaa";
    var upper := "AAAAAAAAAAAAAAAAAAAAAAAA";
    var user := "111111111111111111111111";
    var r1 := "333333333333333333333333";
    var r2 := "444444444444444444444444";
    CaseVariants();
    assert ValidId(user);
    var d := ActivityDoc(Some("Yoga"), None, start, start + 1, 2, "Room", "Ana", Some(0));
    var l0 := Ledger(map[lower := d], map[]);
    var l1 := Ledger(map[lower := d.(booked := Some(1))], map[r1 := Snapshot(user, lower, d)]);
    assert ReservationRules.Book(l0, user, lower, r1).after == l1 by {
      assert !HasActive(l0.res, user, lower);
    }
    var l2 := Ledger(map[lower := d.(booked := Some(2))],
                     map[r1 := Snapshot(user, lower, d), r2 := Snapshot(user, upper, d.(booked := Some(1)))]);
    assert ReservationRules.Book(l1, user, upper, r2).after == l2 by {
      assert !HasActive(l1.res, user, upper);
    }
    assert CountsMatch(l2) by {
      assert Holding(l2.res, lower) == {r1, r2};
    }
    RosterRowsExact(l2.res, users, lower);
    assert Hydrate(ReservationInDB(r1, l2.res[r1]), users) in RosterRows(l2.res, users, lower);
  }

  /** Adding a reservation to a collection adds its row to its owner's listing and to no other. */
  lemma UserRowsAdd(res: ReservationMap, id: Id, r: Reservation, u: Id)
    requires id !in res
    ensures UserRows(res[id := r], u) == UserRows(res, u) + (if r.userId == u then {ReservationInDB(id, r)} else {})
  {
    var extra: set<ReservationInDB> := if r.userId == u then {ReservationInDB(id, r)} else {};
    forall x | x in UserRows(res[id := r], u) ensures x in UserRows(res, u) + extra {
      var k :| k in res[id := r] && res[id := r][k].userId == u && x == ReservationInDB(k, res[id := r][k]);
      if k != id {
        assert k in res && x == ReservationInDB(k, res[k]);
      }
    }
    forall x | x in UserRows(res, u) ensures x in UserRows(res[id := r], u) {
      var k :| k in res && res[k].userId == u && x == ReservationInDB(k, res[k]);
      assert k != id && res[id := r][k] == res[k];
    }
    if r.userId == u {
      assert res[id := r][id] == r;
      assert ReservationInDB(id, r) in UserRows(res[id := r], u);
    }
  }

  /** Adding a reservation to a collection adds its roster row to its activity's roster when it is
      not fully cancelled, and to no other roster. */
  lemma RosterRowsAdd(res: ReservationMap, users: map<Id, UserDoc>, id: Id, r: Reservation, a: Id)
    requires id !in res
    ensures RosterRows(res[id := r], users, a) == RosterRows(res, users, a) +
      (if r.activityId == a && OnRoster(r.status) then {Hydrate(ReservationInDB(id, r), users)} else {})
  {
    var res' := res[id := r];
    var extra: set<ReservationAttendance> :=
      if r.activityId == a && OnRoster(r.status) then {Hydrate(ReservationInDB(id, r), users)} else {};
    forall x | x in RosterRows(res', users, a) ensures x in RosterRows(res, users, a) + extra {
      var k :| k in res' && res'[k].activityId == a && OnRoster(res'[k].status) && x == Hydrate(ReservationInDB(k, res'[k]), users);
      if k != id {
        assert k in res && x == Hydrate(ReservationInDB(k, res[k]), users);
      }
    }
    forall x | x in RosterRows(res, users, a) ensures x in RosterRows(res', users, a) {
      var k :| k in res && res[k].activityId == a && OnRoster(res[k].status) && x == Hydrate(ReservationInDB(k, res[k]), users);
      assert k != id && res'[k] == res[k];
    }
    if r.activityId == a && OnRoster(r.status) {
      assert res'[id] == r;
      assert Hydrate(ReservationInDB(id, r), users) in RosterRows(res', users, a);
    }
  }

  class ReservationLedger {
    const activities: ActivityCollection
    const users: UserCollection
    var reservations: ReservationMap

    /** The ledger over the collections as found. */
    constructor (activities: ActivityCollection, users: UserCollection, initial: ReservationMap)
      ensures this.activities == activities && this.users == users && reservations == initial
    {
      this.activities := activities;
      this.users := users;
      reservations := initial;
    }

    /** The two collections the ledger writes. */
    function State(): Ledger
      reads this, activities
    {
      Ledger(activities.docs, reservations)
    }

    /** Books activity `activityId` for `userId`. The checks come in order: both ids well formed,
        the activity exists, it is not full, the user holds no active reservation for it. Then the
        reservation is inserted under `newId`, the id the driver gives it, and only after that is the
        activity's booked count raised by one. */
    method Book(userId: Id, activityId: Id, newId: Id) returns (r: Result<Id, BookError>)
      modifies this, activities
      ensures BookStep(State(), r) == ReservationRules.Book(old(State()), userId, activityId, newId)
      ensures Invariant(old(State())) ==> Invariant(State())
    {
      ghost var before := State();
      BookKeepsCapacity(before, userId, activityId, newId);
      if CountsMatch(before) { BookKeepsCounts(before, userId, activityId, newId); }
      if UniqueActive(before.res) { BookKeepsUniqueActive(before, userId, activityId, newId); }
      if !ValidId(activityId) || !ValidId(userId) {
        return Failure(BookInvalidId);
      }
      var activityKey := Canon(activityId);
      if activityKey !in activities.docs {
        return Failure(ActivityNotFound);
      }
      var activity := activities.docs[activityKey];
      if BookedOf(activity) >= activity.capacity {
        return Failure(ActivityFull);
      }
      if HasActive(reservations, userId, activityId) {
        return Failure(AlreadyActive);
      }
      if newId in reservations {
        return Failure(InsertRefused);
      }
      reservations := reservations[newId := Snapshot(userId, activityId, activity)];
      activities.IncBooked(activityKey, 1);
      r := Success(newId);
    }

    /** Cancels reservation `reservationId` for `userId` at time `now`. The checks come in order:
        the id is well formed, the reservation exists, the caller owns it, it is active, its activity
        exists. The 15-minute rule on the live start time then decides the new status, and a
        cancellation that releases the slot lowers the activity's booked count by one. */
    method Cancel(reservationId: Id, userId: Id, now: int) returns (r: Result<CancelOutcome, CancelError>)
      modifies this, activities
      ensures CancelStep(State(), r) == ReservationRules.Cancel(old(State()), reservationId, userId, now)
      ensures Invariant(old(State())) ==> Invariant(State())
    {
      ghost var before := State();
      CancelKeepsCapacityAndUniqueness(before, reservationId, userId, now);
      if CountsMatch(before) { CancelKeepsCounts(before, reservationId, userId, now); }
      if !ValidId(reservationId) {
        return Failure(CancelInvalidId);
      }
      var key := Canon(reservationId);
      if key !in reservations {
        return Failure(ReservationNotFound);
      }
      var reservation := reservations[key];
      if reservation.userId != userId {
        return Failure(NotAuthorized);
      }
      if reservation.status != Active {
        return Failure(NotActive);
      }
      if !ValidId(reservation.activityId) || Canon(reservation.activityId) !in activities.docs {
        return Failure(CancelActivityNotFound);
      }
      var activityKey := Canon(reservation.activityId);
      var start := activities.docs[activityKey].start;
      var newStatus := Cancelled;
      var releaseSpot := true;
      var message := "Cancelled successfully";
      if !ReleasesSlot(start, now) {
        newStatus := LateCancelled;
        releaseSpot := false;
        message := "Late cancellation. Spot not released.";
      }
      reservations := reservations[key := reservation.(status := newStatus)];
      if releaseSpot {
        activities.IncBooked(activityKey, -1);
      }
      r := Success(CancelOutcome(newStatus, message));
    }

    /** Writes an attendance status onto reservation `reservationId`; true exactly when the stored
        status changed. Booked counts are not touched. */
    method SetAttendance(reservationId: Id, status: Status) returns (modified: bool)
      modifies this
      ensures AttendanceStep(reservations, modified) == ReservationRules.SetAttendance(old(reservations), reservationId, status)
    {
      if !ValidId(reservationId) {
        return false;
      }
      if !ReservationRules.AttendanceTarget(status) {
        return false;
      }
      var key := Canon(reservationId);
      if key !in reservations {
        return false;
      }
      modified := reservations[key].status != status;
      reservations := reservations[key := reservations[key].(status := status)];
    }

    /** Every reservation of `userId` once, latest snapshotted start first. */
    method ListByUser(userId: Id) returns (rows: seq<ReservationInDB>)
      ensures multiset(rows) == multiset(UserRows(reservations, userId))
      ensures SortedBy(rows, SnapshotStartKey, true)
    {
      var found: seq<ReservationInDB> := [];
      var remaining := reservations.Keys;
      while remaining != {}
        invariant remaining <= reservations.Keys
        invariant multiset(found) == multiset(UserRows(reservations - remaining, userId))
        decreases |remaining|
      {
        var id :| id in remaining;
        ghost var before := reservations - remaining;
        ghost var after := reservations - (remaining - {id});
        assert after == before[id := reservations[id]];
        UserRowsAdd(before, id, reservations[id], userId);
        if reservations[id].userId == userId {
          assert ReservationInDB(id, reservations[id]) !in UserRows(before, userId);
          MultisetOfSetAdd(UserRows(before, userId), ReservationInDB(id, reservations[id]));
          found := found + [ReservationInDB(id, reservations[id])];
        }
        remaining := remaining - {id};
      }
      assert reservations - remaining == reservations;
      rows := SortBy(found, SnapshotStartKey, true);
    }

    /** The roster of `activityId`: every one of its reservations that is not fully cancelled,
        once each, with the owner's details. */
    method ListByActivity(activityId: Id) returns (rows: seq<ReservationAttendance>)
      ensures multiset(rows) == multiset(RosterRows(reservations, users.docs, activityId))
    {
      rows := [];
      var remaining := reservations.Keys;
      while remaining != {}
        invariant remaining <= reservations.Keys
        invariant multiset(rows) == multiset(RosterRows(reservations - remaining, users.docs, activityId))
        decreases |remaining|
      {
        var id :| id in remaining;
        ghost var before := reservations - remaining;
        ghost var after := reservations - (remaining - {id});
        assert after == before[id := reservations[id]];
        var doc := reservations[id];
        RosterRowsAdd(before, users.docs, id, doc, activityId);
        if doc.activityId == activityId && OnRoster(doc.status) {
          var row := Hydrate(ReservationInDB(id, doc), users.docs);
          assert row !in RosterRows(before, users.docs, activityId);
          MultisetOfSetAdd(RosterRows(before, users.docs, activityId), row);
          rows := rows + [row];
        }
        remaining := remaining - {id};
      }
      assert reservations - remaining == reservations;
    }
  }
}
