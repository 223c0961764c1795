/** The rules of the reservation ledger as functions of the two collections it works on: the
    15-minute cancellation rule, what booking, cancelling and an attendance write do, and the
    invariants they keep. */
module ReservationRules {
  import opened Wrappers
  import opened ObjectIds
  import opened ReservationModel
  import opened ActivityModel

  // ---------------------------------------------------------------------------------------------
  // The cancellation rule. Times are integer microseconds on one clock.

  const MicrosPerMinute: int := 60 * 1000000
  const CutoffMinutes: int := 15

  /** Whether a cancellation at `now` for an activity starting at `start` gives the slot back:
      only when more than 15 minutes remain before the start. */
  function ReleasesSlot(start: int, now: int): bool {
    start - now > CutoffMinutes * MicrosPerMinute
  }

  /** The rule agrees with comparing the exact number of minutes left against 15: a cancellation
      is late exactly when at most 15 minutes remain. */
  lemma ReleasesSlotByMinutes(start: int, now: int)
    ensures !ReleasesSlot(start, now) <==> (start - now) as real / MicrosPerMinute as real <= CutoffMinutes as real
  {
    var d := (start - now) as real;
    var m := MicrosPerMinute as real;
    assert d / m * m == d;
  }

  /** The cutoff is inclusive: with exactly 15 minutes left, or after the start, the slot is kept;
      with 16 minutes left it is released. */
  lemma ReleasesSlotBoundaries(start: int)
    ensures !ReleasesSlot(start, start - 15 * MicrosPerMinute)
    ensures ReleasesSlot(start, start - 16 * MicrosPerMinute)
    ensures ReleasesSlot(start, start - 15 * MicrosPerMinute - 1)
    ensures forall now :: now >= start ==> !ReleasesSlot(start, now)
  {
  }

  // ---------------------------------------------------------------------------------------------
  // The two collections and the invariants over them.

  type Activities = map<Id, ActivityDoc>
  type ReservationMap = map<Id, Reservation>

  /** The ledger's view of the database: the activities and the reservations collections. */
  datatype Ledger = Ledger(acts: Activities, res: ReservationMap)

  /** The reservations that hold a slot of the activity stored under `a`: every one whose activity
      id converts to `a` and that is not fully cancelled. A late cancellation keeps its slot, and so
      do attended and absent reservations. */
  function Holding(res: ReservationMap, a: Id): set<Id> {
    set id | id in res && Canon(res[id].activityId) == a && res[id].status != Cancelled
  }

  /** Every activity's booked count equals the number of its reservations holding a slot. */
  predicate CountsMatch(l: Ledger) {
    forall a :: a in l.acts ==> BookedOf(l.acts[a]) == |Holding(l.res, a)|
  }

  /** No activity is booked beyond its capacity. */
  predicate WithinCapacity(acts: Activities) {
    forall a :: a in acts ==> BookedOf(acts[a]) <= acts[a].capacity
  }

  /** Whether `u` holds an active reservation whose activity id is the text `a`. */
  predicate HasActive(res: ReservationMap, u: Id, a: Id) {
    exists id :: id in res && res[id].userId == u && res[id].activityId == a && res[id].status == Active
  }

  /** At most one active reservation per (user id text, activity id text) pair: what the duplicate
      check and the partial unique index compare. */
  predicate UniqueActive(res: ReservationMap) {
    forall i, j ::
      (i in res && j in res && res[i].status == Active && res[j].status == Active
       && res[i].userId == res[j].userId && res[i].activityId == res[j].activityId) ==> i == j
  }

  /** At most one active reservation per user and activity, however the activity id was spelled:
      what the duplicate check is meant to guarantee. */
  predicate UniqueActivePerActivity(res: ReservationMap) {
    forall i, j ::
      (i in res && j in res && res[i].status == Active && res[j].status == Active
       && res[i].userId == res[j].userId && Canon(res[i].activityId) == Canon(res[j].activityId)) ==> i == j
  }

  /** Every reservation names its activity in the canonical text form, as the listings print it. */
  predicate CanonicallyNamed(res: ReservationMap) {
    forall id :: id in res ==> Canon(res[id].activityId) == res[id].activityId
  }

  predicate Invariant(l: Ledger) {
    CountsMatch(l) && WithinCapacity(l.acts) && UniqueActive(l.res)
  }

  // ---------------------------------------------------------------------------------------------
  // Booking.

  datatype BookError = BookInvalidId | ActivityNotFound | ActivityFull | AlreadyActive | InsertRefused

  /** The message each booking error is reported with. */
  function BookErrorMessage(e: BookError): string {
    match e
    case BookInvalidId => "Invalid ID format"
    case ActivityNotFound => "Activity not found"
    case ActivityFull => "Activity is full"
    case AlreadyActive => "You already have an active reservation"
    case InsertRefused => "Reservation failed"
  }

  /** Each booking error has its own message. */
  lemma BookErrorMessagesDistinct(e: BookError, f: BookError)
    ensures BookErrorMessage(e) == BookErrorMessage(f) ==> e == f
  {
  }

  /** The reservation a booking inserts: active, with the activity's title (or "Unknown") and start time. */
  function Snapshot(u: Id, a: Id, d: ActivityDoc): Reservation {
    Reservation(u, a, Some(d.title.GetOr("Unknown")), Some(d.start), Active)
  }

  /** The document a booking inserts is a reservation with the model's defaults (status ACTIVE)
      with both snapshot fields filled in from the activity. */
  lemma SnapshotFromDefaults(u: Id, a: Id, d: ActivityDoc)
    ensures Snapshot(u, a, d) ==
      WithDefaults(u, a).(activityTitle := Some(d.title.GetOr("Unknown")), activityStart := Some(d.start))
    ensures Snapshot(u, a, d).activityTitle.Some? && Snapshot(u, a, d).activityStart.Some?
  {
  }

  datatype BookStep = BookStep(after: Ledger, result: Result<Id, BookError>)

  /** Booking activity `a` for user `u`; `newId` is the id the driver gives the new document,
      and the insert is refused when it is already taken. */
  function Book(l: Ledger, u: Id, a: Id, newId: Id): BookStep {
    if !ValidId(a) || !ValidId(u) then BookStep(l, Failure(BookInvalidId))
    else if Canon(a) !in l.acts then BookStep(l, Failure(ActivityNotFound))
    else
      var d := l.acts[Canon(a)];
      if BookedOf(d) >= d.capacity then BookStep(l, Failure(ActivityFull))
      else if HasActive(l.res, u, a) then BookStep(l, Failure(AlreadyActive))
      else if newId in l.res then BookStep(l, Failure(InsertRefused))
      else
        BookStep(
          Ledger(l.acts[Canon(a) := d.(booked := Some(BookedOf(d) + 1))], l.res[newId := Snapshot(u, a, d)]),
          Success(newId))
  }

  /** Which error a booking reports, in the order the checks are made; every refusal leaves both
      collections as they were, and a booking succeeds exactly when all checks pass. The activity
      is looked up by the ObjectId `a` converts to, the duplicate check by the text `a`. */
  lemma BookOutcome(l: Ledger, u: Id, a: Id, newId: Id)
    ensures var s := Book(l, u, a, newId);
      var k := Canon(a);
      && (s.result.Failure? ==> s.after == l)
      && (s.result == Failure(BookInvalidId) <==> !ValidId(a) || !ValidId(u))
      && (s.result == Failure(ActivityNotFound) <==> ValidId(a) && ValidId(u) && k !in l.acts)
      && (s.result == Failure(ActivityFull) <==>
            ValidId(a) && ValidId(u) && k in l.acts && BookedOf(l.acts[k]) >= l.acts[k].capacity)
      && (s.result == Failure(AlreadyActive) <==>
            ValidId(a) && ValidId(u) && k in l.acts && BookedOf(l.acts[k]) < l.acts[k].capacity && HasActive(l.res, u, a))
      && (s.result.Success? <==>
            ValidId(a) && ValidId(u) && k in l.acts && BookedOf(l.acts[k]) < l.acts[k].capacity
            && !HasActive(l.res, u, a) && newId !in l.res)
  {
  }

  /** A successful booking inserts exactly one active reservation of `u` for `a` carrying the
      activity's title and start, raises that activity's booked count by exactly one, and changes
      nothing else. The reservation records the activity id as the caller spelled it. */
  lemma BookEffects(l: Ledger, u: Id, a: Id, newId: Id)
    requires Book(l, u, a, newId).result.Success?
    ensures var s := Book(l, u, a, newId);
      var k := Canon(a);
      && s.result.value == newId
      && newId !in l.res && s.after.res.Keys == l.res.Keys + {newId}
      && (forall id :: id in l.res ==> s.after.res[id] == l.res[id])
      && s.after.res[newId].status == Active
      && s.after.res[newId].userId == u && s.after.res[newId].activityId == a
      && s.after.res[newId].activityTitle == Some(l.acts[k].title.GetOr("Unknown"))
      && s.after.res[newId].activityStart == Some(l.acts[k].start)
      && s.after.acts.Keys == l.acts.Keys
      && BookedOf(s.after.acts[k]) == BookedOf(l.acts[k]) + 1
      && s.after.acts[k] == l.acts[k].(booked := s.after.acts[k].booked)
      && (forall b :: b in l.acts && b != k ==> s.after.acts[b] == l.acts[b])
  {
  }

  /** Inserting a slot-holding reservation adds exactly its id to the holders of the activity its
      activity id converts to, and leaves the holders of every other activity alone. */
  lemma HoldingInsert(res: ReservationMap, newId: Id, r: Reservation, b: Id)
    requires newId !in res
    requires r.status != Cancelled
    ensures |Holding(res[newId := r], b)| == |Holding(res, b)| + (if Canon(r.activityId) == b then 1 else 0)
  {
    if Canon(r.activityId) == b {
      assert Holding(res[newId := r], b) == Holding(res, b) + {newId};
    } else {
      assert Holding(res[newId := r], b) == Holding(res, b);
    }
  }

  /** Booking keeps every booked count equal to the number of reservations holding a slot. */
  lemma BookKeepsCounts(l: Ledger, u: Id, a: Id, newId: Id)
    requires CountsMatch(l)
    ensures CountsMatch(Book(l, u, a, newId).after)
  {
    var s := Book(l, u, a, newId);
    if s.result.Success? {
      var r := Snapshot(u, a, l.acts[Canon(a)]);
      forall b | b in s.after.acts ensures BookedOf(s.after.acts[b]) == |Holding(s.after.res, b)| {
        HoldingInsert(l.res, newId, r, b);
      }
    }
  }

  /** A successful booking never takes an activity beyond its capacity, so booking keeps every
      activity within capacity. */
  lemma BookKeepsCapacity(l: Ledger, u: Id, a: Id, newId: Id)
    ensures var s := Book(l, u, a, newId);
      s.result.Success? ==> BookedOf(s.after.acts[Canon(a)]) <= s.after.acts[Canon(a)].capacity
    ensures WithinCapacity(l.acts) ==> WithinCapacity(Book(l, u, a, newId).after.acts)
  {
  }

  /** Booking never creates a second active reservation for a (user id text, activity id text) pair. */
  lemma BookKeepsUniqueActive(l: Ledger, u: Id, a: Id, newId: Id)
    requires UniqueActive(l.res)
    ensures UniqueActive(Book(l, u, a, newId).after.res)
  {
    var s := Book(l, u, a, newId);
    if s.result.Success? {
      assert forall k :: k in l.res && l.res[k].userId == u && l.res[k].activityId == a ==> l.res[k].status != Active;
    }
  }

  // ---------------------------------------------------------------------------------------------
  // Cancellation.

  datatype CancelError = CancelInvalidId | ReservationNotFound | NotAuthorized | NotActive | CancelActivityNotFound

  /** The message each cancellation error is reported with. */
  function CancelErrorMessage(e: CancelError): string {
    match e
    case CancelInvalidId => "Invalid ID"
    case ReservationNotFound => "Reservation not found"
    case NotAuthorized => "Not authorized"
    case NotActive => "Reservation is not active"
    case CancelActivityNotFound => "Activity not found"
  }

  /** Each cancellation error has its own message. */
  lemma CancelErrorMessagesDistinct(e: CancelError, f: CancelError)
    ensures CancelErrorMessage(e) == CancelErrorMessage(f) ==> e == f
  {
  }

  /** What a successful cancellation reports: the new status and a message. */
  datatype CancelOutcome = CancelOutcome(status: Status, message: string)

  function CancelMessage(released: bool): string {
    if released then "Cancelled successfully" else "Late cancellation. Spot not released."
  }

  datatype CancelStep = CancelStep(after: Ledger, result: Result<CancelOutcome, CancelError>)

  /** Cancelling reservation `id` on behalf of user `u` at time `now`. The live activity's start
      time decides, by the 15-minute rule, between a cancellation that gives the slot back and a
      late one that keeps it. */
  function Cancel(l: Ledger, id: Id, u: Id, now: int): CancelStep {
    if !ValidId(id) then CancelStep(l, Failure(CancelInvalidId))
    else if Canon(id) !in l.res then CancelStep(l, Failure(ReservationNotFound))
    else
      var r := l.res[Canon(id)];
      if r.userId != u then CancelStep(l, Failure(NotAuthorized))
      else if r.status != Active then CancelStep(l, Failure(NotActive))
      else if !ValidId(r.activityId) || Canon(r.activityId) !in l.acts then CancelStep(l, Failure(CancelActivityNotFound))
      else
        var a := Canon(r.activityId);
        var d := l.acts[a];
        var release := ReleasesSlot(d.start, now);
        var status := if release then Cancelled else LateCancelled;
        var acts := if release then l.acts[a := d.(booked := Some(BookedOf(d) - 1))] else l.acts;
        CancelStep(Ledger(acts, l.res[Canon(id) := r.(status := status)]), Success(CancelOutcome(status, CancelMessage(release))))
  }

  /** Which error a cancellation reports, in the order the checks are made; every refusal leaves
      both collections as they were. The reservation and its activity are looked up by the ObjectIds
      their ids convert to; the owner check compares the user id text. */
  lemma CancelOutcomeOrder(l: Ledger, id: Id, u: Id, now: int)
    ensures var s := Cancel(l, id, u, now);
      var k := Canon(id);
      && (s.result.Failure? ==> s.after == l)
      && (s.result == Failure(CancelInvalidId) <==> !ValidId(id))
      && (s.result == Failure(ReservationNotFound) <==> ValidId(id) && k !in l.res)
      && (s.result == Failure(NotAuthorized) <==> ValidId(id) && k in l.res && l.res[k].userId != u)
      && (s.result == Failure(NotActive) <==>
            ValidId(id) && k in l.res && l.res[k].userId == u && l.res[k].status != Active)
      && (s.result == Failure(CancelActivityNotFound) <==>
            ValidId(id) && k in l.res && l.res[k].userId == u && l.res[k].status == Active
            && (!ValidId(l.res[k].activityId) || Canon(l.res[k].activityId) !in l.acts))
      && (s.result.Success? <==>
            ValidId(id) && k in l.res && l.res[k].userId == u && l.res[k].status == Active
            && ValidId(l.res[k].activityId) && Canon(l.res[k].activityId) in l.acts)
  {
  }

  /** A successful cancellation changes only the status of that one reservation: to CANCELLED
      when more than 15 minutes remain before the activity starts, with that activity's booked
      count lowered by exactly one; to LATE_CANCELLED otherwise, with every count unchanged. */
  lemma CancelEffects(l: Ledger, id: Id, u: Id, now: int)
    requires Cancel(l, id, u, now).result.Success?
    ensures var s := Cancel(l, id, u, now);
      var k := Canon(id);
      var a := Canon(l.res[k].activityId);
      var release := ReleasesSlot(l.acts[a].start, now);
      && s.result.value.status == s.after.res[k].status
      && s.after.res == l.res[k := l.res[k].(status := s.after.res[k].status)]
      && (release ==> s.after.res[k].status == Cancelled && s.result.value.message == "Cancelled successfully")
      && (!release ==> (s.after.res[k].status == LateCancelled
                        && s.result.value.message == "Late cancellation. Spot not released."))
      && s.after.acts.Keys == l.acts.Keys
      && BookedOf(s.after.acts[a]) == BookedOf(l.acts[a]) - (if release then 1 else 0)
      && s.after.acts[a] == l.acts[a].(booked := s.after.acts[a].booked)
      && (forall b :: b in l.acts && b != a ==> s.after.acts[b] == l.acts[b])
  {
  }

  /** Giving up the slot of a slot-holding reservation removes exactly its id from the holders of
      its activity; a late cancellation leaves every holder set alone. */
  lemma HoldingCancel(res: ReservationMap, id: Id, s: Status, b: Id)
    requires id in res && res[id].status == Active
    requires s == Cancelled || s == LateCancelled
    ensures |Holding(res[id := res[id].(status := s)], b)| ==
      |Holding(res, b)| - (if s == Cancelled && Canon(res[id].activityId) == b then 1 else 0)
  {
    var res' := res[id := res[id].(status := s)];
    if s == Cancelled && Canon(res[id].activityId) == b {
      assert id in Holding(res, b);
      assert Holding(res', b) == Holding(res, b) - {id};
    } else {
      assert Holding(res', b) == Holding(res, b);
    }
  }

  /** Cancelling keeps every booked count equal to the number of reservations holding a slot. */
  lemma CancelKeepsCounts(l: Ledger, id: Id, u: Id, now: int)
    requires CountsMatch(l)
    ensures CountsMatch(Cancel(l, id, u, now).after)
  {
    var s := Cancel(l, id, u, now);
    if s.result.Success? {
      forall b | b in s.after.acts ensures BookedOf(s.after.acts[b]) == |Holding(s.after.res, b)| {
        HoldingCancel(l.res, Canon(id), s.after.res[Canon(id)].status, b);
      }
    }
  }

  /** While the counts match, the decrement of a releasing cancellation never takes a booked
      count below zero: the cancelled reservation itself was counted. */
  lemma CancelNeverNegative(l: Ledger, id: Id, u: Id, now: int)
    requires CountsMatch(l)
    requires Cancel(l, id, u, now).result.Success?
    ensures var a := Canon(l.res[Canon(id)].activityId);
      BookedOf(l.acts[a]) >= 1 && BookedOf(Cancel(l, id, u, now).after.acts[a]) >= 0
  {
    var a := Canon(l.res[Canon(id)].activityId);
    assert Canon(id) in Holding(l.res, a);
  }

  /** Cancelling keeps every activity within capacity and never creates a second active reservation. */
  lemma CancelKeepsCapacityAndUniqueness(l: Ledger, id: Id, u: Id, now: int)
    ensures WithinCapacity(l.acts) ==> WithinCapacity(Cancel(l, id, u, now).after.acts)
    ensures UniqueActive(l.res) ==> UniqueActive(Cancel(l, id, u, now).after.res)
  {
  }

  /** Once a user's only active reservation for an activity is cancelled, late or not, the user
      holds no active reservation under that activity id text, so the duplicate check no longer
      refuses them. A late cancellation frees no slot, so a full activity still refuses the
      rebooking (see LateCancelRebookingStillFull). */
  lemma CancelLiftsDuplicateBlock(l: Ledger, id: Id, u: Id, now: int)
    requires UniqueActive(l.res)
    requires Cancel(l, id, u, now).result.Success?
    ensures !HasActive(Cancel(l, id, u, now).after.res, u, l.res[Canon(id)].activityId)
  {
    var a := l.res[Canon(id)].activityId;
    var res' := Cancel(l, id, u, now).after.res;
    forall k | k in res' && res'[k].userId == u && res'[k].activityId == a ensures res'[k].status != Active {
      if k != Canon(id) {
        assert res'[k] == l.res[k];
      }
    }
  }

  /** With capacity 1: A books, then cancels 5 minutes before the start. The cancellation is late
      and keeps the slot, so A's booking again is refused because the activity is full. */
  lemma LateCancelRebookingStillFull(start: int)
    ensures var a := "aaaaaaaaaaaaaaaaaaaaaaaa";
      var userA := "111111111111111111111111";
      var r1 := "333333333333333333333333";
      var r2 := "444444444444444444444444";
      var l0 := Ledger(map[a := ActivityDoc(Some("Yoga"), None, start, start + 1, 1, "Room", "Ana", Some(0))], map[]);
      var s1 := Book(l0, userA, a, r1);
      var s2 := Cancel(s1.after, r1, userA, start - 5 * MicrosPerMinute);
      var s3 := Book(s2.after, userA, a, r2);
      && s1.result == Success(r1)
      && s2.result.Success? && s2.result.value.status == LateCancelled && BookedOf(s2.after.acts[a]) == 1
      && !HasActive(s2.after.res, userA, a)
      && s3.result == Failure(ActivityFull)
  {
    var a := "aaaaaaaaaaaaaaaaaaaaaaaa";
    var userA := "111111111111111111111111";
    var r1 := "333333333333333333333333";
    var r2 := "444444444444444444444444";
    assert ValidId(a) && ValidId(userA) && ValidId(r1);
    assert Canon(a) == a && Canon(r1) == r1 by {
      assert LowerCase(a) && LowerCase(r1);
      CanonProperties(a);
      CanonProperties(r1);
    }
    var d := ActivityDoc(Some("Yoga"), None, start, start + 1, 1, "Room", "Ana", Some(0));
    var l0 := Ledger(map[a := d], map[]);
    var l1 := Ledger(map[a := d.(booked := Some(1))], map[r1 := Snapshot(userA, a, d)]);
    assert Book(l0, userA, a, r1) == BookStep(l1, Success(r1)) by {
      assert !HasActive(l0.res, userA, a);
    }
    var l2 := Ledger(l1.acts, map[r1 := Snapshot(userA, a, d).(status := LateCancelled)]);
    assert Cancel(l1, r1, userA, start - 5 * MicrosPerMinute)
      == CancelStep(l2, Success(CancelOutcome(LateCancelled, CancelMessage(false)))) by {
      assert !ReleasesSlot(start, start - 5 * MicrosPerMinute);
    }
    assert !HasActive(l2.res, userA, a);
    assert Book(l2, userA, a, r2).result == Failure(ActivityFull);
  }

  /** With capacity 1: A books; B is refused because the activity is full; A cancels 30 minutes
      before the start, which releases the slot; now B's booking succeeds. */
  lemma CapacityOneScenario(start: int)
    ensures var a := "aaaaaaaaaaaaaaaaaaaaaaaa";
      var userA := "111111111111111111111111";
      var userB := "222222222222222222222222";
      var r1 := "333333333333333333333333";
      var r2 := "444444444444444444444444";
      var l0 := Ledger(map[a := ActivityDoc(Some("Yoga"), None, start, start + 1, 1, "Room", "Ana", Some(0))], map[]);
      var s1 := Book(l0, userA, a, r1);
      var s2 := Book(s1.after, userB, a, r2);
      var s3 := Cancel(s1.after, r1, userA, start - 30 * MicrosPerMinute);
      var s4 := Book(s3.after, userB, a, r2);
      && s1.result == Success(r1) && BookedOf(s1.after.acts[a]) == 1
      && s2.result == Failure(ActivityFull)
      && s3.result.Success? && s3.result.value.status == Cancelled && BookedOf(s3.after.acts[a]) == 0
      && s4.result == Success(r2) && BookedOf(s4.after.acts[a]) == 1
  {
    var a := "aaaaaaaaaaaaaaaaaaaaaaaa";
    var userA := "111111111111111111111111";
    var userB := "222222222222222222222222";
    var r1 := "333333333333333333333333";
    var r2 := "444444444444444444444444";
    assert ValidId(a) && ValidId(userA) && ValidId(userB) && ValidId(r1);
    assert Canon(a) == a && Canon(r1) == r1 by {
      assert LowerCase(a) && LowerCase(r1);
      CanonProperties(a);
      CanonProperties(r1);
    }
    var d := ActivityDoc(Some("Yoga"), None, start, start + 1, 1, "Room", "Ana", Some(0));
    var l0 := Ledger(map[a := d], map[]);
    var l1 := Ledger(map[a := d.(booked := Some(1))], map[r1 := Snapshot(userA, a, d)]);
    assert Book(l0, userA, a, r1) == BookStep(l1, Success(r1)) by {
      assert !HasActive(l0.res, userA, a);
    }
    assert Book(l1, userB, a, r2).result == Failure(ActivityFull);
    var l3 := Ledger(map[a := d.(booked := Some(0))], map[r1 := Snapshot(userA, a, d).(status := Cancelled)]);
    assert Cancel(l1, r1, userA, start - 30 * MicrosPerMinute)
      == CancelStep(l3, Success(CancelOutcome(Cancelled, CancelMessage(true)))) by {
      assert ReleasesSlot(start, start - 30 * MicrosPerMinute);
    }
    assert Book(l3, userB, a, r2).result == Success(r2) && BookedOf(Book(l3, userB, a, r2).after.acts[a]) == 1 by {
      assert !HasActive(l3.res, userB, a);
    }
  }


  // ---------------------------------------------------------------------------------------------
  // Attendance writes.

  /** The statuses an attendance write may set. */
  predicate AttendanceTarget(s: Status) {
    s == Attended || s == Absent || s == Active
  }

  datatype AttendanceStep = AttendanceStep(after: ReservationMap, modified: bool)

  /** Overwriting the status of reservation `id` with `s`; reports whether the stored status changed. */
  function SetAttendance(res: ReservationMap, id: Id, s: Status): AttendanceStep {
    if !ValidId(id) then AttendanceStep(res, false)
    else if !AttendanceTarget(s) then AttendanceStep(res, false)
    else if Canon(id) !in res then AttendanceStep(res, false)
    else AttendanceStep(res[Canon(id) := res[Canon(id)].(status := s)], res[Canon(id)].status != s)
  }

  /** An attendance write refuses every status but ATTENDED, ABSENT and ACTIVE; otherwise it
      overwrites the status of that one reservation and nothing else, and reports true exactly when
      the stored status changed. */
  lemma SetAttendanceOutcome(res: ReservationMap, id: Id, s: Status)
    ensures var t := SetAttendance(res, id, s);
      var c := Canon(id);
      && (!AttendanceTarget(s) ==> !t.modified && t.after == res)
      && (t.modified <==> ValidId(id) && AttendanceTarget(s) && c in res && res[c].status != s)
      && (ValidId(id) && AttendanceTarget(s) && c in res ==>
            t.after.Keys == res.Keys && t.after[c].status == s
            && t.after[c] == res[c].(status := s)
            && (forall k :: k in res && k != c ==> t.after[k] == res[k]))
      && (!(ValidId(id) && AttendanceTarget(s) && c in res) ==> t.after == res)
  {
  }

  /** Repeating an attendance write leaves the same state and reports no change. */
  lemma SetAttendanceIdempotent(res: ReservationMap, id: Id, s: Status)
    ensures var t := SetAttendance(res, id, s);
      SetAttendance(t.after, id, s) == AttendanceStep(t.after, false)
  {
  }

  /** An attendance write on a reservation that was not fully cancelled keeps the counts matching;
      the booked counts themselves are never touched. */
  lemma SetAttendanceKeepsCounts(l: Ledger, id: Id, s: Status)
    requires CountsMatch(l)
    requires Canon(id) in l.res ==> l.res[Canon(id)].status != Cancelled
    ensures CountsMatch(Ledger(l.acts, SetAttendance(l.res, id, s).after))
  {
    var t := SetAttendance(l.res, id, s);
    if t.after != l.res {
      forall b | b in l.acts ensures Holding(t.after, b) == Holding(l.res, b) {
      }
    }
  }

  /** An attendance write that does not set ACTIVE never creates a second active reservation. */
  lemma SetAttendanceKeepsUniqueActive(res: ReservationMap, id: Id, s: Status)
    requires UniqueActive(res)
    requires s != Active
    ensures UniqueActive(SetAttendance(res, id, s).after)
  {
  }

  /** Writing ACTIVE, ATTENDED or ABSENT onto a fully cancelled reservation puts it back among the
      slot holders while the booked count stays as it was: the counts no longer match. */
  lemma ReactivationBreaksCounts(s: Status)
    requires AttendanceTarget(s)
    ensures var a := "aaaaaaaaaaaaaaaaaaaaaaaa";
      var id := "bbbbbbbbbbbbbbbbbbbbbbbb";
      var l := Ledger(map[a := ActivityDoc(Some("Yoga"), None, 0, 1, 1, "Room", "Ana", Some(0))],
                      map[id := Reservation("cccccccccccccccccccccccc", a, Some("Yoga"), Some(0), Cancelled)]);
      var t := SetAttendance(l.res, id, s);
      CountsMatch(l) && t.modified && !CountsMatch(Ledger(l.acts, t.after))
  {
    var a := "aaaaaaaaaaaaaaaaaaaaaaaa";
    var id := "bbbbbbbbbbbbbbbbbbbbbbbb";
    var r := Reservation("cccccccccccccccccccccccc", a, Some("Yoga"), Some(0), Cancelled);
    var res := map[id := r];
    assert Holding(res, a) == {};
    assert ValidId(id) && LowerCase(id) && LowerCase(a);
    CanonProperties(id);
    CanonProperties(a);
    assert Holding(res[id := r.(status := s)], a) == {id};
  }

  // ---------------------------------------------------------------------------------------------
  // Activity edits seen from the ledger.

  /** Editing or deleting an activity never touches booked counts or reservations, so the counts
      keep matching; capacity is another matter (see ActivityModel.UpdateCanUnderCutBooked). */
  lemma ActivityEditsKeepCounts(l: Ledger, id: Id, u: ActivityUpdate)
    requires CountsMatch(l)
    ensures id in l.acts ==> CountsMatch(Ledger(l.acts[id := ApplyUpdate(l.acts[id], u)], l.res))
    ensures CountsMatch(Ledger(l.acts - {id}, l.res))
  {
    if id in l.acts {
      ApplyUpdateFields(l.acts[id], u);
    }
  }

  // ---------------------------------------------------------------------------------------------
  // Sequences of bookings and cancellations.

  datatype Request =
    | BookRequest(user: Id, activity: Id, newId: Id)
    | CancelRequest(reservation: Id, caller: Id, now: int)

  /** The ledger after serving `reqs` one after the other. */
  function Run(l: Ledger, reqs: seq<Request>): Ledger
    decreases |reqs|
  {
    if reqs == [] then l
    else
      var next := match reqs[0]
        case BookRequest(u, a, n) => Book(l, u, a, n).after
        case CancelRequest(id, u, now) => Cancel(l, id, u, now).after;
      Run(next, reqs[1..])
  }

  /** Served one after the other, bookings and cancellations never take an activity beyond its
      capacity, keep every booked count equal to the number of reservations holding a slot, and
      never let a user hold two active reservations for one activity. */
  lemma {:induction false} RunKeepsInvariants(l: Ledger, reqs: seq<Request>)
    ensures WithinCapacity(l.acts) ==> WithinCapacity(Run(l, reqs).acts)
    ensures CountsMatch(l) ==> CountsMatch(Run(l, reqs))
    ensures UniqueActive(l.res) ==> UniqueActive(Run(l, reqs).res)
    decreases |reqs|
  {
    if reqs != [] {
      var next := match reqs[0]
        case BookRequest(u, a, n) => Book(l, u, a, n).after
        case CancelRequest(id, u, now) => Cancel(l, id, u, now).after;
      match reqs[0] {
        case BookRequest(u, a, n) =>
          BookKeepsCapacity(l, u, a, n);
          if CountsMatch(l) { BookKeepsCounts(l, u, a, n); }
          if UniqueActive(l.res) { BookKeepsUniqueActive(l, u, a, n); }
        case CancelRequest(id, u, now) =>
          CancelKeepsCapacityAndUniqueness(l, id, u, now);
          if CountsMatch(l) { CancelKeepsCounts(l, id, u, now); }
      }
      RunKeepsInvariants(next, reqs[1..]);
    }
  }

  // ---------------------------------------------------------------------------------------------
  // Spellings of an activity id.

  /** The duplicate check compares the activity id text, while the activity is found by the ObjectId
      the text converts to. A user who books once with a lower-case id and once with the upper-case
      spelling of the same id gets two active reservations for one activity, and the activity's
      booked count is raised twice; every invariant on the text is kept. */
  lemma CaseVariantDoubleBooking(start: int)
    ensures var lower := "aaaaaaaaaaaaaaaaaaaaaaaa";
      var upper := "AAAAAAAAAAAAAAAAAAAAAAAA";
      var user := "111111111111111111111111";
      var r1 := "333333333333333333333333";
      var r2 := "444444444444444444444444";
      var l0 := Ledger(map[lower := ActivityDoc(Some("Yoga"), None, start, start + 1, 2, "Room", "Ana", Some(0))], map[]);
      var s1 := Book(l0, user, lower, r1);
      var s2 := Book(s1.after, user, upper, r2);
      && s1.result == Success(r1) && s2.result == Success(r2)
      && s2.after.res[r1].status == Active && s2.after.res[r2].status == Active
      && s2.after.res[r1].userId == s2.after.res[r2].userId
      && Canon(s2.after.res[r1].activityId) == Canon(s2.after.res[r2].activityId)
      && BookedOf(s2.after.acts[lower]) == 2
      && UniqueActive(s2.after.res) && !UniqueActivePerActivity(s2.after.res)
  {
    var lower := "aaaaaaaaaaaaaaaaaaaaaaaa";
    var upper := "AAAAAAAAAAAAAAAAAAAAAAAA";
    var user := "111111111111111111111111";
    var r1 := "333333333333333333333333";
    var r2 := "444444444444444444444444";
    CaseVariants();
    assert ValidId(user);
    var d := ActivityDoc(Some("Yoga"), None, start, start + 1, 2, "Room", "Ana", Some(0));
    var l0 := Ledger(map[lower := d], map[]);
    var l1 := Ledger(map[lower := d.(booked := Some(1))], map[r1 := Snapshot(user, lower, d)]);
    assert Book(l0, user, lower, r1) == BookStep(l1, Success(r1)) by {
      assert !HasActive(l0.res, user, lower);
    }
    var l2 := Ledger(map[lower := d.(booked := Some(2))],
                     map[r1 := Snapshot(user, lower, d), r2 := Snapshot(user, upper, d.(booked := Some(1)))]);
    assert Book(l1, user, upper, r2) == BookStep(l2, Success(r2)) by {
      assert !HasActive(l1.res, user, upper);
    }
    assert UniqueActive(l2.res) by {
      assert lower != upper;
    }
  }

  /** Booking an activity by its canonical id keeps every reservation canonically named. */
  lemma BookKeepsCanonicalNames(l: Ledger, u: Id, a: Id, newId: Id)
    requires CanonicallyNamed(l.res)
    requires LowerCase(a)
    ensures CanonicallyNamed(Book(l, u, a, newId).after.res)
  {
    CanonProperties(a);
  }

  /** Cancelling and attendance writes never change an activity id. */
  lemma StatusWritesKeepCanonicalNames(l: Ledger, id: Id, u: Id, now: int, s: Status)
    requires CanonicallyNamed(l.res)
    ensures CanonicallyNamed(Cancel(l, id, u, now).after.res)
    ensures CanonicallyNamed(SetAttendance(l.res, id, s).after)
  {
  }

  /** Where every reservation is canonically named, one active reservation per id text is one per
      activity. */
  lemma CanonicalNamingGivesUniquePerActivity(res: ReservationMap)
    requires CanonicallyNamed(res)
    requires UniqueActive(res)
    ensures UniqueActivePerActivity(res)
  {
  }

  /** Whether every booking in `reqs` names its activity in canonical form. */
  predicate CanonicalRequests(reqs: seq<Request>) {
    forall i :: 0 <= i < |reqs| && reqs[i].BookRequest? ==> LowerCase(reqs[i].activity)
  }

  /** When every booking names its activity in canonical form, bookings and cancellations served
      one after the other never let a user hold two active reservations for one activity. */
  lemma {:induction false} CanonicalRunKeepsUniquePerActivity(l: Ledger, reqs: seq<Request>)
    requires CanonicallyNamed(l.res) && UniqueActive(l.res)
    requires CanonicalRequests(reqs)
    ensures CanonicallyNamed(Run(l, reqs).res)
    ensures UniqueActivePerActivity(Run(l, reqs).res)
    decreases |reqs|
  {
    if reqs == [] {
      CanonicalNamingGivesUniquePerActivity(l.res);
    } else {
      var next := match reqs[0]
        case BookRequest(u, a, n) => Book(l, u, a, n).after
        case CancelRequest(id, u, now) => Cancel(l, id, u, now).after;
      match reqs[0] {
        case BookRequest(u, a, n) =>
          BookKeepsCanonicalNames(l, u, a, n);
          BookKeepsUniqueActive(l, u, a, n);
        case CancelRequest(id, u, now) =>
          StatusWritesKeepCanonicalNames(l, id, u, now, Active);
          CancelKeepsCapacityAndUniqueness(l, id, u, now);
      }
      assert CanonicalRequests(reqs[1..]) by {
        forall i | 0 <= i < |reqs[1..]| && reqs[1..][i].BookRequest? ensures LowerCase(reqs[1..][i].activity) {
          assert reqs[1..][i] == reqs[i + 1];
        }
      }
      CanonicalRunKeepsUniquePerActivity(next, reqs[1..]);
    }
  }
}
