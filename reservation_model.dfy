/** The reservation records: the status enumeration with its stored strings, the stored
    reservation, the listing rows and the attendance request body. */
module ReservationModel {
  import opened Wrappers
  import opened ObjectIds

  /** The five states of a reservation. */
  datatype Status = Active | Cancelled | LateCancelled | Attended | Absent

  /** The string each status is stored and sent as. */
  function Wire(s: Status): string {
    match s
    case Active => "active"
    case Cancelled => "cancelled"
    case LateCancelled => "late_cancelled"
    case Attended => "attended"
    case Absent => "absent"
  }

  /** The status a string names, if any: how an incoming string is turned into the enumeration. */
  function FromWire(w: string): (r: Option<Status>)
    ensures r.Some? ==> Wire(r.value) == w
  {
    if w == "active" then Some(Active)
    else if w == "cancelled" then Some(Cancelled)
    else if w == "late_cancelled" then Some(LateCancelled)
    else if w == "attended" then Some(Attended)
    else if w == "absent" then Some(Absent)
    else None
  }

  /** Reading back the string of a status gives that status. */
  lemma WireRoundTrip(s: Status)
    ensures FromWire(Wire(s)) == Some(s)
  {
  }

  /** A string is accepted exactly when it is the stored form of some status. */
  lemma FromWireExact(w: string)
    ensures FromWire(w).Some? <==> exists s: Status :: Wire(s) == w
  {
    if exists s: Status :: Wire(s) == w {
      var s: Status :| Wire(s) == w;
      WireRoundTrip(s);
    }
  }

  /** Distinct statuses have distinct strings. */
  lemma WireInjective(s: Status, t: Status)
    ensures Wire(s) == Wire(t) ==> s == t
  {
    WireRoundTrip(s);
    WireRoundTrip(t);
  }

  /** A reservation document as stored in the reservations collection (its id is the key it is stored under).
      `activityTitle` and `activityStart` are the snapshot of the activity taken when booking. */
  datatype Reservation = Reservation(
    userId: Id,
    activityId: Id,
    activityTitle: Option<string>,
    activityStart: Option<int>,
    status: Status)

  /** A reservation built from the required fields alone: the status defaults to active and
      the two snapshot fields to absent. */
  function WithDefaults(userId: Id, activityId: Id): (r: Reservation)
    ensures r.userId == userId && r.activityId == activityId
    ensures r.status == Active
    ensures r.activityTitle.None? && r.activityStart.None?
  {
    Reservation(userId, activityId, None, None, Active)
  }

  /** A reservation together with the id it is stored under, as the listings return it. */
  datatype ReservationInDB = ReservationInDB(id: Id, doc: Reservation)

  /** A roster row: a stored reservation plus the owner's name and email, absent unless filled in. */
  datatype ReservationAttendance = ReservationAttendance(
    row: ReservationInDB,
    userName: Option<string>,
    userEmail: Option<string>)

  /** A roster row before any owner details are filled in. */
  function Unhydrated(row: ReservationInDB): (a: ReservationAttendance)
    ensures a.row == row && a.userName.None? && a.userEmail.None?
  {
    ReservationAttendance(row, None, None)
  }

  /** The body of an attendance write: one status. */
  datatype AttendanceUpdate = AttendanceUpdate(status: Status)

  /** Reading an attendance body: only the string of one of the five statuses is accepted. */
  function ParseAttendanceUpdate(w: string): (r: Option<AttendanceUpdate>)
    ensures r.Some? <==> exists s: Status :: Wire(s) == w
    ensures r.Some? ==> Wire(r.value.status) == w
  {
    FromWireExact(w);
    match FromWire(w)
    case Some(s) => Some(AttendanceUpdate(s))
    case None => None
  }
}
