/** The activity records: the validated creation body, the partial update body and the stored document. */
module ActivityModel {
  import opened Wrappers

  /** An activity body as it arrives, before validation. A field the body leaves out is `None`; so
      is a timestamp that cannot be read as a date. Times are integer microseconds. */
  datatype ActivityInput = ActivityInput(
    title: Option<string>,
    description: Option<string>,
    start: Option<int>,
    end: Option<int>,
    capacity: Option<int>,
    location: Option<string>,
    instructor: Option<string>)

  /** What validation can reject an activity body for. Title, capacity, location and instructor
      are required; the description alone has a default. */
  datatype FieldError =
    | TitleMissing | TitleTooShort | TitleTooLong
    | StartInvalid | EndInvalid
    | CapacityMissing | CapacityNotPositive
    | LocationMissing | InstructorMissing
    | EndNotAfterStart

  const MaxTitleLength: nat := 100

  /** Every complaint validation raises about `a`. The end/start comparison is made only once both
      timestamps have been read; without a usable start it is skipped. */
  function Errors(a: ActivityInput): set<FieldError> {
    (if a.title.None? then {TitleMissing} else {})
    + (if a.title.Some? && |a.title.value| < 1 then {TitleTooShort} else {})
    + (if a.title.Some? && |a.title.value| > MaxTitleLength then {TitleTooLong} else {})
    + (if a.start.None? then {StartInvalid} else {})
    + (if a.end.None? then {EndInvalid} else {})
    + (if a.capacity.None? then {CapacityMissing} else {})
    + (if a.capacity.Some? && a.capacity.value <= 0 then {CapacityNotPositive} else {})
    + (if a.location.None? then {LocationMissing} else {})
    + (if a.instructor.None? then {InstructorMissing} else {})
    + (if a.start.Some? && a.end.Some? && a.end.value <= a.start.value then {EndNotAfterStart} else {})
  }

  /** Every required field is present. */
  predicate Complete(a: ActivityInput) {
    a.title.Some? && a.start.Some? && a.end.Some? && a.capacity.Some? && a.location.Some? && a.instructor.Some?
  }

  /** A validated activity body: what creation receives. */
  datatype ActivityCreate = ActivityCreate(
    title: string,
    description: Option<string>,
    start: int,
    end: int,
    capacity: int,
    location: string,
    instructor: string)

  /** The constraints every validated activity satisfies. */
  predicate WellFormed(a: ActivityCreate) {
    1 <= |a.title| <= MaxTitleLength && a.capacity > 0 && a.start < a.end
  }

  /** Validation of an activity body: the record, or every error found. */
  function Validate(a: ActivityInput): (r: Result<ActivityCreate, set<FieldError>>)
    ensures r.Failure? ==> r.error != {}
  {
    var errs := Errors(a);
    if errs == {} then
      Success(ActivityCreate(a.title.value, a.description, a.start.value, a.end.value, a.capacity.value,
                             a.location.value, a.instructor.value))
    else Failure(errs)
  }

  /** Validation accepts a body exactly when every required field is present, its title has 1 to
      100 characters, its capacity is positive and the end is strictly after the start; what it
      accepts keeps every field. */
  lemma ValidateAccepts(a: ActivityInput)
    ensures Validate(a).Success? <==>
      (Complete(a) && 1 <= |a.title.value| <= MaxTitleLength && a.capacity.value > 0 && a.start.value < a.end.value)
    ensures Validate(a).Success? ==> WellFormed(Validate(a).value)
    ensures Validate(a).Success? ==>
      var v := Validate(a).value;
      Some(v.title) == a.title && v.description == a.description && Some(v.start) == a.start && Some(v.end) == a.end
      && Some(v.capacity) == a.capacity && Some(v.location) == a.location && Some(v.instructor) == a.instructor
  {
    if a.title.None? { assert TitleMissing in Errors(a); }
    if a.title.Some? && |a.title.value| < 1 { assert TitleTooShort in Errors(a); }
    if a.title.Some? && |a.title.value| > MaxTitleLength { assert TitleTooLong in Errors(a); }
    if a.start.None? { assert StartInvalid in Errors(a); }
    if a.end.None? { assert EndInvalid in Errors(a); }
    if a.capacity.None? { assert CapacityMissing in Errors(a); }
    if a.capacity.Some? && a.capacity.value <= 0 { assert CapacityNotPositive in Errors(a); }
    if a.location.None? { assert LocationMissing in Errors(a); }
    if a.instructor.None? { assert InstructorMissing in Errors(a); }
    if a.start.Some? && a.end.Some? && a.end.value <= a.start.value { assert EndNotAfterStart in Errors(a); }
  }

  /** A body that leaves out a required field is refused, and the refusal names that field. The
      description is optional: leaving it out or giving it changes no error. */
  lemma MissingFieldRefused(a: ActivityInput, d: Option<string>)
    ensures a.title.None? ==> Validate(a) == Failure(Errors(a)) && TitleMissing in Validate(a).error
    ensures a.capacity.None? ==> Validate(a) == Failure(Errors(a)) && CapacityMissing in Validate(a).error
    ensures a.location.None? ==> Validate(a) == Failure(Errors(a)) && LocationMissing in Validate(a).error
    ensures a.instructor.None? ==> Validate(a) == Failure(Errors(a)) && InstructorMissing in Validate(a).error
    ensures Errors(a.(description := d)) == Errors(a)
  {
    if a.title.None? { assert TitleMissing in Errors(a); }
    if a.capacity.None? { assert CapacityMissing in Errors(a); }
    if a.location.None? { assert LocationMissing in Errors(a); }
    if a.instructor.None? { assert InstructorMissing in Errors(a); }
  }

  /** Without a usable start time the end/start comparison raises nothing, whatever the end time. */
  lemma OrderCheckNeedsStart(a: ActivityInput)
    requires a.start.None?
    ensures EndNotAfterStart !in Errors(a)
    ensures StartInvalid in Errors(a)
  {
  }

  /** A partial update body: every field optional, `None` meaning "leave as is". The capacity here
      carries no lower bound, and no end/start check is made. */
  datatype ActivityUpdate = ActivityUpdate(
    title: Option<string>,
    description: Option<string>,
    start: Option<int>,
    end: Option<int>,
    capacity: Option<int>,
    location: Option<string>,
    instructor: Option<string>)

  /** The update body with no field given. */
  const NoChange: ActivityUpdate := ActivityUpdate(None, None, None, None, None, None, None)

  /** How many fields the update gives: the size of the filtered update dictionary. */
  function FieldCount(u: ActivityUpdate): (n: nat)
    ensures n <= 7
    ensures n == 0 <==> u == NoChange
  {
    (if u.title.Some? then 1 else 0) + (if u.description.Some? then 1 else 0)
    + (if u.start.Some? then 1 else 0) + (if u.end.Some? then 1 else 0)
    + (if u.capacity.Some? then 1 else 0) + (if u.location.Some? then 1 else 0)
    + (if u.instructor.Some? then 1 else 0)
  }

  /** An activity document as stored. `title` and `booked` are read with a default when missing,
      so they may be absent; `start` and `capacity` are read unconditionally. */
  datatype ActivityDoc = ActivityDoc(
    title: Option<string>,
    description: Option<string>,
    start: int,
    end: int,
    capacity: int,
    location: string,
    instructor: string,
    booked: Option<int>)

  /** The booked count a document stands for: a missing count reads as 0. */
  function BookedOf(d: ActivityDoc): (n: int)
    ensures d.booked.None? ==> n == 0
    ensures d.booked.Some? ==> n == d.booked.value
  {
    d.booked.GetOr(0)
  }

  /** The document creation stores: the validated fields and a booked count of 0. */
  function NewDoc(a: ActivityCreate): (d: ActivityDoc)
    ensures BookedOf(d) == 0 && d.booked == Some(0)
    ensures d.title == Some(a.title) && d.start == a.start && d.end == a.end && d.capacity == a.capacity
    ensures d.description == a.description && d.location == a.location && d.instructor == a.instructor
  {
    ActivityDoc(Some(a.title), a.description, a.start, a.end, a.capacity, a.location, a.instructor, Some(0))
  }

  /** `$set` of the given fields: each field the update gives replaces the stored one. */
  function ApplyUpdate(d: ActivityDoc, u: ActivityUpdate): ActivityDoc {
    ActivityDoc(
      if u.title.Some? then u.title else d.title,
      if u.description.Some? then u.description else d.description,
      u.start.GetOr(d.start),
      u.end.GetOr(d.end),
      u.capacity.GetOr(d.capacity),
      u.location.GetOr(d.location),
      u.instructor.GetOr(d.instructor),
      d.booked)
  }

  /** An update changes exactly the fields it gives, never the booked count, and an empty update changes nothing. */
  lemma ApplyUpdateFields(d: ActivityDoc, u: ActivityUpdate)
    ensures var e := ApplyUpdate(d, u);
      && (u.title.Some? ==> e.title == u.title) && (u.title.None? ==> e.title == d.title)
      && (u.description.Some? ==> e.description == u.description) && (u.description.None? ==> e.description == d.description)
      && (u.start.Some? ==> e.start == u.start.value) && (u.start.None? ==> e.start == d.start)
      && (u.end.Some? ==> e.end == u.end.value) && (u.end.None? ==> e.end == d.end)
      && (u.capacity.Some? ==> e.capacity == u.capacity.value) && (u.capacity.None? ==> e.capacity == d.capacity)
      && (u.location.Some? ==> e.location == u.location.value) && (u.location.None? ==> e.location == d.location)
      && (u.instructor.Some? ==> e.instructor == u.instructor.value) && (u.instructor.None? ==> e.instructor == d.instructor)
      && e.booked == d.booked
    ensures FieldCount(u) == 0 ==> ApplyUpdate(d, u) == d
  {
  }

  /** Applying the same update twice is the same as applying it once. */
  lemma ApplyUpdateIdempotent(d: ActivityDoc, u: ActivityUpdate)
    ensures ApplyUpdate(ApplyUpdate(d, u), u) == ApplyUpdate(d, u)
  {
  }

  /** An update may set the capacity below the booked count: nothing checks it. */
  lemma UpdateCanUnderCutBooked()
    ensures var d := ActivityDoc(Some("Yoga"), None, 0, 1, 2, "Room", "Ana", Some(2));
      var e := ApplyUpdate(d, NoChange.(capacity := Some(1)));
      BookedOf(d) <= d.capacity && BookedOf(e) > e.capacity
  {
  }
}
