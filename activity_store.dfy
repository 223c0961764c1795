/** The activities collection: creation, lookup, listing, partial update, deletion, and the
    `$inc` on the booked counter that the reservation ledger issues. */
module ActivityStore {
  import opened Wrappers
  import opened ObjectIds
  import opened ActivityModel
  import opened Ordering

  /** An activity document together with its id, as lookups and listings return it. */
  datatype ActivityRow = ActivityRow(id: Id, doc: ActivityDoc)

  /** The sort key of the activity listing: the start time. */
  function StartKey(r: ActivityRow): Option<int> {
    Some(r.doc.start)
  }

  /** The listing window: drop the first `skip` rows, then keep at most `limit` of them,
      where a limit of 0 means no limit and a negative limit keeps as many as its magnitude. */
  function Window<T>(s: seq<T>, skip: nat, limit: int): (w: seq<T>)
    ensures skip >= |s| ==> w == []
    ensures skip < |s| ==> |w| == (if limit == 0 || |s| - skip <= Abs(limit) then |s| - skip else Abs(limit))
    ensures forall i :: 0 <= i < |w| ==> skip + i < |s| && w[i] == s[skip + i]
  {
    var rest := if skip >= |s| then [] else s[skip..];
    if limit == 0 || |rest| <= Abs(limit) then rest else rest[..Abs(limit)]
  }

  /** A window of a listing holds some of its rows, in the listing's order. */
  lemma WindowOfSorted<T>(s: seq<T>, key: T -> Option<int>, skip: nat, limit: int)
    ensures multiset(Window(s, skip, limit)) <= multiset(s)
    ensures SortedBy(s, key, false) ==> SortedBy(Window(s, skip, limit), key, false)
  {
    var w := Window(s, skip, limit);
    if skip < |s| {
      var n := |w|;
      assert w == s[skip..skip + n];
      assert s == s[..skip] + s[skip..skip + n] + s[skip + n..];
    }
  }

  function Abs(n: int): nat {
    if n < 0 then -n else n
  }

  class ActivityCollection {
    var docs: map<Id, ActivityDoc>

    /** The collection as found. */
    constructor (initial: map<Id, ActivityDoc>)
      ensures docs == initial
    {
      docs := initial;
    }

    /** One row per stored activity. */
    function Rows(): set<ActivityRow>
      reads this
    {
      set id | id in docs :: ActivityRow(id, docs[id])
    }

    /** Stores a validated activity under the id the driver generates, with a booked count of 0. */
    method Create(a: ActivityCreate, newId: Id) returns (id: Id)
      requires newId !in docs
      modifies this
      ensures id == newId
      ensures docs == old(docs)[newId := NewDoc(a)]
      ensures BookedOf(docs[id]) == 0
    {
      docs := docs[newId := NewDoc(a)];
      id := newId;
    }

    /** The activity whose ObjectId `id` converts to, with that id in canonical text form; absent
        for a malformed id or an unknown one. */
    function Get(id: Id): (r: Option<ActivityRow>)
      reads this
      ensures r.Some? <==> ValidId(id) && Canon(id) in docs
      ensures r.Some? ==> r.value.id == Canon(id) && r.value.doc == docs[Canon(id)]
    {
      if !ValidId(id) then None
      else if Canon(id) in docs then Some(ActivityRow(Canon(id), docs[Canon(id)]))
      else None
    }

    /** Applies the given fields of `u` to the activity whose ObjectId `id` converts to. Absent for
        a malformed id; otherwise the number of documents actually modified (0 when no field is
        given, the id is unknown or nothing differs). Nothing but the given fields changes, the
        booked count included. */
    method Update(id: Id, u: ActivityUpdate) returns (modified: Option<nat>)
      modifies this
      ensures !ValidId(id) ==> modified.None? && docs == old(docs)
      ensures ValidId(id) ==> modified.Some? && modified.value <= 1
      ensures ValidId(id) && Canon(id) in old(docs) ==>
        docs == old(docs)[Canon(id) := ApplyUpdate(old(docs)[Canon(id)], u)]
      ensures ValidId(id) && Canon(id) !in old(docs) ==> docs == old(docs)
      ensures modified == Some(1) <==>
        ValidId(id) && Canon(id) in old(docs) && ApplyUpdate(old(docs)[Canon(id)], u) != old(docs)[Canon(id)]
      ensures FieldCount(u) == 0 ==> docs == old(docs) && (ValidId(id) ==> modified == Some(0))
    {
      if !ValidId(id) {
        return None;
      }
      var key := Canon(id);
      if FieldCount(u) >= 1 {
        if key in docs {
          var before := docs[key];
          var after := ApplyUpdate(before, u);
          docs := docs[key := after];
          modified := Some(if after != before then 1 else 0);
        } else {
          modified := Some(0);
        }
      } else {
        if key in docs {
          ApplyUpdateFields(docs[key], u);
        }
        modified := Some(0);
      }
    }

    /** Removes the activity whose ObjectId `id` converts to. Absent for a malformed id; otherwise
        the number removed. */
    method Delete(id: Id) returns (deleted: Option<nat>)
      modifies this
      ensures !ValidId(id) ==> deleted.None? && docs == old(docs)
      ensures ValidId(id) ==> deleted == Some(if Canon(id) in old(docs) then 1 else 0)
      ensures ValidId(id) ==> docs == old(docs) - {Canon(id)}
    {
      if !ValidId(id) {
        return None;
      }
      var key := Canon(id);
      deleted := Some(if key in docs then 1 else 0);
      docs := docs - {key};
    }

    /** `$inc` of the booked count of the activity stored under `id` by `delta`; a missing count
        counts from 0, and an unknown id changes nothing. */
    method IncBooked(id: Id, delta: int)
      modifies this
      ensures id in old(docs) ==> docs == old(docs)[id := old(docs)[id].(booked := Some(BookedOf(old(docs)[id]) + delta))]
      ensures id !in old(docs) ==> docs == old(docs)
    {
      if id in docs {
        docs := docs[id := docs[id].(booked := Some(BookedOf(docs[id]) + delta))];
      }
    }

    /** The listing: every activity once, in ascending start order, the first `skip` dropped and at most
        `limit` kept. `cursor` is the whole sorted listing the window is cut from. */
    method GetAll(skip: nat := 0, limit: int := 100) returns (page: seq<ActivityRow>, ghost cursor: seq<ActivityRow>)
      ensures multiset(cursor) == multiset(Rows())
      ensures SortedBy(cursor, StartKey, false)
      ensures page == Window(cursor, skip, limit)
      ensures SortedBy(page, StartKey, false)
      ensures multiset(page) <= multiset(Rows())
    {
      var found: seq<ActivityRow> := [];
      var remaining := docs.Keys;
      while remaining != {}
        invariant remaining <= docs.Keys
        invariant multiset(found) == multiset(set id | id in docs.Keys - remaining :: ActivityRow(id, docs[id]))
        decreases |remaining|
      {
        var id :| id in remaining;
        ghost var done := set k | k in docs.Keys - remaining :: ActivityRow(k, docs[k]);
        assert ActivityRow(id, docs[id]) !in done;
        assert (set k | k in docs.Keys - (remaining - {id}) :: ActivityRow(k, docs[k])) == done + {ActivityRow(id, docs[id])};
        found := found + [ActivityRow(id, docs[id])];
        remaining := remaining - {id};
      }
      assert docs.Keys - remaining == docs.Keys;
      var sorted := SortBy(found, StartKey, false);
      cursor := sorted;
      page := Window(sorted, skip, limit);
      WindowOfSorted(sorted, StartKey, skip, limit);
    }
  }
}
