/** The order in which the database's `sort` returns documents on one timestamp field. */
module Ordering {
  import opened Wrappers

  /** The database's order on an optional timestamp: a missing or null value comes before every present one. */
  predicate KeyLe(a: Option<int>, b: Option<int>) {
    a.None? || (b.Some? && a.value <= b.value)
  }

  /** `a` may stand before `b` in a listing sorted ascending (`desc == false`) or descending (`desc == true`). */
  predicate MayPrecede(a: Option<int>, b: Option<int>, desc: bool) {
    if desc then KeyLe(b, a) else KeyLe(a, b)
  }

  /** `s` is in the order `sort(field, 1)` (ascending) or `sort(field, -1)` (descending) returns. */
  predicate SortedBy<T>(s: seq<T>, key: T -> Option<int>, desc: bool) {
    forall i, j :: 0 <= i < j < |s| ==> MayPrecede(key(s[i]), key(s[j]), desc)
  }

  /** Putting `y` in front of a sorted `rest` keeps it sorted when `y` may precede each of its entries. */
  lemma PrependSorted<T>(y: T, rest: seq<T>, key: T -> Option<int>, desc: bool)
    requires SortedBy(rest, key, desc)
    requires forall z :: z in multiset(rest) ==> MayPrecede(key(y), key(z), desc)
    ensures SortedBy([y] + rest, key, desc)
  {
    var r := [y] + rest;
    forall i, j | 0 <= i < j < |r| ensures MayPrecede(key(r[i]), key(r[j]), desc) {
      if i == 0 {
        assert r[j] == rest[j - 1];
        assert r[j] in multiset(rest);
      } else {
        assert r[i] == rest[i - 1] && r[j] == rest[j - 1];
      }
    }
  }

  /** Puts `x` into the sorted `s` in front of the first entry it may precede. */
  function Insert<T>(x: T, s: seq<T>, key: T -> Option<int>, desc: bool): (r: seq<T>)
    requires SortedBy(s, key, desc)
    ensures SortedBy(r, key, desc)
    ensures multiset(r) == multiset(s) + multiset{x}
    decreases |s|
  {
    if s == [] then [x]
    else if MayPrecede(key(x), key(s[0]), desc) then
      PrependSorted(x, s, key, desc);
      [x] + s
    else
      var rest := Insert(x, s[1..], key, desc);
      assert s == [s[0]] + s[1..];
      assert forall z :: z in multiset(rest) ==> MayPrecede(key(s[0]), key(z), desc) by {
        forall z | z in multiset(rest) ensures MayPrecede(key(s[0]), key(z), desc) {
          if z != x {
            assert z in multiset(s[1..]);
            var k :| 0 <= k < |s[1..]| && s[1..][k] == z;
            assert s[k + 1] == z;
          }
        }
      }
      PrependSorted(s[0], rest, key, desc);
      [s[0]] + rest
  }

  /** A sorted arrangement of `s`. */
  function SortBy<T>(s: seq<T>, key: T -> Option<int>, desc: bool): (r: seq<T>)
    ensures SortedBy(r, key, desc)
    ensures multiset(r) == multiset(s)
    decreases |s|
  {
    if s == [] then []
    else
      assert s == [s[0]] + s[1..];
      Insert(s[0], SortBy(s[1..], key, desc), key, desc)
  }

  /** Counting the elements of a set with one more element. */
  lemma MultisetOfSetAdd<T>(s: set<T>, x: T)
    requires x !in s
    ensures multiset(s + {x}) == multiset(s) + multiset{x}
  {
  }
}
