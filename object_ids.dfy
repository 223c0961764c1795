/** Identifiers of stored documents. */
module ObjectIds {

  /** A document id in its text form, as the request layer hands it over. */
  type Id = string

  predicate IsHexDigit(c: char) {
    ('0' <= c <= '9') || ('a' <= c <= 'f') || ('A' <= c <= 'F')
  }

  /** The text forms `ObjectId(s)` accepts: exactly 24 hexadecimal digits, in either case.
      Every other string makes the conversion raise. */
  predicate ValidId(s: Id) {
    |s| == 24 && forall i :: 0 <= i < |s| ==> IsHexDigit(s[i])
  }

  function LowerHex(c: char): char {
    if 'A' <= c <= 'F' then (c as int - 'A' as int + 'a' as int) as char else c
  }

  /** The text form of the ObjectId that `s` converts to: the same digits in lower case. Lookups
      by `_id` find a document through this form, whichever case the caller used. */
  function Canon(s: Id): (r: Id)
    ensures |r| == |s|
    ensures forall i :: 0 <= i < |s| ==> r[i] == LowerHex(s[i])
  {
    seq(|s|, i requires 0 <= i < |s| => LowerHex(s[i]))
  }

  /** A string is in canonical form when it has no upper-case hexadecimal letter. */
  predicate LowerCase(s: Id) {
    forall i :: 0 <= i < |s| ==> !('A' <= s[i] <= 'F')
  }

  /** Converting keeps exactly the well-formed ids well formed, yields a canonical form, and
      leaves a canonical form as it is. */
  lemma CanonProperties(s: Id)
    ensures ValidId(Canon(s)) <==> ValidId(s)
    ensures LowerCase(Canon(s))
    ensures LowerCase(s) <==> Canon(s) == s
    ensures Canon(Canon(s)) == Canon(s)
  {
    if Canon(s) == s {
      forall i | 0 <= i < |s| ensures !('A' <= s[i] <= 'F') {
        assert s[i] == LowerHex(s[i]);
      }
    }
  }

  /** An upper-case and a lower-case spelling of the same digits are two different texts that
      convert to the same ObjectId. */
  lemma CaseVariants()
    ensures var lower := "aaaaaaaaaaaaaaaaaaaaaaaa";
      var upper := "AAAAAAAAAAAAAAAAAAAAAAAA";
      ValidId(lower) && ValidId(upper) && lower != upper && Canon(upper) == lower && Canon(lower) == lower
  {
    var lower := "aaaaaaaaaaaaaaaaaaaaaaaa";
    var upper := "AAAAAAAAAAAAAAAAAAAAAAAA";
    assert upper[0] != lower[0];
    assert Canon(upper) == lower;
    assert Canon(lower) == lower;
  }
}
