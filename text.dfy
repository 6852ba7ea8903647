/**
  The string operations the dashboard's search uses: `toLowerCase` and
  `includes`. Lower-casing is modelled on ASCII letters only; the Unicode
  case mapping of JavaScript is not part of this model.
*/
module Text {

  predicate IsUpper(c: char) {
    'A' <= c <= 'Z'
  }

  /** ASCII lower-casing of one character. */
  function LowerChar(c: char): (d: char)
    ensures !IsUpper(d)
    ensures d == c || IsUpper(c)
    ensures IsUpper(c) ==> d as int - c as int == 'a' as int - 'A' as int
  {
    if IsUpper(c) then (c as int - 'A' as int + 'a' as int) as char else c
  }

  /** `s.toLowerCase()`, ASCII letters only. */
  function Lower(s: string): (r: string)
    ensures |r| == |s|
    ensures forall i :: 0 <= i < |s| ==> r[i] == LowerChar(s[i])
    ensures forall i :: 0 <= i < |r| ==> !IsUpper(r[i])
  {
    if s == [] then [] else [LowerChar(s[0])] + Lower(s[1..])
  }

  /** Lower-casing twice is lower-casing once. */
  lemma LowerIdempotent(s: string)
    ensures Lower(Lower(s)) == Lower(s)
  {
    var l := Lower(s);
    assert forall i :: 0 <= i < |l| ==> LowerChar(l[i]) == l[i];
  }

  /** `haystack.includes(needle)`: the needle occurs somewhere in the haystack. */
  predicate Includes(haystack: string, needle: string)
    decreases |haystack|
  {
    needle <= haystack || (haystack != [] && Includes(haystack[1..], needle))
  }

  /** The needle occurs in the haystack starting at index `i`. */
  predicate OccursAt(haystack: string, needle: string, i: int) {
    0 <= i && i + |needle| <= |haystack| && haystack[i..i + |needle|] == needle
  }

  /** `includes` holds exactly when the needle occurs at some index of the haystack. */
  lemma {:induction false} IncludesAt(haystack: string, needle: string)
    ensures Includes(haystack, needle) <==> exists i :: OccursAt(haystack, needle, i)
    decreases |haystack|
  {
    if needle <= haystack {
      assert OccursAt(haystack, needle, 0);
    } else if haystack == [] {
    } else {
      var t := haystack[1..];
      IncludesAt(t, needle);
      if Includes(t, needle) {
        var i :| OccursAt(t, needle, i);
        assert haystack[i + 1..i + 1 + |needle|] == t[i..i + |needle|];
        assert OccursAt(haystack, needle, i + 1);
      }
      if exists i :: OccursAt(haystack, needle, i) {
        var i :| OccursAt(haystack, needle, i);
        assert i != 0;
        assert t[i - 1..i - 1 + |needle|] == haystack[i..i + |needle|];
        assert OccursAt(t, needle, i - 1);
      }
    }
  }

  /** Every string includes the empty string. */
  lemma IncludesEmpty(haystack: string)
    ensures Includes(haystack, "")
  {
  }
}
