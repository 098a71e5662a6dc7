/**
 The two string primitives the address-book search relies on: lowercasing
 (JavaScript's `String.prototype.toLowerCase`, restricted here to ASCII) and
 substring containment (`String.prototype.includes`).
 */
module Text {

  /** True iff `c` is an ASCII capital letter. */
  predicate IsUpper(c: char) {
    'A' <= c <= 'Z'
  }

  /** ASCII lowercasing of one character: capitals map to their small letter,
      every other character is left alone. */
  function LowerChar(c: char): (d: char)
    ensures !IsUpper(d)
    ensures !IsUpper(c) ==> d == c
    ensures IsUpper(c) ==> 'a' <= d <= 'z' && d as int - c as int == 'a' as int - 'A' as int
  {
    if IsUpper(c) then (c as int + ('a' as int - 'A' as int)) as char else c
  }

  /** True iff no character of `s` is an ASCII capital letter. */
  predicate IsLowerCase(s: string) {
    forall i :: 0 <= i < |s| ==> !IsUpper(s[i])
  }

  /** Lowercases every character of `s`, position by position. */
  function Lower(s: string): (r: string)
    ensures |r| == |s|
    ensures forall i :: 0 <= i < |s| ==> r[i] == LowerChar(s[i])
    ensures IsLowerCase(r)
  {
    seq(|s|, i requires 0 <= i < |s| => LowerChar(s[i]))
  }

  /** A string that is already lowercase is its own lowercase form. */
  lemma LowerFixesLowerCase(s: string)
    requires IsLowerCase(s)
    ensures Lower(s) == s
  {
  }

  /** Lowercasing twice is lowercasing once. */
  lemma LowerIdempotent(s: string)
    ensures Lower(Lower(s)) == Lower(s)
  {
    LowerFixesLowerCase(Lower(s));
  }

  /** Only the empty string lowercases to the empty string, so lowercasing
      never turns a non-empty query into the empty one. */
  lemma LowerEmptyIff(s: string)
    ensures Lower(s) == "" <==> s == ""
  {
  }

  /** `needle` occurs in `hay` at position `i`. */
  predicate OccursAt(needle: string, hay: string, i: int) {
    0 <= i && i + |needle| <= |hay| && hay[i..i + |needle|] == needle
  }

  /** `needle` occurs somewhere in `hay` (the empty string occurs everywhere). */
  ghost predicate IsSubstring(needle: string, hay: string) {
    exists i :: OccursAt(needle, hay, i)
  }

  /** An occurrence in the tail of `hay` is an occurrence in `hay`, one position further on. */
  lemma OccursInTail(needle: string, hay: string, j: int)
    requires |hay| > 0
    ensures OccursAt(needle, hay[1..], j) <==> 0 <= j && OccursAt(needle, hay, j + 1)
  {
  }

  /** JavaScript's `hay.includes(needle)`: scans the start positions of `hay` from left to right. */
  function Includes(hay: string, needle: string): (b: bool)
    ensures b <==> IsSubstring(needle, hay)
    decreases |hay|
  {
    if |needle| > |hay| then false
    else if hay[..|needle|] == needle then
      assert OccursAt(needle, hay, 0);
      true
    else
      var rest := Includes(hay[1..], needle);
      assert rest <==> IsSubstring(needle, hay) by {
        if rest {
          var j :| OccursAt(needle, hay[1..], j);
          OccursInTail(needle, hay, j);
        }
        if IsSubstring(needle, hay) {
          var i :| OccursAt(needle, hay, i);
          assert i != 0;
          OccursInTail(needle, hay, i - 1);
        }
      }
      rest
  }

  /** A string lacking some character of `needle` does not include `needle`. */
  lemma MissingCharNotIncluded(hay: string, needle: string, c: char)
    requires c in needle && c !in hay
    ensures !Includes(hay, needle)
  {
  }
}
