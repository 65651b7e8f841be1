/**
 * The two string operations the assigned-task list relies on: `toLowerCase`
 * (restricted to ASCII letters) and `includes` (substring search).
 */
module Text {

  /** True when `c` is an upper-case ASCII letter. */
  predicate IsUpperChar(c: char) {
    'A' <= c <= 'Z'
  }

  /** ASCII lower-casing of one character; every other character is kept. */
  function LowerChar(c: char): (r: char)
    ensures !IsUpperChar(r)
    ensures IsUpperChar(c) ==> r as int == c as int + 32
    ensures !IsUpperChar(c) ==> r == c
  {
    if IsUpperChar(c) then (c as int + 32) as char else c
  }

  /** A string with no upper-case ASCII letter in it. */
  predicate IsLower(s: string) {
    forall i :: 0 <= i < |s| ==> !IsUpperChar(s[i])
  }

  /** `s.toLowerCase()` on ASCII: each character is lower-cased where it stands. */
  function Lower(s: string): (r: string)
    ensures |r| == |s|
    ensures IsLower(r)
    ensures forall i :: 0 <= i < |s| ==> r[i] == LowerChar(s[i])
  {
    seq(|s|, i requires 0 <= i < |s| => LowerChar(s[i]))
  }

  /** Lower-casing a string that is already lower case changes nothing. */
  lemma LowerOfLower(s: string)
    requires IsLower(s)
    ensures Lower(s) == s
  {
  }

  /** Lower-casing twice is the same as lower-casing once. */
  lemma LowerIdempotent(s: string)
    ensures Lower(Lower(s)) == Lower(s)
  {
  }

  /** Lower-casing commutes with taking a slice. */
  lemma LowerSlice(s: string, i: nat, j: nat)
    requires i <= j <= |s|
    ensures Lower(s[i..j]) == Lower(s)[i..j]
  {
  }

  /** `needle` occurs in `hay` starting at position `i`. */
  ghost predicate OccursAt(hay: string, needle: string, i: int) {
    0 <= i && i + |needle| <= |hay| && hay[i..i + |needle|] == needle
  }

  /**
   * `hay.includes(needle)`: whether `needle` occurs somewhere in `hay`.
   * The empty needle occurs in every string.
   */
  function Contains(hay: string, needle: string): (r: bool)
    ensures r <==> exists i :: OccursAt(hay, needle, i)
    decreases |hay|
  {
    if |needle| > |hay| then false
    else if hay[..|needle|] == needle then
      assert OccursAt(hay, needle, 0);
      true
    else
      ShiftOccurrence(hay, needle);
      Contains(hay[1..], needle)
  }

  /** Occurrences in `hay` past position 0 are the occurrences in `hay[1..]`. */
  lemma ShiftOccurrence(hay: string, needle: string)
    requires |hay| > 0
    ensures forall i :: 0 <= i && OccursAt(hay[1..], needle, i) ==> OccursAt(hay, needle, i + 1)
    ensures forall i :: OccursAt(hay, needle, i) && i > 0 ==> OccursAt(hay[1..], needle, i - 1)
  {
  }

  /**
   * A string that contains some text verbatim still contains it once both are
   * lower-cased with the ASCII `Lower`, so for ASCII text matching on
   * lower-cased strings never loses a literal match.
   */
  lemma LowerKeepsContains(hay: string, needle: string)
    requires Contains(hay, needle)
    ensures Contains(Lower(hay), Lower(needle))
  {
    var i :| OccursAt(hay, needle, i);
    LowerSlice(hay, i, i + |needle|);
    assert OccursAt(Lower(hay), Lower(needle), i);
  }

  /** Text whose first character does not appear in `hay` does not occur in it. */
  lemma FirstCharAbsent(hay: string, needle: string)
    requires |needle| > 0 && needle[0] !in hay
    ensures !Contains(hay, needle)
  {
  }

  /** A lower-case letter that appears in neither case in `s` does not appear in `Lower(s)`. */
  lemma LowerAbsent(s: string, c: char)
    requires 'a' <= c <= 'z' && c !in s && (c as int - 32) as char !in s
    ensures c !in Lower(s)
  {
  }
}
