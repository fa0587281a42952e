/**
  Character and string helpers shared by the extractor, the classifier and the
  converter: ASCII case folding, the whitespace class `\s` of ECMAScript
  regular expressions, and searches over `seq<char>`.
 */
module Text {
  import opened Wrappers

  /** ASCII lower-casing; every other character maps to itself. */
  function Lower(c: char): char
  {
    if 'A' <= c <= 'Z' then (c as int + 32) as char else c
  }

  /** `p` occurs in `s` at index `i`. */
  predicate OccursAt(s: string, p: string, i: nat)
  {
    i + |p| <= |s| && s[i..i + |p|] == p
  }

  /** The string with every ASCII letter lower-cased. */
  function LowerAll(s: string): (r: string)
    ensures |r| == |s|
  {
    if s == [] then [] else [Lower(s[0])] + LowerAll(s[1..])
  }

  /** `p` occurs in `s` at index `i`, letters compared without regard to case. */
  predicate OccursAtIgnoringCase(s: string, p: string, i: nat)
  {
    i + |p| <= |s| && LowerAll(s[i..i + |p|]) == LowerAll(p)
  }

  predicate StartsWith(s: string, p: string)
  {
    OccursAt(s, p, 0)
  }

  predicate EndsWith(s: string, p: string)
  {
    |p| <= |s| && s[|s| - |p|..] == p
  }

  /** A string does not start with a pattern whose first character differs from its own. */
  lemma FirstCharDiffers(s: string, p: string)
    requires |s| > 0 && |p| > 0 && s[0] != p[0]
    ensures !StartsWith(s, p)
  {
    if |p| <= |s| {
      assert s[0..|p|][0] == s[0];
    }
  }

  /** The first index at or after `from` where `c` stands, if any. */
  function IndexOfFrom(s: string, c: char, from: nat): (r: Option<nat>)
    requires from <= |s|
    ensures r.Some? ==> from <= r.value < |s| && s[r.value] == c
    ensures r.Some? ==> forall k :: from <= k < r.value ==> s[k] != c
    ensures r.None? <==> forall k :: from <= k < |s| ==> s[k] != c
    decreases |s| - from
  {
    if from == |s| then None
    else if s[from] == c then Some(from)
    else IndexOfFrom(s, c, from + 1)
  }

  /** The leftmost index at or after `i` where `p` occurs, with case. */
  function FirstIndexFrom(s: string, p: string, i: nat): (r: Option<nat>)
    requires i <= |s|
    ensures r.Some? ==> i <= r.value <= |s| && OccursAt(s, p, r.value)
    ensures r.Some? ==> forall k :: i <= k < r.value ==> !OccursAt(s, p, k)
    ensures r.None? ==> forall k :: i <= k <= |s| ==> !OccursAt(s, p, k)
    decreases |s| - i
  {
    if OccursAt(s, p, i) then Some(i)
    else if i == |s| then None
    else FirstIndexFrom(s, p, i + 1)
  }

  /**
    The class `\s` of ECMAScript regular expressions: the WhiteSpace and
    LineTerminator code points.
   */
  predicate IsRegExpSpace(c: char)
  {
    c == '\t' || c == '\n' || c == '\U{B}' || c == '\U{C}' || c == '\r' || c == ' '
    || c == '\U{A0}' || c == '\U{1680}' || ('\U{2000}' <= c <= '\U{200A}')
    || c == '\U{2028}' || c == '\U{2029}' || c == '\U{202F}' || c == '\U{205F}'
    || c == '\U{3000}' || c == '\U{FEFF}'
  }
}
