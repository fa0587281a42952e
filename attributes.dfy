/**
  The attribute extractor: `extractAttribute(attrs, name)` applies the regular
  expression `name="([^"]*)"` with flag `i` to an attribute list and returns the
  first capture, or nothing.
 */
module Attributes {
  import opened Wrappers
  import opened Text

  /** What the pattern demands before the value: the name, `=` and an opening quote. */
  function Opening(name: string): (p: string)
    ensures |p| == |name| + 2 && p[|p| - 1] == '"'
  {
    name + "=\""
  }

  /** A value the pattern can capture: the opening at `i` has a closing quote after it. */
  predicate ClosedOpeningAt(attrs: string, name: string, i: nat)
  {
    var p := Opening(name);
    OccursAtIgnoringCase(attrs, p, i) && IndexOfFrom(attrs, '"', i + |p|).Some?
  }

  /**
    One attempt of the regular expression at start index `i`: the opening
    matches without regard to case, then `[^"]*` runs up to the first quote,
    which must exist.
   */
  function MatchAt(attrs: string, name: string, i: nat): (r: Option<string>)
    requires i <= |attrs|
    ensures r.Some? ==> '"' !in r.value
    ensures r.Some? <==> ClosedOpeningAt(attrs, name, i)
  {
    var p := Opening(name);
    if OccursAtIgnoringCase(attrs, p, i) then
      match IndexOfFrom(attrs, '"', i + |p|)
      case None => None
      case Some(j) => Some(attrs[i + |p|..j])
    else None
  }

  /** The regular-expression search: attempts at `i`, `i + 1`, ... until one succeeds. */
  function SearchFrom(attrs: string, name: string, i: nat): (r: Option<string>)
    requires i <= |attrs|
    ensures r.Some? ==> '"' !in r.value
    decreases |attrs| - i
  {
    var here := MatchAt(attrs, name, i);
    if here.Some? then here
    else if i == |attrs| then None
    else SearchFrom(attrs, name, i + 1)
  }

  /** `extractAttribute`: the first `name="value"` of an attribute list, quotes removed. */
  function ExtractAttribute(attrs: string, name: string): (r: Option<string>)
    ensures r.Some? ==> '"' !in r.value
  {
    SearchFrom(attrs, name, 0)
  }

  lemma {:induction false} SearchFromFound(attrs: string, name: string, i: nat)
    requires i <= |attrs|
    ensures SearchFrom(attrs, name, i).Some? <==> exists k :: i <= k <= |attrs| && ClosedOpeningAt(attrs, name, k)
    decreases |attrs| - i
  {
    if !ClosedOpeningAt(attrs, name, i) && i < |attrs| {
      SearchFromFound(attrs, name, i + 1);
      assert forall k :: i <= k <= |attrs| && ClosedOpeningAt(attrs, name, k) ==> i + 1 <= k;
    }
  }

  /** A value is extracted exactly when some opening of the name has a closing quote after it. */
  lemma ExtractAttributeFound(attrs: string, name: string)
    ensures ExtractAttribute(attrs, name).Some? <==> exists k :: 0 <= k <= |attrs| && ClosedOpeningAt(attrs, name, k)
  {
    SearchFromFound(attrs, name, 0);
  }

  /** The leftmost index at or after `i` where `p` occurs without regard to case. */
  function FirstOccurrenceFrom(s: string, p: string, i: nat): (r: Option<nat>)
    requires i <= |s|
    ensures r.Some? ==> i <= r.value <= |s| && OccursAtIgnoringCase(s, p, r.value)
    ensures r.Some? ==> forall k :: i <= k < r.value ==> !OccursAtIgnoringCase(s, p, k)
    ensures r.None? ==> forall k :: i <= k <= |s| ==> !OccursAtIgnoringCase(s, p, k)
    decreases |s| - i
  {
    if OccursAtIgnoringCase(s, p, i) then Some(i)
    else if i == |s| then None
    else FirstOccurrenceFrom(s, p, i + 1)
  }

  /**
    A second reading of the same pattern: find the leftmost opening at or after
    `i`, then take everything up to the next quote; nothing when that opening
    has no closing quote.
   */
  function LeftmostValueFrom(attrs: string, name: string, i: nat): Option<string>
    requires i <= |attrs|
  {
    var p := Opening(name);
    match FirstOccurrenceFrom(attrs, p, i)
    case None => None
    case Some(o) =>
      match IndexOfFrom(attrs, '"', o + |p|)
      case None => None
      case Some(j) => Some(attrs[o + |p|..j])
  }

  /** No attempt at or after `k` succeeds when no quote stands at or after `q <= k + |p| - 1`. */
  lemma {:induction false} NoMatchWithoutQuote(attrs: string, name: string, k: nat, q: nat)
    requires k <= |attrs|
    requires q < k + |Opening(name)|
    requires forall m :: q <= m < |attrs| ==> attrs[m] != '"'
    ensures SearchFrom(attrs, name, k) == None
    decreases |attrs| - k
  {
    if k < |attrs| {
      NoMatchWithoutQuote(attrs, name, k + 1, q);
    }
  }

  /** Where no opening stands, both readings move on to the next index. */
  lemma SkipNonOpening(attrs: string, name: string, i: nat)
    requires i < |attrs| && !OccursAtIgnoringCase(attrs, Opening(name), i)
    ensures SearchFrom(attrs, name, i) == SearchFrom(attrs, name, i + 1)
    ensures LeftmostValueFrom(attrs, name, i) == LeftmostValueFrom(attrs, name, i + 1)
  {
    assert MatchAt(attrs, name, i) == None;
  }

  /** At an opening, the search gives what the leftmost-opening reading gives. */
  lemma AtOpening(attrs: string, name: string, i: nat)
    requires i <= |attrs| && OccursAtIgnoringCase(attrs, Opening(name), i)
    ensures SearchFrom(attrs, name, i) == LeftmostValueFrom(attrs, name, i)
  {
    var p := Opening(name);
    assert FirstOccurrenceFrom(attrs, p, i) == Some(i);
    if IndexOfFrom(attrs, '"', i + |p|).None? && i < |attrs| {
      NoMatchWithoutQuote(attrs, name, i + 1, i + |p|);
    }
  }

  lemma {:induction false} SearchFromIsLeftmost(attrs: string, name: string, i: nat)
    requires i <= |attrs|
    ensures SearchFrom(attrs, name, i) == LeftmostValueFrom(attrs, name, i)
    decreases |attrs| - i
  {
    if OccursAtIgnoringCase(attrs, Opening(name), i) {
      AtOpening(attrs, name, i);
    } else if i < |attrs| {
      SkipNonOpening(attrs, name, i);
      SearchFromIsLeftmost(attrs, name, i + 1);
    }
  }

  /**
    The backtracking search and the leftmost-opening reading agree: an opening
    without a closing quote cannot be followed by a later opening that has one.
   */
  lemma ExtractAttributeIsLeftmost(attrs: string, name: string)
    ensures ExtractAttribute(attrs, name) == LeftmostValueFrom(attrs, name, 0)
  {
    SearchFromIsLeftmost(attrs, name, 0);
  }

  /**
    Where the extracted value sits: right after the leftmost opening, and
    followed by a quote.
   */
  lemma ExtractedValueInPlace(attrs: string, name: string)
    requires ExtractAttribute(attrs, name).Some?
    ensures var p := Opening(name);
      var v := ExtractAttribute(attrs, name).value;
      exists i :: FirstOccurrenceFrom(attrs, p, 0) == Some(i)
        && OccursAt(attrs, v + "\"", i + |p|)
  {
    ExtractAttributeIsLeftmost(attrs, name);
    var p := Opening(name);
    var o := FirstOccurrenceFrom(attrs, p, 0);
    assert o.Some?;
    var i := o.value;
    var q := IndexOfFrom(attrs, '"', i + |p|);
    assert q.Some?;
    var j := q.value;
    var v := attrs[i + |p|..j];
    assert ExtractAttribute(attrs, name) == Some(v);
    assert OccursAt(attrs, v + "\"", i + |p|) by {
      assert attrs[i + |p|..j + 1] == v + [attrs[j]];
    }
  }
}
