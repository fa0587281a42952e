/**
  The text test of `isAndroidVectorDrawable`: a document is taken for a
  vector drawable when its language id is `xml` and its text holds `<vector`
  followed by a white-space character or `>`. The pattern has no `i` flag, so
  the match is with case.
 */
module Classifier {
  import opened Text
  import opened Converter
  import opened ConverterProperties

  const Marker := "<vector"

  /** `<vector[\s>]` matches at index `i`. */
  predicate MarkerAt(text: string, i: nat)
  {
    OccursAt(text, Marker, i) && i + |Marker| < |text|
    && (IsRegExpSpace(text[i + |Marker|]) || text[i + |Marker|] == '>')
  }

  /** `test` from index `i` on: each start is tried in turn. */
  function MarkerFrom(text: string, i: nat): bool
    requires i <= |text|
    decreases |text| - i
  {
    if MarkerAt(text, i) then true
    else if i == |text| then false
    else MarkerFrom(text, i + 1)
  }

  /** The test `isAndroidVectorDrawable` applies to a document's language id and text. */
  function IsVectorDrawableText(languageId: string, text: string): (r: bool)
    ensures r ==> languageId == "xml"
  {
    languageId == "xml" && MarkerFrom(text, 0)
  }

  lemma {:induction false} MarkerFromFound(text: string, i: nat)
    requires i <= |text|
    ensures MarkerFrom(text, i) <==> exists k :: i <= k <= |text| && MarkerAt(text, k)
    decreases |text| - i
  {
    if !MarkerAt(text, i) && i < |text| {
      MarkerFromFound(text, i + 1);
      assert forall k :: i <= k <= |text| && MarkerAt(text, k) ==> i + 1 <= k;
    }
  }

  /** An `xml` document is a vector drawable exactly when its text holds the marker somewhere. */
  lemma IsVectorDrawableTextFound(languageId: string, text: string)
    ensures IsVectorDrawableText(languageId, text)
      <==> languageId == "xml" && exists k :: 0 <= k <= |text| && MarkerAt(text, k)
  {
    MarkerFromFound(text, 0);
  }

  /** A marker closed at once by `>` is a root tag the converter accepts. */
  lemma ClosedMarkerConverts(text: string, k: nat)
    requires MarkerAt(text, k) && text[k + |Marker|] == '>'
    ensures Convert(text).Some?
  {
    assert HasVectorTag(text) by {
      assert OccursAt(text, VectorTag, k) && text[k + |VectorTag|] == '>';
    }
    ConvertNullExactly(text);
  }

  /**
    The test and the converter disagree in both directions: a marker followed
    by a space with no `>` anywhere passes the test but converts to nothing,
    and a tag such as `<vectors>` converts but fails the test.
   */
  lemma TestAndConverterDiffer()
    ensures IsVectorDrawableText("xml", "<vector ") && Convert("<vector ").None?
    ensures !IsVectorDrawableText("xml", "<vectors>") && Convert("<vectors>").Some?
  {
    var open := "<vector ";
    assert MarkerAt(open, 0);
    IsVectorDrawableTextFound("xml", open);
    ConvertNullExactly(open);
    assert !HasVectorTag(open) by {
      forall j | 0 <= j < |open|
        ensures open[j] != '>'
      {
      }
    }

    var plural := "<vectors>";
    IsVectorDrawableTextFound("xml", plural);
    forall k | 0 <= k <= |plural|
      ensures !MarkerAt(plural, k)
    {
      if k == 0 {
        assert plural[|Marker|] == 's';
      } else if k + |Marker| <= |plural| {
        assert plural[k] != '<';
      }
    }
    assert HasVectorTag(plural) by {
      assert OccursAt(plural, VectorTag, 0) && plural[8] == '>';
    }
    ConvertNullExactly(plural);
  }

  /** A text without `<vector` is neither taken for a vector drawable nor converted. */
  lemma NoVectorAnywhere(languageId: string, text: string)
    requires forall k :: 0 <= k <= |text| ==> !OccursAt(text, Marker, k)
    ensures !IsVectorDrawableText(languageId, text) && Convert(text).None?
  {
    IsVectorDrawableTextFound(languageId, text);
    ConvertNullExactly(text);
  }
}
