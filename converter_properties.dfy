/**
  What `convertVectorDrawableToSVG` promises, stated over the definitions of
  module `Converter`: when it gives no document, where the root tag and the
  path elements are found, how the root's values and each path's attributes
  are resolved, and that the document it writes reads back into exactly those
  values.
 */
module ConverterProperties {
  import opened Wrappers
  import opened Text
  import opened Attributes
  import opened Colors
  import opened Svg
  import opened Converter

  // ---------------------------------------------------------------- the root tag

  /**
    A second reading of `<vector([^>]*)>`: the leftmost `<vector` at or after
    `i`, then everything up to the next `>`; nothing when that `<vector` has
    no `>` after it.
   */
  function LeftmostVectorAttrsFrom(s: string, i: nat): Option<string>
    requires i <= |s|
  {
    match FirstIndexFrom(s, VectorTag, i)
    case None => None
    case Some(o) =>
      match IndexOfFrom(s, '>', o + |VectorTag|)
      case None => None
      case Some(j) => Some(s[o + |VectorTag|..j])
  }

  /** No attempt at or after `k` succeeds when no `>` stands at or after `q <= k + |VectorTag|`. */
  lemma {:induction false} NoTagWithoutClose(s: string, k: nat, q: nat)
    requires k <= |s|
    requires q <= k + |VectorTag|
    requires forall m :: q <= m < |s| ==> s[m] != '>'
    ensures VectorAttrsFrom(s, k) == None
    decreases |s| - k
  {
    if k < |s| {
      NoTagWithoutClose(s, k + 1, q);
    }
  }

  lemma SkipNonTag(s: string, i: nat)
    requires i < |s| && !OccursAt(s, VectorTag, i)
    ensures VectorAttrsFrom(s, i) == VectorAttrsFrom(s, i + 1)
    ensures LeftmostVectorAttrsFrom(s, i) == LeftmostVectorAttrsFrom(s, i + 1)
  {
    assert TagEnd(s, VectorTag, i) == None;
  }

  lemma AtTag(s: string, i: nat)
    requires i <= |s| && OccursAt(s, VectorTag, i)
    ensures VectorAttrsFrom(s, i) == LeftmostVectorAttrsFrom(s, i)
  {
    assert FirstIndexFrom(s, VectorTag, i) == Some(i);
    if IndexOfFrom(s, '>', i + |VectorTag|).None? && i < |s| {
      NoTagWithoutClose(s, i + 1, i + |VectorTag|);
    }
  }

  lemma {:induction false} VectorAttrsFromIsLeftmost(s: string, i: nat)
    requires i <= |s|
    ensures VectorAttrsFrom(s, i) == LeftmostVectorAttrsFrom(s, i)
    decreases |s| - i
  {
    if OccursAt(s, VectorTag, i) {
      AtTag(s, i);
    } else if i < |s| {
      SkipNonTag(s, i);
      VectorAttrsFromIsLeftmost(s, i + 1);
    }
  }

  /**
    The backtracking search for the root tag and the leftmost-tag reading
    agree: a `<vector` with no `>` after it has no later `<vector` with one.
   */
  lemma VectorAttrsIsLeftmost(s: string)
    ensures VectorAttrs(s) == LeftmostVectorAttrsFrom(s, 0)
  {
    VectorAttrsFromIsLeftmost(s, 0);
  }

  /** The root tag's attribute text follows the leftmost `<vector` and runs up to the first `>` after it. */
  lemma VectorAttrsInPlace(xml: string)
    requires VectorAttrs(xml).Some?
    ensures var a := VectorAttrs(xml).value;
      '>' !in a && exists o :: FirstIndexFrom(xml, VectorTag, 0) == Some(o) && OccursAt(xml, VectorTag + a + ">", o)
  {
    VectorAttrsIsLeftmost(xml);
    var o := FirstIndexFrom(xml, VectorTag, 0).value;
    var j := IndexOfFrom(xml, '>', o + |VectorTag|).value;
    var a := xml[o + |VectorTag|..j];
    forall t | 0 <= t < |a|
      ensures a[t] != '>'
    {
      assert a[t] == xml[o + |VectorTag| + t];
    }
    assert xml[o..j + 1] == VectorTag + a + ">";
  }

  /** `convertVectorDrawableToSVG` gives `null` exactly when no `<vector` has a `>` somewhere after it. */
  lemma ConvertNullExactly(xml: string)
    ensures Convert(xml).None? <==> !HasVectorTag(xml)
  {
    VectorAttrsIsLeftmost(xml);
    if HasVectorTag(xml) {
      var k, j :| 0 <= k && k + |VectorTag| <= j < |xml| && OccursAt(xml, VectorTag, k) && xml[j] == '>';
      assert FirstIndexFrom(xml, VectorTag, 0).Some?;
      var o := FirstIndexFrom(xml, VectorTag, 0).value;
      assert IndexOfFrom(xml, '>', o + |VectorTag|).Some?;
    }
  }

  // ---------------------------------------------------------------- the path matches

  /** `exec` finds the leftmost match: none starts between `lastIndex` and the one it returns. */
  lemma {:induction false} ExecPathLeftmost(s: string, from: nat)
    requires from <= |s|
    ensures ExecPath(s, from).Some? ==>
      forall k :: from <= k < ExecPath(s, from).value.start ==> PathMatchAt(s, k).None?
    ensures ExecPath(s, from).None? ==> forall k :: from <= k <= |s| ==> PathMatchAt(s, k).None?
    decreases |s| - from
  {
    if PathMatchAt(s, from).None? && from < |s| {
      ExecPathLeftmost(s, from + 1);
    }
  }

  /**
    One attempt of the path pattern at `i`: it matches exactly when `<path`
    stands at `i` with a `>` somewhere after it. The capture is the text up to
    the first such `>`, a self-closing `/` included; the match ends after that
    `>`, or after a `</path>` that follows it at once.
   */
  lemma PathMatchAtSpec(s: string, i: nat)
    ensures PathMatchAt(s, i).Some? <==>
      OccursAt(s, PathTag, i) && exists j :: i + |PathTag| <= j < |s| && s[j] == '>'
    ensures PathMatchAt(s, i).Some? ==>
      var m := PathMatchAt(s, i).value;
      var close := i + |PathTag| + |m.attrs|;
      '>' !in m.attrs && OccursAt(s, PathTag + m.attrs + ">", i)
      && m.end == (if OccursAt(s, PathClose, close + 1) then close + 1 + |PathClose| else close + 1)
  {
    match TagEnd(s, PathTag, i)
    case None =>
    case Some(j) =>
      var a := s[i + |PathTag|..j];
      forall t | 0 <= t < |a|
        ensures a[t] != '>'
      {
        assert a[t] == s[i + |PathTag| + t];
      }
      assert s[i..j + 1] == PathTag + a + ">";
  }

  /**
    A second reading of one `exec` of the path pattern: only the leftmost
    `<path` at or after `from` is tried; nothing when it has no `>` after it.
   */
  function LeftmostPathFrom(s: string, from: nat): Option<PathMatch>
    requires from <= |s|
  {
    match FirstIndexFrom(s, PathTag, from)
    case None => None
    case Some(o) => PathMatchAt(s, o)
  }

  /** No attempt at or after `k` succeeds when no `>` stands at or after `q <= k + |PathTag|`. */
  lemma {:induction false} NoPathWithoutClose(s: string, k: nat, q: nat)
    requires k <= |s|
    requires q <= k + |PathTag|
    requires forall m :: q <= m < |s| ==> s[m] != '>'
    ensures ExecPath(s, k) == None
    decreases |s| - k
  {
    if k < |s| {
      NoPathWithoutClose(s, k + 1, q);
    }
  }

  lemma SkipNonPath(s: string, i: nat)
    requires i < |s| && !OccursAt(s, PathTag, i)
    ensures ExecPath(s, i) == ExecPath(s, i + 1)
    ensures LeftmostPathFrom(s, i) == LeftmostPathFrom(s, i + 1)
  {
    assert TagEnd(s, PathTag, i) == None;
    assert FirstIndexFrom(s, PathTag, i) == FirstIndexFrom(s, PathTag, i + 1);
  }

  lemma AtPath(s: string, i: nat)
    requires i <= |s| && OccursAt(s, PathTag, i)
    ensures ExecPath(s, i) == LeftmostPathFrom(s, i)
  {
    assert FirstIndexFrom(s, PathTag, i) == Some(i);
    if PathMatchAt(s, i).None? && i < |s| {
      NoPathWithoutClose(s, i + 1, i + |PathTag|);
    }
  }

  /**
    The backtracking `exec` and the leftmost-`<path` reading agree: a `<path`
    with no `>` after it has no later `<path` with one.
   */
  lemma {:induction false} ExecPathIsLeftmost(s: string, from: nat)
    requires from <= |s|
    ensures ExecPath(s, from) == LeftmostPathFrom(s, from)
    decreases |s| - from
  {
    if OccursAt(s, PathTag, from) {
      AtPath(s, from);
    } else if from < |s| {
      SkipNonPath(s, from);
      ExecPathIsLeftmost(s, from + 1);
    }
  }

  /**
    The loop's matches are matches of the path pattern where they start; they
    come in document order and do not overlap.
   */
  lemma {:induction false} MatchesInOrder(s: string, from: nat)
    requires from <= |s|
    ensures forall i :: 0 <= i < |Matches(s, from)| ==>
      from <= Matches(s, from)[i].start && PathMatchAt(s, Matches(s, from)[i].start) == Some(Matches(s, from)[i])
    ensures forall i :: 0 <= i < |Matches(s, from)| - 1 ==> Matches(s, from)[i].end <= Matches(s, from)[i + 1].start
    decreases |s| - from
  {
    match ExecPath(s, from)
    case None =>
    case Some(m) =>
      MatchesInOrder(s, m.end);
      var rest := Matches(s, m.end);
      var ms := [m] + rest;
      assert Matches(s, from) == ms;
      assert from <= m.start < m.end && PathMatchAt(s, m.start) == Some(m);
      forall i | 0 < i < |ms|
        ensures ms[i] == rest[i - 1]
      {
      }
  }

  /**
    No path element is skipped: every place at or after `from` where the
    pattern matches lies inside the span of one of the loop's matches.
   */
  lemma {:induction false} MatchesCover(s: string, from: nat, k: nat)
    requires from <= k <= |s| && PathMatchAt(s, k).Some?
    ensures exists m :: m in Matches(s, from) && m.start <= k < m.end
    decreases |s| - from
  {
    ExecPathLeftmost(s, from);
    var m := ExecPath(s, from).value;
    assert Matches(s, from) == [m] + Matches(s, m.end);
    if k >= m.end {
      MatchesCover(s, m.end, k);
      var n :| n in Matches(s, m.end) && n.start <= k < n.end;
      assert n in Matches(s, from);
    }
  }

  // ---------------------------------------------------------------- which elements are written

  /** The matched elements that have path data, in match order. */
  function WithPathData(ms: seq<PathMatch>): seq<PathMatch>
  {
    if ms == [] then []
    else if Truthy(DescribePath(ms[0].attrs).pathData) then [ms[0]] + WithPathData(ms[1..])
    else WithPathData(ms[1..])
  }

  /** The kept elements are exactly the matched elements that have path data. */
  lemma {:induction false} WithPathDataMembers(ms: seq<PathMatch>)
    ensures forall m :: m in WithPathData(ms) <==> m in ms && Truthy(DescribePath(m.attrs).pathData)
  {
    if ms != [] {
      WithPathDataMembers(ms[1..]);
      assert ms == [ms[0]] + ms[1..];
    }
  }

  /**
    One SVG path per element with non-empty path data, in the elements'
    order, with its `d` copied verbatim; elements without path data give none.
   */
  lemma {:induction false} ResolvedPathsAreTheElementsWithData(ms: seq<PathMatch>, tint: Option<string>)
    ensures var paths := ResolvedPaths(ms, tint);
      var kept := WithPathData(ms);
      |paths| == |kept|
      && forall k :: 0 <= k < |kept| ==>
        ToSvgPath(DescribePath(kept[k].attrs), tint) == Some(paths[k])
        && Truthy(DescribePath(kept[k].attrs).pathData)
        && paths[k].d == DescribePath(kept[k].attrs).pathData.value
  {
    if ms != [] {
      var h, t := ms[0], ms[1..];
      ResolvedPathsAreTheElementsWithData(t, tint);
      var paths, kept := ResolvedPaths(t, tint), WithPathData(t);
      if Truthy(DescribePath(h.attrs).pathData) {
        var p := ToSvgPath(DescribePath(h.attrs), tint).value;
        assert ResolvedPaths(ms, tint) == [p] + paths;
        assert WithPathData(ms) == [h] + kept;
        forall k | 0 <= k < |kept| + 1
          ensures ToSvgPath(DescribePath(([h] + kept)[k].attrs), tint) == Some(([p] + paths)[k])
            && Truthy(DescribePath(([h] + kept)[k].attrs).pathData)
            && ([p] + paths)[k].d == DescribePath(([h] + kept)[k].attrs).pathData.value
        {
          if k > 0 {
            assert ([h] + kept)[k] == kept[k - 1] && ([p] + paths)[k] == paths[k - 1];
          }
        }
      } else {
        assert ResolvedPaths(ms, tint) == paths;
        assert WithPathData(ms) == kept;
      }
    }
  }

  // ---------------------------------------------------------------- the root's values

  /** Only one trailing `dp` goes; every other suffix stays. */
  lemma StripDpExamples()
    ensures StripDp("48dp") == "48"
    ensures StripDp("48px") == "48px"
    ensures StripDp("48") == "48"
    ensures StripDp("4dpdp") == "4dp"
    ensures StripDp("dp") == ""
  {
    assert EndsWith("48dp", "dp");
    assert !EndsWith("48px", "dp") by { assert "48px"[2..] != "dp"; }
    assert !EndsWith("48", "dp") by { assert "48"[0..] != "dp"; }
    assert EndsWith("4dpdp", "dp");
    assert EndsWith("dp", "dp");
  }

  lemma StripDpKeepsQuotesOut(v: string)
    requires Unquoted(v)
    ensures Unquoted(StripDp(v))
  {
    var r := StripDp(v);
    forall t | 0 <= t < |r|
      ensures r[t] != '"'
    {
      assert r[t] == v[t];
    }
  }

  /**
    The root's resolution: the viewport comes from the tag or is `24` when
    absent or empty; the size comes from the tag less one trailing `dp`, or is
    the viewport when absent, empty or exactly `dp`; the tint is taken as found.
   */
  lemma RootResolution(vectorAttrs: string)
    ensures var root := DescribeRoot(vectorAttrs);
      var vw := ExtractAttribute(vectorAttrs, "android:viewportWidth");
      var vh := ExtractAttribute(vectorAttrs, "android:viewportHeight");
      var w := ExtractAttribute(vectorAttrs, "android:width");
      var h := ExtractAttribute(vectorAttrs, "android:height");
      (Truthy(vw) ==> root.viewportWidth == vw.value)
      && (!Truthy(vw) ==> root.viewportWidth == DefaultViewport)
      && (Truthy(vh) ==> root.viewportHeight == vh.value)
      && (!Truthy(vh) ==> root.viewportHeight == DefaultViewport)
      && (w.Some? && StripDp(w.value) != "" ==> root.width == StripDp(w.value))
      && (w.None? || StripDp(w.value) == "" ==> root.width == root.viewportWidth)
      && (h.Some? && StripDp(h.value) != "" ==> root.height == StripDp(h.value))
      && (h.None? || StripDp(h.value) == "" ==> root.height == root.viewportHeight)
      && root.tint == ExtractAttribute(vectorAttrs, "android:tint")
  {
  }

  /** Every resolved root value is non-empty and free of quotes, and so is the tint when there is one. */
  lemma RootWritable(vectorAttrs: string)
    ensures var root := DescribeRoot(vectorAttrs);
      root.viewportWidth != "" && root.viewportHeight != "" && root.width != "" && root.height != ""
      && Unquoted(root.viewportWidth) && Unquoted(root.viewportHeight)
      && Unquoted(root.width) && Unquoted(root.height) && UnquotedOption(root.tint)
  {
    var w := ExtractAttribute(vectorAttrs, "android:width");
    var h := ExtractAttribute(vectorAttrs, "android:height");
    if w.Some? {
      StripDpKeepsQuotesOut(w.value);
    }
    if h.Some? {
      StripDpKeepsQuotesOut(h.value);
    }
  }

  // ---------------------------------------------------------------- each path's attributes

  /**
    The rules for one element: a path exactly when there is path data, `d`
    verbatim; the fill token falls back from the element's fill colour to the
    tint and then to black, and `fill` is written, translated, exactly when
    that token is not `none`; `fill-opacity` only with `fill`; `stroke`
    exactly when there is a stroke colour, and the stroke's width and opacity
    only with it.
   */
  lemma PathRules(path: PathDescriptor, tint: Option<string>)
    ensures ToSvgPath(path, tint).Some? <==> Truthy(path.pathData)
    ensures Truthy(path.fillColor) ==> FillToken(path, tint) == path.fillColor.value
    ensures !Truthy(path.fillColor) && Truthy(tint) ==> FillToken(path, tint) == tint.value
    ensures !Truthy(path.fillColor) && !Truthy(tint) ==> FillToken(path, tint) == Black
    ensures ToSvgPath(path, tint).Some? ==>
      var p := ToSvgPath(path, tint).value;
      p.d == path.pathData.value
      && (p.fill.Some? <==> FillToken(path, tint) != "none")
      && (p.fill.Some? ==> p.fill.value == ConvertColor(FillToken(path, tint)) && p.fill.value != "none")
      && (p.fillOpacity.Some? <==> p.fill.Some? && Truthy(path.fillAlpha))
      && (p.fillOpacity.Some? ==> p.fillOpacity == path.fillAlpha)
      && (p.stroke.Some? <==> Truthy(path.strokeColor))
      && (p.stroke.Some? ==> p.stroke.value == ConvertColor(path.strokeColor.value))
      && (p.strokeWidth.Some? <==> p.stroke.Some? && Truthy(path.strokeWidth))
      && (p.strokeWidth.Some? ==> p.strokeWidth == path.strokeWidth)
      && (p.strokeOpacity.Some? <==> p.stroke.Some? && Truthy(path.strokeAlpha))
      && (p.strokeOpacity.Some? ==> p.strokeOpacity == path.strokeAlpha)
  {
    NoneOnlyFromNone(FillToken(path, tint));
  }

  /** A path resolved from quote-free attributes can be written between quotes. */
  lemma PathWritable(pathAttrs: string, tint: Option<string>)
    requires UnquotedOption(tint)
    ensures var p := ToSvgPath(DescribePath(pathAttrs), tint);
      p.Some? ==> Writable(p.value)
  {
    var path := DescribePath(pathAttrs);
    KeepsQuotesOut(FillToken(path, tint));
    if path.strokeColor.Some? {
      KeepsQuotesOut(path.strokeColor.value);
    }
  }

  lemma {:induction false} ResolvedPathsWritable(ms: seq<PathMatch>, tint: Option<string>)
    requires UnquotedOption(tint)
    ensures forall k :: 0 <= k < |ResolvedPaths(ms, tint)| ==> Writable(ResolvedPaths(ms, tint)[k])
  {
    if ms != [] {
      PathWritable(ms[0].attrs, tint);
      ResolvedPathsWritable(ms[1..], tint);
      var rest := ResolvedPaths(ms[1..], tint);
      match ToSvgPath(DescribePath(ms[0].attrs), tint)
      case None =>
        assert ResolvedPaths(ms, tint) == rest;
      case Some(p) =>
        assert ResolvedPaths(ms, tint) == [p] + rest;
        forall k | 0 < k < |rest| + 1
          ensures ([p] + rest)[k] == rest[k - 1]
        {
        }
    }
  }

  // ---------------------------------------------------------------- the document

  /**
    The document reads back: its size and viewBox are the root's resolved
    values (all non-empty), and its body is one path line per resolved path,
    in order, each reading back as that path's `d` and presentation attributes.
   */
  lemma ConvertedLayout(xml: string)
    ensures Convert(xml).Some? <==> VectorAttrs(xml).Some?
    ensures VectorAttrs(xml).Some? ==>
      var root := DescribeRoot(VectorAttrs(xml).value);
      var paths := ResolvedPaths(Matches(xml, 0), root.tint);
      root.width != "" && root.height != "" && root.viewportWidth != "" && root.viewportHeight != ""
      && ReadDocument(Convert(xml).value)
        == Some(Fields(root.width, root.height, ViewBox(root.viewportWidth, root.viewportHeight), Body(paths)))
      && ReadPaths(Body(paths)) == Some(Views(paths))
  {
    if VectorAttrs(xml).Some? {
      var root := DescribeRoot(VectorAttrs(xml).value);
      var paths := ResolvedPaths(Matches(xml, 0), root.tint);
      assert Convert(xml).value == Document(root.width, root.height, root.viewportWidth, root.viewportHeight, Body(paths));
      RootWritable(VectorAttrs(xml).value);
      ReadDocumentWritten(root.width, root.height, root.viewportWidth, root.viewportHeight, Body(paths));
      ResolvedPathsWritable(Matches(xml, 0), root.tint);
      ReadPathsWritten(paths);
    }
  }

  // ---------------------------------------------------------------- worked examples

  /**
    An 8-digit fill moves its alpha last; a `none` fill writes no fill; a
    stroked path without a fill colour takes its fill from the tint.
   */
  lemma Examples()
    ensures ConvertColor("#FF112233") == "#112233FF"
    ensures ToSvgPath(PathDescriptor(Some("M0 0L10 10"), Some("#FF112233"), None, None, None, None), None)
      == Some(SvgPath("M0 0L10 10", Some("#112233FF"), None, None, None, None))
    ensures ToSvgPath(PathDescriptor(Some("M1 1"), Some("none"), None, None, None, None), None)
      == Some(SvgPath("M1 1", None, None, None, None, None))
    ensures ToSvgPath(PathDescriptor(Some("M1 1"), None, Some("#000000"), Some("2"), None, None), Some("#FF0000"))
      == Some(SvgPath("M1 1", Some("#FF0000"), None, Some("#000000"), Some("2"), None))
  {
    AlphaMovesLast('F', 'F', '1', '1', '2', '2', '3', '3');
    FirstCharDiffers("#FF112233", "@color/");
    FirstCharDiffers("#FF112233", "?");
    FirstCharDiffers("#FF0000", "@color/");
    FirstCharDiffers("#FF0000", "?");
    FirstCharDiffers("#000000", "@color/");
    FirstCharDiffers("#000000", "?");
  }

  /**
    A whole document: a root tag without attributes and no path element
    converts to the template with every size and viewport defaulted to `24`
    and an empty body.
   */
  lemma EmptyDrawable()
    ensures Convert("<vector></vector>") == Some(Document("24", "24", "24", "24", ""))
  {
    EmptyRootTag();
    NoPathInEmptyDrawable();
    assert DescribeRoot("") == RootDescriptor("24", "24", "24", "24", None);
  }

  lemma EmptyRootTag()
    ensures VectorAttrs("<vector></vector>") == Some("")
  {
    var xml := "<vector></vector>";
    assert OccursAt(xml, VectorTag, 0) && xml[7] == '>';
    assert TagEnd(xml, VectorTag, 0) == Some(7);
    assert xml[7..7] == "";
  }

  lemma NoPathInEmptyDrawable()
    ensures Matches("<vector></vector>", 0) == []
  {
    var xml := "<vector></vector>";
    forall k | 0 <= k <= |xml|
      ensures !OccursAt(xml, PathTag, k)
    {
      if k + |PathTag| <= |xml| {
        var w := xml[k..k + |PathTag|];
        assert w[0] == xml[k] && w[1] == xml[k + 1];
      }
    }
    ExecPathIsLeftmost(xml, 0);
  }
}
