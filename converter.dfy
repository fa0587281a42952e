/**
  The conversion engine `convertVectorDrawableToSVG`: finds the `<vector>`
  tag, resolves the root's size, viewport and tint, scans the whole text for
  `<path>` elements and writes one SVG path line for each that has path data.
 */
module Converter {
  import opened Wrappers
  import opened Text
  import opened Attributes
  import opened Colors
  import opened Svg

  // ---------------------------------------------------------------- JavaScript `||`

  /** A value JavaScript treats as true: present and not the empty string. */
  predicate Truthy(v: Option<string>)
  {
    v.Some? && v.value != ""
  }

  /** `v || fallback` on a string-or-null. */
  function Or(v: Option<string>, fallback: string): (r: string)
    ensures Truthy(v) ==> r == v.value
    ensures !Truthy(v) ==> r == fallback
  {
    if Truthy(v) then v.value else fallback
  }

  // ---------------------------------------------------------------- tags

  /**
    The pattern `tag([^>]*)>` tried at index `i`: the tag's text, then
    everything up to the first `>`, which must exist. Gives the index of that `>`.
   */
  function TagEnd(s: string, tag: string, i: nat): (r: Option<nat>)
    ensures r.Some? ==> OccursAt(s, tag, i) && i + |tag| <= r.value < |s| && s[r.value] == '>'
    ensures r.Some? ==> forall k :: i + |tag| <= k < r.value ==> s[k] != '>'
    ensures OccursAt(s, tag, i) && (exists j :: i + |tag| <= j < |s| && s[j] == '>') ==> r.Some?
  {
    if OccursAt(s, tag, i) then IndexOfFrom(s, '>', i + |tag|) else None
  }

  const VectorTag := "<vector"

  /** The search of `<vector([^>]*)>` from index `i` on; the capture. */
  function VectorAttrsFrom(s: string, i: nat): (r: Option<string>)
    requires i <= |s|
    decreases |s| - i
  {
    match TagEnd(s, VectorTag, i)
    case Some(j) => Some(s[i + |VectorTag|..j])
    case None => if i == |s| then None else VectorAttrsFrom(s, i + 1)
  }

  /** `xmlContent.match(/<vector([^>]*)>/)[1]`: the root tag's attribute text. */
  function VectorAttrs(s: string): Option<string>
  {
    VectorAttrsFrom(s, 0)
  }

  /** The text holds `<vector` with a `>` somewhere after it. */
  predicate HasVectorTag(s: string)
  {
    exists i, j :: 0 <= i && i + |VectorTag| <= j < |s| && OccursAt(s, VectorTag, i) && s[j] == '>'
  }

  const PathTag := "<path"
  const PathClose := "</path>"

  /** One match of `<path([^>]*)\/?>(?:<\/path>)?`: where it starts, its capture, where it ends. */
  datatype PathMatch = PathMatch(start: nat, attrs: string, end: nat)

  /** The path pattern tried at index `i`; an immediately following `</path>` is consumed. */
  function PathMatchAt(s: string, i: nat): (r: Option<PathMatch>)
    ensures r.Some? ==> r.value.start == i < r.value.end <= |s|
  {
    match TagEnd(s, PathTag, i)
    case None => None
    case Some(j) => Some(PathMatch(i, s[i + |PathTag|..j], if OccursAt(s, PathClose, j + 1) then j + 1 + |PathClose| else j + 1))
  }

  /** `pathRegex.exec(xmlContent)` with `lastIndex == from`: the leftmost match at or after `from`. */
  function ExecPath(s: string, from: nat): (r: Option<PathMatch>)
    requires from <= |s|
    ensures r.Some? ==> from <= r.value.start && PathMatchAt(s, r.value.start) == r
    decreases |s| - from
  {
    var here := PathMatchAt(s, from);
    if here.Some? then here
    else if from == |s| then None
    else ExecPath(s, from + 1)
  }

  /** The matches the `while` loop of the converter sees, starting with `lastIndex == from`. */
  function Matches(s: string, from: nat): seq<PathMatch>
    requires from <= |s|
    decreases |s| - from
  {
    match ExecPath(s, from)
    case None => []
    case Some(m) => [m] + Matches(s, m.end)
  }

  // ---------------------------------------------------------------- descriptors

  /** The attributes of the root tag, resolved with their defaults. */
  datatype RootDescriptor = RootDescriptor(
    viewportWidth: string,
    viewportHeight: string,
    width: string,
    height: string,
    tint: Option<string>)

  /** The attributes of one `<path>` element as the extractor finds them. */
  datatype PathDescriptor = PathDescriptor(
    pathData: Option<string>,
    fillColor: Option<string>,
    strokeColor: Option<string>,
    strokeWidth: Option<string>,
    fillAlpha: Option<string>,
    strokeAlpha: Option<string>)

  const DefaultViewport := "24"

  /** `v.replace(/dp$/, "")`: one trailing `dp` removed, any other suffix kept. */
  function StripDp(v: string): (r: string)
    ensures EndsWith(v, "dp") ==> r + "dp" == v
    ensures !EndsWith(v, "dp") ==> r == v
  {
    if EndsWith(v, "dp") then v[..|v| - 2] else v
  }

  /** `extract?.replace(/dp$/, "")`: nothing stays nothing. */
  function StripDpOption(v: Option<string>): Option<string>
  {
    match v
    case None => None
    case Some(w) => Some(StripDp(w))
  }

  function DescribeRoot(vectorAttrs: string): RootDescriptor
  {
    var viewportWidth := Or(ExtractAttribute(vectorAttrs, "android:viewportWidth"), DefaultViewport);
    var viewportHeight := Or(ExtractAttribute(vectorAttrs, "android:viewportHeight"), DefaultViewport);
    RootDescriptor(
      viewportWidth,
      viewportHeight,
      Or(StripDpOption(ExtractAttribute(vectorAttrs, "android:width")), viewportWidth),
      Or(StripDpOption(ExtractAttribute(vectorAttrs, "android:height")), viewportHeight),
      ExtractAttribute(vectorAttrs, "android:tint"))
  }

  function DescribePath(pathAttrs: string): PathDescriptor
  {
    PathDescriptor(
      ExtractAttribute(pathAttrs, "android:pathData"),
      ExtractAttribute(pathAttrs, "android:fillColor"),
      ExtractAttribute(pathAttrs, "android:strokeColor"),
      ExtractAttribute(pathAttrs, "android:strokeWidth"),
      ExtractAttribute(pathAttrs, "android:fillAlpha"),
      ExtractAttribute(pathAttrs, "android:strokeAlpha"))
  }

  /** `fillColor || tint || "#000000"` */
  function FillToken(path: PathDescriptor, tint: Option<string>): string
  {
    Or(path.fillColor, Or(tint, Black))
  }

  /**
    The SVG path written for an element with path data `pathData` and the
    resolved fill token `fillColor`.
   */
  function PathFromValues(pathData: string, fillColor: string, fillAlpha: Option<string>,
                          strokeColor: Option<string>, strokeWidth: Option<string>, strokeAlpha: Option<string>): SvgPath
  {
    var fill := if fillColor != "" && fillColor != "none" then Some(ConvertColor(fillColor)) else None;
    var stroke := if Truthy(strokeColor) then Some(ConvertColor(strokeColor.value)) else None;
    SvgPath(
      pathData,
      fill,
      if fill.Some? && Truthy(fillAlpha) then fillAlpha else None,
      stroke,
      if stroke.Some? && Truthy(strokeWidth) then strokeWidth else None,
      if stroke.Some? && Truthy(strokeAlpha) then strokeAlpha else None)
  }

  /** The SVG path written for one element, or nothing when it has no path data. */
  function ToSvgPath(path: PathDescriptor, tint: Option<string>): Option<SvgPath>
  {
    if !Truthy(path.pathData) then None
    else Some(PathFromValues(path.pathData.value, FillToken(path, tint), path.fillAlpha,
                             path.strokeColor, path.strokeWidth, path.strokeAlpha))
  }

  /** The text written for one matched element: its path line, or nothing. */
  function ElementLine(pathAttrs: string, tint: Option<string>): string
  {
    match ToSvgPath(DescribePath(pathAttrs), tint)
    case None => ""
    case Some(p) => PathLine(p)
  }

  /** The SVG paths written for a run of matches, in match order. */
  function ResolvedPaths(ms: seq<PathMatch>, tint: Option<string>): seq<SvgPath>
  {
    if ms == [] then []
    else
      match ToSvgPath(DescribePath(ms[0].attrs), tint)
      case None => ResolvedPaths(ms[1..], tint)
      case Some(p) => [p] + ResolvedPaths(ms[1..], tint)
  }

  /** What `convertVectorDrawableToSVG` returns, as one expression. */
  function Convert(xml: string): Option<string>
  {
    match VectorAttrs(xml)
    case None => None
    case Some(vectorAttrs) =>
      var root := DescribeRoot(vectorAttrs);
      Some(Document(root.width, root.height, root.viewportWidth, root.viewportHeight,
        Body(ResolvedPaths(Matches(xml, 0), root.tint))))
  }

  lemma {:induction false} ResolvedPathsAppend(a: seq<PathMatch>, b: seq<PathMatch>, tint: Option<string>)
    ensures ResolvedPaths(a + b, tint) == ResolvedPaths(a, tint) + ResolvedPaths(b, tint)
  {
    if a == [] {
      assert a + b == b;
    } else {
      assert (a + b)[0] == a[0];
      assert (a + b)[1..] == a[1..] + b;
      ResolvedPathsAppend(a[1..], b, tint);
    }
  }

  lemma Associative(a: string, b: string, c: string)
    ensures a + b + c == a + (b + c)
  {
  }

  /** The loop consumes one match: what is left to write loses that match's line at its front. */
  lemma ConsumeMatch(s: string, from: nat, m: PathMatch, tint: Option<string>)
    requires from <= |s| && ExecPath(s, from) == Some(m)
    ensures Body(ResolvedPaths(Matches(s, from), tint))
      == ElementLine(m.attrs, tint) + Body(ResolvedPaths(Matches(s, m.end), tint))
  {
    var rest := Matches(s, m.end);
    assert Matches(s, from) == [m] + rest;
    ResolvedPathsAppend([m], rest, tint);
    BodyAppend(ResolvedPaths([m], tint), ResolvedPaths(rest, tint));
    assert [m][1..] == [];
    match ToSvgPath(DescribePath(m.attrs), tint)
    case None =>
    case Some(p) =>
      assert ResolvedPaths([m], tint) == [p];
      assert [p][1..] == [];
  }

  /**
    The body of `if (pathData) { ... }`: the element's text, started with its
    `d` and extended one attribute at a time.
   */
  method WritePathElement(pathData: string, fillColor: string, fillAlpha: Option<string>,
                          strokeColor: Option<string>, strokeWidth: Option<string>, strokeAlpha: Option<string>)
    returns (pathElement: string)
    ensures pathElement == PathLine(PathFromValues(pathData, fillColor, fillAlpha, strokeColor, strokeWidth, strokeAlpha))
  {
    ghost var p := PathFromValues(pathData, fillColor, fillAlpha, strokeColor, strokeWidth, strokeAlpha);
    pathElement := "<path d=\"" + pathData + "\"";
    ghost var head := pathElement;

    if fillColor != "" && fillColor != "none" {
      var color := ConvertColor(fillColor);
      pathElement := pathElement + Attribute("fill", color);
      if Truthy(fillAlpha) {
        pathElement := pathElement + Attribute("fill-opacity", fillAlpha.value);
        Associative(head, Attribute("fill", color), Attribute("fill-opacity", fillAlpha.value));
      } else {
        assert FillText(p) == Attribute("fill", color) + "";
      }
    } else {
      assert FillText(p) == "" + "";
    }
    assert pathElement == head + FillText(p);
    head := pathElement;

    if Truthy(strokeColor) {
      var stroke := ConvertColor(strokeColor.value);
      pathElement := pathElement + Attribute("stroke", stroke);
      ghost var width := OptionalAttribute("stroke-width", p.strokeWidth);
      if Truthy(strokeWidth) {
        pathElement := pathElement + Attribute("stroke-width", strokeWidth.value);
      } else {
        assert pathElement == pathElement + width;
      }
      Associative(head, Attribute("stroke", stroke), width);
      ghost var opacity := OptionalAttribute("stroke-opacity", p.strokeOpacity);
      if Truthy(strokeAlpha) {
        pathElement := pathElement + Attribute("stroke-opacity", strokeAlpha.value);
      } else {
        assert pathElement == pathElement + opacity;
      }
      Associative(head, Attribute("stroke", stroke) + width, opacity);
    } else {
      assert StrokeText(p) == "" + "" + "";
    }
    assert pathElement == head + StrokeText(p);
    Associative("<path d=\"" + p.d + "\"", FillText(p), StrokeText(p));
    pathElement := pathElement + " />\n";
  }

  /**
    One pass of the path loop: the element's attributes are read, the fill
    falls back to the tint and then to black, and a line is written only when
    the element has path data.
   */
  method WriteElement(pathAttrs: string, tint: Option<string>) returns (pathElement: string)
    ensures pathElement == ElementLine(pathAttrs, tint)
  {
    var pathData := ExtractAttribute(pathAttrs, "android:pathData");
    var fillColor := Or(ExtractAttribute(pathAttrs, "android:fillColor"), Or(tint, Black));
    var strokeColor := ExtractAttribute(pathAttrs, "android:strokeColor");
    var strokeWidth := ExtractAttribute(pathAttrs, "android:strokeWidth");
    var fillAlpha := ExtractAttribute(pathAttrs, "android:fillAlpha");
    var strokeAlpha := ExtractAttribute(pathAttrs, "android:strokeAlpha");

    pathElement := "";
    if Truthy(pathData) {
      pathElement := WritePathElement(pathData.value, fillColor, fillAlpha, strokeColor, strokeWidth, strokeAlpha);
    }
  }

  /**
    `convertVectorDrawableToSVG`. The `while` loop runs the global path
    pattern from `lastIndex` on and appends each element's line to `paths`;
    each line is built by appending its attributes one at a time.
   */
  method ConvertVectorDrawableToSvg(xmlContent: string) returns (svg: Option<string>)
    ensures svg == Convert(xmlContent)
  {
    var vectorMatch := VectorAttrs(xmlContent);
    if vectorMatch.None? {
      return None;
    }
    var vectorAttrs := vectorMatch.value;

    var viewportWidth := Or(ExtractAttribute(vectorAttrs, "android:viewportWidth"), DefaultViewport);
    var viewportHeight := Or(ExtractAttribute(vectorAttrs, "android:viewportHeight"), DefaultViewport);
    var width := Or(StripDpOption(ExtractAttribute(vectorAttrs, "android:width")), viewportWidth);
    var height := Or(StripDpOption(ExtractAttribute(vectorAttrs, "android:height")), viewportHeight);
    var tint := ExtractAttribute(vectorAttrs, "android:tint");

    ghost var all := Body(ResolvedPaths(Matches(xmlContent, 0), tint));
    var lastIndex: nat := 0;
    var paths := "";
    var match_ := ExecPath(xmlContent, lastIndex);
    while match_.Some?
      invariant lastIndex <= |xmlContent|
      invariant match_ == ExecPath(xmlContent, lastIndex)
      invariant paths + Body(ResolvedPaths(Matches(xmlContent, lastIndex), tint)) == all
      decreases |xmlContent| - lastIndex
    {
      var m := match_.value;
      ConsumeMatch(xmlContent, lastIndex, m, tint);
      lastIndex := m.end;

      var pathElement := WriteElement(m.attrs, tint);
      Associative(paths, pathElement, Body(ResolvedPaths(Matches(xmlContent, lastIndex), tint)));
      paths := paths + pathElement;
      match_ := ExecPath(xmlContent, lastIndex);
    }

    assert Matches(xmlContent, lastIndex) == [];
    assert paths == all;
    assert DescribeRoot(vectorAttrs) == RootDescriptor(viewportWidth, viewportHeight, width, height, tint);
    svg := Some(Document(width, height, viewportWidth, viewportHeight, paths));
  }
}
