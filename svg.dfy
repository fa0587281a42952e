/**
  The SVG text the converter writes: one `<path .../>` line per drawable
  path, inside a fixed document template. Besides the writer, a reader for
  exactly this layout, so that the layout can be shown to be unambiguous:
  reading what was written gives back what was written.
 */
module Svg {
  import opened Wrappers
  import opened Text

  /** One output path: `d` and the optional presentation attributes. */
  datatype SvgPath = SvgPath(
    d: string,
    fill: Option<string>,
    fillOpacity: Option<string>,
    stroke: Option<string>,
    strokeWidth: Option<string>,
    strokeOpacity: Option<string>)

  /** A path as a reader sees it: `d` and its other attributes in written order. */
  datatype PathView = PathView(d: string, attributes: seq<(string, string)>)

  /** The parts of a document that the writer fills in. */
  datatype Fields = Fields(width: string, height: string, viewBox: string, body: string)

  predicate Unquoted(v: string)
  {
    '"' !in v
  }

  predicate UnquotedOption(v: Option<string>)
  {
    v.Some? ==> Unquoted(v.value)
  }

  /** Every value of the path can stand between quotes. */
  predicate Writable(p: SvgPath)
  {
    Unquoted(p.d) && UnquotedOption(p.fill) && UnquotedOption(p.fillOpacity)
    && UnquotedOption(p.stroke) && UnquotedOption(p.strokeWidth) && UnquotedOption(p.strokeOpacity)
  }

  /** An attribute name the reader can find its way past. */
  predicate IsName(n: string)
  {
    '=' !in n && '"' !in n && (n == [] || n[0] != '/')
  }

  predicate WritablePairs(attrs: seq<(string, string)>)
  {
    forall k :: 0 <= k < |attrs| ==> IsName(attrs[k].0) && Unquoted(attrs[k].1)
  }

  function Pair(name: string, value: Option<string>): seq<(string, string)>
  {
    match value
    case None => []
    case Some(v) => [(name, v)]
  }

  /** The presentation attributes of a path, in the order they are written. */
  function Presentation(p: SvgPath): seq<(string, string)>
  {
    Pair("fill", p.fill) + Pair("fill-opacity", p.fillOpacity)
    + Pair("stroke", p.stroke) + Pair("stroke-width", p.strokeWidth)
    + Pair("stroke-opacity", p.strokeOpacity)
  }

  /** ` name="value"`: one attribute as the template literals of the converter write it. */
  function Attribute(name: string, value: string): string
  {
    " " + name + "=\"" + value + "\""
  }

  /** The attribute text of each pair, in order. */
  function WritePairs(attrs: seq<(string, string)>): string
  {
    if attrs == [] then ""
    else Attribute(attrs[0].0, attrs[0].1) + WritePairs(attrs[1..])
  }

  /** The attribute's text when it is present, nothing otherwise. */
  function OptionalAttribute(name: string, value: Option<string>): string
  {
    match value
    case None => ""
    case Some(v) => Attribute(name, v)
  }

  /** The fill attributes of a path, as written. */
  function FillText(p: SvgPath): string
  {
    OptionalAttribute("fill", p.fill) + OptionalAttribute("fill-opacity", p.fillOpacity)
  }

  /** The stroke attributes of a path, as written. */
  function StrokeText(p: SvgPath): string
  {
    OptionalAttribute("stroke", p.stroke) + OptionalAttribute("stroke-width", p.strokeWidth)
    + OptionalAttribute("stroke-opacity", p.strokeOpacity)
  }

  /** One output line for one path. */
  function PathLine(p: SvgPath): string
  {
    "<path d=\"" + p.d + "\"" + (FillText(p) + StrokeText(p)) + " />\n"
  }

  /** The lines of all paths, in order. */
  function Body(paths: seq<SvgPath>): string
  {
    if paths == [] then "" else PathLine(paths[0]) + Body(paths[1..])
  }

  const Declaration := "<?xml version=\"1.0\" encoding=\"utf-8\"?>\n"
  const BeforeWidth := Declaration + "<svg xmlns=\"http://www.w3.org/2000/svg\" \n     width=\""
  const BeforeHeight := " \n     height=\""
  const BeforeViewBox := " \n     viewBox=\""
  const BeforeBody := ">\n"
  const Closing := "</svg>"

  function ViewBox(viewportWidth: string, viewportHeight: string): string
  {
    "0 0 " + viewportWidth + " " + viewportHeight
  }

  /** The document template: size, viewport and the path lines. */
  function Document(width: string, height: string, viewportWidth: string, viewportHeight: string, body: string): string
  {
    BeforeWidth + width + "\""
    + (BeforeHeight + height + "\""
    + (BeforeViewBox + ViewBox(viewportWidth, viewportHeight) + "\""
    + (BeforeBody + body + Closing)))
  }

  // ---------------------------------------------------------------- reader

  /** The text before the first `c` and the text after it. */
  function ReadUntil(s: string, c: char): (r: Option<(string, string)>)
    ensures r.Some? ==> |r.value.1| < |s|
  {
    match IndexOfFrom(s, c, 0)
    case None => None
    case Some(j) => Some((s[..j], s[j + 1..]))
  }

  /** What follows the literal `lit` at the start of `s`. */
  function ReadLiteral(s: string, lit: string): (r: Option<string>)
    ensures r.Some? ==> |r.value| <= |s|
  {
    if StartsWith(s, lit) then Some(s[|lit|..]) else None
  }

  /** A literal, then a value up to its closing quote; and the text after that quote. */
  function ReadField(s: string, lit: string): Option<(string, string)>
  {
    match ReadLiteral(s, lit)
    case None => None
    case Some(r) => ReadUntil(r, '"')
  }

  /** One ` name="value"` pair, and the text after it. */
  function ReadPair(s: string): (r: Option<(string, string, string)>)
    ensures r.Some? ==> |r.value.2| < |s|
  {
    match ReadLiteral(s, " ")
    case None => None
    case Some(r0) =>
      match ReadUntil(r0, '=')
      case None => None
      case Some((n, r1)) =>
        match ReadField(r1, "\"")
        case None => None
        case Some((v, r2)) => Some((n, v, r2))
  }

  /** ` name="value"` pairs up to ` />` and the line break. */
  function ReadPairs(s: string): Option<(seq<(string, string)>, string)>
    decreases |s|
  {
    if StartsWith(s, " />\n") then Some(([], s[4..]))
    else match ReadPair(s)
      case None => None
      case Some((n, v, r)) =>
        match ReadPairs(r)
        case None => None
        case Some((more, r')) => Some(([(n, v)] + more, r'))
  }

  /** One path line, and the text after it. */
  function ReadPathLine(s: string): (r: Option<(PathView, string)>)
    ensures r.Some? ==> |r.value.1| < |s|
  {
    match ReadField(s, "<path d=\"")
    case None => None
    case Some((d, r2)) =>
      match ReadPairs(r2)
      case None => None
      case Some((attrs, r3)) => if |r3| < |s| then Some((PathView(d, attrs), r3)) else None
  }

  /** A body made of path lines and nothing else. */
  function ReadPaths(s: string): Option<seq<PathView>>
    decreases |s|
  {
    if s == "" then Some([])
    else match ReadPathLine(s)
      case None => None
      case Some((p, rest)) =>
        match ReadPaths(rest)
        case None => None
        case Some(more) => Some([p] + more)
  }

  /** Width, height, viewBox and body of a document in the template's layout. */
  function ReadDocument(s: string): Option<Fields>
  {
    match ReadField(s, BeforeWidth)
    case None => None
    case Some((width, r1)) =>
      match ReadField(r1, BeforeHeight)
      case None => None
      case Some((height, r2)) =>
        match ReadField(r2, BeforeViewBox)
        case None => None
        case Some((viewBox, r3)) =>
          match ReadLiteral(r3, BeforeBody)
          case None => None
          case Some(r4) =>
            if EndsWith(r4, Closing) then Some(Fields(width, height, viewBox, r4[..|r4| - |Closing|]))
            else None
  }

  function View(p: SvgPath): PathView
  {
    PathView(p.d, Presentation(p))
  }

  function Views(paths: seq<SvgPath>): (r: seq<PathView>)
    ensures |r| == |paths|
    ensures forall k :: 0 <= k < |paths| ==> r[k] == View(paths[k])
  {
    if paths == [] then [] else [View(paths[0])] + Views(paths[1..])
  }

  // ---------------------------------------------------------------- round trips

  lemma StartsWithPrefix(a: string, b: string)
    ensures StartsWith(a + b, a)
  {
    assert (a + b)[..|a|] == a;
  }

  lemma ReadLiteralWritten(lit: string, rest: string)
    ensures ReadLiteral(lit + rest, lit) == Some(rest)
  {
    StartsWithPrefix(lit, rest);
    assert (lit + rest)[|lit|..] == rest;
  }

  lemma ReadUntilWritten(v: string, c: char, rest: string)
    requires c !in v
    ensures ReadUntil(v + [c] + rest, c) == Some((v, rest))
  {
    var s := v + [c] + rest;
    assert s[|v|] == c;
    assert forall k :: 0 <= k < |v| ==> s[k] == v[k];
    assert IndexOfFrom(s, c, 0) == Some(|v|);
    assert s[..|v|] == v && s[|v| + 1..] == rest;
  }

  lemma WritePairsAppend(a: seq<(string, string)>, b: seq<(string, string)>)
    ensures WritePairs(a + b) == WritePairs(a) + WritePairs(b)
  {
    if a != [] {
      assert (a + b)[1..] == a[1..] + b;
      WritePairsAppend(a[1..], b);
    } else {
      assert a + b == b;
    }
  }

  lemma ReadFieldWritten(lit: string, v: string, rest: string)
    requires Unquoted(v)
    ensures ReadField(lit + v + "\"" + rest, lit) == Some((v, rest))
  {
    assert lit + v + "\"" + rest == lit + (v + ['"'] + rest);
    ReadLiteralWritten(lit, v + ['"'] + rest);
    ReadUntilWritten(v, '"', rest);
  }

  /** A written pair does not look like the end of the line. */
  lemma PairIsNotEnd(n: string, r: string)
    requires IsName(n) && |r| > 0 && r[0] == '='
    ensures !StartsWith(" " + n + r, " />\n")
  {
    var s := " " + n + r;
    if |s| >= 4 {
      if n == [] { assert s[1] == r[0]; } else { assert s[1] == n[0]; }
      assert s[..4][1] == s[1];
    }
  }

  /** One written pair is read back. */
  lemma ReadPairWritten(n: string, v: string, tail: string)
    requires IsName(n) && Unquoted(v)
    ensures ReadPair(Attribute(n, v) + tail) == Some((n, v, tail))
  {
    var r1 := "\"" + v + "\"" + tail;
    var s := Attribute(n, v) + tail;
    assert s == " " + (n + ['='] + r1);
    assert ReadLiteral(s, " ") == Some(n + ['='] + r1) by {
      ReadLiteralWritten(" ", n + ['='] + r1);
    }
    assert ReadUntil(n + ['='] + r1, '=') == Some((n, r1)) by {
      ReadUntilWritten(n, '=', r1);
    }
    ReadFieldWritten("\"", v, tail);
  }

  /** One written pair is read, and reading goes on after it. */
  lemma ReadPairsStep(n: string, v: string, tail: string)
    requires IsName(n) && Unquoted(v)
    ensures ReadPairs(Attribute(n, v) + tail) ==
      match ReadPairs(tail)
      case None => None
      case Some((more, r)) => Some(([(n, v)] + more, r))
  {
    PairIsNotEnd(n, "=\"" + v + "\"" + tail);
    assert Attribute(n, v) + tail == " " + n + ("=\"" + v + "\"" + tail);
    ReadPairWritten(n, v, tail);
  }

  /** Writing one more pair appends its ` name="value"` text. */
  lemma WritePairsSnoc(attrs: seq<(string, string)>, n: string, v: string)
    ensures WritePairs(attrs + [(n, v)]) == WritePairs(attrs) + Attribute(n, v)
  {
    WritePairsAppend(attrs, [(n, v)]);
    assert [(n, v)][1..] == [];
  }

  lemma {:induction false} BodyAppend(a: seq<SvgPath>, b: seq<SvgPath>)
    ensures Body(a + b) == Body(a) + Body(b)
  {
    if a == [] {
      assert a + b == b;
    } else {
      assert (a + b)[1..] == a[1..] + b;
      BodyAppend(a[1..], b);
    }
  }

  lemma {:induction false} ReadPairsWritten(attrs: seq<(string, string)>, rest: string)
    requires WritablePairs(attrs)
    ensures ReadPairs(WritePairs(attrs) + " />\n" + rest) == Some((attrs, rest))
    decreases |attrs|
  {
    if attrs == [] {
      assert WritePairs(attrs) + " />\n" + rest == " />\n" + rest;
      StartsWithPrefix(" />\n", rest);
      assert (" />\n" + rest)[4..] == rest;
    } else {
      var n, v := attrs[0].0, attrs[0].1;
      var tail := WritePairs(attrs[1..]) + " />\n" + rest;
      assert WritePairs(attrs) + " />\n" + rest == Attribute(n, v) + tail;
      ReadPairsStep(n, v, tail);
      assert WritablePairs(attrs[1..]) by {
        forall k | 0 <= k < |attrs[1..]|
          ensures IsName(attrs[1..][k].0) && Unquoted(attrs[1..][k].1)
        {
          assert attrs[1..][k] == attrs[k + 1];
        }
      }
      ReadPairsWritten(attrs[1..], rest);
      assert [(n, v)] + attrs[1..] == attrs;
    }
  }

  lemma WritePair(name: string, value: Option<string>)
    ensures WritePairs(Pair(name, value)) == OptionalAttribute(name, value)
  {
    if value.Some? {
      assert [(name, value.value)][1..] == [];
    }
  }

  /** The presentation pairs, written out, are the optional attributes of the path line. */
  lemma PresentationText(p: SvgPath)
    ensures WritePairs(Presentation(p)) == FillText(p) + StrokeText(p)
  {
    var a, b, c, d, e := Pair("fill", p.fill), Pair("fill-opacity", p.fillOpacity),
      Pair("stroke", p.stroke), Pair("stroke-width", p.strokeWidth), Pair("stroke-opacity", p.strokeOpacity);
    assert Presentation(p) == (a + b) + (c + d + e);
    WritePairsAppend(a + b, c + d + e);
    WritePairsAppend(a, b);
    WritePairsAppend(c + d, e);
    WritePairsAppend(c, d);
    WritePair("fill", p.fill);
    WritePair("fill-opacity", p.fillOpacity);
    WritePair("stroke", p.stroke);
    WritePair("stroke-width", p.strokeWidth);
    WritePair("stroke-opacity", p.strokeOpacity);
  }

  /** The position of each presentation attribute in the written order. */
  function Rank(name: string): nat
  {
    if name == "fill" then 1
    else if name == "fill-opacity" then 2
    else if name == "stroke" then 3
    else if name == "stroke-width" then 4
    else 5
  }

  predicate InOrder(attrs: seq<(string, string)>)
  {
    forall i, j :: 0 <= i < j < |attrs| ==> Rank(attrs[i].0) < Rank(attrs[j].0)
  }

  predicate RankedBelow(attrs: seq<(string, string)>, r: nat)
  {
    forall i :: 0 <= i < |attrs| ==> Rank(attrs[i].0) < r
  }

  lemma AppendInOrder(attrs: seq<(string, string)>, name: string, value: Option<string>)
    requires InOrder(attrs) && RankedBelow(attrs, Rank(name))
    ensures InOrder(attrs + Pair(name, value)) && RankedBelow(attrs + Pair(name, value), Rank(name) + 1)
  {
  }

  /**
    The presentation attributes come in the order fill, fill-opacity,
    stroke, stroke-width, stroke-opacity, each at most once.
   */
  lemma PresentationInOrder(p: SvgPath)
    ensures InOrder(Presentation(p))
  {
    AppendInOrder([], "fill", p.fill);
    AppendInOrder(Pair("fill", p.fill), "fill-opacity", p.fillOpacity);
    AppendInOrder(Pair("fill", p.fill) + Pair("fill-opacity", p.fillOpacity), "stroke", p.stroke);
    AppendInOrder(Pair("fill", p.fill) + Pair("fill-opacity", p.fillOpacity) + Pair("stroke", p.stroke),
      "stroke-width", p.strokeWidth);
    AppendInOrder(Pair("fill", p.fill) + Pair("fill-opacity", p.fillOpacity) + Pair("stroke", p.stroke)
      + Pair("stroke-width", p.strokeWidth), "stroke-opacity", p.strokeOpacity);
    assert [] + Pair("fill", p.fill) == Pair("fill", p.fill);
  }

  lemma WritablePair(name: string, value: Option<string>)
    requires IsName(name) && UnquotedOption(value)
    ensures WritablePairs(Pair(name, value))
  {
  }

  lemma WritableAppend(a: seq<(string, string)>, b: seq<(string, string)>)
    requires WritablePairs(a) && WritablePairs(b)
    ensures WritablePairs(a + b)
  {
    forall k | 0 <= k < |a + b|
      ensures IsName((a + b)[k].0) && Unquoted((a + b)[k].1)
    {
      if k < |a| {
        assert (a + b)[k] == a[k];
      } else {
        assert (a + b)[k] == b[k - |a|];
      }
    }
  }

  lemma PresentationWritable(p: SvgPath)
    requires Writable(p)
    ensures WritablePairs(Presentation(p))
  {
    var a, b, c, d, e := Pair("fill", p.fill), Pair("fill-opacity", p.fillOpacity),
      Pair("stroke", p.stroke), Pair("stroke-width", p.strokeWidth), Pair("stroke-opacity", p.strokeOpacity);
    WritablePair("fill", p.fill);
    WritablePair("fill-opacity", p.fillOpacity);
    WritablePair("stroke", p.stroke);
    WritablePair("stroke-width", p.strokeWidth);
    WritablePair("stroke-opacity", p.strokeOpacity);
    WritableAppend(a, b);
    WritableAppend(a + b, c);
    WritableAppend(a + b + c, d);
    WritableAppend(a + b + c + d, e);
  }

  /** A path line reads back as the path's `d` and its presentation attributes in order. */
  lemma ReadPathLineWritten(p: SvgPath, rest: string)
    requires Writable(p)
    ensures ReadPathLine(PathLine(p) + rest) == Some((View(p), rest))
  {
    var pairs := WritePairs(Presentation(p)) + " />\n" + rest;
    assert PathLine(p) + rest == "<path d=\"" + p.d + "\"" + pairs by {
      PresentationText(p);
    }
    assert ReadField(PathLine(p) + rest, "<path d=\"") == Some((p.d, pairs)) by {
      ReadFieldWritten("<path d=\"", p.d, pairs);
    }
    assert ReadPairs(pairs) == Some((Presentation(p), rest)) by {
      PresentationWritable(p);
      ReadPairsWritten(Presentation(p), rest);
    }
  }

  lemma {:induction false} ReadPathsWritten(paths: seq<SvgPath>)
    requires forall k :: 0 <= k < |paths| ==> Writable(paths[k])
    ensures ReadPaths(Body(paths)) == Some(Views(paths))
  {
    if paths != [] {
      ReadPathLineWritten(paths[0], Body(paths[1..]));
      assert Body(paths) != "" by {
        assert |PathLine(paths[0])| > 0;
      }
      ReadPathsWritten(paths[1..]);
    }
  }

  /**
    The document template is unambiguous: size, viewBox and body come back out
    of the text as they went in, whenever they hold no quote.
   */
  lemma ReadDocumentWritten(width: string, height: string, viewportWidth: string, viewportHeight: string, body: string)
    requires Unquoted(width) && Unquoted(height) && Unquoted(viewportWidth) && Unquoted(viewportHeight)
    ensures ReadDocument(Document(width, height, viewportWidth, viewportHeight, body))
      == Some(Fields(width, height, ViewBox(viewportWidth, viewportHeight), body))
  {
    var viewBox := ViewBox(viewportWidth, viewportHeight);
    var r3 := BeforeBody + body + Closing;
    var r2 := BeforeViewBox + viewBox + "\"" + r3;
    var r1 := BeforeHeight + height + "\"" + r2;
    ReadFieldWritten(BeforeWidth, width, r1);
    ReadFieldWritten(BeforeHeight, height, r2);
    ReadFieldWritten(BeforeViewBox, viewBox, r3);
    ReadBodyWritten(body);
  }

  /** The tail of the document reads back as the body. */
  lemma ReadBodyWritten(body: string)
    ensures ReadLiteral(BeforeBody + body + Closing, BeforeBody) == Some(body + Closing)
    ensures EndsWith(body + Closing, Closing)
    ensures (body + Closing)[..|body + Closing| - |Closing|] == body
  {
    assert BeforeBody + body + Closing == BeforeBody + (body + Closing);
    ReadLiteralWritten(BeforeBody, body + Closing);
    assert (body + Closing)[|body|..] == Closing;
  }
}
