/**
  The colour translator `convertColor`: Android colour tokens to CSS colour
  tokens. Android writes alpha first (`#AARRGGBB`), CSS writes it last
  (`#RRGGBBAA`); resource and theme references cannot be resolved here and
  become a fixed grey.
 */
module Colors {
  import opened Text

  const Black := "#000000"
  const Grey := "#757575"

  predicate IsHexDigit(c: char)
  {
    '0' <= c <= '9' || 'a' <= c <= 'f' || 'A' <= c <= 'F'
  }

  /** The pattern `^#[0-9A-Fa-f]{8}$`. */
  predicate IsArgbHex(color: string)
  {
    |color| == 9 && color[0] == '#' && forall k :: 1 <= k < 9 ==> IsHexDigit(color[k])
  }

  /** A resource reference `@color/...` or a theme attribute `?...`. */
  predicate IsReference(color: string)
  {
    StartsWith(color, "@color/") || StartsWith(color, "?")
  }

  /** `convertColor` */
  function ConvertColor(color: string): (r: string)
    ensures |r| > 0
  {
    if color == "" then Black
    else if IsReference(color) then Grey
    else if IsArgbHex(color) then "#" + color[3..] + color[1..3]
    else color
  }

  /** The CSS-to-Android direction of the reordering: alpha moves back to the front. */
  function RgbaToArgb(color: string): (r: string)
    requires |color| == 9
  {
    "#" + color[7..] + color[1..7]
  }

  /** The empty token is opaque black. */
  lemma EmptyIsBlack()
    ensures ConvertColor("") == "#000000"
  {
  }

  /** Every reference becomes the grey placeholder, whatever it names. */
  lemma ReferencesAreGrey(name: string)
    ensures ConvertColor("@color/" + name) == "#757575"
    ensures ConvertColor("?" + name) == "#757575"
  {
    assert StartsWith("@color/" + name, "@color/");
    assert StartsWith("?" + name, "?");
  }

  /** `#AARRGGBB` becomes `#RRGGBBAA`, digit by digit. */
  lemma AlphaMovesLast(a1: char, a2: char, r1: char, r2: char, g1: char, g2: char, b1: char, b2: char)
    requires IsHexDigit(a1) && IsHexDigit(a2) && IsHexDigit(r1) && IsHexDigit(r2)
    requires IsHexDigit(g1) && IsHexDigit(g2) && IsHexDigit(b1) && IsHexDigit(b2)
    ensures ConvertColor(['#', a1, a2, r1, r2, g1, g2, b1, b2]) == ['#', r1, r2, g1, g2, b1, b2, a1, a2]
  {
    var c := ['#', a1, a2, r1, r2, g1, g2, b1, b2];
    FirstCharDiffers(c, "@color/");
    FirstCharDiffers(c, "?");
    assert IsArgbHex(c);
    assert c[3..] == [r1, r2, g1, g2, b1, b2] && c[1..3] == [a1, a2];
  }

  /**
    The reordering keeps the token an 8-digit hex colour of the same characters,
    and `RgbaToArgb` undoes it.
   */
  lemma ReorderIsPermutation(color: string)
    requires IsArgbHex(color)
    ensures IsArgbHex(ConvertColor(color))
    ensures multiset(ConvertColor(color)) == multiset(color)
    ensures ConvertColor(color)[7..] == color[1..3]
    ensures RgbaToArgb(ConvertColor(color)) == color
  {
    FirstCharDiffers(color, "@color/");
    FirstCharDiffers(color, "?");
    var r := ConvertColor(color);
    assert r == "#" + color[3..] + color[1..3];
    assert color == color[..1] + color[1..3] + color[3..];
    assert r[1..7] == color[3..] && r[7..] == color[1..3];
  }

  /** Any other token, a 6-digit hex or a named colour say, is returned as it is. */
  lemma OthersPassThrough(color: string)
    requires color != "" && !IsReference(color) && !IsArgbHex(color)
    ensures ConvertColor(color) == color
  {
  }

  /** Tokens other than 8-digit hex (6-digit hex, named colours, ...) are translated once and for all. */
  lemma Idempotent(color: string)
    requires !IsArgbHex(color)
    ensures ConvertColor(ConvertColor(color)) == ConvertColor(color)
  {
    var r := ConvertColor(color);
    if color == "" || IsReference(color) {
      FirstCharDiffers(r, "@color/");
      FirstCharDiffers(r, "?");
    } else if r != "" {
      assert r == color;
    }
  }

  /** A token without quotes translates to one without quotes. */
  lemma KeepsQuotesOut(color: string)
    requires '"' !in color
    ensures '"' !in ConvertColor(color)
  {
    if IsArgbHex(color) {
      ReorderIsPermutation(color);
      var r := ConvertColor(color);
      forall k | 0 <= k < |r|
        ensures r[k] != '"'
      {
        if k > 0 {
          assert IsHexDigit(r[k]);
        }
      }
    }
  }

  /** The only token that translates to `none` is `none` itself. */
  lemma NoneOnlyFromNone(color: string)
    ensures ConvertColor(color) == "none" <==> color == "none"
  {
    if color == "none" {
      FirstCharDiffers(color, "@color/");
      FirstCharDiffers(color, "?");
    }
  }
}
