/** The `Colors` class: a fixed 20-entry palette indexed modulo its size,
    a parser from `#rrggbb` text to RGBA channels, a printer back to hex
    text, and a reverse lookup from colour text to palette index. */
module Colors {
  import opened Wrappers
  import opened Failures
  import opened HexText
  import JsBuiltins

  /** The palette, in index order. */
  const Palette: seq<string> := [
    "#3f1651", "#f89f5b", "#ff701f", "#ffb21d", "#cfd231",
    "#48f90a", "#92cc17", "#3ddb86", "#1a9334", "#00d4bb",
    "#2c99a8", "#00c2ff", "#344593", "#6473ff", "#0018ec",
    "#8438ff", "#520085", "#cb38ff", "#ff95c8", "#ff37c7"
  ]

  /** `n`, the palette length. */
  const N: nat := 20

  /** Text of the form `#` followed by six lower-case hex digits. */
  predicate IsLowerHexColor(s: string) {
    |s| == 7 && s[0] == '#' && AllLowerHex(s[1..])
  }

  lemma PaletteShape()
    ensures |Palette| == N
    ensures forall i :: 0 <= i < N ==> IsLowerHexColor(Palette[i])
  {
  }

  /** `get(i)` for an index `i >= 0`: the palette wraps around. */
  function Get(i: nat): (c: string)
    ensures c in Palette
    ensures IsLowerHexColor(c)
  {
    PaletteShape();
    Palette[i % N]
  }

  /** Indices that differ by whole turns of the palette share a colour. */
  lemma GetWraps(i: nat, k: nat)
    ensures Get(i + N * k) == Get(i)
  {
    assert (i + N * k) % N == i % N;
  }

  /** The palette holds twenty different colours. */
  lemma PaletteDistinct()
    ensures forall i, j :: 0 <= i < j < N ==> Palette[i] != Palette[j]
  {
    forall i, j | 0 <= i < j < N
      ensures Palette[i] != Palette[j]
    {
      DistinctByDigits(i, j);
    }
  }

  /** Any two entries already differ within their first four digits. */
  lemma DistinctByDigits(i: nat, j: nat)
    requires 0 <= i < j < N
    ensures Palette[i] != Palette[j]
  {
    assert Palette[i][1] != Palette[j][1] || Palette[i][2] != Palette[j][2]
        || Palette[i][3] != Palette[j][3] || Palette[i][4] != Palette[j][4];
  }

  /** RGBA channels. */
  datatype Rgba = Rgba(r: int, g: int, b: int, a: int)

  predicate IsByte(n: int) {
    0 <= n < 256
  }

  /** The text `/^#?([a-f\d]{2})([a-f\d]{2})([a-f\d]{2})$/i` accepts. */
  predicate MatchesHexPattern(s: string) {
    (|s| == 6 && AllHex(s)) || (|s| == 7 && s[0] == '#' && AllHex(s[1..]))
  }

  /** `hexToRgba(hex, alpha)`. When the pattern does not match, `exec`
      returns `null` and indexing it throws. */
  function HexToRgba(hex: string, alpha: int): (r: Result<Rgba, Error>)
    ensures r.Success? <==> MatchesHexPattern(hex)
    ensures r.Failure? ==> r.error == InvalidColorFormat
    ensures r.Success? ==>
      IsByte(r.value.r) && IsByte(r.value.g) && IsByte(r.value.b) && r.value.a == alpha
  {
    if !MatchesHexPattern(hex) then Failure(InvalidColorFormat)
    else
      var d := Digits(hex);
      assert AllHex(d[0..2]) && AllHex(d[2..4]) && AllHex(d[4..6]);
      PairBound(d[0..2]);
      PairBound(d[2..4]);
      PairBound(d[4..6]);
      Success(Rgba(ParseHex(d[0..2]), ParseHex(d[2..4]), ParseHex(d[4..6]), alpha))
  }

  /** The six digits the pattern captures. */
  function Digits(hex: string): (d: string)
    requires MatchesHexPattern(hex)
    ensures |d| == 6 && AllHex(d)
  {
    if |hex| == 7 then hex[1..] else hex
  }

  /** The `/i` pattern reads a colour the same in either case: folding
      `A`-`F` to lower case changes neither whether it parses nor the
      channels it yields, so `#FF0000` and `#ff0000` are both pure red. */
  lemma HexToRgbaFolded(hex: string, alpha: int)
    ensures HexToRgba(FoldText(hex), alpha) == HexToRgba(hex, alpha)
  {
    var f := FoldText(hex);
    assert MatchesHexPattern(f) <==> MatchesHexPattern(hex) by {
      if |hex| == 7 { assert f[1..] == FoldText(hex[1..]); }
    }
    if MatchesHexPattern(hex) {
      var d := Digits(hex);
      assert Digits(f) == FoldText(d) by {
        if |hex| == 7 { assert f[1..] == FoldText(hex[1..]); }
      }
      FoldedPair(d, 0);
      FoldedPair(d, 2);
      FoldedPair(d, 4);
      HexToRgbaOf(hex, alpha);
      HexToRgbaOf(f, alpha);
    }
  }

  lemma FoldedPair(d: string, i: nat)
    requires i + 2 <= |d| && AllHex(d)
    ensures AllHex(d[i..i + 2])
    ensures ParseHex(FoldText(d)[i..i + 2]) == ParseHex(d[i..i + 2])
  {
    assert FoldText(d)[i..i + 2] == FoldText(d[i..i + 2]);
    ParseFolded(d[i..i + 2]);
  }

  /** An upper-case colour: `#FF8000` is orange. */
  lemma UpperCaseColor(alpha: int)
    ensures HexToRgba("#FF8000", alpha) == Success(Rgba(255, 128, 0, alpha))
  {
    var hex := "#FF8000";
    HexToRgbaOf(hex, alpha);
    var d := Digits(hex);
    assert d[0..2] == "FF" && d[2..4] == "80" && d[4..6] == "00";
    ParsePair("FF");
    ParsePair("80");
    ParsePair("00");
  }

  lemma PairBound(s: string)
    requires |s| == 2 && AllHex(s)
    ensures ParseHex(s) < 256
  {
    ParsePair(s);
  }

  /** One channel as `toHex` prints it: `value.toString(16).padStart(2, "0")`. */
  function Channel(n: int): (s: string)
    ensures |s| >= 2
    ensures IsByte(n) ==> |s| == 2 && AllLowerHex(s)
  {
    ChannelShape(n);
    PadStart2(ToRadix16(n))
  }

  lemma ChannelShape(n: int)
    ensures IsByte(n) ==> PadStart2(ToRadix16(n)) == [LowerDigit(n / 16), LowerDigit(n % 16)]
  {
    if IsByte(n) {
      ByteAsTwoDigits(n);
    }
  }

  /** `toHex(rgba)`: `#` and each of the first three channels as at least two
      hex digits; the fourth channel plays no part. */
  function ToHex(c: Rgba): (s: string)
    ensures |s| >= 7 && s[0] == '#'
    ensures IsByte(c.r) && IsByte(c.g) && IsByte(c.b) ==> IsLowerHexColor(s)
  {
    var digits := Channel(c.r) + Channel(c.g) + Channel(c.b);
    LowerHexConcat(Channel(c.r), Channel(c.g), Channel(c.b));
    assert ("#" + digits)[1..] == digits;
    "#" + digits
  }

  lemma LowerHexConcat(a: string, b: string, c: string)
    ensures AllLowerHex(a) && AllLowerHex(b) && AllLowerHex(c) ==> AllLowerHex(a + b + c)
  {
    if AllLowerHex(a) && AllLowerHex(b) && AllLowerHex(c) {
      var s := a + b + c;
      forall i | 0 <= i < |s|
        ensures IsLowerHexDigit(s[i])
      {
        if i < |a| {
          assert s[i] == a[i];
        } else if i < |a| + |b| {
          assert s[i] == b[i - |a|];
        } else {
          assert s[i] == c[i - |a| - |b|];
        }
      }
    }
  }

  /** Colours that differ only in alpha print the same. */
  lemma ToHexIgnoresAlpha(c: Rgba, a: int)
    ensures ToHex(c.(a := a)) == ToHex(c)
  {
  }

  /** `toIndex(hex)`: the palette index of a colour, or -1. */
  function ToIndex(hex: string): (k: int)
    ensures -1 <= k < N
    ensures k == -1 <==> hex !in Palette
    ensures k >= 0 ==> Palette[k] == hex
  {
    JsBuiltins.IndexOf(Palette, hex)
  }

  /** Reverse lookup recovers the index modulo the palette size. */
  lemma ToIndexOfGet(i: nat)
    ensures ToIndex(Get(i)) == i % N
  {
    PaletteDistinct();
  }

  /** Printing parsed text gives the text back, for any `#` and six
      lower-case digits, so in particular for every palette entry. */
  lemma HexRoundTrip(hex: string, alpha: int)
    requires IsLowerHexColor(hex)
    ensures HexToRgba(hex, alpha).Success?
    ensures ToHex(HexToRgba(hex, alpha).value) == hex
  {
    var d := hex[1..];
    var p0, p1, p2 := d[0..2], d[2..4], d[4..6];
    assert MatchesHexPattern(hex) && Digits(hex) == d by {
      LowerIsHex(d);
    }
    var v := Rgba(ParseHex(p0), ParseHex(p1), ParseHex(p2), alpha);
    assert HexToRgba(hex, alpha) == Success(v) by {
      HexToRgbaOf(hex, alpha);
    }
    assert Channel(v.r) == p0 && Channel(v.g) == p1 && Channel(v.b) == p2 by {
      LowerPair(d, 0);
      LowerPair(d, 2);
      LowerPair(d, 4);
      PairRoundTrip(p0);
      PairRoundTrip(p1);
      PairRoundTrip(p2);
    }
    ToHexOf(v);
    Reassemble(hex);
  }

  /** Seven characters are the first and three pairs of the rest. */
  lemma Reassemble(s: string)
    requires |s| == 7
    ensures s == [s[0]] + s[1..][0..2] + s[1..][2..4] + s[1..][4..6]
  {
  }

  /** Two adjacent lower-case digits. */
  lemma LowerPair(d: string, i: nat)
    requires AllLowerHex(d) && i + 2 <= |d|
    ensures |d[i..i + 2]| == 2 && AllLowerHex(d[i..i + 2])
  {
    assert d[i..i + 2][0] == d[i] && d[i..i + 2][1] == d[i + 1];
  }

  /** The three channels `hexToRgba` reads from a matching text. */
  lemma HexToRgbaOf(hex: string, alpha: int)
    requires MatchesHexPattern(hex)
    ensures var d := Digits(hex);
      AllHex(d[0..2]) && AllHex(d[2..4]) && AllHex(d[4..6]) &&
      HexToRgba(hex, alpha) == Success(Rgba(ParseHex(d[0..2]), ParseHex(d[2..4]), ParseHex(d[4..6]), alpha))
  {
  }

  /** The text `toHex` prints: `#` and the three channels. */
  lemma ToHexOf(c: Rgba)
    ensures ToHex(c) == "#" + Channel(c.r) + Channel(c.g) + Channel(c.b)
  {
    Prefixed("#", Channel(c.r), Channel(c.g), Channel(c.b));
  }

  lemma Prefixed(h: string, a: string, b: string, c: string)
    ensures h + (a + b + c) == h + a + b + c
  {
  }

  lemma LowerIsHex(s: string)
    requires AllLowerHex(s)
    ensures AllHex(s)
  {
  }

  /** Parsing printed channels gives the channels back, with the new alpha. */
  lemma RgbaRoundTrip(c: Rgba, alpha: int)
    requires IsByte(c.r) && IsByte(c.g) && IsByte(c.b)
    ensures HexToRgba(ToHex(c), alpha) == Success(Rgba(c.r, c.g, c.b, alpha))
  {
    var c0, c1, c2 := Channel(c.r), Channel(c.g), Channel(c.b);
    var s := ToHex(c);
    var d := s[1..];
    assert d[0..2] == c0 && d[2..4] == c1 && d[4..6] == c2 by {
      ToHexOf(c);
      Thirds(c0, c1, c2);
    }
    assert ParseHex(c0) == c.r && ParseHex(c1) == c.g && ParseHex(c2) == c.b by {
      PaddedParse(c.r);
      PaddedParse(c.g);
      PaddedParse(c.b);
    }
    assert MatchesHexPattern(s) && Digits(s) == d by {
      LowerIsHex(d);
    }
    HexToRgbaOf(s, alpha);
  }

  /** The rest after `#` splits back into the three printed pairs. */
  lemma Thirds(c0: string, c1: string, c2: string)
    requires |c0| == 2 && |c1| == 2 && |c2| == 2
    ensures var d := ("#" + c0 + c1 + c2)[1..];
      d[0..2] == c0 && d[2..4] == c1 && d[4..6] == c2
  {
    var d := ("#" + c0 + c1 + c2)[1..];
    assert d == c0 + c1 + c2;
  }

  /** Padding with a leading zero does not change the parsed value. */
  lemma PaddedParse(n: nat)
    requires n < 256
    ensures AllHex(PadStart2(ToRadix16(n))) && ParseHex(PadStart2(ToRadix16(n))) == n
  {
    ByteAsTwoDigits(n);
    var p := PadStart2(ToRadix16(n));
    LowerIsHex(p);
    ParsePair(p);
  }

  /** Every palette colour parses, so the pipeline's colour expansion of a
      class colour never throws. */
  lemma PaletteParses(i: nat, alpha: int)
    ensures HexToRgba(Get(i), alpha).Success?
  {
  }
}
