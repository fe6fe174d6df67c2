/** Hexadecimal text as JavaScript produces and reads it:
    `Number.prototype.toString(16)` on an integer (lower-case digits, no
    leading zeros, a `-` sign for negatives), `padStart(2, "0")`, and
    `parseInt(s, 16)` on a string made only of hex digits. */
module HexText {

  /** A digit accepted by the case-insensitive class `[a-f\d]`. */
  predicate IsHexDigit(c: char) {
    ('0' <= c <= '9') || ('a' <= c <= 'f') || ('A' <= c <= 'F')
  }

  /** A digit `toString(16)` can print. */
  predicate IsLowerHexDigit(c: char) {
    ('0' <= c <= '9') || ('a' <= c <= 'f')
  }

  predicate AllHex(s: string) {
    forall i :: 0 <= i < |s| ==> IsHexDigit(s[i])
  }

  predicate AllLowerHex(s: string) {
    forall i :: 0 <= i < |s| ==> IsLowerHexDigit(s[i])
  }

  /** The value of one hex digit, either case. */
  function DigitValue(c: char): (v: nat)
    requires IsHexDigit(c)
    ensures v < 16
  {
    if '0' <= c <= '9' then (c as int - '0' as int)
    else if 'a' <= c <= 'f' then (c as int - 'a' as int) + 10
    else (c as int - 'A' as int) + 10
  }

  /** The lower-case digit for a value below 16. */
  function LowerDigit(n: nat): (c: char)
    requires n < 16
    ensures IsLowerHexDigit(c) && DigitValue(c) == n
  {
    if n < 10 then ('0' as int + n) as char else ('a' as int + n - 10) as char
  }

  /** Printing and reading a lower-case digit are inverse. */
  lemma LowerDigitOfValue(c: char)
    requires IsLowerHexDigit(c)
    ensures LowerDigit(DigitValue(c)) == c
  {
  }

  /** Case folding of one character: `A`-`F` become `a`-`f`, every other
      character is left as it is. The `/i` flag of the colour pattern and
      `parseInt` both read a digit the same way in either case. */
  function Fold(c: char): (f: char)
    ensures IsHexDigit(f) <==> IsHexDigit(c)
    ensures IsHexDigit(c) ==> IsLowerHexDigit(f)
    ensures IsLowerHexDigit(c) ==> f == c
  {
    if 'A' <= c <= 'F' then (c as int - 'A' as int + 'a' as int) as char else c
  }

  /** Case folding of a whole string, character by character. */
  function FoldText(s: string): (t: string)
    ensures |t| == |s|
    ensures forall i :: 0 <= i < |s| ==> t[i] == Fold(s[i])
  {
    seq(|s|, i requires 0 <= i < |s| => Fold(s[i]))
  }

  /** A digit has the value of its folded form: `F` reads as 15, like `f`. */
  lemma FoldDigit(c: char)
    requires IsHexDigit(c)
    ensures IsLowerHexDigit(Fold(c)) && DigitValue(Fold(c)) == DigitValue(c)
    ensures Fold(c) == LowerDigit(DigitValue(c))
  {
    LowerDigitOfValue(Fold(c));
  }

  /** `parseInt(s, 16)` does not depend on the case of the digits. */
  lemma {:induction false} ParseFolded(s: string)
    requires |s| >= 1 && AllHex(s)
    ensures AllHex(FoldText(s)) && ParseHex(FoldText(s)) == ParseHex(s)
    decreases |s|
  {
    var t := FoldText(s);
    FoldDigit(s[|s| - 1]);
    if |s| > 1 {
      assert t[..|t| - 1] == FoldText(s[..|s| - 1]);
      ParseFolded(s[..|s| - 1]);
    } else {
      FoldDigit(s[0]);
    }
  }

  /** `n.toString(16)` for an integer `n`. */
  function ToRadix16(n: int): (s: string)
    ensures |s| >= 1
    ensures n >= 0 ==> AllLowerHex(s)
    ensures 0 <= n < 16 ==> s == [LowerDigit(n)]
    ensures n >= 16 ==> |s| >= 2
    ensures n > 0 ==> s[0] != '0'
    ensures n < 0 ==> s[0] == '-'
    decreases if n < 0 then -n + 1 else n
  {
    if n < 0 then "-" + ToRadix16(-n)
    else if n < 16 then [LowerDigit(n)]
    else ToRadix16(n / 16) + [LowerDigit(n % 16)]
  }

  /** `parseInt(s, 16)` for a non-empty string of hex digits: most
      significant digit first. */
  function ParseHex(s: string): (n: nat)
    requires |s| >= 1 && AllHex(s)
    decreases |s|
  {
    if |s| == 1 then DigitValue(s[0])
    else ParseHex(s[..|s| - 1]) * 16 + DigitValue(s[|s| - 1])
  }

  /** Reading back what `toString(16)` printed gives the number again. */
  lemma {:induction false} ParsePrintedHex(n: nat)
    ensures AllHex(ToRadix16(n)) && ParseHex(ToRadix16(n)) == n
    decreases n
  {
    if n >= 16 {
      ParsePrintedHex(n / 16);
      var s := ToRadix16(n);
      assert s[..|s| - 1] == ToRadix16(n / 16);
    }
  }

  /** `s.padStart(2, "0")`. */
  function PadStart2(s: string): (r: string)
    ensures |r| == if |s| >= 2 then |s| else 2
    ensures r[|r| - |s|..] == s
    ensures forall i :: 0 <= i < |r| - |s| ==> r[i] == '0'
  {
    if |s| >= 2 then s else seq(2 - |s|, _ => '0') + s
  }

  /** One byte printed as two lower-case hex digits: high nibble, low nibble. */
  lemma ByteAsTwoDigits(n: nat)
    requires n < 256
    ensures PadStart2(ToRadix16(n)) == [LowerDigit(n / 16), LowerDigit(n % 16)]
  {
    if n >= 16 {
      assert ToRadix16(n / 16) == [LowerDigit(n / 16)];
    }
  }

  /** Two lower-case digits survive `parseInt` followed by print-and-pad. */
  lemma PairRoundTrip(s: string)
    requires |s| == 2 && AllLowerHex(s)
    ensures AllHex(s) && PadStart2(ToRadix16(ParseHex(s))) == s
  {
    var hi := DigitValue(s[0]);
    var lo := DigitValue(s[1]);
    var n := ParseHex(s);
    assert n == hi * 16 + lo by { ParsePair(s); }
    assert n < 256 && n / 16 == hi && n % 16 == lo by { Nibbles(hi, lo); }
    assert LowerDigit(hi) == s[0] && LowerDigit(lo) == s[1] by {
      LowerDigitOfValue(s[0]);
      LowerDigitOfValue(s[1]);
    }
    ByteAsTwoDigits(n);
    assert s == [s[0], s[1]];
  }

  /** Two digits read as high and low nibble. */
  lemma ParsePair(s: string)
    requires |s| == 2 && AllHex(s)
    ensures ParseHex(s) == DigitValue(s[0]) * 16 + DigitValue(s[1])
    ensures ParseHex(s) < 256
  {
    assert s[..1] == [s[0]];
  }

  /** The nibbles of a byte are its quotient and remainder by 16. */
  lemma Nibbles(hi: nat, lo: nat)
    requires hi < 16 && lo < 16
    ensures (hi * 16 + lo) / 16 == hi && (hi * 16 + lo) % 16 == lo
    ensures hi * 16 + lo < 256
  {
  }
}
