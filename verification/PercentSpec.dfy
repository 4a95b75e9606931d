/** Percent-decoding: the tokens of an escaped text, and every way of writing one. */
module PercentSpec {
  import opened Bytes

  const PERCENT: Byte := 37
  const PLUS: Byte := 43
  const BLANK: Byte := 32

  // ---------- digits ----------

  /** `ch | 0x20`: the bit is set in every other run of 32 bytes. */
  function Lower(ch: Byte): Byte {
    if 32 <= ch < 64 || 96 <= ch < 128 || 160 <= ch < 192 || 224 <= ch then ch else ch + 32
  }

  /** What a byte keeps of a value that leaves its range by less than 256. */
  function Wrapped(v: int): Byte
    requires -256 <= v < 512
  {
    if v < 0 then v + 256 else if v < 256 then v else v - 256
  }

  /** `_http_character_to_digit`; setting the bit 0x20 makes digits of 0x10 to 0x19 too. */
  function Digit(ch: Byte): (d: int)
    ensures -1 <= d < 16
    ensures d >= 0 ==> ch != PERCENT && ch != PLUS && ch != BLANK
  {
    var tmp := Lower(ch);
    if 97 <= tmp <= 102 then tmp - 97 + 10
    else if 48 <= tmp <= 57 then tmp - 48
    else -1
  }

  /** Two characters that stand for a byte other than NUL. */
  predicate HexPair(hi: Byte, lo: Byte) {
    Digit(hi) >= 0 && Digit(lo) >= 0 && !(Digit(hi) == 0 && Digit(lo) == 0)
  }

  function PairValue(hi: Byte, lo: Byte): Byte
    requires HexPair(hi, lo)
  {
    16 * Digit(hi) + Digit(lo)
  }

  /** The byte of a full-width form, whose digits are not checked. */
  function WideValue(hi: Byte, lo: Byte): Byte {
    Wrapped(Wrapped(16 * (Digit(hi) + 2)) + Digit(lo))
  }

  /** Case-insensitive comparison with a lower-case letter or a digit. */
  predicate Same(ch: Byte, letter: Byte) {
    ch == letter || (97 <= letter <= 122 && ch + 32 == letter)
  }

  // ---------- tokens ----------

  function Blank(ch: Byte): Byte {
    if ch == PLUS then BLANK else ch
  }

  /** How many characters other than '+' stand before the next '%'. */
  function Plain(s: Word): (n: nat)
    ensures n <= |s|
  {
    if s == [] || s[0] == PERCENT then 0 else (if s[0] == PLUS then 0 else 1) + Plain(s[1..])
  }

  datatype Token = Token(length: nat, value: Byte)

  /** The token at a '%', of which `s` is what follows: "%41", "%x41", "%u0041", "%uff21",
      or the '%' alone. */
  function Escape(s: Word): (t: Token)
    ensures 1 <= t.length <= 1 + |s|
  {
    if |s| >= 2 && HexPair(s[0], s[1]) then Token(3, PairValue(s[0], s[1]))
    else if |s| >= 3 && Same(s[0], 120) && HexPair(s[1], s[2]) then Token(4, PairValue(s[1], s[2]))
    else if |s| >= 5 && Same(s[0], 117) && s[1] == 48 && s[2] == 48 && HexPair(s[3], s[4]) then
      Token(6, PairValue(s[3], s[4]))
    else if |s| >= 5 && Same(s[0], 117) && Same(s[1], 102) && Same(s[2], 102) && Plain(s) >= 5 then
      Token(6, WideValue(Blank(s[3]), Blank(s[4])))
    else Token(1, PERCENT)
  }

  /** The text read from its beginning, token by token. */
  function Decoded(s: Word): Word {
    if s == [] then []
    else if s[0] == PERCENT then [Escape(s[1..]).value] + Decoded(s[Escape(s[1..]).length..])
    else [Blank(s[0])] + Decoded(s[1..])
  }

  predicate NoPercent(s: Word) {
    forall k :: 0 <= k < |s| ==> s[k] != PERCENT
  }

  function Blanks(s: Word): (t: Word)
    ensures |t| == |s| && forall k :: 0 <= k < |t| ==> t[k] == Blank(s[k])
  {
    if s == [] then [] else [Blank(s[0])] + Blanks(s[1..])
  }

  /** Up to the next '%' only '+' changes. */
  lemma {:induction false} DecodedPlain(s: Word, k: nat)
    requires k <= |s| && NoPercent(s[..k])
    ensures Decoded(s) == Blanks(s[..k]) + Decoded(s[k..])
  {
    if k == 0 {
      assert s[..0] == [] && s[0..] == s;
    } else {
      assert s[..k][0] == s[0] && s[..k][1..] == s[1..][..k - 1] && s[1..][k - 1..] == s[k..];
      var t := s[1..][..k - 1];
      forall j | 0 <= j < |t| ensures t[j] != PERCENT {
        assert t[j] == s[..k][j + 1];
      }
      DecodedPlain(s[1..], k - 1);
    }
  }

  /** A count of plain characters keeps the next '%' away. */
  lemma {:induction false} PlainIsNoPercent(s: Word, k: nat)
    requires k <= Plain(s)
    ensures k <= |s| && NoPercent(s[..k])
  {
    if k > 0 {
      PlainIsNoPercent(s[1..], if s[0] == PLUS && k <= Plain(s[1..]) then k else k - 1);
      forall j | 0 <= j < k ensures s[..k][j] != PERCENT {
        if j > 0 {
          assert s[..k][j] == s[1..][j - 1];
          if s[0] == PLUS && k <= Plain(s[1..]) {
            assert s[1..][..k][j - 1] == s[1..][j - 1];
          } else {
            assert s[1..][..k - 1][j - 1] == s[1..][j - 1];
          }
        }
      }
    }
  }

  lemma {:induction false} PlainAppend(p: Word, s: Word)
    requires forall k :: 0 <= k < |p| ==> p[k] != PERCENT && p[k] != PLUS
    ensures Plain(p + s) == |p| + Plain(s)
  {
    if p == [] {
      assert p + s == s;
    } else {
      assert (p + s)[1..] == p[1..] + s;
      PlainAppend(p[1..], s);
    }
  }

  // ---------- every way of writing a byte ----------

  datatype Style = Literal | Plus | Hex(upper: bool) | HexX(upper: bool) | HexU(upper: bool) | Wide(upper: bool)

  /** The styles that a byte may be written in; '%' and '+' are always escaped. */
  predicate Allowed(b: Byte, style: Style) {
    match style
    case Literal => b != PERCENT && b != PLUS
    case Plus => b == BLANK
    case _ => b != 0
  }

  function HexChar(v: int, upper: bool): (ch: Byte)
    requires 0 <= v < 16
    ensures Digit(ch) == v
  {
    if v < 10 then 48 + v else if upper then 55 + v else 87 + v
  }

  function Pair(b: Byte, upper: bool): Word {
    [HexChar(b / 16, upper), HexChar(b % 16, upper)]
  }

  function Written(b: Byte, style: Style): Word {
    match style
    case Literal => [b]
    case Plus => [PLUS]
    case Hex(upper) => [PERCENT] + Pair(b, upper)
    case HexX(upper) => [PERCENT, if upper then 88 else 120] + Pair(b, upper)
    case HexU(upper) => [PERCENT, if upper then 85 else 117, 48, 48] + Pair(b, upper)
    case Wide(upper) =>
      [PERCENT, 117, if upper then 70 else 102, if upper then 70 else 102] + Pair(Narrow(b), upper)
  }

  function Encoded(x: Word, styles: seq<Style>): Word
    requires |styles| == |x|
  {
    if x == [] then [] else Written(x[0], styles[0]) + Encoded(x[1..], styles[1..])
  }

  lemma ReadPair(b: Byte, upper: bool)
    requires b != 0
    ensures HexPair(Pair(b, upper)[0], Pair(b, upper)[1]) && PairValue(Pair(b, upper)[0], Pair(b, upper)[1]) == b
  {
  }

  /** The digits that the full-width form of a byte has. */
  function Narrow(b: Byte): Byte {
    Wrapped(b - 32)
  }

  lemma ReadWide(b: Byte, upper: bool)
    ensures var p := Pair(Narrow(b), upper); WideValue(p[0], p[1]) == b
  {
    var c := Narrow(b);
    var q: int, r: int := c / 16, c % 16;
    assert c == 16 * q + r && 0 <= q < 16;
    assert Wrapped(16 * (q + 2)) == if q < 14 then 16 * q + 32 else 16 * q - 224;
    assert Wrapped(Wrapped(16 * (q + 2)) + r) == b;
  }

  lemma ReadEscape(e: Word, b: Byte, rest: Word)
    requires Escape(e + rest) == Token(|e| + 1, b)
    ensures Decoded([PERCENT] + e + rest) == [b] + Decoded(rest)
  {
    var s := [PERCENT] + e + rest;
    assert s[1..] == e + rest && s[|e| + 1..] == rest;
  }

  lemma ReadHex(b: Byte, upper: bool, rest: Word)
    requires b != 0
    ensures Decoded(Written(b, Hex(upper)) + rest) == [b] + Decoded(rest)
  {
    ReadPair(b, upper);
    ReadEscape(Pair(b, upper), b, rest);
  }

  lemma ReadHexX(b: Byte, upper: bool, rest: Word)
    requires b != 0
    ensures Decoded(Written(b, HexX(upper)) + rest) == [b] + Decoded(rest)
  {
    var e := [if upper then 88 else 120] + Pair(b, upper);
    var s := e + rest;
    ReadPair(b, upper);
    assert s[0] == e[0] && s[1] == Pair(b, upper)[0] && s[2] == Pair(b, upper)[1];
    ReadEscape(e, b, rest);
    assert Written(b, HexX(upper)) == [PERCENT] + e;
  }

  lemma ReadHexU(b: Byte, upper: bool, rest: Word)
    requires b != 0
    ensures Decoded(Written(b, HexU(upper)) + rest) == [b] + Decoded(rest)
  {
    var e := [if upper then 85 else 117, 48, 48] + Pair(b, upper);
    var s := e + rest;
    ReadPair(b, upper);
    assert s[0] == e[0] && s[1] == s[2] == 48 && s[3] == Pair(b, upper)[0] && s[4] == Pair(b, upper)[1];
    ReadEscape(e, b, rest);
    assert Written(b, HexU(upper)) == [PERCENT] + e;
  }

  lemma ReadWideToken(b: Byte, upper: bool, rest: Word)
    ensures Decoded(Written(b, Wide(upper)) + rest) == [b] + Decoded(rest)
  {
    var f: Byte := if upper then 70 else 102;
    var p := Pair(Narrow(b), upper);
    var e := [117, f, f] + p;
    var s := e + rest;
    ReadWide(b, upper);
    PlainAppend(e, rest);
    assert s[0] == 117 && s[1] == s[2] == f && s[3] == p[0] && s[4] == p[1];
    ReadEscape(e, b, rest);
    assert Written(b, Wide(upper)) == [PERCENT] + e;
  }

  /** Each way of writing a byte reads as that byte, whatever follows. */
  lemma ReadWritten(b: Byte, style: Style, rest: Word)
    requires Allowed(b, style)
    ensures Decoded(Written(b, style) + rest) == [b] + Decoded(rest)
  {
    match style
    case Literal => assert ([b] + rest)[1..] == rest;
    case Plus => assert ([PLUS] + rest)[1..] == rest;
    case Hex(upper) => ReadHex(b, upper, rest);
    case HexX(upper) => ReadHexX(b, upper, rest);
    case HexU(upper) => ReadHexU(b, upper, rest);
    case Wide(upper) => ReadWideToken(b, upper, rest);
  }

  ghost predicate AllAllowed(x: Word, styles: seq<Style>)
    requires |styles| == |x|
  {
    forall k :: 0 <= k < |x| ==> Allowed(x[k], styles[k])
  }

  /** Decoding inverts every encoding. */
  lemma {:induction false} DecodeOfEncode(x: Word, styles: seq<Style>)
    requires |styles| == |x| && AllAllowed(x, styles)
    ensures Decoded(Encoded(x, styles)) == x
  {
    if x != [] {
      ReadWritten(x[0], styles[0], Encoded(x[1..], styles[1..]));
      DecodeOfEncode(x[1..], styles[1..]);
    }
  }

  // ---------- when a NUL comes out ----------

  predicate NulFree(s: Word) {
    forall k :: 0 <= k < |s| ==> s[k] != 0
  }

  /** Behind a '%': "uffe0" in any case, the one full-width form whose value is 0. */
  predicate WideNul(s: Word) {
    |s| >= 5 && Same(s[0], 117) && Same(s[1], 102) && Same(s[2], 102) && Digit(s[3]) == 14 && Digit(s[4]) == 0
  }

  /** Somewhere in the text stands "%uffe0". */
  predicate HasWideNul(s: Word) {
    s != [] && ((s[0] == PERCENT && WideNul(s[1..])) || HasWideNul(s[1..]))
  }

  lemma WideValueZero(hi: Byte, lo: Byte)
    ensures WideValue(hi, lo) == 0 <==> Digit(hi) == 14 && Digit(lo) == 0
  {
    assert Wrapped(16 * (Digit(hi) + 2)) == if Digit(hi) < 14 then 16 * Digit(hi) + 32 else 16 * Digit(hi) - 224;
  }

  /** The only token with value 0 is that one. */
  lemma EscapeNul(s: Word)
    ensures Escape(s).value == 0 <==> WideNul(s)
  {
    if WideNul(s) {
      PlainAppend(s[..5], s[5..]);
      assert s[..5] + s[5..] == s;
    }
    if |s| >= 5 {
      WideValueZero(Blank(s[3]), Blank(s[4]));
    }
  }

  /** No token holds a further '%'. */
  lemma EscapeNoPercent(s: Word)
    ensures NoPercent(s[..Escape(s).length - 1])
  {
    if |s| >= 5 && Plain(s) >= 5 {
      PlainIsNoPercent(s, 5);
      assert forall k :: 0 <= k < 5 ==> s[..5][k] == s[k];
    }
  }

  lemma {:induction false} WideNulBehind(s: Word, n: nat)
    requires n <= |s| && NoPercent(s[..n])
    ensures HasWideNul(s) <==> HasWideNul(s[n..])
  {
    if n == 0 {
      assert s[0..] == s;
    } else {
      assert s[..n][0] == s[0] && s[1..][..n - 1] == s[..n][1..] && s[1..][n - 1..] == s[n..];
      WideNulBehind(s[1..], n - 1);
    }
  }

  /** Decoding a text without NUL gives one exactly if "%uffe0" stands in the text. */
  lemma {:induction false} NulExactlyWhen(s: Word)
    requires NulFree(s)
    ensures 0 in Decoded(s) <==> HasWideNul(s)
  {
    if s != [] && s[0] == PERCENT {
      var n := Escape(s[1..]).length;
      EscapeNul(s[1..]);
      EscapeNoPercent(s[1..]);
      assert s[1..][n - 1..] == s[n..];
      WideNulBehind(s[1..], n - 1);
      NulExactlyWhen(s[n..]);
    } else if s != [] {
      NulExactlyWhen(s[1..]);
    }
  }
}
