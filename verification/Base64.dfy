/** Base64: the alphabet, the bits, and the encoding of a byte string. */
module Base64 {
  import opened Bytes

  const PAD: Byte := 61

  // ---------- the alphabet ----------

  /** A value of six bits. */
  type Six = v: int | 0 <= v < 64

  function Char(v: Six): (ch: Byte)
    ensures InAlphabet(ch)
  {
    if v < 26 then v + 65 else if v < 52 then v + 71 else if v < 62 then v - 4 else if v == 62 then 43 else 47
  }

  predicate InAlphabet(ch: Byte) {
    65 <= ch <= 90 || 97 <= ch <= 122 || 48 <= ch <= 57 || ch == 43 || ch == 47
  }

  /** The value of a character of the alphabet, -1 for any other. */
  function Value(ch: Byte): (v: int)
    ensures -1 <= v < 64 && (v >= 0 <==> InAlphabet(ch))
  {
    if 65 <= ch <= 90 then ch - 65 else if 97 <= ch <= 122 then ch - 71
    else if 48 <= ch <= 57 then ch + 4 else if ch == 43 then 62 else if ch == 47 then 63 else -1
  }

  const CAPITALS := "ABCDEFGHIJKLMNOPQRSTUVWXYZ"
  const SMALL := "abcdefghijklmnopqrstuvwxyz"
  const DIGITS := "0123456789"

  /** The alphabet of RFC 4648, section 4. */
  const ALPHABET := CAPITALS + SMALL + DIGITS + "+/"

  lemma Capitals(v: nat)
    requires v < 26
    ensures |CAPITALS| == 26 && CAPITALS[v] as int == 65 + v
  {
  }

  lemma Small(v: nat)
    requires v < 26
    ensures |SMALL| == 26 && SMALL[v] as int == 97 + v
  {
  }

  lemma Digits(v: nat)
    requires v < 10
    ensures |DIGITS| == 10 && DIGITS[v] as int == 48 + v
  {
  }

  /** The characters are those of the alphabet, each in its place. */
  lemma CharIsNumbered(v: Six)
    ensures |ALPHABET| == 64 && Char(v) == ALPHABET[v] as int
  {
    if v < 26 {
      Capitals(v);
    } else if v < 52 {
      Small(v - 26);
    } else if v < 62 {
      Digits(v - 52);
    }
  }

  /** A character's value is its position in the alphabet, and no other character has one. */
  lemma ValueIsPosition(ch: Byte, v: Six)
    ensures |ALPHABET| == 64
    ensures Value(ch) == v <==> ch == ALPHABET[v] as int
    ensures Value(ch) == -1 <==> forall w: Six :: ch != ALPHABET[w] as int
  {
    CharIsNumbered(v);
    ValueOfChar(v);
    if Value(ch) >= 0 {
      CharOfValue(ch);
      CharIsNumbered(Value(ch));
    }
    forall w: Six
      ensures ALPHABET[w] as int == Char(w) && Value(Char(w)) == w
    {
      CharIsNumbered(w);
      ValueOfChar(w);
    }
  }

  lemma CharOfValue(ch: Byte)
    requires InAlphabet(ch)
    ensures Char(Value(ch)) == ch && ch != PAD && !Space(ch) && ch != 0
  {
  }

  lemma ValueOfChar(v: Six)
    ensures Value(Char(v)) == v
  {
  }

  // ---------- bits ----------

  /** The bitwise or of two bytes. */
  function Or(a: nat, b: nat): nat {
    if a == 0 && b == 0 then 0 else 2 * Or(a / 2, b / 2) + (if a % 2 == 1 || b % 2 == 1 then 1 else 0)
  }

  lemma {:induction false} OrZero(a: nat)
    ensures Or(a, 0) == a
  {
    if a != 0 {
      OrZero(a / 2);
    }
  }

  lemma OrTwoBits(n: nat, q: nat, r: nat)
    requires r < 4
    ensures Or(4 * n, 4 * q + r) == 4 * Or(n, q) + r
  {
    var m, p := 2 * n, 2 * q + r / 2;
    assert Or(m, p) == 2 * Or(n, q) + r / 2;
    assert Or(2 * m, 2 * p + r % 2) == 2 * Or(m, p) + r % 2;
  }

  /** Without common bits it is the sum: two, four or six low bits. */
  lemma OrLow2(n: nat, b: nat)
    requires b < 4
    ensures Or(4 * n, b) == 4 * n + b
  {
    OrTwoBits(n, 0, b);
    OrZero(n);
  }

  lemma OrLow4(n: nat, b: nat)
    requires b < 16
    ensures Or(16 * n, b) == 16 * n + b
  {
    var q, r := b / 4, b % 4;
    OrLow2(n, q);
    OrTwoBits(4 * n, q, r);
    assert 4 * q + r == b;
  }

  lemma OrLow6(n: nat, b: nat)
    requires b < 64
    ensures Or(64 * n, b) == 64 * n + b
  {
    var q, r := b / 4, b % 4;
    OrLow4(n, q);
    OrTwoBits(16 * n, q, r);
    assert 4 * q + r == b;
  }

  // ---------- a block ----------

  /** The sextets of a block of three bytes. */
  function S0(a: Byte): Six { a / 4 }
  function S1(a: Byte, b: Byte): Six { a % 4 * 16 + b / 16 }
  function S2(b: Byte, c: Byte): Six { b % 16 * 4 + c / 64 }
  function S3(c: Byte): Six { c % 64 }

  /** The bytes of a block of four sextets. */
  function B0(p: Six, q: Six): Byte { p * 4 + q / 16 }
  function B1(q: Six, r: Six): Byte { q % 16 * 16 + r / 4 }
  function B2(r: Six, s: Six): Byte { r % 4 * 64 + s }

  /** The number of three bytes, and that of four sextets. */
  function Bytes24(a: Byte, b: Byte, c: Byte): nat { 65536 * a + 256 * b + c }
  function Sextets24(p: Six, q: Six, r: Six, s: Six): nat { 262144 * p + 4096 * q + 64 * r + s }

  /** The sextets of a block are the digits of its number, the most significant first; bytes that
      are missing count as zero. */
  lemma BlockIsNumber(a: Byte, b: Byte, c: Byte)
    ensures Sextets24(S0(a), S1(a, b), S2(b, c), S3(c)) == Bytes24(a, b, c)
    ensures Sextets24(S0(a), S1(a, b), S2(b, 0), 0) == Bytes24(a, b, 0)
    ensures Sextets24(S0(a), S1(a, 0), 0, 0) == Bytes24(a, 0, 0)
  {
  }

  /** So are the bytes of four sextets. */
  lemma NumberIsBlock(p: Six, q: Six, r: Six, s: Six)
    ensures Bytes24(B0(p, q), B1(q, r), B2(r, s)) == Sextets24(p, q, r, s)
  {
  }

  /** The character of the value 0, in the place of a padding character. */
  const CAPITAL_A: Byte := 65

  /** Four characters of the alphabet write the number of three bytes. */
  predicate Numbered(w: Byte, x: Byte, y: Byte, z: Byte, a: Byte, b: Byte, c: Byte) {
    && InAlphabet(w) && InAlphabet(x) && InAlphabet(y) && InAlphabet(z)
    && Sextets24(Value(w), Value(x), Value(y), Value(z)) == Bytes24(a, b, c)
  }

  lemma BlockThere(a: Byte, b: Byte, c: Byte)
    ensures B0(S0(a), S1(a, b)) == a && B1(S1(a, b), S2(b, c)) == b && B2(S2(b, c), S3(c)) == c
  {
  }

  lemma BlockBack(p: Six, q: Six, r: Six, s: Six)
    ensures S0(B0(p, q)) == p && S1(B0(p, q), B1(q, r)) == q && S2(B1(q, r), B2(r, s)) == r && S3(B2(r, s)) == s
    ensures q % 16 == 0 ==> S1(B0(p, q), 0) == q
    ensures r % 4 == 0 ==> S2(B1(q, r), 0) == r
  {
  }

  /** A sextet in front of missing bytes has no bits for them. */
  lemma NoBitsBehind(a: Byte)
    ensures S1(a, 0) % 16 == 0 && S2(a, 0) % 4 == 0
  {
  }

  lemma OneByteBack(p: Six, q: Six)
    requires q % 16 == 0
    ensures S0(B0(p, q)) == p && S1(B0(p, q), 0) == q
  {
  }

  // ---------- the encoding ----------

  /** The canonical encoding. */
  function Code(x: Word): Word {
    if x == [] then []
    else if |x| == 1 then [Char(S0(x[0])), Char(S1(x[0], 0)), PAD, PAD]
    else if |x| == 2 then [Char(S0(x[0])), Char(S1(x[0], x[1])), Char(S2(x[1], 0)), PAD]
    else [Char(S0(x[0])), Char(S1(x[0], x[1])), Char(S2(x[1], x[2])), Char(S3(x[2]))] + Code(x[3..])
  }

  /** The first block of an encoding: its characters' positions in the alphabet are the digits of
      the number of the first bytes. */
  lemma CodeIsNumbered(x: Word)
    requires x != []
    ensures |Code(x)| >= 4 && (|x| <= 3 ==> |Code(x)| == 4)
    ensures var c := Code(x);
            if |x| == 1 then c[2] == c[3] == PAD && Numbered(c[0], c[1], CAPITAL_A, CAPITAL_A, x[0], 0, 0)
            else if |x| == 2 then c[3] == PAD && Numbered(c[0], c[1], c[2], CAPITAL_A, x[0], x[1], 0)
            else Numbered(c[0], c[1], c[2], c[3], x[0], x[1], x[2]) && c[4..] == Code(x[3..])
  {
    var b := if |x| > 1 then x[1] else 0;
    var c := if |x| > 2 then x[2] else 0;
    BlockIsNumber(x[0], b, c);
    ValueOfChar(S0(x[0]));
    ValueOfChar(S1(x[0], b));
    ValueOfChar(S2(b, c));
    ValueOfChar(S3(c));
  }

  /** Whole blocks. */
  predicate Whole(x: Word) {
    x == [] || (|x| >= 3 && Whole(x[3..]))
  }

  lemma {:induction false} CodeAppend(x: Word, y: Word)
    requires Whole(x)
    ensures Code(x + y) == Code(x) + Code(y)
  {
    if x == [] {
      assert x + y == y;
    } else {
      assert (x + y)[3..] == x[3..] + y;
      CodeAppend(x[3..], y);
    }
  }

  lemma {:induction false} WholeAppend(x: Word, y: Word)
    requires Whole(x) && Whole(y)
    ensures Whole(x + y)
  {
    if x == [] {
      assert x + y == y;
    } else {
      assert (x + y)[3..] == x[3..] + y;
      WholeAppend(x[3..], y);
    }
  }

  // ---------- what the parser accepts ----------

  /** The number of bytes in a padded text, -1 if it is none: whole blocks, the last of which
      may be padded, whatever bits are behind the last byte. */
  function Size(c: Word): (n: int)
    ensures n >= -1
  {
    if c == [] then 0
    else if |c| < 4 || !InAlphabet(c[0]) || !InAlphabet(c[1]) then -1
    else if c[3] == PAD then
      if |c| > 4 then -1 else if c[2] == PAD then 1 else if InAlphabet(c[2]) then 2 else -1
    else if InAlphabet(c[2]) && InAlphabet(c[3]) && Size(c[4..]) >= 0 then Size(c[4..]) + 3
    else -1
  }

  lemma {:induction false} SizeOfCode(x: Word, c: Word)
    requires Whole(x)
    ensures Size(Code(x) + c) == if Size(c) < 0 then -1 else |x| + Size(c)
  {
    if x == [] {
      assert Code(x) + c == c;
    } else {
      assert (Code(x) + c)[4..] == Code(x[3..]) + c;
      SizeOfCode(x[3..], c);
    }
  }

  /** The first block, read back: one, two or three bytes. */
  function FirstBytes(c: Word): Word
    requires |c| >= 4
  {
    if c[2] == PAD then [B0(Six0(c[0]), Six0(c[1]))]
    else if c[3] == PAD then [B0(Six0(c[0]), Six0(c[1])), B1(Six0(c[1]), Six0(c[2]))]
    else [B0(Six0(c[0]), Six0(c[1])), B1(Six0(c[1]), Six0(c[2])), B2(Six0(c[2]), Six0(c[3]))]
  }

  function Six0(ch: Byte): Six {
    if InAlphabet(ch) then Value(ch) else 0
  }

  lemma Six0OfChar(v: Six)
    ensures Six0(Char(v)) == v && Char(v) != PAD
  {
  }

  lemma FirstBytesOf(p: Six, q: Six, r: Six, s: Six)
    ensures FirstBytes([Char(p), Char(q), PAD, PAD]) == [B0(p, q)]
    ensures FirstBytes([Char(p), Char(q), Char(r), PAD]) == [B0(p, q), B1(q, r)]
    ensures FirstBytes([Char(p), Char(q), Char(r), Char(s)]) == [B0(p, q), B1(q, r), B2(r, s)]
  {
    Six0OfChar(p);
    Six0OfChar(q);
    Six0OfChar(r);
    Six0OfChar(s);
  }

  lemma OneByteThere(a: Byte)
    ensures B0(S0(a), S1(a, 0)) == a
  {
  }

  lemma CodeHead3(x: Word)
    requires |x| >= 3
    ensures |Code(x)| >= 4 && FirstBytes(Code(x)[..4]) == x[..3] && Code(x)[4..] == Code(x[3..])
  {
    var p, q, r, s := S0(x[0]), S1(x[0], x[1]), S2(x[1], x[2]), S3(x[2]);
    FirstBytesOf(p, q, r, s);
    BlockThere(x[0], x[1], x[2]);
    assert Code(x)[..4] == [Char(p), Char(q), Char(r), Char(s)];
    assert x[..3] == [x[0], x[1], x[2]];
  }

  lemma CodeHead2(x: Word)
    requires |x| == 2
    ensures |Code(x)| == 4 && FirstBytes(Code(x)) == x
  {
    FirstBytesOf(S0(x[0]), S1(x[0], x[1]), S2(x[1], 0), 0);
    BlockThere(x[0], x[1], 0);
    assert x == [x[0], x[1]];
  }

  lemma CodeHead1(x: Word)
    requires |x| == 1
    ensures |Code(x)| == 4 && FirstBytes(Code(x)) == x
  {
    var p, q := S0(x[0]), S1(x[0], 0);
    FirstBytesOf(p, q, p, q);
    OneByteThere(x[0]);
    assert Code(x) == [Char(p), Char(q), PAD, PAD];
    assert x == [x[0]];
  }

  /** A non-empty word's encoding begins with its first block's. */
  lemma CodeHead(x: Word)
    requires x != []
    ensures var n := if |x| < 3 then |x| else 3;
            |Code(x)| >= 4 && FirstBytes(Code(x)[..4]) == x[..n] && Code(x)[4..] == Code(x[n..])
  {
    if |x| >= 3 {
      CodeHead3(x);
    } else {
      if |x| == 1 {
        CodeHead1(x);
      } else {
        CodeHead2(x);
      }
      assert Code(x)[..4] == Code(x) && Code(x)[4..] == [] && x[|x|..] == [] && x[..|x|] == x;
    }
  }

  /** Nothing is lost in an encoding. */
  lemma {:induction false} CodeInjective(x: Word, y: Word)
    requires Code(x) == Code(y)
    ensures x == y
  {
    if x != [] && y != [] {
      CodeHead(x);
      CodeHead(y);
      var n, m := if |x| < 3 then |x| else 3, if |y| < 3 then |y| else 3;
      assert n == |x[..n]| == |y[..m]| == m;
      CodeInjective(x[n..], y[n..]);
      Rejoin(x, y, n);
    } else if x != [] {
      CodeHead(x);
    } else if y != [] {
      CodeHead(y);
    }
  }

  lemma Rejoin(x: Word, y: Word, n: nat)
    requires n <= |x| && n <= |y| && x[..n] == y[..n] && x[n..] == y[n..]
    ensures x == y
  {
    assert x == x[..n] + x[n..] && y == y[..n] + y[n..];
  }

  /** An encoding that begins with that of whole blocks is that of a word that begins with them. */
  lemma {:induction false} CodeSplit(x: Word, w: Word, c: Word)
    requires Whole(w) && Code(x) == Code(w) + c
    ensures |w| <= |x| && x[..|w|] == w && Code(x[|w|..]) == c
  {
    if w == [] {
      assert Code(w) + c == c;
    } else {
      BlockIsFirst(x, w, c);
      CodeSplit(x[3..], w[3..], c);
      assert x[..|w|] == x[..3] + x[3..][..|w| - 3] && w == w[..3] + w[3..];
      assert x[|w|..] == x[3..][|w| - 3..];
    }
  }

  lemma BlockIsFirst(x: Word, w: Word, c: Word)
    requires |w| >= 3 && Code(x) == Code(w) + c
    ensures |x| >= 3 && x[..3] == w[..3] && Code(x[3..]) == Code(w[3..]) + c
  {
    CodeHead(w);
    CutBlock(Code(x), Code(w), c);
    CodeHead(x);
    assert |x[..if |x| < 3 then |x| else 3]| == |w[..3]|;
  }

  lemma CutBlock(d: Word, e: Word, c: Word)
    requires d == e + c && |e| >= 4
    ensures d[..4] == e[..4] && d[4..] == e[4..] + c && d != []
  {
  }

  // ---------- white space ----------

  /** A text without its white space. */
  function Strip(text: Word): Word {
    if text == [] then [] else Strip(text[..|text| - 1]) + (if Space(Last(text)) then [] else [Last(text)])
  }

  lemma {:induction false} StripAppend(x: Word, y: Word)
    ensures Strip(x + y) == Strip(x) + Strip(y)
  {
    if y == [] {
      assert x + y == x;
    } else {
      assert (x + y)[..|x + y| - 1] == x + y[..|y| - 1];
      StripAppend(x, y[..|y| - 1]);
    }
  }

  /** The target that a word's encoding needs: a partial block needs one byte of slack. */
  function Room(n: nat): nat {
    if n % 3 == 0 then n else n + 1
  }

  lemma {:induction false} WholeLength(x: Word)
    requires Whole(x)
    ensures |x| % 3 == 0
  {
    if x != [] {
      WholeLength(x[3..]);
    }
  }

  lemma {:induction false} SizeCode(x: Word)
    ensures Size(Code(x)) == |x|
  {
    if |x| >= 3 {
      SizeCode(x[3..]);
      assert Code(x)[4..] == Code(x[3..]);
    }
  }
}
