/** `_http_string_decode` in its one-pass mode: decoding a text from its end to its beginning. */
module PercentDecode {
  import opened Bytes
  import opened PercentSpec

  const NO_PERCENT := 0
  const PERCENT_XX := 1
  const PERCENT_U00XX := 2
  const PERCENT_XYY := 3
  const PERCENT_UFFXX := 7

  // ---------- a '%' in front of decoded text ----------

  /** What the characters `t` decoded behind a '%' make of it, `plain` of them since the '%' before. */
  function Kind(t: Word, plain: int): int {
    if |t| <= 1 then NO_PERCENT
    else if Same(t[0], 120) && plain >= 3 then (if |t| <= 2 then NO_PERCENT else PERCENT_XYY)
    else if |t| >= 3 && Same(t[0], 117) && t[1] == 48 && t[2] == 48 && plain >= 5 then
      (if |t| <= 4 then NO_PERCENT else PERCENT_U00XX)
    else if |t| >= 3 && Same(t[0], 117) && Same(t[1], 102) && Same(t[2], 102) && plain >= 5 then
      (if |t| <= 4 then NO_PERCENT else PERCENT_UFFXX)
    else if plain >= 2 then PERCENT_XX
    else -1
  }

  /** The two digits behind the first `n` characters replace the '%' and all up to them. */
  function Paired(t: Word, n: nat): Word
    requires n + 1 < |t|
  {
    if HexPair(t[n], t[n + 1]) then [PairValue(t[n], t[n + 1])] + t[n + 2..] else [PERCENT] + t
  }

  function Rewritten(t: Word, plain: int): Word {
    var kind := Kind(t, plain);
    if kind == PERCENT_XX then Paired(t, 0)
    else if kind == PERCENT_XYY then Paired(t, 1)
    else if kind == PERCENT_U00XX then Paired(t, 3)
    else if kind == PERCENT_UFFXX then [WideValue(t[3], t[4])] + t[5..]
    else [PERCENT] + t
  }

  /** The characters just behind a '%' are still as they were, '+' aside. */
  lemma Lead(s: Word, k: nat)
    requires k <= |s| && NoPercent(s[..k])
    ensures |Decoded(s)| >= k && Decoded(s)[k..] == Decoded(s[k..])
    ensures forall j :: 0 <= j < k ==> Decoded(s)[j] == Blank(s[j])
  {
    DecodedPlain(s, k);
  }

  lemma AtLeastPlain(s: Word, k: nat)
    requires k <= |s| && forall j :: 0 <= j < k ==> s[j] != PERCENT && s[j] != PLUS
    ensures Plain(s) >= k && NoPercent(s[..k])
  {
    assert s == s[..k] + s[k..];
    PlainAppend(s[..k], s[k..]);
  }

  /** Reading backward, a '%' becomes what the token reads forward. */
  lemma {:induction false} BackwardIsForward(s: Word)
    ensures Rewritten(Decoded(s), Plain(s)) == Decoded([PERCENT] + s)
  {
    var whole := [PERCENT] + s;
    assert whole[1..] == s;
    var e := Escape(s);
    if e.length == 1 {
      NoEscape(s);
    } else {
      assert whole[e.length..] == s[e.length - 1..];
      if e.length == 3 {
        AtLeastPlain(s, 2);
        Lead(s, 2);
      } else if e.length == 4 {
        AtLeastPlain(s, 3);
        Lead(s, 3);
      } else if s[1] == 48 {
        AtLeastPlain(s, 5);
        Lead(s, 5);
      } else {
        PlainIsNoPercent(s, 5);
        Lead(s, 5);
      }
    }
  }

  lemma NoEscape(s: Word)
    requires Escape(s).length == 1
    ensures Rewritten(Decoded(s), Plain(s)) == [PERCENT] + Decoded(s)
  {
    var t, kind := Decoded(s), Kind(Decoded(s), Plain(s));
    if kind == PERCENT_XX {
      PlainIsNoPercent(s, 2);
      Lead(s, 2);
    } else if kind == PERCENT_XYY {
      PlainIsNoPercent(s, 3);
      Lead(s, 3);
    } else if kind == PERCENT_U00XX || kind == PERCENT_UFFXX {
      PlainIsNoPercent(s, 5);
      Lead(s, 5);
    }
  }

  // ---------- the loop ----------

  /** `_http_percent_xx_decode_backward`. */
  method PercentXxDecodeBackward(s: array<Byte>, len: int) returns (decodeLen: int)
    requires 0 <= len <= s.Length
    modifies s
    ensures decodeLen == 0 || decodeLen == 1
    ensures decodeLen == 1 <==> len > 1 && HexPair(old(s[len - 1]), old(s[len - 2]))
    ensures decodeLen == 1 ==> s[..] == old(s[..])[len - 2 := PairValue(old(s[len - 1]), old(s[len - 2]))]
    ensures decodeLen == 0 ==> s[..] == old(s[..])
  {
    decodeLen := 0;
    if len > 1 {
      var digit1, digit2 := Digit(s[len - 1]), Digit(s[len - 2]);
      if digit1 >= 0 && digit2 >= 0 {
        if digit1 == 0 && digit2 == 0 {
          decodeLen := 0;
        } else {
          s[len - 2] := digit1 * 16 + digit2;
          decodeLen := 1;
        }
      }
    }
  }

  /** `_http_percent_FFxx_decode_backward`. */
  method PercentFfxxDecodeBackward(s: array<Byte>, len: int) returns (decodeLen: int)
    requires 0 <= len <= s.Length
    modifies s
    ensures decodeLen == if len > 1 then 1 else 0
    ensures decodeLen == 1 ==> s[..] == old(s[..])[len - 2 := WideValue(old(s[len - 1]), old(s[len - 2]))]
    ensures decodeLen == 0 ==> s[..] == old(s[..])
  {
    decodeLen := 0;
    if len > 1 {
      var digit1, digit2 := Digit(s[len - 1]) + 2, Digit(s[len - 2]);
      s[len - 2] := Wrapped(Wrapped(16 * digit1) + digit2);
      decodeLen := 1;
    }
  }

  /** The first `len` characters, the last one first. */
  function Backward(s: Word, len: nat): (r: Word)
    requires len <= |s|
    ensures |r| == len
  {
    if len == 0 then [] else [s[len - 1]] + Backward(s, len - 1)
  }

  lemma {:induction false} BackwardAt(s: Word, len: nat, k: nat)
    requires k < len <= |s|
    ensures Backward(s, len)[k] == s[len - 1 - k] && Backward(s, len)[k + 1..] == Backward(s, len - 1 - k)
  {
    if k > 0 {
      BackwardAt(s, len - 1, k - 1);
    }
  }

  lemma {:induction false} SamePrefix(s: Word, r: Word, len: nat)
    requires len <= |s| && len <= |r| && forall k :: 0 <= k < len ==> s[k] == r[k]
    ensures Backward(s, len) == Backward(r, len)
  {
    if len > 0 {
      SamePrefix(s, r, len - 1);
    }
  }

  /** The output is `t` read backward. */
  predicate Holds(s: Word, len: int, t: Word) {
    0 <= len <= |s| && Backward(s, len) == t
  }

  lemma HeldAt(s: Word, len: int, t: Word, k: nat)
    requires Holds(s, len, [PERCENT] + t) && k < |t|
    ensures s[len - 2 - k] == t[k]
  {
    BackwardAt(s, len, k + 1);
  }

  /** `_http_string_decode_type_backward`; a comparison with more characters than there are fails. */
  method TypeBackward(s: array<Byte>, len: int, plain: int, ghost t: Word) returns (kind: int)
    requires Holds(s[..], len, [PERCENT] + t)
    ensures kind == Kind(t, plain)
  {
    forall k | 0 <= k < |t| ensures s[len - 2 - k] == t[k] {
      HeldAt(s[..], len, t, k);
    }
    if len <= 2 {
      return NO_PERCENT;
    }
    if Same(s[len - 2], 120) && plain >= 3 {
      if len <= 3 {
        return NO_PERCENT;
      }
      return PERCENT_XYY;
    }
    if len >= 4 && s[len - 4] == 48 && s[len - 3] == 48 && Same(s[len - 2], 117) && plain >= 5 {
      if len <= 5 {
        return NO_PERCENT;
      }
      return PERCENT_U00XX;
    }
    if len >= 4 && Same(s[len - 4], 102) && Same(s[len - 3], 102) && Same(s[len - 2], 117) && plain >= 5 {
      if len <= 5 {
        return NO_PERCENT;
      }
      return PERCENT_UFFXX;
    }
    if plain >= 2 {
      return PERCENT_XX;
    }
    return -1;
  }

  /** The characters that a pair of digits replaces. */
  lemma Replaced(s: Word, len: int, t: Word, n: nat, b: Byte)
    requires Holds(s, len, [PERCENT] + t) && n + 1 < |t|
    ensures s[len - 2 - n] == t[n] && s[len - 3 - n] == t[n + 1]
    ensures Holds(s[len - 3 - n := b], len - 2 - n, [b] + t[n + 2..])
  {
    HeldAt(s, len, t, n);
    HeldAt(s, len, t, n + 1);
    BackwardAt(s, len, n + 2);
    assert ([PERCENT] + t)[n + 3..] == t[n + 2..];
    SamePrefix(s, s[len - 3 - n := b], len - 3 - n);
  }

  /** `_http_string_decode_backward`: the '%' has just been put behind the decoded text. */
  method DecodeBackward(s: array<Byte>, len: int, plain: int, ghost t: Word) returns (newLen: int)
    requires Holds(s[..], len, [PERCENT] + t)
    modifies s
    ensures Holds(s[..], newLen, Rewritten(t, plain)) && newLen <= len
  {
    newLen := len;
    var kind := TypeBackward(s, len, plain, t);
    if kind < 0 {
      return;
    }
    if kind == PERCENT_XX {
      newLen := DecodePair(s, len, 0, t);
    } else if kind == PERCENT_U00XX {
      newLen := DecodePair(s, len, 3, t);
    } else if kind == PERCENT_UFFXX {
      newLen := DecodeWide(s, len, t);
    } else if kind == PERCENT_XYY {
      newLen := DecodePair(s, len, 1, t);
    }
  }

  /** Behind the '%' and `n` more characters: two digits, or nothing changes. */
  method DecodePair(s: array<Byte>, len: int, n: nat, ghost t: Word) returns (newLen: int)
    requires Holds(s[..], len, [PERCENT] + t) && n + 1 < |t|
    modifies s
    ensures Holds(s[..], newLen, Paired(t, n)) && newLen <= len
  {
    ghost var v := if HexPair(t[n], t[n + 1]) then PairValue(t[n], t[n + 1]) else 0;
    ghost var next := s[..][len - 3 - n := v];
    Replaced(s[..], len, t, n, v);
    newLen := len - (n + 1);
    var decodeLen := PercentXxDecodeBackward(s, newLen);
    if decodeLen != 0 {
      newLen := newLen - decodeLen;
      assert s[..] == next;
    } else {
      newLen := newLen + (n + 1);
    }
  }

  method DecodeWide(s: array<Byte>, len: int, ghost t: Word) returns (newLen: int)
    requires Holds(s[..], len, [PERCENT] + t) && |t| > 4
    modifies s
    ensures Holds(s[..], newLen, [WideValue(t[3], t[4])] + t[5..]) && newLen <= len
  {
    ghost var next := s[..][len - 6 := WideValue(t[3], t[4])];
    Replaced(s[..], len, t, 3, WideValue(t[3], t[4]));
    newLen := len - 4;
    var decodeLen := PercentFfxxDecodeBackward(s, newLen);
    if decodeLen != 0 {
      newLen := newLen - decodeLen;
    } else {
      newLen := newLen + 4;
    }
    assert s[..] == next;
  }

  lemma Grown(s: Word, len: int, t: Word, b: Byte)
    requires Holds(s, len, t) && len < |s|
    ensures Holds(s[len := b], len + 1, [b] + t)
  {
    SamePrefix(s, s[len := b], len);
  }

  method Put(s: array<Byte>, len: int, b: Byte, ghost t: Word)
    requires Holds(s[..], len, t) && len < s.Length
    modifies s
    ensures Holds(s[..], len + 1, [b] + t)
  {
    Grown(s[..], len, t, b);
    ghost var next := s[..][len := b];
    s[len] := b;
    assert s[..] == next;
  }

  /** `_http_string_decode` with ONLY_ONE_DECODE: the output is the decoded text read backward. */
  method StringDecode(out: array<Byte>, input: Word) returns (outLen: int)
    requires |input| <= out.Length
    modifies out
    ensures 0 <= outLen <= |input| && Holds(out[..], outLen, Decoded(input))
  {
    outLen := 0;
    if |input| <= 0 {
      return 0;
    }
    var i, tmpLen := |input| - 1, 0;
    assert input[|input|..] == [];
    while i >= 0
      invariant -1 <= i < |input| && outLen <= |input| - 1 - i
      invariant Holds(out[..], outLen, Decoded(input[i + 1..])) && tmpLen == Plain(input[i + 1..])
    {
      var tmpChar := input[i];
      ghost var rest := input[i + 1..];
      assert input[i..] == [tmpChar] + rest && input[i..][1..] == rest;
      if tmpChar == PERCENT {
        Put(out, outLen, tmpChar, Decoded(rest));
        BackwardIsForward(rest);
        outLen := DecodeBackward(out, outLen + 1, tmpLen, Decoded(rest));
        tmpLen := 0;
      } else if tmpChar == PLUS {
        Put(out, outLen, BLANK, Decoded(rest));
        outLen := outLen + 1;
      } else {
        Put(out, outLen, tmpChar, Decoded(rest));
        outLen, tmpLen := outLen + 1, tmpLen + 1;
      }
      i := i - 1;
    }
    assert input[0..] == input;
  }

  /** `_http_reverse_string`. */
  method ReverseString(s: array<Byte>, len: int)
    requires len <= s.Length
    modifies s
    ensures forall k :: 0 <= k < len ==> s[k] == old(s[len - 1 - k])
    ensures forall k :: 0 <= k < s.Length && k >= len ==> s[k] == old(s[k])
  {
    if len <= 0 {
      return;
    }
    var i := 0;
    while i <= len / 2 - 1
      invariant 0 <= i <= len / 2
      invariant forall k :: 0 <= k < i || len - i <= k < len ==> s[k] == old(s[len - 1 - k])
      invariant forall k :: i <= k < len - i || len <= k < s.Length ==> s[k] == old(s[k])
    {
      var tmp := s[i];
      s[i] := s[len - i - 1];
      s[len - i - 1] := tmp;
      i := i + 1;
    }
  }

  /** One pass with its reversal: the text read forward, token by token. */
  method DecodeString(out: array<Byte>, input: Word) returns (len: int)
    requires |input| <= out.Length
    modifies out
    ensures 0 <= len <= |input| && out[..len] == Decoded(input)
  {
    len := StringDecode(out, input);
    forall k | 0 <= k < len ensures Decoded(input)[k] == out[len - 1 - k] {
      BackwardAt(out[..], len, k);
    }
    ReverseString(out, len);
  }
}
