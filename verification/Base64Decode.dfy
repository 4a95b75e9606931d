/** `b64_encode` and `b64_decode`. */
module Base64Decode {
  import opened Bytes
  import opened Base64

  // ---------- b64_encode ----------

  /** Four characters of what is left to write. */
  method PutFour(target: array<Byte>, at: nat, c: Word, ghost left: Word, ghost after: Word)
    requires |c| == 4 && at + 4 <= target.Length && left == c + after
    modifies target
    ensures target[..at + 4] + after == old(target[..at]) + left
  {
    target[at], target[at + 1], target[at + 2], target[at + 3] := c[0], c[1], c[2], c[3];
    assert target[..at + 4] == old(target[..at]) + c;
  }

  lemma CodeNext(src: Word, i: nat)
    requires i + 2 < |src|
    ensures Code(src[i..]) ==
      [Char(S0(src[i])), Char(S1(src[i], src[i + 1])), Char(S2(src[i + 1], src[i + 2])), Char(S3(src[i + 2]))]
      + Code(src[i + 3..])
  {
    assert src[i..][3..] == src[i + 3..];
  }

  lemma CodeLast(src: Word, i: nat)
    requires i < |src| <= i + 2
    ensures var b := if i + 1 < |src| then src[i + 1] else 0;
            Code(src[i..]) ==
              [Char(S0(src[i])), Char(S1(src[i], b)), if i + 1 == |src| then PAD else Char(S2(b, 0)), PAD]
  {
  }

  method Encode(src: Word, target: array<Byte>, targsize: nat) returns (n: int)
    requires targsize <= target.Length
    modifies target
    ensures |Code(src)| < targsize ==> n == |Code(src)| && target[..n] == Code(src) && target[n] == 0
    ensures |Code(src)| >= targsize ==> n == -1
  {
    var i, datalength := 0, 0;
    assert src[i..] == src;
    ghost var rest := Code(src);
    while i + 2 < |src|
      invariant 0 <= i <= |src| && 0 <= datalength <= targsize
      invariant rest == Code(src[i..]) && target[..datalength] + rest == Code(src)
    {
      var a, b, c := src[i], src[i + 1], src[i + 2];
      var o0, o1, o2, o3 := Char(S0(a)), Char(S1(a, b)), Char(S2(b, c)), Char(S3(c));
      CodeNext(src, i);
      if datalength + 4 > targsize {
        return -1;
      }
      PutFour(target, datalength, [o0, o1, o2, o3], rest, Code(src[i + 3..]));
      i, datalength, rest := i + 3, datalength + 4, Code(src[i + 3..]);
    }
    if i < |src| {
      var a, b := src[i], if i + 1 < |src| then src[i + 1] else 0;
      var o0, o1, o2 := Char(S0(a)), Char(S1(a, b)), if i + 1 == |src| then PAD else Char(S2(b, 0));
      CodeLast(src, i);
      if datalength + 4 > targsize {
        return -1;
      }
      PutFour(target, datalength, [o0, o1, o2, PAD], rest, []);
      datalength := datalength + 4;
      rest := [];
    }
    if datalength >= targsize {
      return -1;
    }
    target[datalength] := 0;
    return datalength;
  }

  // ---------- the parser's buffer ----------

  predicate AllIn(c: Word) {
    forall k :: 0 <= k < |c| ==> InAlphabet(c[k])
  }

  /** Where the next bits go, behind the whole blocks' bytes and a part of a block. */
  function Index(whole: Word, part: Word): nat {
    |whole| + if part == [] then 0 else |part| - 1
  }

  function Slots(whole: Word, part: Word): nat {
    |whole| + |part|
  }

  /** The buffer holds what has been read: whole blocks, and the bits of a part of one. */
  predicate Holds(buf: Word, whole: Word, part: Word)
    requires |part| < 4 && AllIn(part)
  {
    && Slots(whole, part) <= |buf| && buf[..|whole|] == whole
    && var t := |whole|;
       match |part|
       case 0 => true
       case 1 => buf[t] == Value(part[0]) * 4
       case 2 => buf[t] == B0(Value(part[0]), Value(part[1])) && buf[t + 1] == Value(part[1]) % 16 * 16
       case _ => && buf[t] == B0(Value(part[0]), Value(part[1])) && buf[t + 1] == B1(Value(part[1]), Value(part[2]))
                 && buf[t + 2] == Value(part[2]) % 4 * 64
  }

  function BlockOf(c: Word): Word
    requires |c| == 4 && AllIn(c)
  {
    [B0(Value(c[0]), Value(c[1])), B1(Value(c[1]), Value(c[2])), B2(Value(c[2]), Value(c[3]))]
  }

  lemma CodeOfBlock(whole: Word, c: Word)
    requires Whole(whole) && |c| == 4 && AllIn(c)
    ensures Whole(whole + BlockOf(c)) && Code(whole + BlockOf(c)) == Code(whole) + c
  {
    CodeAppend(whole, BlockOf(c));
    WholeAppend(whole, BlockOf(c));
    BlockBack(Value(c[0]), Value(c[1]), Value(c[2]), Value(c[3]));
    CharOfValue(c[0]);
    CharOfValue(c[1]);
    CharOfValue(c[2]);
    CharOfValue(c[3]);
    assert c == [c[0], c[1], c[2], c[3]];
    assert BlockOf(c)[3..] == [];
  }

  // ---------- what the parser may answer ----------

  /** The answer to a text `c` without white space.  With no target only the shape counts;
      with a target of `size` bytes the answer is the decoded word, whose canonical encoding
      the text is, and failure means that there is none which fits. */
  ghost predicate Answers(c: Word, given: bool, size: nat, n: int, buf: Word) {
    if !given then n == Size(c)
    else if n < 0 then n == -1 && forall x :: Code(x) == c ==> Room(|x|) > size
    else n <= |buf| && Code(buf[..n]) == c && Room(n) <= size
  }

  /** No word has this shape. */
  lemma RejectShape(whole: Word, part: Word, rest: Word, given: bool, size: nat, buf: Word)
    requires Whole(whole) && Size(part + rest) < 0
    ensures Answers(Code(whole) + (part + rest), given, size, -1, buf)
  {
    SizeOfCode(whole, part + rest);
    forall x ensures Code(x) != Code(whole) + (part + rest) {
      SizeCode(x);
    }
  }

  /** How many bytes of target a block needs, once a character more than `part` is in it. */
  function Need(part: Word): nat {
    if |part| < 2 then 2 else 3
  }

  lemma BlockNeeds(y: Word, part: Word, ch: Byte, rest: Word)
    requires AllIn(part + [ch]) && |part| < 4 && Code(y) == part + [ch] + rest
    ensures Room(|y|) >= Need(part)
  {
    assert (part + [ch])[|part|] == ch && Code(y)[|part|] == ch;
    assert |y| >= 1 && (|part| >= 2 ==> |y| >= |part|);
  }

  lemma {:induction false} WordNeeds(x: Word, whole: Word, part: Word, ch: Byte, rest: Word)
    requires Whole(whole) && AllIn(part + [ch]) && |part| < 4 && Code(x) == Code(whole) + (part + [ch] + rest)
    ensures Room(|x|) >= |whole| + Need(part)
  {
    CodeSplit(x, whole, part + [ch] + rest);
    BlockNeeds(x[|whole|..], part, ch, rest);
    WholeLength(whole);
    RoomOfSum(|whole|, |x| - |whole|);
  }

  lemma RoomOfSum(n: nat, m: nat)
    requires n % 3 == 0
    ensures Room(n + m) == n + Room(m)
  {
  }

  /** The target is too small for the next character. */
  lemma RejectRoom(whole: Word, part: Word, ch: Byte, rest: Word, size: nat, buf: Word)
    requires Whole(whole) && AllIn(part + [ch]) && |part| < 4 && size < |whole| + Need(part)
    ensures Answers(Code(whole) + (part + [ch] + rest), true, size, -1, buf)
  {
    forall x | Code(x) == Code(whole) + (part + [ch] + rest) ensures Room(|x|) > size {
      WordNeeds(x, whole, part, ch, rest);
    }
  }

  // ---------- the last block ----------

  function Pads(part: Word): Word {
    if |part| == 2 then [PAD, PAD] else if |part| == 3 then [PAD] else []
  }

  /** No bits are left over behind the last byte. */
  predicate Clean(part: Word)
    requires AllIn(part)
  {
    (|part| == 2 ==> Value(part[1]) % 16 == 0) && (|part| == 3 ==> Value(part[2]) % 4 == 0)
  }

  function PartBytes(part: Word): Word
    requires AllIn(part)
  {
    if |part| == 2 then [B0(Value(part[0]), Value(part[1]))]
    else if |part| == 3 then [B0(Value(part[0]), Value(part[1])), B1(Value(part[1]), Value(part[2]))]
    else []
  }

  lemma CodeOfPart2(part: Word)
    requires AllIn(part) && |part| == 2 && Clean(part)
    ensures Code(PartBytes(part)) == part + Pads(part)
  {
    var p, q := Value(part[0]), Value(part[1]);
    CharOfValue(part[0]);
    CharOfValue(part[1]);
    OneByteBack(p, q);
    assert Code(PartBytes(part)) == [Char(p), Char(q), PAD, PAD];
  }

  lemma CodeOfPart3(part: Word)
    requires AllIn(part) && |part| == 3 && Clean(part)
    ensures Code(PartBytes(part)) == part + Pads(part)
  {
    var p, q, r := Value(part[0]), Value(part[1]), Value(part[2]);
    CharOfValue(part[0]);
    CharOfValue(part[1]);
    CharOfValue(part[2]);
    BlockBack(p, q, r, 0);
    assert Code(PartBytes(part)) == [Char(p), Char(q), Char(r), PAD];
  }

  lemma PartOfCode2(y: Word, part: Word)
    requires AllIn(part) && |part| == 2 && Code(y) == part + Pads(part)
    ensures Clean(part)
  {
    var c := part + Pads(part);
    assert c[2] == PAD && c[3] == PAD && c[1] == part[1];
    assert |y| == 1;
    ValueOfChar(S1(y[0], 0));
    NoBitsBehind(y[0]);
  }

  lemma PartOfCode3(y: Word, part: Word)
    requires AllIn(part) && |part| == 3 && Code(y) == part + Pads(part)
    ensures Clean(part)
  {
    var c := part + Pads(part);
    assert c[3] == PAD && c[2] == part[2];
    assert |y| == 2;
    ValueOfChar(S2(y[1], 0));
    NoBitsBehind(y[1]);
  }

  /** Bits are left over. */
  lemma RejectBits(whole: Word, part: Word, size: nat, buf: Word)
    requires Whole(whole) && AllIn(part) && 2 <= |part| < 4 && !Clean(part)
    ensures Answers(Code(whole) + (part + Pads(part)), true, size, -1, buf)
  {
    forall x ensures Code(x) != Code(whole) + (part + Pads(part)) {
      if Code(x) == Code(whole) + (part + Pads(part)) {
        CodeSplit(x, whole, part + Pads(part));
        if |part| == 2 {
          PartOfCode2(x[|whole|..], part);
        } else {
          PartOfCode3(x[|whole|..], part);
        }
      }
    }
  }

  lemma HeldBytes(buf: Word, whole: Word, part: Word)
    requires |part| < 4 && AllIn(part) && Holds(buf, whole, part)
    ensures Index(whole, part) <= |buf| && buf[..Index(whole, part)] == whole + PartBytes(part)
  {
  }

  /** The text is complete, with its padding if it needs one. */
  lemma Accept(whole: Word, part: Word, size: nat, buf: Word)
    requires Whole(whole) && AllIn(part) && |part| < 4 && |part| != 1 && Holds(buf, whole, part)
    requires Slots(whole, part) <= size && Clean(part)
    ensures Answers(Code(whole) + (part + Pads(part)), true, size, Index(whole, part), buf)
  {
    WholeLength(whole);
    HeldBytes(buf, whole, part);
    CodeAppend(whole, PartBytes(part));
    if |part| == 2 {
      CodeOfPart2(part);
    } else if |part| == 3 {
      CodeOfPart3(part);
    }
  }

  /** Without a target the shape alone is answered. */
  lemma AnswerShape(whole: Word, part: Word, size: nat, buf: Word)
    requires Whole(whole) && AllIn(part) && |part| < 4
    ensures Answers(Code(whole) + (part + Pads(part)), false, size, if |part| == 1 then -1 else Index(whole, part), buf)
  {
    SizeOfCode(whole, part + Pads(part));
  }

  // ---------- b64_decode ----------

  /** The string in `src` from `r` on is still as it was. */
  predicate Unread(src: Word, text: Word, r: int) {
    && 0 <= r && |text| < |src| && (r <= |text| ==> src[|text|] == 0)
    && forall k :: r <= k < |text| ==> src[k] == text[k]
  }

  predicate IsText(text: Word) {
    forall k :: 0 <= k < |text| ==> 0 < text[k] < 128
  }

  /** What the loop has read: white space, whole blocks and a part of one. */
  predicate Read(text: Word, r: int, whole: Word, part: Word) {
    0 <= r <= |text| && Whole(whole) && AllIn(part) && |part| < 4 && Strip(text[..r]) == Code(whole) + part
  }

  lemma StripNext(text: Word, r: int)
    requires 0 <= r < |text|
    ensures Strip(text[..r + 1]) == Strip(text[..r]) + (if Space(text[r]) then [] else [text[r]])
    ensures Strip(text[r..]) == (if Space(text[r]) then [] else [text[r]]) + Strip(text[r + 1..])
  {
    assert text[..r + 1][..r] == text[..r];
    assert text[r..] == [text[r]] + text[r + 1..];
    StripAppend([text[r]], text[r + 1..]);
    assert Strip([text[r]]) == Strip([]) + (if Space(text[r]) then [] else [text[r]]);
  }

  lemma StripAll(text: Word, r: int)
    requires 0 <= r <= |text|
    ensures Strip(text) == Strip(text[..r]) + Strip(text[r..])
  {
    assert text == text[..r] + text[r..];
    StripAppend(text[..r], text[r..]);
  }

  function NextWhole(whole: Word, part: Word, ch: Byte): Word
    requires |part| < 4 && AllIn(part) && InAlphabet(ch)
  {
    if |part| == 3 then whole + BlockOf(part + [ch]) else whole
  }

  function NextPart(part: Word, ch: Byte): (next: Word)
    requires |part| < 4 && AllIn(part) && InAlphabet(ch)
    ensures |next| < 4 && AllIn(next)
  {
    if |part| == 3 then [] else part + [ch]
  }

  lemma ReadSpace(text: Word, r: int, whole: Word, part: Word)
    requires Read(text, r, whole, part) && r < |text| && Space(text[r])
    ensures Read(text, r + 1, whole, part)
  {
    StripNext(text, r);
  }

  /** One character more. */
  lemma ReadNext(text: Word, r: int, whole: Word, part: Word)
    requires Read(text, r, whole, part) && r < |text| && InAlphabet(text[r])
    ensures Read(text, r + 1, NextWhole(whole, part, text[r]), NextPart(part, text[r]))
  {
    CharOfValue(text[r]);
    StripNext(text, r);
    if |part| == 3 {
      CodeOfBlock(whole, part + [text[r]]);
    }
  }

  // The target after a character, one lemma for each state.

  lemma Stored0(buf: Word, whole: Word, ch: Byte)
    requires Holds(buf, whole, []) && InAlphabet(ch) && |whole| < |buf|
    ensures Holds(buf[|whole| := Value(ch) * 4], whole, [ch])
  {
  }

  lemma Stored1(buf: Word, whole: Word, part: Word, ch: Byte)
    requires |part| == 1 && AllIn(part) && Holds(buf, whole, part) && InAlphabet(ch) && |whole| + 1 < |buf|
    ensures var t, v := |whole|, Value(ch);
            Or(buf[t], v / 16) < 256 && Holds(buf[t := Or(buf[t], v / 16)][t + 1 := v % 16 * 16], whole, part + [ch])
  {
    OrLow2(Value(part[0]), Value(ch) / 16);
  }

  lemma Stored2(buf: Word, whole: Word, part: Word, ch: Byte)
    requires |part| == 2 && AllIn(part) && Holds(buf, whole, part) && InAlphabet(ch) && |whole| + 2 < |buf|
    ensures var t, v := |whole| + 1, Value(ch);
            Or(buf[t], v / 4) < 256 && Holds(buf[t := Or(buf[t], v / 4)][t + 1 := v % 4 * 64], whole, part + [ch])
  {
    OrLow4(Value(part[1]) % 16, Value(ch) / 4);
  }

  lemma Stored3(buf: Word, whole: Word, part: Word, ch: Byte)
    requires |part| == 3 && AllIn(part) && Holds(buf, whole, part) && InAlphabet(ch)
    ensures var t, v := |whole| + 2, Value(ch);
            Or(buf[t], v) < 256 && Holds(buf[t := Or(buf[t], v)], whole + BlockOf(part + [ch]), [])
  {
    var t, v := |whole| + 2, Value(ch);
    OrLow6(Value(part[2]) % 4, v);
    var next := buf[t := Or(buf[t], v)];
    assert next[..|whole|] == buf[..|whole|];
    assert next[..|whole| + 3] == next[..|whole|] + [next[|whole|], next[|whole| + 1], next[|whole| + 2]];
  }

  /** The switch of the loop body. */
  method Store(target: array?<Byte>, targsize: nat, tarindex: int, state: int, ch: Byte, ghost whole: Word,
               ghost part: Word)
    returns (ok: bool, t: int, s: int)
    requires |part| == state < 4 && AllIn(part) && InAlphabet(ch) && tarindex == Index(whole, part)
    requires target != null ==> && targsize <= target.Length && Slots(whole, part) <= targsize
                                && Holds(target[..], whole, part)
    modifies if target == null then {} else {target}
    ensures ok <==> target == null || Slots(NextWhole(whole, part, ch), NextPart(part, ch)) <= targsize
    ensures ok ==> var whole', part' := NextWhole(whole, part, ch), NextPart(part, ch);
              && t == Index(whole', part') && s == |part'|
              && (target != null ==> Holds(target[..], whole', part') && Slots(whole', part') <= Slots(whole, part) + 1)
    ensures target != null ==> forall k :: Slots(whole, part) < k < target.Length ==> target[k] == old(target[k])
  {
    var pos := Value(ch);
    match state
    case 0 =>
      ok := Store0(target, targsize, tarindex, pos, ch, whole);
      t, s := tarindex, if ok then 1 else state;
    case 1 =>
      ok := Store1(target, targsize, tarindex, pos, ch, whole, part);
      t, s := if ok then tarindex + 1 else tarindex, if ok then 2 else state;
    case 2 =>
      ok := Store2(target, targsize, tarindex, pos, ch, whole, part);
      t, s := if ok then tarindex + 1 else tarindex, if ok then 3 else state;
    case _ =>
      ok := Store3(target, targsize, tarindex, pos, ch, whole, part);
      t, s := if ok then tarindex + 1 else tarindex, if ok then 0 else state;
  }

  // The cases of the switch: too small a target, or the character's bits in their slots.

  method Store0(target: array?<Byte>, targsize: nat, tarindex: int, pos: int, ch: Byte, ghost whole: Word)
    returns (ok: bool)
    requires InAlphabet(ch) && pos == Value(ch) && tarindex == |whole|
    requires target != null ==> targsize <= target.Length && |whole| <= targsize && Holds(target[..], whole, [])
    modifies if target == null then {} else {target}
    ensures ok <==> target == null || |whole| + 1 <= targsize
    ensures ok && target != null ==> Holds(target[..], whole, [ch])
    ensures target != null ==> forall k :: |whole| < k < target.Length ==> target[k] == old(target[k])
  {
    if target != null {
      if tarindex >= targsize {
        return false;
      }
      Stored0(target[..], whole, ch);
      PutOne(target, tarindex, pos * 4);
    }
    return true;
  }

  method Store1(target: array?<Byte>, targsize: nat, tarindex: int, pos: int, ch: Byte, ghost whole: Word,
                ghost part: Word)
    returns (ok: bool)
    requires |part| == 1 && AllIn(part) && InAlphabet(ch) && pos == Value(ch) && tarindex == |whole|
    requires target != null ==> targsize <= target.Length && |whole| + 1 <= targsize && Holds(target[..], whole, part)
    modifies if target == null then {} else {target}
    ensures ok <==> target == null || |whole| + 2 <= targsize
    ensures ok && target != null ==> Holds(target[..], whole, part + [ch])
    ensures target != null ==> forall k :: |whole| + 1 < k < target.Length ==> target[k] == old(target[k])
  {
    if target != null {
      if tarindex + 1 >= targsize {
        return false;
      }
      Stored1(target[..], whole, part, ch);
      PutTwo(target, tarindex, Or(target[tarindex], pos / 16), pos % 16 * 16);
    }
    return true;
  }

  method Store2(target: array?<Byte>, targsize: nat, tarindex: int, pos: int, ch: Byte, ghost whole: Word,
                ghost part: Word)
    returns (ok: bool)
    requires |part| == 2 && AllIn(part) && InAlphabet(ch) && pos == Value(ch) && tarindex == |whole| + 1
    requires target != null ==> targsize <= target.Length && |whole| + 2 <= targsize && Holds(target[..], whole, part)
    modifies if target == null then {} else {target}
    ensures ok <==> target == null || |whole| + 3 <= targsize
    ensures ok && target != null ==> Holds(target[..], whole, part + [ch])
    ensures target != null ==> forall k :: |whole| + 2 < k < target.Length ==> target[k] == old(target[k])
  {
    if target != null {
      if tarindex + 1 >= targsize {
        return false;
      }
      Stored2(target[..], whole, part, ch);
      PutTwo(target, tarindex, Or(target[tarindex], pos / 4), pos % 4 * 64);
    }
    return true;
  }

  method Store3(target: array?<Byte>, targsize: nat, tarindex: int, pos: int, ch: Byte, ghost whole: Word,
                ghost part: Word)
    returns (ok: bool)
    requires |part| == 3 && AllIn(part) && InAlphabet(ch) && pos == Value(ch) && tarindex == |whole| + 2
    requires target != null ==> targsize <= target.Length && |whole| + 3 <= targsize && Holds(target[..], whole, part)
    modifies if target == null then {} else {target}
    ensures ok
    ensures target != null ==> Holds(target[..], whole + BlockOf(part + [ch]), [])
    ensures target != null ==> forall k :: |whole| + 3 <= k < target.Length ==> target[k] == old(target[k])
  {
    if target != null {
      if tarindex >= targsize {
        return false;
      }
      Stored3(target[..], whole, part, ch);
      PutOne(target, tarindex, Or(target[tarindex], pos));
    }
    return true;
  }

  method PutOne(target: array<Byte>, t: nat, b: Byte)
    requires t < target.Length
    modifies target
    ensures target[..] == old(target[..])[t := b]
  {
    target[t] := b;
  }

  method PutTwo(target: array<Byte>, t: nat, b: Byte, c: Byte)
    requires t + 1 < target.Length
    modifies target
    ensures target[..] == old(target[..])[t := b][t + 1 := c]
  {
    target[t], target[t + 1] := b, c;
  }

  /** White space from the read character `first` on, up to another character or the end. */
  method SkipSpace(src: array<Byte>, from: int, first: Byte, ghost text: Word) returns (ch: Byte, r: int)
    requires 0 < from <= |text| + 1 && Unread(src[..], text, from) && IsText(text)
    requires first == if from <= |text| then text[from - 1] else 0
    ensures from <= r <= |text| + 1 && ch == if r <= |text| then text[r - 1] else 0
    ensures ch == 0 ==> Strip(text[from - 1..]) == []
    ensures ch != 0 ==> r <= |text| && Strip(text[from - 1..]) == [ch] + Strip(text[r..])
  {
    ch, r := first, from;
    while ch != 0
      invariant from <= r <= |text| + 1 && ch == if r <= |text| then text[r - 1] else 0
      invariant Strip(text[from - 1..]) == Strip(text[r - 1..])
      decreases |text| + 1 - r
    {
      StripNext(text, r - 1);
      if !Space(ch) {
        break;
      }
      ch, r := src[r], r + 1;
    }
    if r == |text| + 1 {
      assert text[|text|..] == [];
    }
  }

  /** Behind a padding character: what may still follow. */
  method Padding(src: array<Byte>, from: int, state: int, ghost text: Word, ghost part: Word) returns (ok: bool)
    requires 0 < from <= |text| && Unread(src[..], text, from) && IsText(text)
    requires |part| == state < 4 && AllIn(part)
    ensures ok ==> state >= 2 && [PAD] + Strip(text[from..]) == Pads(part)
    ensures !ok ==> Size(part + ([PAD] + Strip(text[from..]))) < 0
  {
    if state == 0 || state == 1 {
      PadTooEarly(part, Strip(text[from..]));
      return false;
    }
    var r := from;
    if state == 2 {
      var found;
      found, r := SecondPad(src, from, text);
      if !found {
        SecondPadMissing(part, Strip(text[from..]));
        return false;
      }
    }
    assert [PAD] + Strip(text[from..]) == Pads(part) + Strip(text[r..]);
    var ch := SkipToEnd(src, r, text);
    if ch != 0 {
      PadsThenMore(part, Strip(text[r..]));
      return false;
    }
    return true;
  }

  /** White space and another padding character. */
  method SecondPad(src: array<Byte>, from: int, ghost text: Word) returns (found: bool, r: int)
    requires 0 <= from <= |text| && Unread(src[..], text, from) && IsText(text)
    ensures found ==> from <= r <= |text| && Strip(text[from..]) == [PAD] + Strip(text[r..])
    ensures !found && Strip(text[from..]) != [] ==> Strip(text[from..])[0] != PAD
  {
    var ch;
    ch, r := SkipSpace(src, from + 1, src[from], text);
    found := ch == PAD;
  }

  /** 0 if nothing but white space is left. */
  method SkipToEnd(src: array<Byte>, from: int, ghost text: Word) returns (ch: Byte)
    requires 0 <= from <= |text| && Unread(src[..], text, from) && IsText(text)
    ensures ch == 0 <==> Strip(text[from..]) == []
  {
    var r;
    ch, r := SkipSpace(src, from + 1, src[from], text);
  }

  lemma PadTooEarly(part: Word, rest: Word)
    requires |part| < 2
    ensures Size(part + ([PAD] + rest)) < 0
  {
    assert (part + ([PAD] + rest))[|part|] == PAD;
  }

  lemma SecondPadMissing(part: Word, rest: Word)
    requires |part| == 2 && (rest != [] ==> rest[0] != PAD)
    ensures Size(part + ([PAD] + rest)) < 0
  {
    var c := part + ([PAD] + rest);
    assert c[2] == PAD && (rest != [] ==> c[3] == rest[0]);
  }

  lemma PadsThenMore(part: Word, more: Word)
    requires 2 <= |part| < 4 && more != []
    ensures Size(part + (Pads(part) + more)) < 0
  {
    assert (part + (Pads(part) + more))[3] == PAD;
  }

  method Finish(src: array<Byte>, target: array?<Byte>, targsize: nat, from: int, tarindex: int, state: int,
                ghost text: Word, ghost whole: Word, ghost part: Word)
    returns (n: int)
    requires 0 < from <= |text| && Unread(src[..], text, from) && IsText(text) && text[from - 1] == PAD
    requires Read(text, from - 1, whole, part) && |part| == state && tarindex == Index(whole, part)
    requires target != null ==> && targsize <= target.Length && Slots(whole, part) <= targsize
                                && Holds(target[..], whole, part)
    ensures Answers(Strip(text), target != null, targsize, n, if target == null then [] else target[..])
  {
    ghost var buf := if target == null then [] else target[..];
    PaddedText(text, from, whole, part);
    var ok := Padding(src, from, state, text, part);
    if !ok {
      RejectShape(whole, part, [PAD] + Strip(text[from..]), target != null, targsize, buf);
      return -1;
    }
    if target != null && target[tarindex] != 0 {
      RejectBits(whole, part, targsize, buf);
      return -1;
    }
    if target == null {
      AnswerShape(whole, part, targsize, buf);
    } else {
      Accept(whole, part, targsize, buf);
    }
    return tarindex;
  }

  lemma PaddedText(text: Word, from: int, whole: Word, part: Word)
    requires 0 < from <= |text| && text[from - 1] == PAD && Read(text, from - 1, whole, part)
    ensures Strip(text) == Code(whole) + (part + ([PAD] + Strip(text[from..])))
  {
    StripAll(text, from - 1);
    StripNext(text, from - 1);
    Regroup(Code(whole), part, [PAD] + Strip(text[from..]));
  }

  /** The string `text` in `src`; the target may be missing, and may be `src` itself. */
  method Decode(src: array<Byte>, target: array?<Byte>, targsize: nat, ghost text: Word) returns (n: int)
    requires Unread(src[..], text, 0) && IsText(text)
    requires target != null ==> targsize <= target.Length
    modifies if target == null then {} else {target}
    ensures Answers(Strip(text), target != null, targsize, n, if target == null then [] else target[..])
  {
    var r, tarindex, state := 0, 0, 0;
    ghost var whole, part: Word := [], [];
    while true
      invariant Read(text, r, whole, part) && |part| == state && tarindex == Index(whole, part)
      invariant Unread(src[..], text, r)
      invariant target != null ==> && Slots(whole, part) <= targsize && Slots(whole, part) <= r
                                   && Holds(target[..], whole, part)
      decreases |text| - r
    {
      var ch := src[r];
      r := r + 1;
      if ch == 0 {
        n := AtEnd(target, targsize, tarindex, state, text, whole, part);
        return;
      }
      if Space(ch) {
        ReadSpace(text, r - 1, whole, part);
        continue;
      }
      if ch == PAD {
        n := Finish(src, target, targsize, r, tarindex, state, text, whole, part);
        return;
      }
      var ok;
      ok, tarindex, state := TakeChar(src, target, targsize, tarindex, state, ch, r - 1, text, whole, part);
      if !ok {
        return -1;
      }
      whole, part := NextWhole(whole, part, ch), NextPart(part, ch);
    }
  }

  /** A character that is neither white space nor padding. */
  method TakeChar(src: array<Byte>, target: array?<Byte>, targsize: nat, tarindex: int, state: int, ch: Byte,
                  ghost r: int,
                  ghost text: Word, ghost whole: Word, ghost part: Word)
    returns (ok: bool, t: int, s: int)
    requires Read(text, r, whole, part) && r < |text| && text[r] == ch != PAD && !Space(ch) &&
              Unread(src[..], text, r + 1)
    requires |part| == state && tarindex == Index(whole, part)
    requires target != null ==> && targsize <= target.Length
                                && Slots(whole, part) <= targsize && Slots(whole, part) <= r
                                && Holds(target[..], whole, part)
    modifies if target == null then {} else {target}
    ensures !ok ==> Answers(Strip(text), target != null, targsize, -1, if target == null then [] else target[..])
    ensures ok ==> && InAlphabet(ch) && Read(text, r + 1, NextWhole(whole, part, ch), NextPart(part, ch))
                   && Unread(src[..], text, r + 1)
                   && t == Index(NextWhole(whole, part, ch), NextPart(part, ch)) && s == |NextPart(part, ch)|
    ensures ok && target != null ==>
              && Slots(NextWhole(whole, part, ch), NextPart(part, ch)) <= targsize
              && Slots(NextWhole(whole, part, ch), NextPart(part, ch)) <= r + 1
              && Holds(target[..], NextWhole(whole, part, ch), NextPart(part, ch))
  {
    t, s := tarindex, state;
    var pos := Value(ch);
    if pos == -1 {
      RejectChar(text, r, whole, part, target != null, targsize, if target == null then [] else target[..]);
      return false, t, s;
    }
    ReadNext(text, r, whole, part);
    ok, t, s := Store(target, targsize, tarindex, state, ch, whole, part);
    if !ok {
      RejectRoomAt(text, r, whole, part, targsize, target[..]);
    }
  }

  /** The string has ended: no part of a block may be left. */
  method AtEnd(target: array?<Byte>, targsize: nat, tarindex: int, state: int, ghost text: Word, ghost whole: Word,
               ghost part: Word)
    returns (n: int)
    requires Read(text, |text|, whole, part) && |part| == state && tarindex == Index(whole, part)
    requires target != null ==> Slots(whole, part) <= targsize && Holds(target[..], whole, part)
    ensures Answers(Strip(text), target != null, targsize, n, if target == null then [] else target[..])
  {
    ghost var buf := if target == null then [] else target[..];
    assert text[..|text|] == text && Strip(text) == Code(whole) + (part + []);
    if state != 0 {
      RejectShape(whole, part, [], target != null, targsize, buf);
      return -1;
    }
    if target == null {
      AnswerShape(whole, part, targsize, buf);
    } else {
      Accept(whole, part, targsize, buf);
    }
    return tarindex;
  }

  lemma RejectChar(text: Word, r: int, whole: Word, part: Word, given: bool, size: nat, buf: Word)
    requires Read(text, r, whole, part) && r < |text| && !InAlphabet(text[r]) && text[r] != PAD && !Space(text[r])
    ensures Answers(Strip(text), given, size, -1, buf)
  {
    StripAll(text, r);
    StripNext(text, r);
    var ch, rest := text[r], Strip(text[r + 1..]);
    Regroup(Code(whole), part, [ch] + rest);
    BadCharacter(part, ch, rest);
    RejectShape(whole, part, [ch] + rest, given, size, buf);
  }

  lemma Regroup(a: Word, b: Word, c: Word)
    ensures a + b + c == a + (b + c)
  {
  }

  lemma BadCharacter(part: Word, ch: Byte, rest: Word)
    requires |part| < 4 && !InAlphabet(ch) && ch != PAD
    ensures Size(part + ([ch] + rest)) < 0
  {
    assert (part + ([ch] + rest))[|part|] == ch;
  }

  lemma RejectRoomAt(text: Word, r: int, whole: Word, part: Word, size: nat, buf: Word)
    requires Read(text, r, whole, part) && r < |text| && InAlphabet(text[r]) && size < |whole| + Need(part)
    ensures Answers(Strip(text), true, size, -1, buf)
  {
    CharOfValue(text[r]);
    StripAll(text, r);
    StripNext(text, r);
    var rest := Strip(text[r + 1..]);
    Regroup(Code(whole), part, [text[r]] + rest);
    Regroup(part, [text[r]], rest);
    RejectRoom(whole, part, text[r], rest, size, buf);
  }

  // ---------- round trips ----------

  lemma {:induction false} StripNoSpace(c: Word)
    requires forall k :: 0 <= k < |c| ==> !Space(c[k])
    ensures Strip(c) == c
  {
    if c != [] {
      StripNoSpace(c[..|c| - 1]);
    }
  }

  /** An encoding is a text without white space. */
  lemma CodeIsText(x: Word)
    ensures IsText(Code(x)) && Strip(Code(x)) == Code(x)
  {
    CodeChars(x);
    forall k | 0 <= k < |Code(x)| ensures 0 < Code(x)[k] < 128 && !Space(Code(x)[k]) {
      PlainChar(Code(x)[k]);
    }
    StripNoSpace(Code(x));
  }

  lemma PlainChar(ch: Byte)
    requires InAlphabet(ch) || ch == PAD
    ensures 0 < ch < 128 && !Space(ch)
  {
  }

  lemma {:induction false} CodeChars(x: Word)
    ensures forall k :: 0 <= k < |Code(x)| ==> InAlphabet(Code(x)[k]) || Code(x)[k] == PAD
  {
    if |x| >= 3 {
      CodeChars(x[3..]);
    }
  }

  /** Decoding what was encoded gives it back, whatever white space was put in, as soon as the
      target has the room; and no other text than an encoding can be decoded. */
  lemma DecodeOfEncode(x: Word, text: Word, size: nat, n: int, buf: Word)
    requires Strip(text) == Code(x) && Answers(Strip(text), true, size, n, buf)
    ensures n >= 0 <==> Room(|x|) <= size
    ensures n >= 0 ==> n == |x| && buf[..n] == x
  {
    if n >= 0 {
      CodeInjective(x, buf[..n]);
    }
  }

  /** The answer depends on the text and the size of the target only: so a target that is the
      source itself is as good as any other. */
  lemma AnswersAgree(c: Word, size: nat, n: int, buf: Word, m: int, other: Word)
    requires Answers(c, true, size, n, buf) && Answers(c, true, size, m, other)
    ensures n == m && (n >= 0 ==> buf[..n] == other[..m])
  {
    var x, y := if n >= 0 then buf[..n] else [], if m >= 0 then other[..m] else [];
    assert n >= 0 ==> Code(x) == c && |x| == n;
    assert m >= 0 ==> Code(y) == c && |y| == m;
    if n >= 0 && m >= 0 {
      CodeInjective(x, y);
    }
  }

  /** Texts that decode to the same bytes differ in white space only. */
  lemma DecodeInjective(text: Word, size: nat, n: int, buf: Word, text': Word, size': nat, n': int, buf': Word)
    requires Answers(Strip(text), true, size, n, buf) && Answers(Strip(text'), true, size', n', buf')
    requires n >= 0 && n' >= 0
    ensures buf[..n] == buf'[..n'] <==> Strip(text) == Strip(text')
  {
    if Strip(text) == Strip(text') {
      CodeInjective(buf[..n], buf'[..n']);
    }
  }
}
