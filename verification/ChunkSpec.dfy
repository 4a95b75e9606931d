/** Chunked bodies: the size lines, the encoding, and what each byte of a body does to the
    receiver's state. */
module ChunkSpec {
  import opened Bytes

  const CACHE_SIZE := 512
  const INT_MAX := 0x7fff_ffff
  const LONG_MAX := 0x7fff_ffff_ffff_ffff

  // ---------- size lines ----------

  /** The value of a hexadecimal digit, -1 for any other byte. */
  function HexDigit(b: Byte): (v: int)
    ensures -1 <= v < 16
  {
    if 48 <= b <= 57 then b - 48
    else if 97 <= b <= 102 then b - 87
    else if 65 <= b <= 70 then b - 55
    else -1
  }

  predicate HexDigits(p: Word) {
    forall k :: 0 <= k < |p| ==> HexDigit(p[k]) >= 0
  }

  /** The number that the digits of `p` write behind those of `acc`. */
  function HexValue(p: Word, acc: nat): nat
    requires HexDigits(p)
  {
    if p == [] then acc else HexValue(p[1..], 16 * acc + HexDigit(p[0]))
  }

  // ---------- writing numbers ----------

  const LOWER := "0123456789abcdef"
  const UPPER := "0123456789ABCDEF"

  function DigitChar(v: nat, upper: bool): Byte
    requires v < 16
  {
    (if upper then UPPER[v] else LOWER[v]) as int
  }

  /** The digits of a number, the last one being its remainder by 16. */
  function Hex(n: nat, upper: bool): Word {
    (if n < 16 then [] else Hex(n / 16, upper)) + [DigitChar(n % 16, upper)]
  }

  /** `digits` write `n`: in either case, and with any number of zeros in front. */
  predicate Spells(digits: Word, n: nat) {
    if digits == [] then n == 0
    else
      && (Last(digits) == DigitChar(n % 16, false) || Last(digits) == DigitChar(n % 16, true))
      && Spells(Init(digits), n / 16)
  }

  /** The reader of digits knows the characters of both cases and no other. */
  lemma DigitIsPosition(b: Byte, v: nat)
    requires v < 16
    ensures HexDigit(b) == v <==> b == DigitChar(v, false) || b == DigitChar(v, true)
  {
    assert LOWER[v] as int == if v < 10 then 48 + v else 87 + v;
    assert UPPER[v] as int == if v < 10 then 48 + v else 55 + v;
  }

  lemma {:induction false} HexValueLast(p: Word, b: Byte, acc: nat)
    requires HexDigits(p) && HexDigit(b) >= 0
    ensures HexDigits(p + [b]) && HexValue(p + [b], acc) == 16 * HexValue(p, acc) + HexDigit(b)
  {
    if p != [] {
      assert (p + [b])[1..] == p[1..] + [b];
      HexValueLast(p[1..], b, 16 * acc + HexDigit(p[0]));
    } else {
      assert (p + [b])[1..] == [];
    }
  }

  /** The value read from a word is the number that it writes. */
  lemma {:induction false} ValueIsSpelled(digits: Word, n: nat)
    ensures Spells(digits, n) <==> HexDigits(digits) && HexValue(digits, 0) == n
  {
    if digits != [] {
      var p, b := Init(digits), Last(digits);
      assert digits == p + [b];
      ValueIsSpelled(p, n / 16);
      DigitIsPosition(b, n % 16);
      if HexDigits(p) && HexDigit(b) >= 0 {
        HexValueLast(p, b, 0);
        DivMod(n, HexValue(p, 0), HexDigit(b));
      }
    }
  }

  lemma DivMod(n: nat, q: nat, r: nat)
    requires r < 16
    ensures n == 16 * q + r <==> n / 16 == q && n % 16 == r
  {
  }

  /** Every number can be written. */
  lemma {:induction false} HexSpells(n: nat, upper: bool)
    ensures Spells(Hex(n, upper), n) && HexDigits(Hex(n, upper)) && HexValue(Hex(n, upper), 0) == n
  {
    if n >= 16 {
      HexSpells(n / 16, upper);
      assert Init(Hex(n, upper)) == Hex(n / 16, upper);
    } else {
      assert Init(Hex(n, upper)) == [];
    }
    ValueIsSpelled(Hex(n, upper), n);
  }

  /** 16 to the power `w`. */
  function Pow16(w: nat): nat {
    if w == 0 then 1 else 16 * Pow16(w - 1)
  }

  lemma {:induction false} HexShort(n: nat, w: nat, upper: bool)
    requires w > 0 && n < Pow16(w)
    ensures |Hex(n, upper)| <= w
  {
    assert Pow16(1) == 16 * Pow16(0);
    if n >= 16 {
      HexShort(n / 16, w - 1, upper);
    }
  }

  // ---------- reading numbers ----------

  /** The leading digits of `p`. */
  function LeadingDigits(p: Word): (n: nat)
    ensures n <= |p| && HexDigits(p[..n])
  {
    if p == [] || HexDigit(p[0]) < 0 then 0
    else
      var n := LeadingDigits(p[1..]);
      assert p[..n + 1] == [p[0]] + p[1..][..n];
      n + 1
  }

  function SkipSpace(p: Word): Word {
    if p != [] && Space(p[0]) then SkipSpace(p[1..]) else p
  }

  /** Behind the sign: digits, which "0x" may precede. */
  function Magnitude(r: Word): nat {
    var d := if |r| >= 3 && r[0] == 48 && (r[1] == 120 || r[1] == 88) && HexDigit(r[2]) >= 0 then r[2..] else r;
    HexValue(d[..LeadingDigits(d)], 0)
  }

  /** Behind the white space: a sign, and the saturated value. */
  function Signed(q: Word): int {
    if q != [] && q[0] == 45 then (if Magnitude(q[1..]) > LONG_MAX then -LONG_MAX - 1 else -(Magnitude(q[1..]) as int))
    else
      var v := Magnitude(if q != [] && q[0] == 43 then q[1..] else q);
      if v > LONG_MAX then LONG_MAX else v
  }

  /** `strtol(p, NULL, 16)` of the C library. */
  function Strtol(p: Word): int {
    Signed(SkipSpace(p))
  }

  /** A `long` stored in an `int`. */
  function Truncate(v: int): (r: int)
    ensures -INT_MAX - 1 <= r <= INT_MAX
    ensures -INT_MAX - 1 <= v <= INT_MAX ==> r == v
  {
    var m := v % 0x1_0000_0000;
    if m > INT_MAX then m - 0x1_0000_0000 else m
  }

  predicate HasCrlf(p: Word) {
    exists k :: 0 <= k < |p| - 1 && p[k] == CR && p[k + 1] == LF
  }

  /** The byte completes the line. */
  predicate EndsLine(line: Word, b: Byte) {
    b == LF && line != [] && Last(line) == CR
  }

  /** What has no CRLF can only get one at its end. */
  lemma CrlfAtEnd(line: Word, b: Byte)
    requires !HasCrlf(line)
    ensures HasCrlf(line + [b]) <==> EndsLine(line, b)
  {
    var longer := line + [b];
    if HasCrlf(longer) {
      var k :| 0 <= k < |longer| - 1 && longer[k] == CR && longer[k + 1] == LF;
      assert line[k] == CR;
    }
    if EndsLine(line, b) {
      assert longer[|line| - 1] == CR && longer[|line|] == LF;
    }
  }

  // ---------- one byte ----------

  /** `un` bytes of the current chunk and its CRLF are to come; `fin` after the last chunk's
      size line; `line` is what the cache holds of a size line. */
  datatype State = State(un: int, fin: bool, line: Word)

  const START := State(0, false, [])

  /** A size line is complete. */
  function Sized(s: State, line: Word): State {
    var v := Truncate(Strtol(line));
    if v < 0 then State(v, s.fin, [])
    else if v == 0 then State(2, true, [])
    else State(v + 2, s.fin, [])
  }

  function Feed(s: State, b: Byte): State {
    if s.un > 1 then s.(un := s.un - 1)
    else if s.un == 1 then s.(un := 0)
    else if |s.line| + 1 > CACHE_SIZE then s
    else if EndsLine(s.line, b) then Sized(s, s.line + [b])
    else s.(line := s.line + [b])
  }

  /** The byte makes the receiver drop the rest of its buffer: the body is over, or a size is
      negative. */
  predicate Stops(s: State, b: Byte) {
    (s.un == 1 && s.fin) || (s.un <= 0 && |s.line| < CACHE_SIZE && EndsLine(s.line, b) && Sized(s, s.line + [b]).un < 0)
  }

  /** The line leaves room for its NUL and its size for the CRLF. */
  predicate Fits(s: State, b: Byte) {
    s.un <= 0 ==>
      && |s.line| + 1 != CACHE_SIZE
      && (|s.line| < CACHE_SIZE && EndsLine(s.line, b) ==> Sized(s, s.line + [b]).un <= INT_MAX)
  }

  // ---------- a buffer ----------

  /** The state after the bytes of `stream` between two positions, and whether the rest of the
      buffer is dropped. */
  function Run(stream: Word, s: State, from: nat, end: nat): (State, bool)
    requires from <= end <= |stream|
    decreases end - from
  {
    if from == end then (s, false)
    else if Stops(s, stream[from]) then (Feed(s, stream[from]), true)
    else Run(stream, Feed(s, stream[from]), from + 1, end)
  }

  predicate AllFit(stream: Word, s: State, from: nat, end: nat)
    requires from <= end <= |stream|
    decreases end - from
  {
    from < end ==>
      && Fits(s, stream[from])
      && (Stops(s, stream[from]) || AllFit(stream, Feed(s, stream[from]), from + 1, end))
  }

  /** From state `s` on, the rest of a buffer fits and leads to the state `result`. */
  ghost predicate Leads(stream: Word, s: State, from: nat, end: nat, result: State) {
    match s
    case State(_, _, _) =>
      from <= end <= |stream| && AllFit(stream, s, from, end) && Run(stream, s, from, end).0 == result
  }

  /** Cutting a buffer in two makes no difference, unless the first half stops. */
  lemma {:induction false} RunSplit(stream: Word, s: State, from: nat, mid: nat, end: nat)
    requires from <= mid <= end <= |stream|
    ensures var one := Run(stream, s, from, mid);
            Run(stream, s, from, end) == if one.1 then one else Run(stream, one.0, mid, end)
    ensures AllFit(stream, s, from, end) <==>
              AllFit(stream, s, from, mid) &&
              (!Run(stream, s, from, mid).1 ==> AllFit(stream, Run(stream, s, from, mid).0, mid, end))
    decreases mid - from
  {
    if from < mid && !Stops(s, stream[from]) {
      RunSplit(stream, Feed(s, stream[from]), from + 1, mid, end);
    }
  }

  /** Inside a chunk nothing of a size line is cached: so it is at the start, and so it stays. */
  lemma {:induction false} NoLineInsideAChunk(stream: Word, s: State, from: nat, end: nat)
    requires from <= end <= |stream| && (s.un > 0 ==> s.line == [])
    ensures var t := Run(stream, s, from, end).0; t.un > 0 ==> t.line == []
    decreases end - from
  {
    if from < end && !Stops(s, stream[from]) {
      NoLineInsideAChunk(stream, Feed(s, stream[from]), from + 1, end);
    }
  }

  /** The state after a buffer that is cut at `mid`. */
  function InTwo(stream: Word, s: State, from: nat, mid: nat, end: nat): State
    requires from <= mid <= end <= |stream|
  {
    Run(stream, Run(stream, s, from, mid).0, mid, end).0
  }

  /** Up to `end` no buffer that begins at `from` shows where it has been cut. */
  ghost predicate CutsUnseen(stream: Word, s: State, from: nat, end: nat)
    requires from <= end <= |stream|
  {
    forall mid: nat, upto: nat {:trigger InTwo(stream, s, from, mid, upto)} ::
      from <= mid <= upto <= end ==> InTwo(stream, s, from, mid, upto) == Run(stream, s, from, upto).0
  }

  /** The byte at which a buffer stops, and the state in front of it. */
  lemma {:induction false} StoppingByte(stream: Word, s: State, from: nat, end: nat) returns (p: nat)
    requires from <= end <= |stream| && Run(stream, s, from, end).1 && (s.un > 0 ==> s.line == [])
    ensures from <= p < end && !Run(stream, s, from, p).1
    ensures var t := Run(stream, s, from, p).0;
            && Stops(t, stream[p]) && Feed(t, stream[p]).line == [] && Feed(t, stream[p]).un <= 0
            && Run(stream, s, from, p + 1) == (Feed(t, stream[p]), true)
    decreases end - from
  {
    if Stops(s, stream[from]) {
      p := from;
    } else {
      p := StoppingByte(stream, Feed(s, stream[from]), from + 1, end);
    }
  }

  /** Behind a stop the next byte is dropped by one buffer and cached by the next. */
  lemma StopShows(stream: Word, s: State, from: nat, end: nat)
    requires from < end <= |stream| && Run(stream, s, from, end - 1).1 && (s.un > 0 ==> s.line == [])
    ensures !CutsUnseen(stream, s, from, end)
  {
    var p := StoppingByte(stream, s, from, end - 1);
    var u := Run(stream, s, from, p + 1).0;
    RunSplit(stream, s, from, p + 1, p + 2);
    assert Feed(u, stream[p + 1]).line == [stream[p + 1]];
    assert Run(stream, u, p + 1, p + 2).0 == Feed(u, stream[p + 1]);
    assert InTwo(stream, s, from, p + 1, p + 2) != Run(stream, s, from, p + 2).0;
  }

  /** Cutting makes no difference exactly when no byte but the last makes the receiver stop. */
  lemma CutsUnseenExactlyWhen(stream: Word, s: State, from: nat, end: nat)
    requires from <= end <= |stream| && (s.un > 0 ==> s.line == [])
    ensures CutsUnseen(stream, s, from, end) <==> from == end || !Run(stream, s, from, end - 1).1
  {
    if from < end && Run(stream, s, from, end - 1).1 {
      StopShows(stream, s, from, end);
    } else {
      forall mid: nat, upto: nat | from <= mid <= upto <= end
        ensures InTwo(stream, s, from, mid, upto) == Run(stream, s, from, upto).0
      {
        RunSplit(stream, s, from, mid, upto);
        if mid < end {
          RunSplit(stream, s, from, mid, end - 1);
        }
      }
    }
  }

  /** Such a stop in the middle of a stream: behind the size line "-1" the rest of a buffer is
      dropped, but read when it comes in the next buffer. */
  lemma NegativeSizeShowsTheCut()
    ensures var stream: Word := [45, 49, CR, LF, 65];
            Run(stream, START, 0, 4).1 && !CutsUnseen(stream, START, 0, 5)
  {
    var stream: Word := [45, 49, CR, LF, 65];
    NegativeSizeStops(stream);
    StopShows(stream, START, 0, 5);
  }

  lemma NegativeSizeStops(stream: Word)
    requires |stream| >= 4 && stream[..4] == [45, 49, CR, LF]
    ensures Run(stream, START, 0, 4).1
  {
    assert stream[..4][0] == 45 && stream[..4][1] == 49 && stream[..4][2] == CR && stream[..4][3] == LF;
    NegativeLine();
    var s1, s2, s3 := State(0, false, [45]), State(0, false, [45, 49]), State(0, false, [45, 49, CR]);
    assert Feed(START, 45) == s1 && Feed(s1, 49) == s2 && Feed(s2, CR) == s3;
    assert s3.line + [LF] == [45, 49, CR, LF];
    assert Stops(s3, LF);
    assert Run(stream, s3, 3, 4).1;
    assert Run(stream, s2, 2, 4) == Run(stream, s3, 3, 4);
    assert Run(stream, s1, 1, 4) == Run(stream, s2, 2, 4);
  }

  lemma NegativeLine()
    ensures Truncate(Strtol([45, 49, CR, LF])) == -1
  {
    var r: Word := [49, CR, LF];
    assert [45, 49, CR, LF][1..] == r;
    LeadingDigitsOf([49], [CR, LF]);
    assert [49] + [CR, LF] == r && r[..1] == [49];
    assert HexValue([49], 0) == HexValue([], 1) == 1;
  }

  /** Bytes inside a chunk are counted, not looked at. */
  lemma {:induction false} RunData(stream: Word, s: State, from: nat, n: nat)
    requires from + n <= |stream| && n <= s.un
    requires n < s.un || !s.fin
    ensures Run(stream, s, from, from + n) == (s.(un := s.un - n), false)
    ensures AllFit(stream, s, from, from + n)
    decreases n
  {
    if n > 0 {
      RunData(stream, s.(un := s.un - 1), from + 1, n - 1);
    }
  }

  /** The last two bytes of a body. */
  lemma {:induction false} RunFinal(stream: Word, s: State, from: nat, end: nat)
    requires from + s.un <= end <= |stream| && s.un > 0 && s.fin
    ensures Run(stream, s, from, end) == (s.(un := 0), true)
    ensures AllFit(stream, s, from, end)
    decreases s.un
  {
    if s.un > 1 {
      RunFinal(stream, s.(un := s.un - 1), from + 1, end);
    }
  }

  // ---------- the encoding ----------

  /** A chunk: its size in digits, an extension, its data. */
  datatype Chunk = Chunk(digits: Word, ext: Word, data: Word)

  function SizeLine(c: Chunk): Word {
    c.digits + c.ext + [CR, LF]
  }

  /** Digits for the size, an extension that begins with ';' if there is one, and a line that
      fits the cache. */
  ghost predicate WellFormed(c: Chunk) {
    match c
    case Chunk(digits, ext, data) =>
      && digits != [] && Spells(digits, |data|)
      && |data| + 2 <= INT_MAX
      && (ext != [] ==> ext[0] == 59)
      && (forall k :: 0 <= k < |ext| ==> ext[k] != CR)
      && |SizeLine(c)| < CACHE_SIZE
  }

  lemma FormedSize(c: Chunk)
    requires WellFormed(c)
    ensures c.digits != [] && HexDigits(c.digits) && HexValue(c.digits, 0) == |c.data|
  {
    ValueIsSpelled(c.digits, |c.data|);
  }

  /** The chunk of some data, as a sender prints it. */
  function Printed(data: Word, upper: bool): Chunk {
    Chunk(Hex(|data|, upper), [], data)
  }

  lemma PrintedIsFormed(data: Word, upper: bool)
    requires |data| + 2 <= INT_MAX
    ensures WellFormed(Printed(data, upper))
  {
    HexSpells(|data|, upper);
    HexShort(|data|, 8, upper);
  }

  function LineLength(c: Chunk): nat {
    |SizeLine(c)|
  }

  /** The size line of `c` stands in `stream` at `at`. */
  ghost predicate LineAt(stream: Word, at: nat, c: Chunk) {
    WellFormed(c) && at + LineLength(c) <= |stream| && stream[at..at + LineLength(c)] == SizeLine(c)
  }

  /** From `at` on, `stream` holds the chunks and then the last chunk, whatever bytes the data
      are; `end` is where the body ends. */
  ghost predicate Encoded(stream: Word, at: nat, chunks: seq<Chunk>, last: Chunk, end: nat)
    decreases |chunks|
  {
    if chunks == [] then
      LineAt(stream, at, last) && last.data == [] && end == at + LineLength(last) + 2 <= |stream|
    else
      var c := chunks[0];
      && LineAt(stream, at, c) && c.data != [] && at + LineLength(c) + |c.data| + 2 <= |stream|
      && Encoded(stream, at + LineLength(c) + |c.data| + 2, chunks[1..], last, end)
  }

  /** The encoding, down to the last chunk and the empty trailer. */
  function Encode(chunks: seq<Chunk>, last: Chunk): Word
    decreases |chunks|
  {
    if chunks == [] then SizeLine(last) + [CR, LF]
    else SizeLine(chunks[0]) + (chunks[0].data + [CR, LF] + Encode(chunks[1..], last))
  }

  ghost predicate AllFormed(chunks: seq<Chunk>) {
    chunks != [] ==> WellFormed(chunks[0]) && chunks[0].data != [] && AllFormed(chunks[1..])
  }

  /** A stream that holds an encoding between `before` and `tail`. */
  lemma {:induction false} EncodeIsEncoded(before: Word, chunks: seq<Chunk>, last: Chunk, tail: Word)
    requires AllFormed(chunks) && WellFormed(last) && last.data == []
    ensures Encoded(before + (Encode(chunks, last) + tail), |before|, chunks, last, |before| + |Encode(chunks, last)|)
    decreases |chunks|
  {
    if chunks == [] {
      LineIsAt(before, last, [CR, LF] + tail);
      assert SizeLine(last) + ([CR, LF] + tail) == Encode(chunks, last) + tail;
    } else {
      var c, rest := chunks[0], Encode(chunks[1..], last) + tail;
      var line, more := SizeLine(c), c.data + [CR, LF];
      LineIsAt(before, c, more + rest);
      EncodeIsEncoded(before + (line + more), chunks[1..], last, tail);
      Regroup(before, line, more, Encode(chunks[1..], last), tail);
    }
  }

  lemma Regroup(a: Word, b: Word, c: Word, d: Word, e: Word)
    ensures a + (b + (c + d) + e) == a + (b + (c + (d + e))) == a + (b + c) + (d + e)
  {
    assert b + (c + d) + e == b + (c + (d + e)) == b + c + (d + e);
  }

  lemma LineIsAt(before: Word, c: Chunk, after: Word)
    requires WellFormed(c)
    ensures LineAt(before + (SizeLine(c) + after), |before|, c)
  {
  }

  /** What the receiver should know at `p`, within the chunk that begins at `at`: the cached part
      of the size line, or the exact rest of the data and its CRLF. */
  function Inside(stream: Word, at: nat, c: Chunk, final: bool, p: nat): State
    requires at <= p <= |stream|
  {
    var data := at + LineLength(c);
    if p < data then State(0, false, stream[at..p]) else State(data + |c.data| + 2 - p, final, [])
  }

  /** What it should know at `p`, within the body. */
  function Expected(stream: Word, at: nat, chunks: seq<Chunk>, last: Chunk, p: nat): State
    requires at <= p <= |stream|
    decreases |chunks|
  {
    if chunks == [] then Inside(stream, at, last, true, p)
    else
      var next := at + LineLength(chunks[0]) + |chunks[0].data| + 2;
      if p < next then Inside(stream, at, chunks[0], false, p)
      else Expected(stream, next, chunks[1..], last, p)
  }

  // ---------- reading an encoded body ----------

  lemma {:induction false} LeadingDigitsBeforeNul(p: Word, rest: Word)
    requires rest != [] && rest[0] == 0
    ensures LeadingDigits(p + rest) == LeadingDigits(p)
  {
    if p == [] {
      assert p + rest == rest;
    } else {
      assert (p + rest)[1..] == p[1..] + rest;
      LeadingDigitsBeforeNul(p[1..], rest);
    }
  }

  lemma {:induction false} SkipSpaceBeforeNul(p: Word, rest: Word)
    requires rest != [] && rest[0] == 0
    ensures SkipSpace(p + rest) == SkipSpace(p) + rest
  {
    if p == [] {
      assert p + rest == rest;
    } else {
      assert (p + rest)[1..] == p[1..] + rest;
      SkipSpaceBeforeNul(p[1..], rest);
    }
  }

  lemma MagnitudeBeforeNul(r: Word, rest: Word)
    requires rest != [] && rest[0] == 0
    ensures Magnitude(r + rest) == Magnitude(r)
  {
    assert |r| < 3 ==> (r + rest)[|r|] == 0;
    var prefixed := |r| >= 3 && r[0] == 48 && (r[1] == 120 || r[1] == 88) && HexDigit(r[2]) >= 0;
    var d := if prefixed then r[2..] else r;
    assert (if prefixed then (r + rest)[2..] else r + rest) == d + rest;
    LeadingDigitsBeforeNul(d, rest);
    assert (d + rest)[..LeadingDigits(d)] == d[..LeadingDigits(d)];
  }

  /** The C library stops at the NUL behind the string. */
  lemma StrtolBeforeNul(p: Word, rest: Word)
    requires rest != [] && rest[0] == 0
    ensures Strtol(p + rest) == Strtol(p)
  {
    SkipSpaceBeforeNul(p, rest);
    var q := SkipSpace(p);
    if q == [] {
      assert q + rest == rest;
    } else {
      assert (q + rest)[1..] == q[1..] + rest;
      MagnitudeBeforeNul(q[1..], rest);
    }
    MagnitudeBeforeNul(q, rest);
  }

  lemma {:induction false} LeadingDigitsOf(digits: Word, rest: Word)
    requires HexDigits(digits) && (rest == [] || HexDigit(rest[0]) < 0)
    ensures LeadingDigits(digits + rest) == |digits|
  {
    if digits == [] {
      assert digits + rest == rest;
    } else {
      assert (digits + rest)[1..] == digits[1..] + rest;
      LeadingDigitsOf(digits[1..], rest);
    }
  }

  lemma MagnitudeOf(digits: Word, rest: Word)
    requires digits != [] && HexDigits(digits) && rest != [] && HexDigit(rest[0]) < 0 && rest[0] != 88 && rest[0] != 120
    ensures Magnitude(digits + rest) == HexValue(digits, 0)
  {
    var p := digits + rest;
    assert |p| >= 2 && (p[1] == rest[0] || (|digits| > 1 && p[1] == digits[1] && HexDigit(p[1]) >= 0));
    LeadingDigitsOf(digits, rest);
    assert p[..|digits|] == digits;
  }

  lemma StrtolOf(digits: Word, rest: Word)
    requires digits != [] && HexDigits(digits) && rest != [] && HexDigit(rest[0]) < 0 && rest[0] != 88 && rest[0] != 120
    requires HexValue(digits, 0) <= INT_MAX
    ensures Truncate(Strtol(digits + rest)) == HexValue(digits, 0)
  {
    var p := digits + rest;
    assert p[0] == digits[0] && HexDigit(p[0]) >= 0;
    assert SkipSpace(p) == p;
    MagnitudeOf(digits, rest);
  }

  /** The C library reads the size that the line was written with. */
  lemma StrtolOfLine(c: Chunk)
    requires WellFormed(c)
    ensures Truncate(Strtol(SizeLine(c))) == |c.data|
  {
    var rest := c.ext + [CR, LF];
    assert SizeLine(c) == c.digits + rest;
    assert rest[0] == if c.ext == [] then CR else 59;
    FormedSize(c);
    StrtolOf(c.digits, rest);
  }

  /** The first CRLF of a size line is its end. */
  lemma LineEndsOnce(c: Chunk, n: nat)
    requires WellFormed(c) && n < LineLength(c)
    ensures EndsLine(SizeLine(c)[..n], SizeLine(c)[n]) <==> n == LineLength(c) - 1
  {
    var p := SizeLine(c);
    FormedSize(c);
    if 0 < n < |p| - 1 {
      var k := n - 1;
      if k < |c.digits| {
        assert p[k] == c.digits[k] && HexDigit(c.digits[k]) >= 0;
      } else {
        assert p[k] == c.ext[k - |c.digits|];
      }
    }
  }

  /** One byte more. */
  lemma RunNext(stream: Word, s: State, from: nat, p: nat)
    requires from <= p < |stream| && !Run(stream, s, from, p).1 && AllFit(stream, s, from, p)
    requires Fits(Run(stream, s, from, p).0, stream[p])
    ensures var t := Run(stream, s, from, p).0;
            Run(stream, s, from, p + 1) == (Feed(t, stream[p]), Stops(t, stream[p])) && AllFit(stream, s, from, p + 1)
  {
    RunSplit(stream, s, from, p, p + 1);
    var t := Run(stream, s, from, p).0;
    assert Run(stream, t, p, p + 1) == (Feed(t, stream[p]), Stops(t, stream[p]));
  }

  lemma {:induction false} RunLine(stream: Word, at: nat, c: Chunk, n: nat)
    requires LineAt(stream, at, c) && n < LineLength(c)
    ensures Run(stream, START, at, at + n) == (State(0, false, SizeLine(c)[..n]), false)
    ensures AllFit(stream, START, at, at + n)
  {
    if n > 0 {
      RunLine(stream, at, c, n - 1);
      LineByte(stream, at, c, n - 1);
      RunNext(stream, START, at, at + n - 1);
    }
  }

  /** A byte of the size line in front of its LF. */
  lemma LineByte(stream: Word, at: nat, c: Chunk, n: nat)
    requires LineAt(stream, at, c) && n + 1 < LineLength(c)
    ensures var s := State(0, false, SizeLine(c)[..n]);
            && Fits(s, stream[at + n]) && !Stops(s, stream[at + n])
            && Feed(s, stream[at + n]) == State(0, false, SizeLine(c)[..n + 1])
  {
    LineStep(stream, at, c, n);
    LineEndsOnce(c, n);
  }

  lemma LineStep(stream: Word, at: nat, c: Chunk, n: nat)
    requires at + LineLength(c) <= |stream| && stream[at..at + LineLength(c)] == SizeLine(c) && n < LineLength(c)
    ensures stream[at + n] == SizeLine(c)[n]
    ensures SizeLine(c)[..n] + [stream[at + n]] == SizeLine(c)[..n + 1]
  {
    assert stream[at + n] == stream[at..at + LineLength(c)][n];
  }

  /** The whole size line, up to its LF. */
  lemma RunSize(stream: Word, at: nat, c: Chunk)
    requires WellFormed(c) && at + LineLength(c) <= |stream| && stream[at..at + LineLength(c)] == SizeLine(c)
    ensures Run(stream, START, at, at + LineLength(c)) == (State(|c.data| + 2, |c.data| == 0, []), false)
    ensures AllFit(stream, START, at, at + LineLength(c))
  {
    var n := LineLength(c) - 1;
    var s := State(0, false, SizeLine(c)[..n]);
    RunLine(stream, at, c, n);
    LineStep(stream, at, c, n);
    LineEndsOnce(c, n);
    StrtolOfLine(c);
    assert SizeLine(c)[..n + 1] == SizeLine(c);
    RunSplit(stream, START, at, at + n, at + n + 1);
    assert Feed(s, stream[at + n]) == State(|c.data| + 2, |c.data| == 0, []);
    assert Run(stream, Feed(s, stream[at + n]), at + n + 1, at + n + 1) == (Feed(s, stream[at + n]), false);
  }

  /** The body is over. */
  predicate Done(s: State) {
    s.fin && s.un == 0
  }

  lemma PartOfPart(w: Word, i: nat, j: nat, k: nat)
    requires i <= j <= k <= |w|
    ensures w[i..j] == w[i..k][..j - i]
  {
  }

  /** Up to the end of a chunk with data, where the state is the starting one again. */
  lemma RunChunk(stream: Word, at: nat, c: Chunk, p: nat)
    requires LineAt(stream, at, c) && c.data != [] && at <= p <= at + LineLength(c) + |c.data| + 2 && p <= |stream|
    ensures AllFit(stream, START, at, p) && Run(stream, START, at, p) == (Inside(stream, at, c, false, p), false)
    ensures p == at + LineLength(c) + |c.data| + 2 ==> Inside(stream, at, c, false, p) == START
  {
    hide Feed, Stops, Fits, WellFormed, Run, AllFit;
    var data := at + LineLength(c);
    if p < data {
      RunLine(stream, at, c, p - at);
      PartOfPart(stream, at, p, data);
    } else {
      RunSize(stream, at, c);
      RunSplit(stream, START, at, data, p);
      RunData(stream, State(|c.data| + 2, false, []), data, p - data);
    }
  }

  /** The last chunk, and whatever is in the buffer behind it. */
  lemma RunLast(stream: Word, at: nat, c: Chunk, p: nat)
    requires LineAt(stream, at, c) && c.data == [] && at <= p <= |stream| && at + LineLength(c) + 2 <= |stream|
    ensures AllFit(stream, START, at, p)
    ensures var end := at + LineLength(c) + 2;
            Run(stream, START, at, p) == (Inside(stream, at, c, true, if p < end then p else end), p >= end)
  {
    hide Feed, Stops, Fits, WellFormed, Run, AllFit;
    var data := at + LineLength(c);
    if p < data {
      RunLine(stream, at, c, p - at);
      PartOfPart(stream, at, p, data);
    } else {
      var s := State(2, true, []);
      RunSize(stream, at, c);
      RunSplit(stream, START, at, data, p);
      if p < data + 2 {
        RunData(stream, s, data, p - data);
      } else {
        RunFinal(stream, s, data, p);
      }
    }
  }

  /** One buffer from the start of the body: the receiver knows exactly what is missing, and
      bytes behind the body are not looked at. */
  lemma {:induction false} RunEncoded(stream: Word, at: nat, chunks: seq<Chunk>, last: Chunk, end: nat, p: nat)
    requires Encoded(stream, at, chunks, last, end) && at <= p <= |stream|
    ensures at < end <= |stream| && AllFit(stream, START, at, p)
    ensures Run(stream, START, at, p) == (Expected(stream, at, chunks, last, if p < end then p else end), p >= end)
    decreases |chunks|
  {
    if chunks == [] {
      RunLast(stream, at, last, p);
    } else {
      var c := chunks[0];
      var next := at + LineLength(c) + |c.data| + 2;
      RunEncoded(stream, next, chunks[1..], last, end, if p < next then next else p);
      RunChunk(stream, at, c, if p < next then p else next);
      if p >= next {
        RunSplit(stream, START, at, next, p);
      }
    }
  }

  /** The end of the body is the one place where nothing is missing. */
  lemma {:induction false} ExpectedDone(stream: Word, at: nat, chunks: seq<Chunk>, last: Chunk, end: nat, p: nat)
    requires Encoded(stream, at, chunks, last, end) && at <= p <= end <= |stream|
    ensures Done(Expected(stream, at, chunks, last, p)) <==> p == end
    decreases |chunks|
  {
    if chunks != [] {
      var next := at + LineLength(chunks[0]) + |chunks[0].data| + 2;
      EncodedEnds(stream, next, chunks[1..], last, end);
      if p >= next {
        ExpectedDone(stream, next, chunks[1..], last, end, p);
      }
    }
  }

  lemma {:induction false} EncodedEnds(stream: Word, at: nat, chunks: seq<Chunk>, last: Chunk, end: nat)
    requires Encoded(stream, at, chunks, last, end)
    ensures at < end <= |stream|
    decreases |chunks|
  {
    if chunks != [] {
      EncodedEnds(stream, at + LineLength(chunks[0]) + |chunks[0].data| + 2, chunks[1..], last, end);
    }
  }

  // ---------- any cutting ----------

  /** The state after the first `n` buffers, which end at the positions `cuts`. */
  function Calls(stream: Word, cuts: seq<nat>, n: nat): State
    requires n <= |cuts| && Ordered(stream, cuts)
  {
    if n == 0 then START
    else Run(stream, Calls(stream, cuts, n - 1), if n == 1 then 0 else cuts[n - 2], cuts[n - 1]).0
  }

  predicate Ordered(stream: Word, cuts: seq<nat>) {
    && (forall k :: 0 <= k < |cuts| ==> cuts[k] <= |stream|)
    && (forall j, k :: 0 <= j < k < |cuts| ==> cuts[j] <= cuts[k])
  }

  /** One more buffer, wherever the one before it was cut. */
  lemma NextBuffer(stream: Word, chunks: seq<Chunk>, last: Chunk, end: nat, from: nat, upto: nat)
    requires Encoded(stream, 0, chunks, last, end) && from < end && from <= upto <= |stream|
    ensures end <= |stream|
    ensures var s := Expected(stream, 0, chunks, last, from);
            && AllFit(stream, s, from, upto)
            && Run(stream, s, from, upto).0 == Expected(stream, 0, chunks, last, if upto < end then upto else end)
  {
    RunEncoded(stream, 0, chunks, last, end, from);
    RunEncoded(stream, 0, chunks, last, end, upto);
    RunSplit(stream, START, 0, from, upto);
  }

  /** However a body is cut, after every buffer the receiver knows the exact rest of the current
      chunk, and it finds the body over on the buffer with the last byte and not earlier. */
  lemma {:induction false} EveryCutEndsOnTheLastByte(stream: Word, chunks: seq<Chunk>, last: Chunk, end: nat,
                                                     cuts: seq<nat>, n: nat)
    requires Encoded(stream, 0, chunks, last, end) && Ordered(stream, cuts) && 0 < n <= |cuts|
    requires n > 1 ==> cuts[n - 2] < end
    ensures end <= |stream|
    ensures Calls(stream, cuts, n) == Expected(stream, 0, chunks, last, if cuts[n - 1] < end then cuts[n - 1] else end)
    ensures Done(Calls(stream, cuts, n)) <==> cuts[n - 1] >= end
    ensures AllFit(stream, Calls(stream, cuts, n - 1), if n == 1 then 0 else cuts[n - 2], cuts[n - 1])
  {
    RunEncoded(stream, 0, chunks, last, end, 0);
    ExpectedDone(stream, 0, chunks, last, end, if cuts[n - 1] < end then cuts[n - 1] else end);
    if n > 1 {
      EveryCutEndsOnTheLastByte(stream, chunks, last, end, cuts, n - 1);
    }
    NextBuffer(stream, chunks, last, end, if n == 1 then 0 else cuts[n - 2], cuts[n - 1]);
  }

  /** The chunks that a sender prints for some pieces of data. */
  function PrintedAll(pieces: seq<Word>, upper: bool): seq<Chunk> {
    if pieces == [] then [] else [Printed(pieces[0], upper)] + PrintedAll(pieces[1..], upper)
  }

  lemma {:induction false} PrintedAllFormed(pieces: seq<Word>, upper: bool)
    requires forall k :: 0 <= k < |pieces| ==> 0 < |pieces[k]| <= INT_MAX - 2
    ensures AllFormed(PrintedAll(pieces, upper))
  {
    if pieces != [] {
      PrintedIsFormed(pieces[0], upper);
      PrintedAllFormed(pieces[1..], upper);
      var first, rest := Printed(pieces[0], upper), PrintedAll(pieces[1..], upper);
      assert ([first] + rest)[0] == first && ([first] + rest)[1..] == rest;
      assert PrintedAll(pieces, upper) == [first] + rest;
    }
  }

  /** A printed body, whatever comes behind it and however both are cut: it is over exactly on
      the buffer with its last byte. */
  lemma PrintedBodyEnds(pieces: seq<Word>, upper: bool, tail: Word, cuts: seq<nat>, n: nat)
    requires forall k :: 0 <= k < |pieces| ==> 0 < |pieces[k]| <= INT_MAX - 2
    requires var body := Encode(PrintedAll(pieces, upper), Printed([], upper));
             Ordered(body + tail, cuts) && 0 < n <= |cuts| && (n > 1 ==> cuts[n - 2] < |body|)
    ensures var body := Encode(PrintedAll(pieces, upper), Printed([], upper));
            Done(Calls(body + tail, cuts, n)) <==> cuts[n - 1] >= |body|
  {
    var chunks, last := PrintedAll(pieces, upper), Printed([], upper);
    var body := Encode(chunks, last);
    PrintedAllFormed(pieces, upper);
    PrintedIsFormed([], upper);
    EncodeIsEncoded([], chunks, last, tail);
    assert [] + (body + tail) == body + tail;
    EveryCutEndsOnTheLastByte(body + tail, chunks, last, |body|, cuts, n);
  }
}
