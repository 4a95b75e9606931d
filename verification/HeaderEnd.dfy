/** `s_http_parse`: finding the end of a header in a stream that arrives in pieces. */
module HeaderEnd {
  import opened Bytes

  /** The bytes that end a header. */
  const JUMP: Word := [CR, LF, CR, LF]
  const JUMP_LEN := 4

  /** A character of the C string, which has a NUL behind its last byte. */
  function JumpAt(k: nat): Byte
    requires k <= JUMP_LEN
  {
    if k < JUMP_LEN then JUMP[k] else 0
  }

  /** The first `n` bytes of `stream` end in the first `k` bytes of the header's end. */
  predicate Ends(stream: Word, n: nat, k: nat)
    requires n <= |stream| && k <= JUMP_LEN
  {
    k <= n && forall j :: 0 <= j < k ==> stream[n - k + j] == JUMP[j]
  }

  /** How much of the header's end the first `n` bytes end in: the longest such suffix. */
  function Held(stream: Word, n: nat): (k: nat)
    requires n <= |stream|
    ensures k <= JUMP_LEN
  {
    Longest(stream, n, JUMP_LEN)
  }

  /** Of the first `k` bytes of the header's end and fewer, the most that the `n` bytes end in. */
  function Longest(stream: Word, n: nat, k: nat): (r: nat)
    requires n <= |stream| && k <= JUMP_LEN
    ensures r <= k
  {
    if k == 0 || Ends(stream, n, k) then k else Longest(stream, n, k - 1)
  }

  lemma {:induction false} LongestIs(stream: Word, n: nat, k: nat)
    requires n <= |stream| && k <= JUMP_LEN
    ensures Ends(stream, n, Longest(stream, n, k))
    ensures forall m :: Longest(stream, n, k) < m <= k ==> !Ends(stream, n, m)
  {
    if k > 0 && !Ends(stream, n, k) {
      LongestIs(stream, n, k - 1);
    }
  }

  lemma EndsStep(stream: Word, n: nat, k: nat)
    requires n < |stream| && 0 < k <= JUMP_LEN
    ensures Ends(stream, n + 1, k) <==> Ends(stream, n, k - 1) && stream[n] == JUMP[k - 1]
  {
    if Ends(stream, n + 1, k) {
      assert stream[n + 1 - k + (k - 1)] == JUMP[k - 1];
      forall j | 0 <= j < k - 1 ensures stream[n - (k - 1) + j] == JUMP[j] {
        assert stream[n + 1 - k + j] == JUMP[j];
      }
    }
    if Ends(stream, n, k - 1) && stream[n] == JUMP[k - 1] {
      forall j | 0 <= j < k ensures stream[n + 1 - k + j] == JUMP[j] {
        assert j < k - 1 ==> stream[n - (k - 1) + j] == JUMP[j];
      }
    }
  }

  /** What the two tests of the loop body make of one byte. */
  function Step(state: nat, b: Byte): nat
    requires state < JUMP_LEN
  {
    var first := if JumpAt(state) == b then state + 1 else 0;
    if JumpAt(first) == b then first + 1 else first
  }

  /** They keep the longest held prefix: after a mismatch a fresh start is enough. */
  lemma StepHolds(stream: Word, n: nat)
    requires n < |stream| && Held(stream, n) < JUMP_LEN
    ensures Held(stream, n + 1) == Step(Held(stream, n), stream[n])
  {
    var k := Held(stream, n);
    LongestIs(stream, n, JUMP_LEN);
    LongestIs(stream, n + 1, JUMP_LEN);
    EndsStep(stream, n, 1);
    EndsStep(stream, n, 2);
    EndsStep(stream, n, 3);
    EndsStep(stream, n, 4);
    assert k >= 1 ==> stream[n - k + 0] == JUMP[0];
    assert k >= 2 ==> stream[n - k + 1] == JUMP[1];
    assert k >= 3 ==> stream[n - k + 2] == JUMP[2];
    assert Ends(stream, n, 0);
  }

  /** From position `from` on, the position behind the first byte that completes a header's end,
      or `end` if none before it does. */
  function StopAt(stream: Word, from: nat, end: nat): (p: nat)
    requires from <= end <= |stream|
    ensures from <= p <= end
    ensures p < end ==> Held(stream, p) == JUMP_LEN
    ensures forall m :: from < m < p ==> Held(stream, m) < JUMP_LEN
    decreases end - from
  {
    if from == end || Held(stream, from + 1) == JUMP_LEN then (if from == end then end else from + 1)
    else StopAt(stream, from + 1, end)
  }

  class Parser {
    var state: nat

    /** The next piece of `stream`; `at` bytes of it have been read by earlier calls. */
    method Parse(data: Word, ghost stream: Word, ghost at: nat) returns (n: nat)
      requires at + |data| <= |stream| && forall k :: 0 <= k < |data| ==> data[k] == stream[at + k]
      requires state == Held(stream, at) < JUMP_LEN
      modifies this
      ensures n <= |data| && at + n == StopAt(stream, at, at + |data|)
      ensures state == Held(stream, at + n)
    {
      var i, lstate := 0, state;
      while i < |data|
        invariant i <= |data| && state == lstate == Held(stream, at + i) < JUMP_LEN
        invariant StopAt(stream, at, at + |data|) == StopAt(stream, at + i, at + |data|)
      {
        StepHolds(stream, at + i);
        assert data[i] == stream[at + i];
        if JumpAt(lstate) == data[i] {
          lstate := lstate + 1;
        } else {
          lstate := 0;
        }
        if JumpAt(lstate) == data[i] {
          lstate := lstate + 1;
        }
        if lstate == JUMP_LEN {
          i := i + 1;
          break;
        }
        state := lstate;
        i := i + 1;
      }
      state := lstate;
      return i;
    }
  }

  /** The places where a stream is cut, in order, the last one at its end. */
  predicate Cuts(stream: Word, from: nat, cuts: seq<nat>)
    decreases |cuts|
  {
    if cuts == [] then from == |stream| else from <= cuts[0] <= |stream| && Cuts(stream, cuts[0], cuts[1..])
  }

  /** One call for each piece, until the state says that the header has ended. */
  function Calls(stream: Word, from: nat, cuts: seq<nat>): (p: nat)
    requires from <= |stream| && Cuts(stream, from, cuts)
    ensures p <= |stream|
    decreases |cuts|
  {
    if cuts == [] then from
    else
      var p := StopAt(stream, from, cuts[0]);
      if Held(stream, p) == JUMP_LEN then p else Calls(stream, cuts[0], cuts[1..])
  }

  lemma {:induction false} StopPiecewise(stream: Word, from: nat, mid: nat, end: nat)
    requires from <= mid <= end <= |stream| && Held(stream, from) < JUMP_LEN
    ensures var p := StopAt(stream, from, mid);
            StopAt(stream, from, end) == if Held(stream, p) == JUMP_LEN then p else StopAt(stream, mid, end)
    decreases mid - from
  {
    if from < mid && Held(stream, from + 1) < JUMP_LEN {
      StopPiecewise(stream, from + 1, mid, end);
    }
  }

  lemma {:induction false} CallsAreOneCall(stream: Word, from: nat, cuts: seq<nat>)
    requires from <= |stream| && Cuts(stream, from, cuts) && Held(stream, from) < JUMP_LEN
    ensures Calls(stream, from, cuts) == StopAt(stream, from, |stream|)
    decreases |cuts|
  {
    if cuts != [] {
      StopPiecewise(stream, from, cuts[0], |stream|);
      if Held(stream, StopAt(stream, from, cuts[0])) < JUMP_LEN {
        CallsAreOneCall(stream, cuts[0], cuts[1..]);
      }
    }
  }

  /** The end of a header stands in `stream` right before position `n`. */
  predicate HeaderEndsAt(stream: Word, n: int) {
    JUMP_LEN <= n <= |stream| && stream[n - JUMP_LEN..n] == JUMP
  }

  lemma HeldIsEnd(stream: Word, n: nat)
    requires n <= |stream|
    ensures Held(stream, n) == JUMP_LEN <==> HeaderEndsAt(stream, n)
  {
    LongestIs(stream, n, JUMP_LEN);
    if Held(stream, n) == JUMP_LEN {
      assert forall j :: 0 <= j < JUMP_LEN ==> stream[n - JUMP_LEN + j] == JUMP[j];
    }
    if HeaderEndsAt(stream, n) {
      forall j | 0 <= j < JUMP_LEN ensures stream[n - JUMP_LEN + j] == JUMP[j] {
        assert stream[n - JUMP_LEN..n][j] == stream[n - JUMP_LEN + j];
      }
    }
  }

  /** However a stream is cut, the calls stop right behind the first end of a header, and the
      state is final exactly then; without one they read everything. */
  lemma EveryCutFindsTheEnd(stream: Word, cuts: seq<nat>)
    requires Cuts(stream, 0, cuts)
    ensures var p := Calls(stream, 0, cuts);
            && (Held(stream, p) == JUMP_LEN <==> HeaderEndsAt(stream, p))
            && (HeaderEndsAt(stream, p) <==> exists m :: HeaderEndsAt(stream, m))
            && (forall m :: m < p ==> !HeaderEndsAt(stream, m))
            && (HeaderEndsAt(stream, p) || p == |stream|)
  {
    CallsAreOneCall(stream, 0, cuts);
    var p := StopAt(stream, 0, |stream|);
    HeldIsEnd(stream, p);
    forall m | 0 <= m < p ensures !HeaderEndsAt(stream, m) {
      HeldIsEnd(stream, m);
    }
  }
}
