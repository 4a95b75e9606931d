/** The Aho-Corasick engine: a trie built from the patterns, turned in place into a DFA,
    and the scan of a text. */
module Acsm {
  import opened Bytes
  import opened AcTheory
  import opened AcSpec
  import opened AcQueue

  const ALPHABET_SIZE := 256
  const FAIL_STATE := -1

  /** The size of the buffer a search folds its text into. */
  const TEXT_SIZE := 65536

  /** Which word each state in use stands for: `labels[s]` for state `s`, and the set and the
      inverse of that numbering. */
  datatype Naming = Naming(labels: seq<Label>, lang: set<Label>, stateOf: map<Label, int>)
  {
    ghost predicate Valid() {
      && |labels| > 0 && labels[0] == Root && PrefixClosed(lang)
      && (forall s :: 0 <= s < |labels| ==> labels[s] in lang && labels[s] in stateOf && stateOf[labels[s]] == s)
      && (forall s :: 0 < s < |labels| ==> labels[s].Child?)
    }

    /** The numbering with one more state, for the word `w`. */
    ghost function Add(w: Label): Naming {
      Naming(labels + [w], lang + {w}, stateOf[w := |labels|])
    }
  }

  /** What a cell holds while the table is a trie: the child, or no transition.
      `root` is what a missing transition of state 0 reads. */
  ghost predicate GotoCell(t: Naming, root: int, s: nat, c: Byte, v: int)
    requires s < |t.labels|
  {
    if Child(t.labels[s], c) in t.lang then 0 < v < |t.labels| && t.labels[v] == Child(t.labels[s], c)
    else v == if s == 0 then root else FAIL_STATE
  }

  /** What a cell holds in the finished DFA: the state of the longest known suffix. */
  ghost predicate DeltaCell(t: Naming, s: nat, c: Byte, v: int)
    requires s < |t.labels| && Root in t.lang
  {
    0 <= v < |t.labels| && t.labels[v] == Longest(t.lang, Child(t.labels[s], c))
  }

  /** What a search has done after `e` bytes: it is in the state of the label reached, and the
      remaining calls are those of the blocks from `e` on. */
  ghost predicate Searching(n: Naming, ps: seq<Pattern>, u: Label, t: Word, verdict: seq<Hit> -> int, e: nat,
                            state: int, calls: seq<Hit>)
    requires Root in n.lang && e <= |t|
  {
    match n
    case Naming(labels, lang, _) =>
      && 0 <= state < |labels| && labels[state] == LabelAfter(lang, u, t, e)
      && Deliver([], Hits(lang, ps, u, t), verdict) == Deliver(calls, Flatten(HitBlocks(lang, ps, u, t)[e..]), verdict)
      && (calls == [] || verdict(calls) <= 0)
  }

  lemma SearchStarts(n: Naming, ps: seq<Pattern>, t: Word, verdict: seq<Hit> -> int, state: int)
    requires n.Valid() && 0 <= state < |n.labels|
    ensures Searching(n, ps, n.labels[state], t, verdict, 0, state, [])
  {
    var u := n.labels[state];
    assert FoldWord(t[..0]) == [];
    assert HitBlocks(n.lang, ps, u, t)[0..] == HitBlocks(n.lang, ps, u, t);
  }

  /** What a search of `t` from state `current` answers: the calls made, their number, and the
      state of what has been read. */
  ghost predicate Answers(n: Naming, ps: seq<Pattern>, t: Word, verdict: seq<Hit> -> int, current: int,
                          nfound: int, calls: seq<Hit>, end: Option<int>)
    requires Root in n.lang && 0 <= current < |n.labels|
  {
    match n
    case Naming(labels, lang, _) =>
      && nfound == |calls|
      && calls == Deliver([], Hits(lang, ps, labels[current], t), verdict)
      && end.Some? && 0 <= end.value < |labels| && 0 <= StopAt(calls, verdict, |t|) <= |t|
      && labels[end.value] == LabelAfter(lang, labels[current], t, StopAt(calls, verdict, |t|))
  }

  lemma SearchEnds(n: Naming, ps: seq<Pattern>, t: Word, verdict: seq<Hit> -> int, current: int, state: int,
                   calls: seq<Hit>)
    requires n.Valid() && 0 <= current < |n.labels|
    requires Searching(n, ps, n.labels[current], t, verdict, |t|, state, calls)
    ensures Answers(n, ps, t, verdict, current, |calls|, calls, Some(state))
  {
    assert HitBlocks(n.lang, ps, n.labels[current], t)[|t|..] == [];
  }

  lemma SearchStopped(n: Naming, ps: seq<Pattern>, t: Word, verdict: seq<Hit> -> int, current: int, e: nat,
                      state: int, calls: seq<Hit>)
    requires n.Valid() && 0 <= current < |n.labels| && e <= |t|
    requires calls == Deliver([], Hits(n.lang, ps, n.labels[current], t), verdict)
    requires calls != [] && verdict(calls) > 0 && calls[|calls| - 1].End() == e
    requires 0 <= state < |n.labels| && n.labels[state] == LabelAfter(n.lang, n.labels[current], t, e)
    ensures Answers(n, ps, t, verdict, current, |calls|, calls, Some(state))
  {
  }

  /** An answer when the callback never stops the search. */
  lemma AnswersAll(n: Naming, ps: seq<Pattern>, t: Word, verdict: seq<Hit> -> int, current: int,
                   nfound: int, calls: seq<Hit>, end: Option<int>)
    requires Root in n.lang && 0 <= current < |n.labels| && forall h :: verdict(h) <= 0
    requires Answers(n, ps, t, verdict, current, nfound, calls, end)
    ensures nfound == |calls| && calls == Hits(n.lang, ps, n.labels[current], t)
    ensures end.Some? && 0 <= end.value < |n.labels|
    ensures n.labels[end.value] == LabelAfter(n.lang, n.labels[current], t, |t|)
  {
    DeliverAll([], Hits(n.lang, ps, n.labels[current], t), verdict);
  }

  /** From state 0, with non-empty patterns: every occurrence once, in order. */
  lemma AnswersFromZero(n: Naming, ps: seq<Pattern>, t: Word, verdict: seq<Hit> -> int,
                        nfound: int, calls: seq<Hit>, end: Option<int>)
    requires n.Valid() && n.lang == Language(ps) && ValidPatterns(ps) && NonEmpty(ps) && forall h :: verdict(h) <= 0
    requires Answers(n, ps, t, verdict, 0, nfound, calls, end)
    ensures multiset(calls) == multiset(Occurrences(ps, t)) && nfound == |Occurrences(ps, t)| && InOrder(calls, |t|)
  {
    AnswersAll(n, ps, t, verdict, 0, nfound, calls, end);
    LanguageClosed(ps);
    SearchFindsOccurrences(n.lang, ps, t);
    HitsInOrder(n.lang, ps, Root, t);
  }

  /** Searching `a` and then `b` through the returned state is searching both at once: the same
      calls with the second batch's indices shifted, the same number, the same final state. */
  lemma StreamingSearch(n: Naming, ps: seq<Pattern>, a: Word, b: Word, verdict: seq<Hit> -> int, current: int,
                        n1: int, calls1: seq<Hit>, mid: Option<int>, n2: int, calls2: seq<Hit>, end: Option<int>,
                        n12: int, calls12: seq<Hit>, last: Option<int>)
    requires n.Valid() && AllNocase(ps) && 0 <= current < |n.labels| && forall h :: verdict(h) <= 0
    requires Answers(n, ps, a, verdict, current, n1, calls1, mid)
    requires Answers(n, ps, b, verdict, mid.value, n2, calls2, end)
    requires Answers(n, ps, a + b, verdict, current, n12, calls12, last)
    ensures calls12 == calls1 + Shift(calls2, |a|) && n12 == n1 + n2 && last == end
  {
    AnswersAll(n, ps, a, verdict, current, n1, calls1, mid);
    AnswersAll(n, ps, b, verdict, mid.value, n2, calls2, end);
    AnswersAll(n, ps, a + b, verdict, current, n12, calls12, last);
    StreamingHits(n.lang, ps, n.labels[current], n.labels[mid.value], a, b);
    LabelAfterAppend(n.lang, n.labels[current], a, b, |b|);
    assert n.stateOf[n.labels[end.value]] == n.stateOf[n.labels[last.value]];
  }

  /** `state` stands for the first `i` bytes of the pattern, whose prefixes were added to
      `lang`; none of the longer ones has a state. */
  ghost predicate Following(t: Naming, pattern: Word, i: int, state: int, lang: set<Label>) {
    match t
    case Naming(labels, known, _) =>
      && 0 <= i <= |pattern| && 0 <= state < |labels| && labels[state] == Path(pattern[..i])
      && known == WithPrefixes(lang, labels[state])
      && (i < |pattern| ==> Child(labels[state], pattern[i]) !in known)
  }

  /** Fold the bytes of `s` into `d`. */
  method ConvertCaseEx(d: array<Byte>, s: Word)
    requires |s| <= d.Length
    modifies d
    ensures forall k :: 0 <= k < |s| ==> d[k] == FoldWord(s)[k]
  {
    for i := 0 to |s|
      invariant forall k :: 0 <= k < i ==> d[k] == FoldWord(s)[k]
    {
      d[i] := Fold(s[i]);
    }
  }

  /** The state table.  Row `s` of `next` is the NextState array of state `s`. */
  class StateTable {
    const maxStates: nat
    const next: array2<int>
    const fail: array<int>
    const matchList: array<seq<Pattern>>
    var numStates: nat       // the number of the last state in use
    ghost var names: Naming  // the numbering of the finished table

    /** `t` numbers states of this table. */
    ghost predicate Shaped(t: Naming) {
      && next.Length0 == maxStates && next.Length1 == ALPHABET_SIZE
      && fail.Length == maxStates && matchList.Length == maxStates
      && |t.labels| <= maxStates && t.Valid()
    }

    /** The table is a trie. */
    ghost predicate Trie(t: Naming, root: int)
      requires Shaped(t)
      reads next
    {
      forall s, c :: 0 <= s < |t.labels| && 0 <= c < 256 ==> GotoCell(t, root, s, c, next[s, c])
    }

    /** Rows of states not yet in use hold no transition. */
    ghost predicate Blank(t: Naming)
      requires Shaped(t)
      reads next
    {
      forall s, c :: |t.labels| <= s < maxStates && 0 <= c < 256 ==> next[s, c] == FAIL_STATE
    }

    /** The match lists are as `f` says for every label; states not in use have none. */
    ghost predicate Lists(t: Naming, f: Label -> seq<Pattern>)
      requires Shaped(t)
      reads matchList
    {
      forall s :: 0 <= s < maxStates ==> matchList[s] == if s < |t.labels| then f(t.labels[s]) else []
    }

    /** A trie under construction, each state listing its own patterns, given by `own`. */
    ghost predicate Building(t: Naming, own: Label -> seq<Pattern>)
      reads this`numStates, next, matchList
    {
      match t
      case Naming(labels, lang, _) =>
        && Shaped(t) && numStates + 1 == |labels|
        && Trie(t, FAIL_STATE) && Blank(t) && Lists(t, own)
        && forall u {:trigger own(u)} :: u !in lang ==> own(u) == []
    }

    constructor (maxStates: nat)
      requires maxStates >= 1
      ensures Building(Naming([Root], {Root}, map[Root := 0]), u => [])
      ensures this.maxStates == maxStates
      ensures fresh(next) && fresh(fail) && fresh(matchList)
    {
      this.maxStates := maxStates;
      next := new int[maxStates, ALPHABET_SIZE]((i, j) => 0);
      fail := new int[maxStates](i => 0);
      matchList := new seq<Pattern>[maxStates](i => []);
      numStates := 0;
      names := Naming([Root], {Root}, map[Root := 0]);
      new;
      for k := 0 to maxStates
        modifies next
        invariant forall s, c :: 0 <= s < k && 0 <= c < 256 ==> next[s, c] == FAIL_STATE
      {
        for i := 0 to ALPHABET_SIZE
          modifies next
          invariant forall s, c :: 0 <= s < k && 0 <= c < 256 ==> next[s, c] == FAIL_STATE
          invariant forall c :: 0 <= c < i ==> next[k, c] == FAIL_STATE
        {
          next[k, i] := FAIL_STATE;
        }
      }
    }

    // ---------- AddPatternStates ----------

    /** Hang a new state under `state` for byte `c`. */
    method AddState(state: nat, c: Byte, ghost t: Naming) returns (ghost t': Naming)
      requires Shaped(t) && Trie(t, FAIL_STATE) && Blank(t) && numStates + 1 == |t.labels|
      requires numStates + 1 < maxStates && state < |t.labels| && Child(t.labels[state], c) !in t.lang
      modifies this`numStates, next
      ensures t' == t.Add(Child(t.labels[state], c)) && numStates == old(numStates) + 1
      ensures Shaped(t') && Trie(t', FAIL_STATE) && Blank(t')
    {
      ghost var w := Child(t.labels[state], c);
      numStates := numStates + 1;
      next[state, c] := numStates;
      t' := t.Add(w);
      assert w.parent == t.labels[state];
      forall s, d: Byte | 0 <= s < |t'.labels|
        ensures GotoCell(t', FAIL_STATE, s, d, next[s, d])
      {
        if s == numStates {
          assert Child(w, d).parent == w;
        }
      }
    }

    method AddMatchListEntry(state: nat, p: Pattern)
      requires state < matchList.Length
      modifies matchList
      ensures matchList[state] == [p] + old(matchList[state])
      ensures forall s :: 0 <= s < matchList.Length && s != state ==> matchList[s] == old(matchList[s])
    {
      matchList[state] := [p] + matchList[state];
    }

    lemma PathStep(pattern: Word, i: nat)
      requires i < |pattern|
      ensures Path(pattern[..i + 1]) == Child(Path(pattern[..i]), pattern[i])
    {
      assert Init(pattern[..i + 1]) == pattern[..i];
    }

    /** The first loop: follow the pattern as far as there are states for it. */
    method FollowPattern(pattern: Word, ghost t: Naming) returns (state: int, i: int)
      requires Shaped(t) && Trie(t, FAIL_STATE)
      ensures 0 <= i <= |pattern| && 0 <= state < |t.labels| && t.labels[state] == Path(pattern[..i])
      ensures Prefixes(t.labels[state]) <= t.lang
      ensures i < |pattern| ==> Child(t.labels[state], pattern[i]) !in t.lang
    {
      state, i := 0, 0;
      while i < |pattern|
        invariant 0 <= i <= |pattern| && 0 <= state < |t.labels| && t.labels[state] == Path(pattern[..i])
        invariant Prefixes(t.labels[state]) <= t.lang
      {
        var nx := next[state, pattern[i]];
        PathStep(pattern, i);
        if nx == FAIL_STATE {
          break;
        }
        state, i := nx, i + 1;
      }
    }

    /** A new state in a trie under construction. */
    method GrowTrie(state: nat, c: Byte, ghost t: Naming, ghost own: Label -> seq<Pattern>) returns (ghost t': Naming)
      requires Building(t, own) && numStates + 1 < maxStates
      requires state < |t.labels| && Child(t.labels[state], c) !in t.lang
      modifies this`numStates, next
      ensures Building(t', own) && numStates == old(numStates) + 1
      ensures t' == t.Add(Child(t.labels[state], c))
    {
      t' := AddState(state, c, t);
    }

    /** One byte more of the pattern. */
    method AddByte(pattern: Word, i: nat, state: int, ghost lang: set<Label>, ghost t: Naming,
                   ghost own: Label -> seq<Pattern>)
      returns (ghost t': Naming)
      requires Building(t, own) && numStates + 1 < maxStates
      requires i < |pattern| && Following(t, pattern, i, state, lang)
      modifies this`numStates, next
      ensures Building(t', own) && numStates == old(numStates) + 1
      ensures Following(t', pattern, i + 1, numStates, lang)
    {
      ghost var w := Path(pattern[..i]);
      PathStep(pattern, i);
      t' := GrowTrie(state, pattern[i], t, own);
      if i + 1 < |pattern| {
        assert Child(Child(w, pattern[i]), pattern[i + 1]).parent == Child(w, pattern[i]);
      }
    }

    /** The second loop: one new state for each remaining byte. */
    method AddRest(pattern: Word, start: int, from: int, ghost t: Naming, ghost own: Label -> seq<Pattern>)
      returns (state: int, ghost t': Naming)
      requires Building(t, own)
      requires 0 <= from <= |pattern| && Following(t, pattern, from, start, t.lang)
      requires numStates + |pattern| < maxStates
      modifies this`numStates, next
      ensures Building(t', own) && Following(t', pattern, |pattern|, state, t.lang)
      ensures numStates <= old(numStates) + |pattern|
    {
      state, t' := start, t;
      for i := from to |pattern|
        invariant Building(t', own) && Following(t', pattern, i, state, t.lang)
        invariant numStates <= old(numStates) + i
      {
        t' := AddByte(pattern, i, state, t.lang, t', own);
        state := numStates;
      }
    }

    /** Adding a pattern adds the states of exactly its prefixes that had none, and puts the
        pattern in front of the list of the state it labels. */
    method AddPatternStates(p: Pattern, ghost t: Naming, ghost own: Label -> seq<Pattern>)
      returns (ghost t': Naming, ghost own': Label -> seq<Pattern>)
      requires Building(t, own)
      requires numStates + |p.patrn| < maxStates
      modifies this`numStates, next, matchList
      ensures Building(t', own')
      ensures forall u :: own'(u) == if u == Path(p.patrn) then [p] + own(u) else own(u)
      ensures t'.lang == t.lang + Prefixes(Path(p.patrn))
      ensures numStates <= old(numStates) + |p.patrn|
    {
      var state, i := FollowPattern(p.patrn, t);
      WithPrefixesIsUnion(t.lang, t.labels[state]);
      state, t' := AddRest(p.patrn, state, i, t, own);
      WithPrefixesIsUnion(t.lang, Path(p.patrn));
      assert p.patrn[..|p.patrn|] == p.patrn;
      AddMatchListEntry(state, p);
      ghost var end := Path(p.patrn);
      own' := u => if u == end then [p] + own(u) else own(u);
    }

    // ---------- Build_NFA ----------

    /** The worklist holds the states of the t.labels `q`. */
    ghost predicate Queued(t: Naming, ids: seq<int>, q: seq<Label>)
    {
      |ids| == |q| && forall k :: 0 <= k < |q| ==> 0 < ids[k] < |t.labels| && t.labels[ids[k]] == q[k]
    }

    /** The states reached so far have their failure link and their final match list `out`;
        the others still list only their own patterns. */
    ghost predicate Linked(t: Naming, own: Label -> seq<Pattern>, out: Label -> seq<Pattern>, b: Pass)
      requires Shaped(t)
      reads fail, matchList
    {
      && (forall s {:trigger fail[s]} :: 0 <= s < |t.labels| && Reached(b.done, b.r, b.i, t.labels[s]) ==>
            0 <= fail[s] < |t.labels| && t.labels[fail[s]] == Failure(t.lang, t.labels[s]))
      && (forall s {:trigger matchList[s]} :: 0 <= s < |t.labels| ==>
            matchList[s] == if Reached(b.done, b.r, b.i, t.labels[s]) then out(t.labels[s]) else own(t.labels[s]))
    }

    /** Find the target of the failure-link walk that starts at state `start`, for byte `c`. */
    method Walk(ghost t: Naming, start: int, c: Byte) returns (nx: int)
      requires Shaped(t) && Trie(t, 0) && 0 <= start < |t.labels|
      requires forall s {:trigger fail[s]} :: 0 < s < |t.labels| && Depth(t.labels[s]) <= Depth(t.labels[start]) ==>
                 0 <= fail[s] < |t.labels| && t.labels[fail[s]] == Failure(t.lang, t.labels[s])
      ensures 0 <= nx < |t.labels| && t.labels[nx] == Longest(t.lang, Child(t.labels[start], c))
      ensures Depth(t.labels[nx]) <= Depth(t.labels[start]) + 1
    {
      var fs := start;
      nx := next[fs, c];
      while nx == FAIL_STATE
        invariant 0 <= fs < |t.labels| && nx == next[fs, c]
        invariant Depth(t.labels[fs]) <= Depth(t.labels[start])
        invariant Longest(t.lang, Child(t.labels[fs], c)) == Longest(t.lang, Child(t.labels[start], c))
        decreases Depth(t.labels[fs])
      {
        assert fs != 0;
        FailureStep(t.lang, t.labels[fs], c);
        fs := fail[fs];
        nx := next[fs, c];
      }
      if Child(t.labels[fs], c) !in t.lang {
        assert t.labels[fs] == Root && nx == 0;
        assert Longest(t.lang, Child(Root, c)) == Longest(t.lang, Root);
      }
    }

    /** Push copies of the entries of state `from` on the front of the list of state `s`. */
    method CopyMatchList(from: int, s: int)
      requires 0 <= from < matchList.Length && 0 <= s < matchList.Length && from != s
      modifies matchList
      ensures matchList[s] == PushAll(old(matchList[from]), old(matchList[s]))
      ensures forall k :: 0 <= k < matchList.Length && k != s ==> matchList[k] == old(matchList[k])
    {
      var mlist := matchList[from];
      while mlist != []
        invariant PushAll(mlist, matchList[s]) == PushAll(old(matchList[from]), old(matchList[s]))
        invariant forall k :: 0 <= k < matchList.Length && k != s ==> matchList[k] == old(matchList[k])
        decreases |mlist|
      {
        matchList[s] := [mlist[0]] + matchList[s];
        mlist := mlist[1..];
      }
    }

    /** The failure link and the match list of the child of state `r` for the byte the pass
        has reached. */
    method LinkChild(ghost t: Naming, r: int, s: int, ghost own: Label -> seq<Pattern>,
                     ghost out: Label -> seq<Pattern>, ghost n: nat, i: Byte)
      requires Shaped(t) && Trie(t, 0) && 0 < r < |t.labels| && 0 < s < |t.labels|
      requires After(t.lang, n).r == t.labels[r] && After(t.lang, n).i == i
      requires t.labels[s] == Child(t.labels[r], i)
      requires Linked(t, own, out, After(t.lang, n)) && own(Root) == out(Root)
      requires out(t.labels[s]) == PushAll(out(Failure(t.lang, t.labels[s])), own(t.labels[s]))
      modifies fail, matchList
      ensures Linked(t, own, out, Advance(t.lang, After(t.lang, n)))
    {
      ghost var b, w := After(t.lang, n), t.labels[r];
      NearerFirst(t.lang, n);
      assert w != t.labels[0];
      forall k | 0 < k < |t.labels| && Depth(t.labels[k]) <= Depth(w)
        ensures Reached(b.done, w, i, t.labels[k])
      {
        assert t.labels[k] != t.labels[0];
        assert t.labels[k].parent in t.lang && Depth(t.labels[k].parent) < Depth(w);
      }
      FailureOfChild(t.lang, w, i);
      var nx := Walk(t, fail[r], i);
      assert Depth(t.labels[nx]) <= Depth(w) < Depth(t.labels[s]);
      assert matchList[nx] == out(t.labels[nx]);
      SetLinks(t, s, nx, own, out, b);
    }

    /** The links of the state the pass has just reached. */
    method SetLinks(ghost t: Naming, s: int, nx: int, ghost own: Label -> seq<Pattern>,
                    ghost out: Label -> seq<Pattern>, ghost b: Pass)
      requires Shaped(t) && 0 < s < |t.labels| && 0 <= nx < |t.labels| && nx != s
      requires 0 <= b.i < 256 && t.labels[s] == Child(b.r, b.i) && b.r !in b.done
      requires Linked(t, own, out, b) && t.labels[nx] == Failure(t.lang, t.labels[s]) &&
                matchList[nx] == out(t.labels[nx])
      requires out(t.labels[s]) == PushAll(out(Failure(t.lang, t.labels[s])), own(t.labels[s]))
      modifies fail, matchList
      ensures Linked(t, own, out, Advance(t.lang, b))
    {
      assert !Reached(b.done, b.r, b.i, t.labels[s]);
      fail[s] := nx;
      CopyMatchList(nx, s);
      ReachedNext(b.done, b.r, b.i);
    }

    /** How the final match list of a label arises from the list of its failure label. */
    static ghost predicate MatchLaw(S: set<Label>, own: Label -> seq<Pattern>, out: Label -> seq<Pattern>, u: Label)
      requires Root in S
    {
      out(u) == if u.Root? || u.parent.Root? then own(u) else PushAll(out(Failure(S, u)), own(u))
    }

    /** The failure link of a child of state 0 is state 0. */
    method LinkRootChild(ghost t: Naming, s: int, ghost own: Label -> seq<Pattern>, ghost out: Label -> seq<Pattern>,
                         i: Byte)
      requires Shaped(t) && 0 < s < |t.labels| && t.labels[s] == Child(Root, i)
      requires After(t.lang, i).r == Root && After(t.lang, i).i == i
      requires Linked(t, own, out, After(t.lang, i)) && own(t.labels[s]) == out(t.labels[s])
      modifies fail
      ensures Linked(t, own, out, Advance(t.lang, After(t.lang, i)))
    {
      ghost var b := After(t.lang, i);
      NearerFirst(t.lang, i);
      ReachedNext(b.done, Root, i);
      fail[s] := 0;
    }

    /** One byte of the first loop of `Build_NFA`. */
    method SeedByte(ghost t: Naming, q: Queue, i: Byte, ghost own: Label -> seq<Pattern>,
                    ghost out: Label -> seq<Pattern>)
      requires Shaped(t) && Trie(t, 0) && q.Valid()
      requires forall u {:trigger MatchLaw(t.lang, own, out, u)} :: MatchLaw(t.lang, own, out, u)
      requires After(t.lang, i).r == Root && After(t.lang, i).i == i
      requires Queued(t, q.contents, After(t.lang, i).q) && Linked(t, own, out, After(t.lang, i))
      modifies fail, q
      ensures q.Valid()
      ensures Queued(t, q.contents, After(t.lang, i + 1).q) && Linked(t, own, out, After(t.lang, i + 1))
    {
      var s := next[0, i];
      if s != 0 {
        assert MatchLaw(t.lang, own, out, t.labels[s]);
        q.Add(s);
        LinkRootChild(t, s, own, out, i);
      } else {
        ReachedNext(After(t.lang, i).done, Root, i);
      }
    }

    /** The first loop of `Build_NFA`: the children of state 0 go on the worklist. */
    method SeedNfa(ghost t: Naming, q: Queue, ghost own: Label -> seq<Pattern>, ghost out: Label -> seq<Pattern>)
      requires Shaped(t) && Trie(t, 0) && Lists(t, own) && q.Valid() && q.contents == []
      requires forall u {:trigger MatchLaw(t.lang, own, out, u)} :: MatchLaw(t.lang, own, out, u)
      modifies fail, q
      ensures q.Valid()
      ensures var b := After(t.lang, 256); b.i == 256 && Queued(t, q.contents, b.q) && Linked(t, own, out, b)
    {
      for i := 0 to ALPHABET_SIZE
        invariant q.Valid()
        invariant After(t.lang, i).r == Root && After(t.lang, i).i == i
        invariant Queued(t, q.contents, After(t.lang, i).q) && Linked(t, own, out, After(t.lang, i))
      {
        SeedByte(t, q, i, own, out);
      }
    }

    /** One byte of the worklist loop. */
    method VisitNfa(ghost t: Naming, q: Queue, r: int, i: Byte, ghost own: Label -> seq<Pattern>,
                    ghost out: Label -> seq<Pattern>, ghost n: nat)
      requires Shaped(t) && Trie(t, 0) && q.Valid() && 0 < r < |t.labels|
      requires After(t.lang, n).r == t.labels[r] && After(t.lang, n).i == i && t.labels[r].Child?
      requires Queued(t, q.contents, After(t.lang, n).q) && Linked(t, own, out, After(t.lang, n)) &&
                own(Root) == out(Root)
      requires forall u {:trigger MatchLaw(t.lang, own, out, u)} :: MatchLaw(t.lang, own, out, u)
      modifies fail, matchList, q
      ensures q.Valid()
      ensures Queued(t, q.contents, After(t.lang, n + 1).q) && Linked(t, own, out, After(t.lang, n + 1))
    {
      var s := next[r, i];
      if s != FAIL_STATE {
        assert MatchLaw(t.lang, own, out, t.labels[s]);
        q.Add(s);
        LinkChild(t, r, s, own, out, n, i);
      } else {
        ReachedNext(After(t.lang, n).done, t.labels[r], i);
      }
    }

    /** The body of the worklist loop: expand state `r` byte by byte. */
    method ExpandNfa(ghost t: Naming, q: Queue, r: int, ghost own: Label -> seq<Pattern>,
                     ghost out: Label -> seq<Pattern>, ghost n: nat)
      requires Shaped(t) && Trie(t, 0) && q.Valid() && 0 < r < |t.labels|
      requires After(t.lang, n).r == t.labels[r] && After(t.lang, n).i == 0 && t.labels[r].Child?
      requires Queued(t, q.contents, After(t.lang, n).q) && Linked(t, own, out, After(t.lang, n)) &&
                own(Root) == out(Root)
      requires forall u {:trigger MatchLaw(t.lang, own, out, u)} :: MatchLaw(t.lang, own, out, u)
      modifies fail, matchList, q
      ensures q.Valid()
      ensures var b, b' := After(t.lang, n), After(t.lang, n + 256);
              b'.done == b.done && b'.r == b.r && b'.i == 256 && Queued(t, q.contents, b'.q) && Linked(t, own, out, b')
    {
      for i := 0 to ALPHABET_SIZE
        invariant q.Valid()
        invariant After(t.lang, n + i).done == After(t.lang, n).done && After(t.lang, n + i).r == t.labels[r] &&
                  After(t.lang, n + i).i == i
        invariant Queued(t, q.contents, After(t.lang, n + i).q) && Linked(t, own, out, After(t.lang, n + i))
      {
        VisitNfa(t, q, r, i, own, out, n + i);
      }
    }

    /** Every failure link leads to the longest proper suffix with a state. */
    ghost predicate FailuresLinked(t: Naming)
      requires Shaped(t)
      reads fail
    {
      forall s {:trigger fail[s]} :: 0 < s < |t.labels| ==>
        0 <= fail[s] < |t.labels| && t.labels[fail[s]] == Failure(t.lang, t.labels[s])
    }

    /** After `Build_NFA` the failure links are complete and every match list is final. */
    ghost predicate IsNfa(t: Naming, out: Label -> seq<Pattern>)
      requires Shaped(t)
      reads fail, matchList
    {
      && FailuresLinked(t)
      && (forall s {:trigger matchList[s]} :: 0 <= s < |t.labels| ==> matchList[s] == out(t.labels[s]))
    }

    lemma NfaComplete(t: Naming, own: Label -> seq<Pattern>, out: Label -> seq<Pattern>, n: nat)
      requires Shaped(t) && own(Root) == out(Root)
      requires After(t.lang, n).i == 256 && After(t.lang, n).q == [] && Linked(t, own, out, After(t.lang, n))
      ensures IsNfa(t, out)
    {
      var b := After(t.lang, n);
      forall s | 0 < s < |t.labels|
        ensures Reached(b.done, b.r, b.i, t.labels[s])
      {
        assert t.labels[s] != t.labels[0];
        PassIsComplete(t.lang, n, t.labels[s]);
      }
    }

    method BuildNfa(ghost t: Naming, ghost own: Label -> seq<Pattern>, ghost out: Label -> seq<Pattern>)
      requires Shaped(t) && Trie(t, 0) && Lists(t, own)
      requires forall u {:trigger MatchLaw(t.lang, own, out, u)} :: MatchLaw(t.lang, own, out, u)
      modifies fail, matchList
      ensures IsNfa(t, out)
    {
      assert MatchLaw(t.lang, own, out, Root);
      var q := new Queue();
      SeedNfa(t, q, own, out);
      ghost var n := 256;
      while q.count > 0
        invariant q.Valid() && fresh(q)
        invariant After(t.lang, n).i == 256 && Queued(t, q.contents, After(t.lang, n).q) &&
                  Linked(t, own, out, After(t.lang, n))
        decreases t.lang - After(t.lang, n).done
      {
        ghost var b := After(t.lang, n);
        PassTake(t.lang, n);
        ReachedTake(b.done, b.r, b.q[0]);
        var r := q.Remove();
        ExpandNfa(t, q, r, own, out, n + 1);
        n := n + 257;
      }
      NfaComplete(t, own, out, n);
    }

    // ---------- Convert_NFA_To_DFA ----------

    /** The rows of the states expanded so far hold DFA transitions, and so does the row being
        expanded, for the bytes done; all others still hold the trie. */
    ghost predicate Converted(t: Naming, b: Pass)
      requires Shaped(t)
      reads next
    {
      forall s, c :: 0 <= s < |t.labels| && 0 <= c < 256 ==>
        if t.labels[s] in b.done || (t.labels[s] == b.r && c < b.i) then DeltaCell(t, s, c, next[s, c])
        else GotoCell(t, 0, s, c, next[s, c])
    }

    /** A cell of row 0 of the completed trie is already a DFA transition. */
    lemma RootCell(t: Naming, c: Byte)
      requires Shaped(t) && Trie(t, 0)
      ensures DeltaCell(t, 0, c, next[0, c])
    {
      if Child(Root, c) !in t.lang {
        assert Longest(t.lang, Child(Root, c)) == Longest(t.lang, Root);
      }
    }

    method SeedDfa(ghost t: Naming, q: Queue)
      requires Shaped(t) && Trie(t, 0) && q.Valid() && q.contents == []
      modifies q
      ensures q.Valid()
      ensures var b := After(t.lang, 256); b.i == 256 && Queued(t, q.contents, b.q) && Converted(t, b)
    {
      ghost var b := After(t.lang, 0);
      for i := 0 to ALPHABET_SIZE
        invariant q.Valid()
        invariant b == After(t.lang, i) && b.r == Root && b.i == i && b.done == {}
        invariant Queued(t, q.contents, b.q) && Converted(t, b)
      {
        var s := next[0, i];
        RootCell(t, i);
        if s != 0 {
          q.Add(s);
        }
        b := Advance(t.lang, b);
      }
    }

    /** A transition of `r` that the trie already has is a DFA transition; a missing one is
        that of the failure state, whose row is already final because it is nearer to the root. */
    method FillCell(ghost t: Naming, r: int, i: Byte, ghost out: Label -> seq<Pattern>, ghost n: nat) returns (s: int)
      requires Shaped(t) && IsNfa(t, out) && 0 < r < |t.labels|
      requires After(t.lang, n).r == t.labels[r] && After(t.lang, n).i == i && Converted(t, After(t.lang, n))
      modifies next
      ensures Converted(t, Advance(t.lang, After(t.lang, n)))
      ensures s == FAIL_STATE ==> Child(t.labels[r], i) !in t.lang
      ensures s != FAIL_STATE ==> 0 < s < |t.labels| && t.labels[s] == Child(t.labels[r], i) && t.labels[s] in t.lang
    {
      NearerFirst(t.lang, n);
      s := next[r, i];
      assert GotoCell(t, 0, r, i, s);
      ghost var b := After(t.lang, n);
      if s == FAIL_STATE {
        FailureStep(t.lang, t.labels[r], i);
        assert t.labels[fail[r]] in b.done;
        assert DeltaCell(t, fail[r], i, next[fail[r], i]);
        next[r, i] := next[fail[r], i];
      }
      assert DeltaCell(t, r, i, next[r, i]);
      assert forall s :: 0 <= s < |t.labels| && t.labels[s] == b.r ==> s == r;
    }

    /** One byte of the worklist loop. */
    method VisitDfa(ghost t: Naming, q: Queue, r: int, i: Byte, ghost out: Label -> seq<Pattern>, ghost n: nat)
      requires Shaped(t) && IsNfa(t, out) && q.Valid() && 0 < r < |t.labels|
      requires After(t.lang, n).r == t.labels[r] && After(t.lang, n).i == i
      requires Queued(t, q.contents, After(t.lang, n).q) && Converted(t, After(t.lang, n))
      modifies next, q
      ensures q.Valid()
      ensures Queued(t, q.contents, After(t.lang, n + 1).q) && Converted(t, After(t.lang, n + 1))
    {
      var s := FillCell(t, r, i, out, n);
      if s != FAIL_STATE {
        q.Add(s);
      }
    }

    /** The body of the worklist loop: complete row `r`. */
    method ExpandDfa(ghost t: Naming, q: Queue, r: int, ghost out: Label -> seq<Pattern>, ghost n: nat)
      requires Shaped(t) && IsNfa(t, out) && q.Valid() && 0 < r < |t.labels|
      requires After(t.lang, n).r == t.labels[r] && After(t.lang, n).i == 0
      requires Queued(t, q.contents, After(t.lang, n).q) && Converted(t, After(t.lang, n))
      modifies next, q
      ensures q.Valid()
      ensures var b, b' := After(t.lang, n), After(t.lang, n + 256);
              b'.done == b.done && b'.r == b.r && b'.i == 256 && Queued(t, q.contents, b'.q) && Converted(t, b')
    {
      for i := 0 to ALPHABET_SIZE
        invariant q.Valid()
        invariant After(t.lang, n + i).done == After(t.lang, n).done && After(t.lang, n + i).r == t.labels[r] &&
                  After(t.lang, n + i).i == i
        invariant Queued(t, q.contents, After(t.lang, n + i).q) && Converted(t, After(t.lang, n + i))
      {
        VisitDfa(t, q, r, i, out, n + i);
      }
    }

    /** The finished automaton: from every state, on every byte, to the state of the longest
        suffix that has one; with the match lists given by `out`. */
    ghost predicate IsDfa(t: Naming, out: Label -> seq<Pattern>)
      reads next, matchList
    {
      && Shaped(t)
      && (forall s, c :: 0 <= s < |t.labels| && 0 <= c < 256 ==> DeltaCell(t, s, c, next[s, c]))
      && (forall s :: 0 <= s < |t.labels| ==> matchList[s] == out(t.labels[s]))
    }

    lemma DfaComplete(t: Naming, out: Label -> seq<Pattern>, n: nat)
      requires Shaped(t) && IsNfa(t, out)
      requires After(t.lang, n).i == 256 && After(t.lang, n).q == [] && Converted(t, After(t.lang, n))
      ensures IsDfa(t, out)
    {
      var b := After(t.lang, n);
      forall s | 0 <= s < |t.labels|
        ensures t.labels[s] in b.done + {b.r}
      {
        PassIsComplete(t.lang, n, t.labels[s]);
      }
    }

    method ConvertNfaToDfa(ghost t: Naming, ghost out: Label -> seq<Pattern>)
      requires Shaped(t) && Trie(t, 0) && IsNfa(t, out)
      modifies next
      ensures IsDfa(t, out)
    {
      var q := new Queue();
      SeedDfa(t, q);
      ghost var n := 256;
      while q.count > 0
        invariant q.Valid() && fresh(q)
        invariant After(t.lang, n).i == 256 && Queued(t, q.contents, After(t.lang, n).q) &&
                  Converted(t, After(t.lang, n))
        decreases t.lang - After(t.lang, n).done
      {
        PassTake(t.lang, n);
        var r := q.Remove();
        ExpandDfa(t, q, r, out, n + 1);
        n := n + 257;
      }
      DfaComplete(t, out, n);
    }

    // ---------- acsmCompile ----------

    /** Missing transitions of state 0 return to state 0. */
    method CompleteRoot(ghost t: Naming)
      requires Shaped(t) && Trie(t, FAIL_STATE)
      modifies next
      ensures Trie(t, 0)
    {
      for i := 0 to ALPHABET_SIZE
        invariant forall s, c :: 0 <= s < |t.labels| && 0 <= c < 256 ==>
                    GotoCell(t, if s == 0 && c < i then 0 else FAIL_STATE, s, c, next[s, c])
      {
        if next[0, i] == FAIL_STATE {
          next[0, i] := 0;
        }
      }
    }

    /** Add pattern number `k` to the trie of the patterns before it. */
    method AddNext(ps: seq<Pattern>, k: nat, ghost t: Naming, ghost own: Label -> seq<Pattern>)
      returns (ghost t': Naming, ghost own': Label -> seq<Pattern>)
      requires k < |ps| && Building(t, own) && t.lang == Language(ps[..k])
      requires forall u :: own(u) == Own(ps[..k], u)
      requires numStates < TableSize(ps[..k]) && TableSize(ps[..k + 1]) <= maxStates
      modifies this`numStates, next, matchList
      ensures Building(t', own') && t'.lang == Language(ps[..k + 1])
      ensures forall u :: own'(u) == Own(ps[..k + 1], u)
      ensures numStates < TableSize(ps[..k + 1])
    {
      assert ps[..k + 1][..k] == ps[..k];
      t', own' := AddPatternStates(ps[k], t, own);
    }

    /** From the finished trie to the finished automaton. */
    method Finish(ghost t: Naming, ghost own: Label -> seq<Pattern>, ghost ps: seq<Pattern>)
      requires Building(t, own) && t.lang == Language(ps)
      requires forall u :: own(u) == Own(ps, u)
      modifies this`names, next, fail, matchList
      ensures Compiled(ps)
    {
      CompleteRoot(t);
      ghost var lang := t.lang;
      ghost var out := u => if Root in lang then MatchesOf(lang, ps, u) else [];
      BuildNfa(t, own, out);
      ConvertNfaToDfa(t, out);
      names := t;
    }

    /** Every prefix of a pattern has a state (and by `Naming.Valid` only one). */
    lemma {:induction false} EveryPrefixHasState(ps: seq<Pattern>, w: Label) returns (s: int)
      requires Compiled(ps) && w in Language(ps)
      ensures 0 <= s < |names.labels| && names.labels[s] == w
    {
      if w.Root? {
        s := 0;
      } else {
        LanguageClosed(ps);
        assert w.parent in Language(ps);
        var p := EveryPrefixHasState(ps, w.parent);
        s := next[p, w.byte];
        assert DeltaCell(names, p, w.byte, s);
      }
    }

    /** The DFA cell is the trie child where there is one, and otherwise the cell of the
        failure state: the failure-link walk of the NFA. */
    lemma CellFollowsFailure(ps: seq<Pattern>, s: int, c: Byte)
      requires Compiled(ps) && 0 < s < |names.labels|
      ensures 0 <= fail[s] < |names.labels|
      ensures if Child(names.labels[s], c) in Language(ps) then names.labels[next[s, c]] == Child(names.labels[s], c)
              else next[s, c] == next[fail[s], c]
    {
      assert DeltaCell(names, s, c, next[s, c]) && DeltaCell(names, fail[s], c, next[fail[s], c]);
      if Child(names.labels[s], c) !in names.lang {
        FailureStep(names.lang, names.labels[s], c);
      }
    }

    // ---------- acsmSearch ----------

    /** The table is the finished automaton of the patterns `ps`. */
    ghost predicate Compiled(ps: seq<Pattern>)
      reads this, next, fail, matchList
    {
      && Shaped(names) && names.lang == Language(ps) && FailuresLinked(names)
      && (forall s, c :: 0 <= s < |names.labels| && 0 <= c < 256 ==> DeltaCell(names, s, c, next[s, c]))
      && (forall s :: 0 <= s < |names.labels| ==> matchList[s] == MatchesOf(names.lang, ps, names.labels[s]))
    }

    /** Call the callback for one entry of a match list if it passes its comparison, and count
        the call. */
    method ReportEntry(p: Pattern, t: Word, e: nat, verdict: seq<Hit> -> int, made: seq<Hit>, count: int)
      returns (nfound: int, calls: seq<Hit>, stopped: bool)
      requires 0 < e <= |t| && p.Valid() && (p.nocase || |p.patrn| <= e)
      ensures calls == if Confirmed(p, t, e) then made + [Hit(p, e - |p.patrn|)] else made
      ensures stopped == (Confirmed(p, t, e) && verdict(calls) > 0)
      ensures nfound - |calls| == count - |made|
    {
      nfound, calls, stopped := count, made, false;
      var index := e - |p.patrn|;
      if p.nocase || t[index..index + |p.casepatrn|] == p.casepatrn {
        nfound := nfound + 1;
        calls := made + [Hit(p, index)];
        stopped := verdict(calls) > 0;
      }
    }

    /** Call the callback for the entries of a match list at end position `e`, until it stops
        the search.  `verdict(calls)` is its answer to the last of `calls`; `later` are the
        calls that would follow. */
    method Report(list: seq<Pattern>, t: Word, e: nat, verdict: seq<Hit> -> int, made: seq<Hit>, count: int,
                  ghost later: seq<Hit>)
      returns (nfound: int, calls: seq<Hit>, stopped: bool)
      requires 0 < e <= |t|
      requires forall k :: 0 <= k < |list| ==> list[k].Valid() && (list[k].nocase || |list[k].patrn| <= e)
      ensures Deliver(made, Confirm(list, t, e) + later, verdict)
           == if stopped then calls else Deliver(calls, later, verdict)
      ensures stopped ==> calls != [] && verdict(calls) > 0 && calls[|calls| - 1].End() == e
      ensures !stopped ==> calls == made || verdict(calls) <= 0
      ensures nfound - |calls| == count - |made|
    {
      nfound, calls, stopped := count, made, false;
      ghost var wanted := Deliver(made, Confirm(list, t, e) + later, verdict);
      var mlist := list;
      while mlist != []
        invariant forall k :: 0 <= k < |mlist| ==> mlist[k].Valid() && (mlist[k].nocase || |mlist[k].patrn| <= e)
        invariant wanted == Deliver(calls, Confirm(mlist, t, e) + later, verdict)
        invariant !stopped && (calls == made || verdict(calls) <= 0)
        invariant nfound - |calls| == count - |made|
      {
        ghost var before := calls;
        nfound, calls, stopped := ReportEntry(mlist[0], t, e, verdict, calls, nfound);
        ReportStep(mlist, t, e, later, before, verdict, calls, stopped);
        if stopped {
          return;
        }
        mlist := mlist[1..];
      }
      assert Confirm([], t, e) + later == later;
    }

    /** The entries of the list at the state reached may be compared with the text. */
    lemma EntriesComparable(ps: seq<Pattern>, u: Label, t: Word, e: nat, list: seq<Pattern>)
      requires Root in names.lang && e <= |t| && ValidPatterns(ps) && (u == Root || AllNocase(ps))
      requires list == MatchesOf(names.lang, ps, LabelAfter(names.lang, u, t, e))
      ensures forall k :: 0 <= k < |list| ==> list[k].Valid() && (list[k].nocase || |list[k].patrn| <= e)
    {
      MatchesFit(names.lang, ps, LabelAfter(names.lang, u, t, e));
      PathDepth(FoldWord(t[..e]));
    }

    lemma BlocksFrom(ps: seq<Pattern>, u: Label, t: Word, e: nat)
      requires Root in names.lang && e < |t|
      ensures Flatten(HitBlocks(names.lang, ps, u, t)[e..])
           == HitsAt(names.lang, ps, u, t, e + 1) + Flatten(HitBlocks(names.lang, ps, u, t)[e + 1..])
    {
      var blocks := HitBlocks(names.lang, ps, u, t);
      FlattenFirst(blocks[e..]);
      assert blocks[e..][1..] == blocks[e + 1..];
    }

    /** One byte of the scan. */
    method ScanByte(ps: seq<Pattern>, ghost u: Label, t: Word, c: Byte, e: nat, verdict: seq<Hit> -> int, from: int,
                    made: seq<Hit>, count: int)
      returns (state: int, nfound: int, calls: seq<Hit>, stopped: bool)
      requires Compiled(ps) && ValidPatterns(ps) && (u == Root || AllNocase(ps))
      requires e < |t| && c == Fold(t[e]) && Searching(names, ps, u, t, verdict, e, from, made)
      ensures !stopped ==> Searching(names, ps, u, t, verdict, e + 1, state, calls)
      ensures stopped ==> calls == Deliver([], Hits(names.lang, ps, u, t), verdict)
      ensures stopped ==> calls != [] && verdict(calls) > 0 && calls[|calls| - 1].End() == e + 1
      ensures 0 <= state < |names.labels| && names.labels[state] == LabelAfter(names.lang, u, t, e + 1)
      ensures nfound - |calls| == count - |made|
    {
      LabelAfterStep(names.lang, u, t, e);
      state := next[from, c];
      var mlist := matchList[state];
      EntriesComparable(ps, u, t, e + 1, mlist);
      BlocksFrom(ps, u, t, e);
      ghost var later := Flatten(HitBlocks(names.lang, ps, u, t)[e + 1..]);
      nfound, calls, stopped := Report(mlist, t, e + 1, verdict, made, count, later);
    }

    /** Search `t` from state `current`.  The calls made are those of the specification, cut
        where the callback stops the search; the state returned is the one reached there. */
    method Search(ps: seq<Pattern>, t: Word, verdict: seq<Hit> -> int, current: Option<int>)
      returns (nfound: int, calls: seq<Hit>, end: Option<int>)
      requires Compiled(ps) && ValidPatterns(ps) && |t| <= TEXT_SIZE
      requires current.Some? ==> 0 <= current.value < |names.labels| && (current.value == 0 || AllNocase(ps))
      ensures current.None? ==> nfound == 0 && calls == [] && end.None?
      ensures current.Some? ==> Answers(names, ps, t, verdict, current.value, nfound, calls, end)
    {
      var tc := new Byte[TEXT_SIZE];
      ConvertCaseEx(tc, t);
      if current.None? {
        return 0, [], None;
      }
      var state;
      nfound, calls, state := Scan(ps, t, tc, verdict, current.value);
      end := Some(state);
    }

    /** The loop over the folded text. */
    method Scan(ps: seq<Pattern>, t: Word, tc: array<Byte>, verdict: seq<Hit> -> int, current: int)
      returns (nfound: int, calls: seq<Hit>, state: int)
      requires Compiled(ps) && ValidPatterns(ps)
      requires 0 <= current < |names.labels| && (current == 0 || AllNocase(ps))
      requires |t| <= tc.Length && forall k :: 0 <= k < |t| ==> tc[k] == Fold(t[k])
      ensures Answers(names, ps, t, verdict, current, nfound, calls, Some(state))
    {
      nfound, calls, state := 0, [], current;
      ghost var u := names.labels[state];
      SearchStarts(names, ps, t, verdict, state);
      for i := 0 to |t|
        invariant Searching(names, ps, u, t, verdict, i, state, calls) && nfound == |calls|
      {
        var stopped;
        state, nfound, calls, stopped := ScanByte(ps, u, t, tc[i], i, verdict, state, calls, nfound);
        if stopped {
          SearchStopped(names, ps, t, verdict, current, i + 1, state, calls);
          return;
        }
      }
      SearchEnds(names, ps, t, verdict, current, state, calls);
    }
  }

  /** The state machine: the patterns added, the latest first, and the table once compiled. */
  class StateMachine {
    var patterns: seq<Pattern>
    var table: StateTable?

    ghost predicate Valid()
      reads this
    {
      ValidPatterns(patterns)
    }

    constructor ()
      ensures Valid() && patterns == [] && table == null
    {
      patterns, table := [], null;
    }

    method AddPattern(pat: Word, nocase: bool, offset: int, depth: int, id: int, iid: int)
      requires Valid()
      modifies this`patterns
      ensures Valid()
      ensures patterns == [Pattern(FoldWord(pat), pat, nocase, offset, depth, id, iid)] + old(patterns)
    {
      var patrn := new Byte[|pat|];
      ConvertCaseEx(patrn, pat);
      assert patrn[..] == FoldWord(pat);
      patterns := [Pattern(patrn[..], pat, nocase, offset, depth, id, iid)] + patterns;
    }

    /** One state and one more for every pattern byte. */
    method CountStates() returns (maxStates: int)
      ensures maxStates == TableSize(patterns)
    {
      maxStates := 1;
      for k := 0 to |patterns|
        invariant maxStates == TableSize(patterns[..k])
      {
        assert patterns[..k + 1][..k] == patterns[..k];
        maxStates := maxStates + |patterns[k].patrn|;
      }
      assert patterns[..|patterns|] == patterns;
    }

    /** The trie of the patterns added so far. */
    method BuildTrie() returns (st: StateTable, ghost t: Naming, ghost own: Label -> seq<Pattern>)
      ensures fresh(st) && fresh(st.next) && fresh(st.fail) && fresh(st.matchList)
      ensures st.Building(t, own) && t.lang == Language(patterns)
      ensures forall u :: own(u) == Own(patterns, u)
      ensures st.numStates < st.maxStates
    {
      var maxStates := CountStates();
      st := new StateTable(maxStates);
      t, own := Naming([Root], {Root}, map[Root := 0]), u => [];
      for k := 0 to |patterns|
        invariant st.Building(t, own) && t.lang == Language(patterns[..k])
        invariant forall u :: own(u) == Own(patterns[..k], u)
        invariant st.numStates < TableSize(patterns[..k])
      {
        TableSizeMonotone(patterns, k + 1);
        t, own := st.AddNext(patterns, k, t, own);
      }
      assert patterns[..|patterns|] == patterns;
    }

    /** Build the automaton of the patterns added so far. */
    method Compile()
      modifies this`table
      ensures table != null && fresh(table) && fresh(table.next) && fresh(table.fail) && fresh(table.matchList)
      ensures table.Compiled(patterns)
      ensures table.numStates < table.maxStates
    {
      var st;
      ghost var t, own;
      st, t, own := BuildTrie();
      st.Finish(t, own, patterns);
      table := st;
    }

    /** The search a user sees.  From state 0, with non-empty patterns and a callback that
        never stops it, it reports every occurrence of every pattern exactly once, in
        increasing order of end position, and returns their number. */
    method Search(t: Word, verdict: seq<Hit> -> int, current: Option<int>)
      returns (nfound: int, calls: seq<Hit>, end: Option<int>)
      requires Valid() && table != null && table.Compiled(patterns) && |t| <= TEXT_SIZE
      requires current.Some? ==>
                 0 <= current.value < |table.names.labels| && (current.value == 0 || AllNocase(patterns))
      ensures current == Some(0) && NonEmpty(patterns) && (forall h :: verdict(h) <= 0) ==>
                && multiset(calls) == multiset(Occurrences(patterns, t))
                && nfound == |Occurrences(patterns, t)|
                && InOrder(calls, |t|)
      ensures current.Some? ==> Answers(table.names, patterns, t, verdict, current.value, nfound, calls, end)
      ensures current.None? ==> nfound == 0 && calls == [] && end.None?
    {
      nfound, calls, end := table.Search(patterns, t, verdict, current);
      if current == Some(0) && NonEmpty(patterns) && forall h :: verdict(h) <= 0 {
        AnswersFromZero(table.names, patterns, t, verdict, nfound, calls, end);
      }
    }
  }
}
