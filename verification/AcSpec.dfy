/** What the Aho-Corasick engine promises: which patterns a state reports, which calls a
    search makes, and that these are the occurrences of the patterns in the text. */
module AcSpec {
  import opened Bytes
  import opened AcTheory

  // ---------- case folding (the table xlatcase) ----------

  /** `toupper` in the C locale. */
  function Fold(b: Byte): Byte {
    if 97 <= b <= 122 then b - 32 else b
  }

  function FoldWord(w: Word): (r: Word) {
    seq(|w|, i requires 0 <= i < |w| => Fold(w[i]))
  }

  /** The same byte, or the same ASCII letter in the other case. */
  predicate SameLetter(a: Byte, b: Byte) {
    a == b || (65 <= a <= 90 && b == a + 32) || (65 <= b <= 90 && a == b + 32)
  }

  /** Folding keeps the letter and leaves none in lower case, so it tells apart exactly the bytes
      that are not the same letter. */
  lemma FoldsAlike(a: Byte, b: Byte)
    ensures SameLetter(a, Fold(a)) && !(97 <= Fold(a) <= 122)
    ensures Fold(a) == Fold(b) <==> SameLetter(a, b)
  {
  }

  lemma WordsFoldAlike(x: Word, y: Word)
    ensures FoldWord(x) == FoldWord(y) <==>
              |x| == |y| && forall i :: 0 <= i < |x| ==> SameLetter(x[i], y[i])
  {
    forall i | 0 <= i < |x| && i < |y|
      ensures FoldWord(x)[i] == FoldWord(y)[i] <==> SameLetter(x[i], y[i])
    {
      FoldsAlike(x[i], y[i]);
    }
    assert |FoldWord(x)| == |x| && |FoldWord(y)| == |y|;
  }

  // ---------- patterns ----------

  /** An `ACSM_PATTERN`; `patrn` is the folded copy that builds the trie. */
  datatype Pattern = Pattern(patrn: Word, casepatrn: Word, nocase: bool, offset: int, depth: int, id: int, iid: int)
  {
    predicate Valid() {
      patrn == FoldWord(casepatrn)
    }
  }

  predicate ValidPatterns(ps: seq<Pattern>) {
    forall k :: 0 <= k < |ps| ==> ps[k].Valid()
  }

  predicate NonEmpty(ps: seq<Pattern>) {
    forall k :: 0 <= k < |ps| ==> ps[k].patrn != []
  }

  predicate AllNocase(ps: seq<Pattern>) {
    forall k :: 0 <= k < |ps| ==> ps[k].nocase
  }

  ghost predicate Known(S: set<Label>, ps: seq<Pattern>) {
    forall k :: 0 <= k < |ps| ==> Path(ps[k].patrn) in S
  }

  /** The prefixes of a word, as labels: the states one pattern needs. */
  ghost function Prefixes(w: Label): set<Label> {
    if w.Root? then {Root} else Prefixes(w.parent) + {w}
  }

  /** A language with the prefixes of one more word. */
  ghost function WithPrefixes(S: set<Label>, w: Label): set<Label> {
    if w.Root? then S + {Root} else WithPrefixes(S, w.parent) + {w}
  }

  lemma {:induction false} WithPrefixesIsUnion(S: set<Label>, w: Label)
    ensures WithPrefixes(S, w) == S + Prefixes(w)
  {
    if w.Child? {
      WithPrefixesIsUnion(S, w.parent);
    }
  }

  lemma {:induction false} PrefixesClosed(w: Label, x: Label)
    requires x in Prefixes(w)
    ensures Root in Prefixes(w)
    ensures x.Child? ==> x.parent in Prefixes(w)
  {
    if w.Child? {
      if x != w {
        PrefixesClosed(w.parent, x);
      } else {
        assert w.parent in Prefixes(w.parent);
        PrefixesClosed(w.parent, w.parent);
      }
    }
  }

  lemma {:induction false} PrefixesExact(w: Word, x: Word)
    ensures Path(x) in Prefixes(Path(w)) <==> x <= w
  {
    if w == [] {
      PathDepth(x);
    } else {
      PrefixesExact(Init(w), x);
      assert x <= w <==> x == w || x <= Init(w);
      if Path(x) == Path(w) {
        PathInjective(x, w);
      }
    }
  }

  /** The labels a list of patterns needs: the language of the trie. */
  ghost function Language(ps: seq<Pattern>): (S: set<Label>)
    ensures Root in S
  {
    if ps == [] then {Root} else Language(ps[..|ps| - 1]) + Prefixes(Path(ps[|ps| - 1].patrn))
  }

  /** The language is exactly the distinct prefixes of the patterns. */
  lemma {:induction false} LanguageIsPrefixes(ps: seq<Pattern>, w: Word)
    ensures Path(w) in Language(ps) <==> w == [] || exists k :: 0 <= k < |ps| && w <= ps[k].patrn
  {
    if ps == [] {
      PathDepth(w);
    } else {
      var rest, p := ps[..|ps| - 1], ps[|ps| - 1];
      LanguageIsPrefixes(rest, w);
      PrefixesExact(p.patrn, w);
      assert forall k :: 0 <= k < |rest| ==> rest[k] == ps[k];
    }
  }

  lemma {:induction false} LanguageClosed(ps: seq<Pattern>)
    ensures PrefixClosed(Language(ps)) && Known(Language(ps), ps)
  {
    if ps != [] {
      var rest, p := ps[..|ps| - 1], ps[|ps| - 1];
      LanguageClosed(rest);
      forall w | w in Language(ps) && w.Child?
        ensures w.parent in Language(ps)
      {
        if w !in Language(rest) {
          PrefixesClosed(Path(p.patrn), w);
        }
      }
      assert Path(p.patrn) in Prefixes(Path(p.patrn));
      assert forall k :: 0 <= k < |rest| ==> rest[k] == ps[k];
    }
  }

  /** The number of states `acsmCompile` allocates: one and one per pattern byte. */
  function TableSize(ps: seq<Pattern>): (n: nat)
    ensures n >= 1
  {
    if ps == [] then 1 else TableSize(ps[..|ps| - 1]) + |ps[|ps| - 1].patrn|
  }

  lemma {:induction false} TableSizeMonotone(ps: seq<Pattern>, k: nat)
    requires k <= |ps|
    ensures TableSize(ps[..k]) <= TableSize(ps)
  {
    if k == |ps| {
      assert ps[..k] == ps;
    } else {
      assert ps[..|ps| - 1][..k] == ps[..k];
      TableSizeMonotone(ps[..|ps| - 1], k);
    }
  }

  // ---------- match lists ----------

  /** Pushing the entries of one list, first to last, on the front of another. */
  function PushAll<T>(src: seq<T>, dst: seq<T>): seq<T> {
    if src == [] then dst else PushAll(src[1..], [src[0]] + dst)
  }

  lemma {:induction false} PushAllContents<T>(src: seq<T>, dst: seq<T>)
    ensures multiset(PushAll(src, dst)) == multiset(src) + multiset(dst)
  {
    if src != [] {
      assert src == [src[0]] + src[1..];
      PushAllContents(src[1..], [src[0]] + dst);
    }
  }

  /** The patterns equal to `u`, the latest in front: what `AddPatternStates` leaves. */
  ghost function Own(ps: seq<Pattern>, u: Label): seq<Pattern> {
    if ps == [] then []
    else
      var rest, p := ps[..|ps| - 1], ps[|ps| - 1];
      (if Path(p.patrn) == u then [p] else []) + Own(rest, u)
  }

  lemma {:induction false} OwnOfUnknown(S: set<Label>, ps: seq<Pattern>, u: Label)
    requires Known(S, ps) && u !in S
    ensures Own(ps, u) == []
  {
    if ps != [] {
      OwnOfUnknown(S, ps[..|ps| - 1], u);
    }
  }

  /** The match list `Build_NFA` leaves at the state labelled `u`: its own patterns and,
      from depth 2 on, a copy of the list of its failure state. */
  ghost function MatchesOf(S: set<Label>, ps: seq<Pattern>, u: Label): seq<Pattern>
    requires Root in S
    decreases Depth(u)
  {
    if u.Root? || u.parent.Root? then Own(ps, u)
    else PushAll(MatchesOf(S, ps, Failure(S, u)), Own(ps, u))
  }

  /** The patterns that are suffixes of `u`, in the order of `ps`. */
  ghost function Suffixed(ps: seq<Pattern>, u: Label): seq<Pattern> {
    if ps == [] then []
    else
      var rest, p := ps[..|ps| - 1], ps[|ps| - 1];
      Suffixed(rest, u) + (if Suffix(Path(p.patrn), u) then [p] else [])
  }

  lemma {:induction false} SuffixedSplit(S: set<Label>, ps: seq<Pattern>, u: Label)
    requires Root in S && Known(S, ps) && u.Child?
    ensures multiset(Suffixed(ps, u)) == multiset(Suffixed(ps, Failure(S, u))) + multiset(Own(ps, u))
  {
    if ps != [] {
      var rest, p := ps[..|ps| - 1], ps[|ps| - 1];
      SuffixedSplit(S, rest, u);
      SuffixOfFailure(S, u, Path(p.patrn));
    }
  }

  lemma {:induction false} SuffixedRoot(ps: seq<Pattern>)
    requires NonEmpty(ps)
    ensures Suffixed(ps, Root) == [] && Own(ps, Root) == []
  {
    if ps != [] {
      SuffixedRoot(ps[..|ps| - 1]);
      PathDepth(ps[|ps| - 1].patrn);
    }
  }

  /** A state's match list holds exactly the patterns that are suffixes of its label, each once. */
  lemma {:induction false} MatchListExact(S: set<Label>, ps: seq<Pattern>, u: Label)
    requires Root in S && Known(S, ps) && NonEmpty(ps)
    ensures multiset(MatchesOf(S, ps, u)) == multiset(Suffixed(ps, u))
    decreases Depth(u)
  {
    SuffixedRoot(ps);
    if u.Child? {
      SuffixedSplit(S, ps, u);
      if u.parent.Child? {
        MatchListExact(S, ps, Failure(S, u));
        PushAllContents(MatchesOf(S, ps, Failure(S, u)), Own(ps, u));
      }
    }
  }

  /** Only the longest label inside the past decides which patterns end here. */
  lemma {:induction false} SuffixedOfLongest(S: set<Label>, ps: seq<Pattern>, w: Label)
    requires Root in S && Known(S, ps)
    ensures Suffixed(ps, w) == Suffixed(ps, Longest(S, w))
  {
    if ps != [] {
      var rest, p := ps[..|ps| - 1], ps[|ps| - 1];
      SuffixedOfLongest(S, rest, w);
      LongestIsMaximal(S, w, Path(p.patrn));
    }
  }

  // ---------- concatenated blocks ----------

  function Flatten<T>(blocks: seq<seq<T>>): seq<T> {
    if blocks == [] then [] else Flatten(blocks[..|blocks| - 1]) + blocks[|blocks| - 1]
  }

  lemma {:induction false} FlattenAppend<T>(x: seq<seq<T>>, y: seq<seq<T>>)
    ensures Flatten(x + y) == Flatten(x) + Flatten(y)
    decreases |y|
  {
    if y == [] {
      assert x + y == x;
    } else {
      var z, w := x + y, y[..|y| - 1];
      assert z[..|z| - 1] == x + w && z[|z| - 1] == y[|y| - 1];
      FlattenAppend(x, w);
    }
  }

  lemma {:induction false} FlattenPermuted<T>(x: seq<seq<T>>, y: seq<seq<T>>)
    requires |x| == |y| && forall k :: 0 <= k < |x| ==> multiset(x[k]) == multiset(y[k])
    ensures multiset(Flatten(x)) == multiset(Flatten(y))
    ensures |Flatten(x)| == |Flatten(y)|
  {
    if x != [] {
      var n := |x| - 1;
      FlattenPermuted(x[..n], y[..n]);
      assert |x[n]| == |multiset(x[n])| == |multiset(y[n])| == |y[n]|;
    }
  }

  // ---------- what a search reports ----------

  /** One call of the callback: the pattern and the index where the match starts. */
  datatype Hit = Hit(pat: Pattern, index: int)
  {
    function End(): int {
      index + |pat.patrn|
    }
  }

  /** The byte-exact comparison a case-sensitive entry must still pass at end position `e`. */
  predicate Confirmed(p: Pattern, t: Word, e: nat)
    requires e <= |t|
  {
    p.nocase || (|p.casepatrn| <= e && t[e - |p.casepatrn|..e] == p.casepatrn)
  }

  function Confirm(list: seq<Pattern>, t: Word, e: nat): seq<Hit>
    requires e <= |t|
  {
    if list == [] then []
    else (if Confirmed(list[0], t, e) then [Hit(list[0], e - |list[0].patrn|)] else []) + Confirm(list[1..], t, e)
  }

  lemma ConfirmStep(list: seq<Pattern>, t: Word, e: nat, later: seq<Hit>)
    requires list != [] && e <= |t|
    ensures var tail := Confirm(list[1..], t, e) + later;
            Confirm(list, t, e) + later
            == if Confirmed(list[0], t, e) then [Hit(list[0], e - |list[0].patrn|)] + tail else tail
  {
  }

  /** The label reached from label `u` on the first `e` bytes of `t`. */
  ghost function LabelAfter(S: set<Label>, u: Label, t: Word, e: nat): Label
    requires Root in S && e <= |t|
  {
    Longest(S, Extend(u, FoldWord(t[..e])))
  }

  /** One byte further: the transition the DFA holds. */
  lemma LabelAfterStep(S: set<Label>, u: Label, t: Word, e: nat)
    requires PrefixClosed(S) && e < |t|
    ensures LabelAfter(S, u, t, e + 1) == Longest(S, Child(LabelAfter(S, u, t, e), Fold(t[e])))
  {
    var w := FoldWord(t[..e + 1]);
    assert Init(w) == FoldWord(t[..e]) && Last(w) == Fold(t[e]);
    LongestExtend(S, Extend(u, FoldWord(t[..e])), Fold(t[e]));
  }

  /** The calls a search from label `u` makes for end position `e`, if never stopped. */
  ghost function HitsAt(S: set<Label>, ps: seq<Pattern>, u: Label, t: Word, e: nat): seq<Hit>
    requires Root in S && e <= |t|
  {
    Confirm(MatchesOf(S, ps, LabelAfter(S, u, t, e)), t, e)
  }

  /** The calls of a search from label `u`, grouped by end position 1 to |t|. */
  ghost function HitBlocks(S: set<Label>, ps: seq<Pattern>, u: Label, t: Word): (r: seq<seq<Hit>>)
    requires Root in S
    ensures |r| == |t|
  {
    seq(|t|, k requires 0 <= k < |t| => HitsAt(S, ps, u, t, k + 1))
  }

  /** The calls a search of the whole of `t` from label `u` makes, if never stopped. */
  ghost function Hits(S: set<Label>, ps: seq<Pattern>, u: Label, t: Word): seq<Hit>
    requires Root in S
  {
    Flatten(HitBlocks(S, ps, u, t))
  }

  /** The calls actually made when the callback may stop the search: `verdict` is its
      answer, which may depend on everything it was told, and a positive answer stops. */
  function Deliver(made: seq<Hit>, pending: seq<Hit>, verdict: seq<Hit> -> int): seq<Hit>
    decreases |pending|
  {
    if pending == [] then made
    else
      var m := made + [pending[0]];
      if verdict(m) > 0 then m else Deliver(m, pending[1..], verdict)
  }

  /** The end position where a search of `n` bytes that made these calls has stopped. */
  function StopAt(calls: seq<Hit>, verdict: seq<Hit> -> int, n: nat): int {
    if calls != [] && verdict(calls) > 0 then calls[|calls| - 1].End() else n
  }

  lemma DeliverStep(made: seq<Hit>, h: Hit, pending: seq<Hit>, verdict: seq<Hit> -> int)
    ensures Deliver(made, [h] + pending, verdict)
         == if verdict(made + [h]) > 0 then made + [h] else Deliver(made + [h], pending, verdict)
  {
    assert ([h] + pending)[1..] == pending;
  }

  /** One entry of a match list: `calls` and `stopped` are what reporting it makes of `made`. */
  lemma ReportStep(list: seq<Pattern>, t: Word, e: nat, later: seq<Hit>, made: seq<Hit>, verdict: seq<Hit> -> int,
                   calls: seq<Hit>, stopped: bool)
    requires list != [] && e <= |t|
    requires calls == if Confirmed(list[0], t, e) then made + [Hit(list[0], e - |list[0].patrn|)] else made
    requires stopped == (Confirmed(list[0], t, e) && verdict(calls) > 0)
    ensures Deliver(made, Confirm(list, t, e) + later, verdict)
         == if stopped then calls else Deliver(calls, Confirm(list[1..], t, e) + later, verdict)
  {
    ConfirmStep(list, t, e, later);
    DeliverStep(made, Hit(list[0], e - |list[0].patrn|), Confirm(list[1..], t, e) + later, verdict);
  }

  lemma FlattenFirst<T>(blocks: seq<seq<T>>)
    requires blocks != []
    ensures Flatten(blocks) == blocks[0] + Flatten(blocks[1..])
  {
    assert blocks == [blocks[0]] + blocks[1..];
    FlattenAppend([blocks[0]], blocks[1..]);
    assert Flatten([blocks[0]]) == [] + blocks[0];
  }

  lemma {:induction false} DeliverAll(made: seq<Hit>, pending: seq<Hit>, verdict: seq<Hit> -> int)
    requires forall h :: verdict(h) <= 0
    ensures Deliver(made, pending, verdict) == made + pending
    decreases |pending|
  {
    if pending != [] {
      DeliverAll(made + [pending[0]], pending[1..], verdict);
      assert made + pending == (made + [pending[0]]) + pending[1..];
    }
  }

  /** The list holds patterns of `ps` of at most `n` bytes. */
  predicate Fits(list: seq<Pattern>, ps: seq<Pattern>, n: nat) {
    forall k :: 0 <= k < |list| ==> list[k] in ps && |list[k].patrn| <= n
  }

  lemma {:induction false} OwnFits(ps: seq<Pattern>, u: Label)
    ensures Fits(Own(ps, u), ps, Depth(u))
  {
    if ps != [] {
      OwnFits(ps[..|ps| - 1], u);
      PathDepth(ps[|ps| - 1].patrn);
    }
  }

  lemma {:induction false} PushAllFits(a: seq<Pattern>, b: seq<Pattern>, ps: seq<Pattern>, n: nat)
    requires Fits(a, ps, n) && Fits(b, ps, n)
    ensures Fits(PushAll(a, b), ps, n)
  {
    if a != [] {
      PushAllFits(a[1..], [a[0]] + b, ps, n);
    }
  }

  /** A state's list holds only patterns, none longer than the state's label. */
  lemma {:induction false} MatchesFit(S: set<Label>, ps: seq<Pattern>, u: Label)
    requires Root in S
    ensures Fits(MatchesOf(S, ps, u), ps, Depth(u))
    decreases Depth(u)
  {
    OwnFits(ps, u);
    if u.Child? && u.parent.Child? {
      MatchesFit(S, ps, Failure(S, u));
      PushAllFits(MatchesOf(S, ps, Failure(S, u)), Own(ps, u), ps, Depth(u));
    }
  }

  // ---------- the naive specification ----------

  /** A byte of a pattern stands for a byte of the text: the same one, or the same letter for a
      `nocase` pattern. */
  predicate StandsFor(nocase: bool, a: Byte, b: Byte) {
    if nocase then SameLetter(a, b) else a == b
  }

  /** Pattern `p` occurs in `t` with its last byte just before position `e`. */
  predicate Occurs(p: Pattern, t: Word, e: nat)
    requires e <= |t|
  {
    && |p.casepatrn| <= e
    && forall i :: 0 <= i < |p.casepatrn| ==> StandsFor(p.nocase, p.casepatrn[i], t[e - |p.casepatrn| + i])
  }

  /** The same in terms of folded words. */
  lemma OccursFolded(p: Pattern, t: Word, e: nat)
    requires |p.casepatrn| <= e <= |t|
    ensures var found := t[e - |p.casepatrn|..e];
            Occurs(p, t, e) <==>
              if p.nocase then FoldWord(found) == FoldWord(p.casepatrn) else found == p.casepatrn
  {
    var found := t[e - |p.casepatrn|..e];
    WordsFoldAlike(p.casepatrn, found);
    assert forall i :: 0 <= i < |p.casepatrn| ==> found[i] == t[e - |p.casepatrn| + i];
    if p.nocase && FoldWord(found) == FoldWord(p.casepatrn) {
      forall i | 0 <= i < |p.casepatrn| ensures StandsFor(p.nocase, p.casepatrn[i], t[e - |p.casepatrn| + i]) {
        assert SameLetter(p.casepatrn[i], found[i]);
      }
    }
  }

  function OccurrencesAt(ps: seq<Pattern>, t: Word, e: nat): seq<Hit>
    requires e <= |t|
  {
    if ps == [] then []
    else
      var rest, p := ps[..|ps| - 1], ps[|ps| - 1];
      OccurrencesAt(rest, t, e) + (if Occurs(p, t, e) then [Hit(p, e - |p.casepatrn|)] else [])
  }

  function OccurrenceBlocks(ps: seq<Pattern>, t: Word): (r: seq<seq<Hit>>)
    ensures |r| == |t|
  {
    seq(|t|, k requires 0 <= k < |t| => OccurrencesAt(ps, t, k + 1))
  }

  /** The occurrences that end behind the start of `t`. */
  function LaterOccurrences(ps: seq<Pattern>, t: Word): seq<Hit> {
    Flatten(OccurrenceBlocks(ps, t))
  }

  /** Every occurrence of every pattern in `t`, by end position; only an empty pattern occurs
      at the start. */
  function Occurrences(ps: seq<Pattern>, t: Word): seq<Hit> {
    OccurrencesAt(ps, t, 0) + LaterOccurrences(ps, t)
  }

  /** Something occurs at the start exactly if some pattern is empty. */
  lemma {:induction false} NoneAtTheStart(ps: seq<Pattern>, t: Word)
    requires ValidPatterns(ps)
    ensures NonEmpty(ps) <==> OccurrencesAt(ps, t, 0) == []
  {
    if ps != [] {
      var rest, p := ps[..|ps| - 1], ps[|ps| - 1];
      NoneAtTheStart(rest, t);
      assert p.Valid() && |p.patrn| == |p.casepatrn|;
      assert p.patrn == [] ==> Occurs(p, t, 0);
      assert NonEmpty(ps) <==> NonEmpty(rest) && p.patrn != [];
    }
  }

  lemma FoldSlice(t: Word, i: nat, j: nat)
    requires i <= j <= |t|
    ensures FoldWord(t[i..j]) == FoldWord(t)[i..j]
  {
  }

  lemma {:induction false} ConfirmAppend(a: seq<Pattern>, b: seq<Pattern>, t: Word, e: nat)
    requires e <= |t|
    ensures Confirm(a + b, t, e) == Confirm(a, t, e) + Confirm(b, t, e)
  {
    if a == [] {
      assert a + b == b;
    } else {
      assert (a + b)[1..] == a[1..] + b;
      ConfirmAppend(a[1..], b, t, e);
    }
  }

  /** Confirming two lists with the same entries reports the same hits. */
  lemma {:induction false} ConfirmPermuted(a: seq<Pattern>, b: seq<Pattern>, t: Word, e: nat)
    requires e <= |t| && multiset(a) == multiset(b)
    ensures multiset(Confirm(a, t, e)) == multiset(Confirm(b, t, e))
    decreases |a|
  {
    if a == [] {
      assert |multiset(b)| == |b|;
    } else {
      assert a[0] in multiset(b);
      var k :| 0 <= k < |b| && b[k] == a[0];
      var rest := b[..k] + b[k + 1..];
      WithoutEntry(a, b, k);
      ConfirmPermuted(a[1..], rest, t, e);
      ConfirmFirst(a, t, e);
      ConfirmAround(b, k, t, e);
    }
  }

  lemma WithoutEntry(a: seq<Pattern>, b: seq<Pattern>, k: nat)
    requires a != [] && k < |b| && b[k] == a[0] && multiset(a) == multiset(b)
    ensures multiset(a[1..]) == multiset(b[..k] + b[k + 1..])
  {
    assert a == [a[0]] + a[1..];
    var rest := b[..k] + b[k + 1..];
    assert b == b[..k] + ([b[k]] + b[k + 1..]);
    assert multiset(b) == multiset(b[..k]) + multiset([b[k]] + b[k + 1..]) == multiset(rest) + multiset{b[k]};
    assert multiset(a) == multiset{a[0]} + multiset(a[1..]);
    assert multiset(a[1..]) == multiset(a) - multiset{a[0]};
  }

  lemma ConfirmFirst(a: seq<Pattern>, t: Word, e: nat)
    requires a != [] && e <= |t|
    ensures multiset(Confirm(a, t, e)) == multiset(Confirm([a[0]], t, e)) + multiset(Confirm(a[1..], t, e))
  {
    assert a == [a[0]] + a[1..];
    ConfirmAppend([a[0]], a[1..], t, e);
  }

  lemma ConfirmAround(b: seq<Pattern>, k: nat, t: Word, e: nat)
    requires k < |b| && e <= |t|
    ensures multiset(Confirm(b, t, e)) == multiset(Confirm([b[k]], t, e)) + multiset(Confirm(b[..k] + b[k + 1..], t, e))
  {
    assert b == b[..k] + ([b[k]] + b[k + 1..]);
    ConfirmAppend(b[..k], [b[k]] + b[k + 1..], t, e);
    ConfirmAppend([b[k]], b[k + 1..], t, e);
    ConfirmAppend(b[..k], b[k + 1..], t, e);
  }

  /** A pattern occurs exactly if its folded copy ends the folded past and the confirmation passes. */
  lemma OccursWhenConfirmed(p: Pattern, t: Word, e: nat)
    requires p.Valid() && e <= |t|
    ensures Occurs(p, t, e) <==> Suffix(Path(p.patrn), Path(FoldWord(t[..e]))) && Confirmed(p, t, e)
  {
    SuffixOfPaths(p.patrn, FoldWord(t[..e]));
    if |p.patrn| <= e {
      FoldSlice(t[..e], e - |p.patrn|, e);
      assert t[..e][e - |p.patrn|..e] == t[e - |p.patrn|..e];
      OccursFolded(p, t, e);
    }
  }

  /** Confirming the patterns that are suffixes of the folded past finds the occurrences. */
  lemma {:induction false} ConfirmSuffixed(ps: seq<Pattern>, t: Word, e: nat, past: Label)
    requires ValidPatterns(ps) && e <= |t| && past == Path(FoldWord(t[..e]))
    ensures Confirm(Suffixed(ps, past), t, e) == OccurrencesAt(ps, t, e)
  {
    if ps != [] {
      var rest, p := ps[..|ps| - 1], ps[|ps| - 1];
      ConfirmSuffixed(rest, t, e, past);
      ConfirmAppend(Suffixed(rest, past), if Suffix(Path(p.patrn), past) then [p] else [], t, e);
      OccursWhenConfirmed(p, t, e);
    }
  }

  lemma ReportedAt(S: set<Label>, ps: seq<Pattern>, t: Word, e: nat)
    requires PrefixClosed(S) && Known(S, ps) && ValidPatterns(ps) && NonEmpty(ps) && e <= |t|
    ensures multiset(HitsAt(S, ps, Root, t, e)) == multiset(OccurrencesAt(ps, t, e))
  {
    var w := Path(FoldWord(t[..e]));
    var u := Longest(S, w);
    MatchListExact(S, ps, u);
    SuffixedOfLongest(S, ps, w);
    ConfirmPermuted(MatchesOf(S, ps, u), Suffixed(ps, w), t, e);
    ConfirmSuffixed(ps, t, e, w);
  }

  lemma {:induction false} ConfirmEnds(list: seq<Pattern>, t: Word, e: nat)
    requires e <= |t|
    ensures EndAt(Confirm(list, t, e), e)
  {
    if list != [] {
      ConfirmEnds(list[1..], t, e);
    }
  }

  /** Hits in increasing order of end position, from 1 to `e`. */
  predicate InOrder(hits: seq<Hit>, e: nat) {
    && (forall k :: 0 <= k < |hits| ==> 1 <= hits[k].End() <= e)
    && (forall j, k :: 0 <= j < k < |hits| ==> hits[j].End() <= hits[k].End())
  }

  predicate EndAt(hits: seq<Hit>, e: int) {
    forall k :: 0 <= k < |hits| ==> hits[k].End() == e
  }

  lemma {:induction false} FlattenInOrder(blocks: seq<seq<Hit>>)
    requires forall e :: 0 <= e < |blocks| ==> EndAt(blocks[e], e + 1)
    ensures InOrder(Flatten(blocks), |blocks|)
  {
    if blocks != [] {
      FlattenInOrder(blocks[..|blocks| - 1]);
      assert EndAt(blocks[|blocks| - 1], |blocks|);
    }
  }

  /** A search reports its hits in increasing order of end position. */
  lemma HitsInOrder(S: set<Label>, ps: seq<Pattern>, u: Label, t: Word)
    requires Root in S
    ensures InOrder(Hits(S, ps, u, t), |t|)
  {
    forall k | 0 <= k < |t|
      ensures EndAt(HitBlocks(S, ps, u, t)[k], k + 1)
    {
      ConfirmEnds(MatchesOf(S, ps, LabelAfter(S, u, t, k + 1)), t, k + 1);
    }
    FlattenInOrder(HitBlocks(S, ps, u, t));
  }

  /** The calls for one end position are the occurrences that end there. */
  ghost predicate Exact(S: set<Label>, ps: seq<Pattern>, u: Label, t: Word, e: nat)
    requires Root in S && e <= |t|
  {
    multiset(HitsAt(S, ps, u, t, e)) == multiset(OccurrencesAt(ps, t, e))
  }

  lemma ExactEverywhere(S: set<Label>, ps: seq<Pattern>, u: Label, t: Word)
    requires Root in S && forall e :: 0 < e <= |t| ==> Exact(S, ps, u, t, e)
    ensures multiset(Hits(S, ps, u, t)) == multiset(LaterOccurrences(ps, t))
    ensures |Hits(S, ps, u, t)| == |LaterOccurrences(ps, t)|
  {
    forall k | 0 <= k < |t|
      ensures multiset(HitBlocks(S, ps, u, t)[k]) == multiset(OccurrenceBlocks(ps, t)[k])
    {
      ExactBlock(S, ps, u, t, k);
    }
    FlattenPermuted(HitBlocks(S, ps, u, t), OccurrenceBlocks(ps, t));
  }

  lemma ExactBlock(S: set<Label>, ps: seq<Pattern>, u: Label, t: Word, k: nat)
    requires Root in S && k < |t| && Exact(S, ps, u, t, k + 1)
    ensures multiset(HitBlocks(S, ps, u, t)[k]) == multiset(OccurrenceBlocks(ps, t)[k])
  {
  }

  /** The main theorem about a search from state 0: it reports every occurrence of every
      pattern once and nothing else, and their number is the number of occurrences. */
  lemma SearchFindsOccurrences(S: set<Label>, ps: seq<Pattern>, t: Word)
    requires PrefixClosed(S) && Known(S, ps) && ValidPatterns(ps) && NonEmpty(ps)
    ensures multiset(Hits(S, ps, Root, t)) == multiset(Occurrences(ps, t))
    ensures |Hits(S, ps, Root, t)| == |Occurrences(ps, t)|
  {
    forall e | 0 < e <= |t|
      ensures Exact(S, ps, Root, t, e)
    {
      ReportedAt(S, ps, t, e);
    }
    ExactEverywhere(S, ps, Root, t);
    NoneAtTheStart(ps, t);
    assert [] + LaterOccurrences(ps, t) == LaterOccurrences(ps, t);
  }

  // ---------- streaming ----------

  function Shift(hits: seq<Hit>, d: int): seq<Hit> {
    seq(|hits|, i requires 0 <= i < |hits| => Hit(hits[i].pat, hits[i].index + d))
  }

  function ShiftBlocks(blocks: seq<seq<Hit>>, d: int): seq<seq<Hit>> {
    seq(|blocks|, i requires 0 <= i < |blocks| => Shift(blocks[i], d))
  }

  predicate NocaseList(list: seq<Pattern>) {
    forall k :: 0 <= k < |list| ==> list[k].nocase
  }

  lemma {:induction false} ConfirmShift(list: seq<Pattern>, t: Word, e: nat, t': Word, e': nat)
    requires NocaseList(list) && e <= |t| && e' <= |t'|
    ensures Confirm(list, t', e') == Shift(Confirm(list, t, e), e' - e)
  {
    if list != [] {
      ConfirmShift(list[1..], t, e, t', e');
      ShiftFirst(Hit(list[0], e - |list[0].patrn|), Confirm(list[1..], t, e), e' - e);
    }
  }

  lemma ShiftFirst(h: Hit, hits: seq<Hit>, d: int)
    ensures Shift([h] + hits, d) == [Hit(h.pat, h.index + d)] + Shift(hits, d)
  {
  }

  lemma MatchesNocase(S: set<Label>, ps: seq<Pattern>, u: Label)
    requires Root in S && AllNocase(ps)
    ensures NocaseList(MatchesOf(S, ps, u))
  {
    MatchesFit(S, ps, u);
  }

  /** The state after `a` and then `b` is the state after `a + b`. */
  lemma LabelAfterAppend(S: set<Label>, u: Label, a: Word, b: Word, e: nat)
    requires PrefixClosed(S) && e <= |b|
    ensures LabelAfter(S, u, a + b, |a| + e) == LabelAfter(S, LabelAfter(S, u, a, |a|), b, e)
  {
    assert (a + b)[..|a| + e] == a + b[..e] && a[..|a|] == a;
    assert FoldWord(a + b[..e]) == FoldWord(a) + FoldWord(b[..e]);
    ExtendAppend(u, FoldWord(a), FoldWord(b[..e]));
    LongestAppend(S, Extend(u, FoldWord(a)), FoldWord(b[..e]));
  }

  lemma HitsAtAppend(S: set<Label>, ps: seq<Pattern>, u: Label, a: Word, b: Word, e: nat)
    requires PrefixClosed(S) && AllNocase(ps) && e <= |b|
    ensures HitsAt(S, ps, u, a + b, |a| + e) == Shift(HitsAt(S, ps, LabelAfter(S, u, a, |a|), b, e), |a|)
  {
    LabelAfterAppend(S, u, a, b, e);
    var x := LabelAfter(S, u, a + b, |a| + e);
    MatchesNocase(S, ps, x);
    ConfirmShift(MatchesOf(S, ps, x), b, e, a + b, |a| + e);
  }

  lemma HitsAtPrefix(S: set<Label>, ps: seq<Pattern>, u: Label, a: Word, b: Word, e: nat)
    requires PrefixClosed(S) && AllNocase(ps) && e <= |a|
    ensures HitsAt(S, ps, u, a + b, e) == HitsAt(S, ps, u, a, e)
  {
    assert (a + b)[..e] == a[..e];
    var x := LabelAfter(S, u, a, e);
    MatchesNocase(S, ps, x);
    ConfirmShift(MatchesOf(S, ps, x), a, e, a + b, e);
  }

  lemma {:induction false} FlattenShift(blocks: seq<seq<Hit>>, d: int)
    ensures Flatten(ShiftBlocks(blocks, d)) == Shift(Flatten(blocks), d)
  {
    if blocks != [] {
      var rest := blocks[..|blocks| - 1];
      assert ShiftBlocks(blocks, d) == ShiftBlocks(rest, d) + [Shift(blocks[|blocks| - 1], d)];
      FlattenShift(rest, d);
    }
  }

  lemma BlocksAppend(S: set<Label>, ps: seq<Pattern>, u: Label, a: Word, b: Word)
    requires PrefixClosed(S) && AllNocase(ps)
    ensures HitBlocks(S, ps, u, a + b)
         == HitBlocks(S, ps, u, a) + ShiftBlocks(HitBlocks(S, ps, LabelAfter(S, u, a, |a|), b), |a|)
  {
    var v := LabelAfter(S, u, a, |a|);
    var whole, head := HitBlocks(S, ps, u, a + b), HitBlocks(S, ps, u, a);
    var tail := ShiftBlocks(HitBlocks(S, ps, v, b), |a|);
    forall k | 0 <= k < |a + b|
      ensures whole[k] == (head + tail)[k]
    {
      if k < |a| {
        HitsAtPrefix(S, ps, u, a, b, k + 1);
      } else {
        HitsAtAppend(S, ps, u, a, b, k - |a| + 1);
      }
    }
  }

  lemma FlattenShifted(z: seq<seq<Hit>>, x: seq<seq<Hit>>, y: seq<seq<Hit>>, d: int)
    requires z == x + ShiftBlocks(y, d)
    ensures Flatten(z) == Flatten(x) + Shift(Flatten(y), d)
  {
    FlattenAppend(x, ShiftBlocks(y, d));
    FlattenShift(y, d);
  }

  /** Scanning `a` and then `b` from the state reached makes the calls of one scan of
      `a + b`, the second batch with its indices shifted by |a|; `LabelAfterAppend` says
      that it ends in the same state. */
  lemma StreamingHits(S: set<Label>, ps: seq<Pattern>, u: Label, v: Label, a: Word, b: Word)
    requires PrefixClosed(S) && AllNocase(ps) && v == LabelAfter(S, u, a, |a|)
    ensures Hits(S, ps, u, a + b) == Hits(S, ps, u, a) + Shift(Hits(S, ps, v, b), |a|)
  {
    BlocksAppend(S, ps, u, a, b);
    FlattenShifted(HitBlocks(S, ps, u, a + b), HitBlocks(S, ps, u, a), HitBlocks(S, ps, v, b), |a|);
  }
}
