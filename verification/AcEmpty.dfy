/** The engine and empty patterns.  `acsmAddPattern` accepts an empty pattern, but
    `Build_NFA` never copies the list of state 0 to the states at depth 1, so the occurrences
    of an empty pattern are reported only in part, and none is at the start of a text.  This
    module says exactly when a search reports every occurrence, and when it reports every one
    behind the start. */
module AcEmpty {
  import opened Bytes
  import opened AcTheory
  import opened AcSpec

  predicate AllEmpty(ps: seq<Pattern>) {
    forall k :: 0 <= k < |ps| ==> ps[k].patrn == []
  }

  /** Every search from state 0 reports every occurrence once and nothing else. */
  ghost predicate AlwaysComplete(ps: seq<Pattern>) {
    forall t: Word :: multiset(Hits(Language(ps), ps, Root, t)) == multiset(Occurrences(ps, t))
  }

  /** The same of the occurrences at end positions 1 to |t|. */
  ghost predicate LaterComplete(ps: seq<Pattern>) {
    forall t: Word :: multiset(Hits(Language(ps), ps, Root, t)) == multiset(LaterOccurrences(ps, t))
  }

  // ---------- only empty patterns ----------

  lemma {:induction false} LanguageOfEmpty(ps: seq<Pattern>)
    requires AllEmpty(ps)
    ensures Language(ps) == {Root}
  {
    if ps != [] {
      LanguageOfEmpty(ps[..|ps| - 1]);
      assert Path(ps[|ps| - 1].patrn) == Root;
    }
  }

  lemma {:induction false} OwnOfEmpty(ps: seq<Pattern>)
    requires AllEmpty(ps)
    ensures multiset(Own(ps, Root)) == multiset(ps)
  {
    if ps != [] {
      var rest, p := ps[..|ps| - 1], ps[|ps| - 1];
      OwnOfEmpty(rest);
      assert Path(p.patrn) == Root;
      assert ps == rest + [p];
    }
  }

  /** An empty pattern occurs everywhere and passes every comparison. */
  lemma {:induction false} EmptyOccursEverywhere(ps: seq<Pattern>, t: Word, e: nat)
    requires AllEmpty(ps) && ValidPatterns(ps) && e <= |t|
    ensures Confirm(ps, t, e) == OccurrencesAt(ps, t, e)
  {
    if ps != [] {
      var rest, p := ps[..|ps| - 1], ps[|ps| - 1];
      EmptyOccursEverywhere(rest, t, e);
      assert p.Valid() && p.casepatrn == [];
      assert ps == rest + [p];
      ConfirmAppend(rest, [p], t, e);
    }
  }

  lemma EmptyReportedAt(ps: seq<Pattern>, t: Word, e: nat)
    requires AllEmpty(ps) && ValidPatterns(ps) && e <= |t|
    ensures Exact(Language(ps), ps, Root, t, e)
  {
    LanguageOfEmpty(ps);
    assert LabelAfter(Language(ps), Root, t, e) in Language(ps);
    OwnOfEmpty(ps);
    ConfirmPermuted(Own(ps, Root), ps, t, e);
    EmptyOccursEverywhere(ps, t, e);
  }

  lemma OnlyEmptyComplete(ps: seq<Pattern>, t: Word)
    requires AllEmpty(ps) && ValidPatterns(ps)
    ensures multiset(Hits(Language(ps), ps, Root, t)) == multiset(LaterOccurrences(ps, t))
  {
    forall e | 0 < e <= |t|
      ensures Exact(Language(ps), ps, Root, t, e)
    {
      EmptyReportedAt(ps, t, e);
    }
    ExactEverywhere(Language(ps), ps, Root, t);
  }

  // ---------- an empty pattern beside a non-empty one ----------

  /** At a depth-1 state every empty pattern goes unreported. */
  lemma {:induction false} EmptyPatternMissed(ps: seq<Pattern>, t: Word, c: Byte)
    requires ValidPatterns(ps) && |t| == 1 && Fold(t[0]) == c
    ensures |Confirm(Own(ps, Child(Root, c)), t, 1)| <= |OccurrencesAt(ps, t, 1)|
    ensures !NonEmpty(ps) ==> |Confirm(Own(ps, Child(Root, c)), t, 1)| < |OccurrencesAt(ps, t, 1)|
  {
    if ps != [] {
      var rest, p := ps[..|ps| - 1], ps[|ps| - 1];
      var u := Child(Root, c);
      EmptyPatternMissed(rest, t, c);
      ConfirmAppend(if Path(p.patrn) == u then [p] else [], Own(rest, u), t, 1);
      OwnEntryOccurs(p, t, c);
    }
  }

  lemma OwnEntryOccurs(p: Pattern, t: Word, c: Byte)
    requires p.Valid() && |t| == 1 && Fold(t[0]) == c
    ensures Path(p.patrn) == Child(Root, c) && Confirmed(p, t, 1) ==> Occurs(p, t, 1)
    ensures p.patrn == [] ==> Path(p.patrn) != Child(Root, c) && Occurs(p, t, 1)
  {
    if Path(p.patrn) == Child(Root, c) {
      PathOfByte(c);
      PathInjective(p.patrn, [c]);
      assert FoldWord(t[0..1]) == [c];
      OccursFolded(p, t, 1);
    }
    if p.patrn == [] {
      assert p.casepatrn == [] && t[1..1] == [];
    }
  }

  lemma MixedIncomplete(ps: seq<Pattern>, k: nat)
    requires ValidPatterns(ps) && !NonEmpty(ps) && k < |ps| && ps[k].patrn != []
    ensures !LaterComplete(ps)
  {
    var t := [ps[k].casepatrn[0]];
    var S, c := Language(ps), Fold(t[0]);
    assert ps[k].Valid();
    assert FoldWord(t[..1]) == [c];
    PathOfByte(c);
    assert [c] <= ps[k].patrn;
    LanguageIsPrefixes(ps, [c]);
    LanguageClosed(ps);
    assert LabelAfter(S, Root, t, 1) == Child(Root, c);
    EmptyPatternMissed(ps, t, c);
    var x, y := HitBlocks(S, ps, Root, t), OccurrenceBlocks(ps, t);
    assert x[..0] == [] && y[..0] == [];
    assert Flatten(x) == x[0] && Flatten(y) == y[0];
    var hits, found := Hits(S, ps, Root, t), LaterOccurrences(ps, t);
    assert |hits| != |found|;
    assert |multiset(hits)| == |hits| && |multiset(found)| == |found|;
  }

  /** A search from state 0 reports all occurrences behind the start, for every text, exactly
      when the patterns are all non-empty or all empty. */
  lemma LaterCompleteExactlyWhen(ps: seq<Pattern>)
    requires ValidPatterns(ps)
    ensures LaterComplete(ps) <==> NonEmpty(ps) || AllEmpty(ps)
  {
    if NonEmpty(ps) {
      forall t: Word
        ensures multiset(Hits(Language(ps), ps, Root, t)) == multiset(LaterOccurrences(ps, t))
      {
        NonEmptyComplete(ps, t);
      }
    } else if AllEmpty(ps) {
      forall t: Word
        ensures multiset(Hits(Language(ps), ps, Root, t)) == multiset(LaterOccurrences(ps, t))
      {
        OnlyEmptyComplete(ps, t);
      }
    } else {
      var k :| 0 <= k < |ps| && ps[k].patrn != [];
      MixedIncomplete(ps, k);
    }
  }

  lemma NonEmptyComplete(ps: seq<Pattern>, t: Word)
    requires ValidPatterns(ps) && NonEmpty(ps)
    ensures multiset(Hits(Language(ps), ps, Root, t)) == multiset(LaterOccurrences(ps, t))
    ensures Occurrences(ps, t) == LaterOccurrences(ps, t)
  {
    LanguageClosed(ps);
    SearchFindsOccurrences(Language(ps), ps, t);
    NoneAtTheStart(ps, t);
    assert [] + LaterOccurrences(ps, t) == LaterOccurrences(ps, t);
  }

  /** A search from state 0 reports all occurrences, for every text, exactly when no pattern is
      empty: an empty one occurs in the empty text, where no call is made. */
  lemma CompleteExactlyWhen(ps: seq<Pattern>)
    requires ValidPatterns(ps)
    ensures AlwaysComplete(ps) <==> NonEmpty(ps)
  {
    if NonEmpty(ps) {
      forall t: Word
        ensures multiset(Hits(Language(ps), ps, Root, t)) == multiset(Occurrences(ps, t))
      {
        NonEmptyComplete(ps, t);
      }
    } else {
      var t: Word, S := [], Language(ps);
      NoneAtTheStart(ps, t);
      var hits, found := Hits(S, ps, Root, t), Occurrences(ps, t);
      assert HitBlocks(S, ps, Root, t) == [];
      assert |multiset(hits)| == |hits| == 0 < |found| == |multiset(found)|;
    }
  }
}
