/** The language theory behind the Aho-Corasick tables.

    A state of the automaton stands for a word, its label: the bytes on the path from
    state 0 in the trie.  Every table in `Acsm` is specified through the labels, and this
    module proves what those specifications mean without any table. */
module AcTheory {
  import opened Bytes

  /** A path from state 0: a word, built by appending bytes. */
  datatype Label = Root | Child(parent: Label, byte: Byte)

  ghost function Depth(w: Label): nat {
    if w.Root? then 0 else Depth(w.parent) + 1
  }

  /** The label `u` followed by the bytes of `w`. */
  ghost function Extend(u: Label, w: Word): Label {
    if w == [] then u else Child(Extend(u, Init(w)), Last(w))
  }

  ghost function Path(w: Word): Label {
    Extend(Root, w)
  }

  lemma {:induction false} ExtendAppend(u: Label, x: Word, y: Word)
    ensures Extend(u, x + y) == Extend(Extend(u, x), y)
    decreases |y|
  {
    if y == [] {
      assert x + y == x;
    } else {
      assert Init(x + y) == x + Init(y);
      ExtendAppend(u, x, Init(y));
    }
  }

  /** The word without its first byte. */
  ghost function Tail(w: Label): (r: Label)
    requires w.Child?
    ensures Depth(r) == Depth(w) - 1
  {
    if w.parent.Root? then Root else Child(Tail(w.parent), w.byte)
  }

  ghost predicate Suffix(x: Label, w: Label)
    decreases Depth(w)
  {
    x == w || (w.Child? && Suffix(x, Tail(w)))
  }

  lemma {:induction false} SuffixTransitive(x: Label, y: Label, w: Label)
    requires Suffix(x, y) && Suffix(y, w)
    ensures Suffix(x, w)
    decreases Depth(w)
  {
    if y != w {
      SuffixTransitive(x, y, Tail(w));
    }
  }

  lemma {:induction false} SuffixDepth(x: Label, w: Label)
    requires Suffix(x, w)
    ensures Depth(x) <= Depth(w)
    decreases Depth(w)
  {
    if x != w {
      SuffixDepth(x, Tail(w));
    }
  }

  lemma {:induction false} PathDepth(w: Word)
    ensures Depth(Path(w)) == |w|
  {
    if w != [] {
      PathDepth(Init(w));
    }
  }

  lemma PathOfByte(c: Byte)
    ensures Path([c]) == Child(Root, c)
  {
    var w: Word := [c];
    assert Init(w) == [] && Last(w) == c;
    assert Extend(Root, w) == Child(Extend(Root, Init(w)), Last(w));
  }

  lemma {:induction false} PathInjective(x: Word, y: Word)
    requires Path(x) == Path(y)
    ensures x == y
  {
    if x == [] || y == [] {
      PathDepth(x);
      PathDepth(y);
    } else {
      PathInjective(Init(x), Init(y));
      assert x == Init(x) + [Last(x)] && y == Init(y) + [Last(y)];
    }
  }

  lemma {:induction false} TailOfPath(w: Word)
    requires w != []
    ensures Tail(Path(w)) == Path(w[1..])
  {
    if |w| > 1 {
      TailOfPath(Init(w));
      assert Init(w[1..]) == Init(w)[1..];
    }
  }

  /** `Suffix` on labels is the suffix relation on the words they stand for. */
  lemma {:induction false} SuffixOfPaths(x: Word, w: Word)
    ensures Suffix(Path(x), Path(w)) <==> IsSuffix(x, w)
  {
    if |x| < |w| {
      TailOfPath(w);
      SuffixOfPaths(x, w[1..]);
      TailSuffix(x, w);
      PathDepth(x);
      PathDepth(w);
    } else {
      if Suffix(Path(x), Path(w)) {
        SuffixDepth(Path(x), Path(w));
        PathDepth(x);
        PathDepth(w);
        if Path(x) != Path(w) {
          SuffixDepth(Path(x), Tail(Path(w)));
        }
        PathInjective(x, w);
      }
    }
  }

  // ---------- longest suffixes inside a prefix-closed language ----------

  ghost predicate PrefixClosed(S: set<Label>) {
    && Root in S
    && forall w {:trigger w.parent} :: w in S && w.Child? ==> w.parent in S
  }

  /** The longest suffix of `w` that belongs to `S`. */
  ghost function Longest(S: set<Label>, w: Label): (r: Label)
    requires Root in S
    ensures r in S && Depth(r) <= Depth(w)
    decreases Depth(w)
  {
    if w in S then w else Longest(S, Tail(w))
  }

  /** `Longest` is what its name says: a suffix, of which every suffix in `S` is a suffix. */
  lemma {:induction false} LongestIsMaximal(S: set<Label>, w: Label, x: Label)
    requires Root in S && x in S
    ensures Suffix(Longest(S, w), w)
    ensures Suffix(x, w) <==> Suffix(x, Longest(S, w))
    decreases Depth(w)
  {
    if w !in S {
      LongestIsMaximal(S, Tail(w), x);
      if Suffix(x, Longest(S, w)) {
        SuffixTransitive(x, Longest(S, w), w);
      }
    }
  }

  /** What a scanner may forget: only the longest known suffix of the past matters. */
  lemma {:induction false} LongestExtend(S: set<Label>, w: Label, c: Byte)
    requires PrefixClosed(S)
    ensures Longest(S, Child(w, c)) == Longest(S, Child(Longest(S, w), c))
    decreases Depth(w)
  {
    if w !in S {
      assert Child(w, c).parent == w;
      LongestExtend(S, Tail(w), c);
    }
  }

  lemma {:induction false} LongestAppend(S: set<Label>, u: Label, t: Word)
    requires PrefixClosed(S)
    ensures Longest(S, Extend(u, t)) == Longest(S, Extend(Longest(S, u), t))
  {
    if t != [] {
      LongestAppend(S, u, Init(t));
      LongestExtend(S, Extend(u, Init(t)), Last(t));
      LongestExtend(S, Extend(Longest(S, u), Init(t)), Last(t));
    }
  }

  /** The failure function: the longest proper suffix of `w` in `S`. */
  ghost function Failure(S: set<Label>, w: Label): (r: Label)
    requires Root in S && w.Child?
    ensures r in S && Depth(r) < Depth(w)
  {
    Longest(S, Tail(w))
  }

  /** A label is a suffix of `u` exactly if it is `u` or a suffix of `u`'s failure label. */
  lemma SuffixOfFailure(S: set<Label>, u: Label, x: Label)
    requires Root in S && u.Child? && x in S
    ensures Suffix(x, u) <==> x == u || Suffix(x, Failure(S, u))
    ensures Suffix(x, Failure(S, u)) ==> x != u
  {
    LongestIsMaximal(S, Tail(u), x);
    if Suffix(x, Failure(S, u)) {
      SuffixDepth(x, Failure(S, u));
    }
  }

  /** One move of the failure-link walk of `Build_NFA` keeps the target. */
  lemma FailureStep(S: set<Label>, u: Label, c: Byte)
    requires PrefixClosed(S) && u.Child? && Child(u, c) !in S
    ensures Longest(S, Child(u, c)) == Longest(S, Child(Failure(S, u), c))
  {
    LongestExtend(S, Tail(u), c);
  }

  /** The failure label of a child is the walk's target from the parent's failure label. */
  lemma FailureOfChild(S: set<Label>, r: Label, c: Byte)
    requires PrefixClosed(S) && r.Child?
    ensures Failure(S, Child(r, c)) == Longest(S, Child(Failure(S, r), c))
  {
    LongestExtend(S, Tail(r), c);
  }

  // ---------- breadth-first order ----------

  /** A moment of a breadth-first pass: the labels expanded so far, the label being
      expanded, the byte it has reached, and the worklist. */
  datatype Pass = Pass(done: set<Label>, r: Label, i: int, q: seq<Label>)

  /** One step of a pass: put the child for the next byte on the worklist if there is one;
      after the last byte, take the next label off the worklist. */
  ghost function Advance(S: set<Label>, b: Pass): Pass {
    if 0 <= b.i < 256 then
      Pass(b.done, b.r, b.i + 1, if Child(b.r, b.i) in S then b.q + [Child(b.r, b.i)] else b.q)
    else if b.q != [] then Pass(b.done + {b.r}, b.q[0], 0, b.q[1..])
    else b
  }

  /** The pass over `S` after `n` steps. */
  ghost function After(S: set<Label>, n: nat): Pass {
    if n == 0 then Pass({}, Root, 0, []) else Advance(S, After(S, n - 1))
  }

  /** The labels already reached when every label of `done` has been expanded, and `r` for
      the bytes below `i`. */
  ghost predicate Reached(done: set<Label>, r: Label, i: int, w: Label) {
    w.Child? && (w.parent in done || (w.parent == r && w.byte < i))
  }

  /** The worklist holds distinct labels not yet expanded, nearest to the root first. */
  ghost predicate QueueOf(S: set<Label>, done: set<Label>, q: seq<Label>) {
    && (forall k :: 0 <= k < |q| ==> q[k] in S && q[k].Child? && q[k] !in done)
    && (forall j, k :: 0 <= j < k < |q| ==> q[j] != q[k] && Depth(q[j]) <= Depth(q[k]))
  }

  /** What every moment of a pass keeps: the labels reached are those expanded, the current
      one and those on the worklist, and everything nearer to the root is expanded. */
  ghost predicate Orderly(S: set<Label>, b: Pass) {
    && QueueOf(S, b.done, b.q) && b.done <= S
    && 0 <= b.i <= 256
    && b.r in S && b.r !in b.done && b.r !in b.q
    && (b.r.Root? ==> b.done == {})
    && (b.r.Child? ==> b.r.parent in b.done)
    && (forall w :: w in S && w.Child? ==>
          (w in b.done || w == b.r || w in b.q <==> w == b.r || Reached(b.done, b.r, b.i, w)))
    && (forall k :: 0 <= k < |b.q| ==> Depth(b.r) <= Depth(b.q[k]) <= Depth(b.r) + 1)
    && (forall w :: w in S && Depth(w) < Depth(b.r) ==> w in b.done)
  }

  lemma QueueAppend(S: set<Label>, done: set<Label>, q: seq<Label>, s: Label)
    requires QueueOf(S, done, q)
    requires s in S && s.Child? && s !in done && s !in q
    requires forall k :: 0 <= k < |q| ==> Depth(q[k]) <= Depth(s)
    ensures QueueOf(S, done, q + [s])
  {
  }

  lemma ReachedNext(done: set<Label>, r: Label, i: Byte)
    ensures forall w :: Reached(done, r, i + 1, w) <==> Reached(done, r, i, w) || w == Child(r, i)
  {
    forall w: Label
      ensures Reached(done, r, i + 1, w) <==> Reached(done, r, i, w) || w == Child(r, i)
    {
      assert w.Child? ==> w == Child(w.parent, w.byte);
    }
  }

  lemma ReachedTake(done: set<Label>, r: Label, r': Label)
    ensures forall w :: Reached(done + {r}, r', 0, w) <==> Reached(done, r, 256, w)
  {
  }

  lemma OrderlyVisit(S: set<Label>, b: Pass)
    requires Orderly(S, b) && b.i < 256
    ensures Orderly(S, Advance(S, b))
    ensures Child(b.r, b.i) in S ==> Child(b.r, b.i) !in b.q
  {
    var s := Child(b.r, b.i);
    ReachedNext(b.done, b.r, b.i);
    if s in S {
      assert Depth(s) == Depth(b.r) + 1;
      assert s !in b.q && s !in b.done by {
        assert !Reached(b.done, b.r, b.i, s);
      }
      QueueAppend(S, b.done, b.q, s);
      assert forall w :: w in b.q + [s] <==> w in b.q || w == s;
    }
  }

  lemma NearerLabelsExpanded(S: set<Label>, b: Pass)
    requires PrefixClosed(S) && Orderly(S, b) && b.i == 256 && b.q != []
    ensures forall w :: w in S && Depth(w) < Depth(b.q[0]) ==> w in b.done + {b.r}
  {
    forall w | w in S && Depth(w) < Depth(b.q[0])
      ensures w in b.done + {b.r}
    {
      if Depth(w) == Depth(b.r) && w.Child? {
        assert w.parent in b.done;
        assert w !in b.q;
      }
    }
  }

  lemma QueueTail(S: set<Label>, done: set<Label>, r: Label, q: seq<Label>)
    requires QueueOf(S, done, q) && q != [] && r !in q
    ensures QueueOf(S, done + {r}, q[1..]) && q[0] !in q[1..]
    ensures forall w :: w in q <==> w == q[0] || w in q[1..]
  {
  }

  lemma OrderlyTake(S: set<Label>, b: Pass)
    requires PrefixClosed(S) && Orderly(S, b) && b.i == 256 && b.q != []
    ensures Orderly(S, Advance(S, b))
  {
    NearerLabelsExpanded(S, b);
    var r := b.q[0];
    QueueTail(S, b.done, b.r, b.q);
    assert r in b.q && Reached(b.done, b.r, 256, r);
    ReachedTake(b.done, b.r, r);
  }

  /** Every moment of a pass is orderly. */
  lemma {:induction false} PassIsOrderly(S: set<Label>, n: nat)
    requires PrefixClosed(S)
    ensures Orderly(S, After(S, n))
  {
    if n > 0 {
      PassIsOrderly(S, n - 1);
      var b := After(S, n - 1);
      if b.i < 256 {
        OrderlyVisit(S, b);
      } else if b.q != [] {
        OrderlyTake(S, b);
      }
    }
  }

  /** The current label is not yet expanded, but everything nearer to the root is. */
  lemma NearerFirst(S: set<Label>, n: nat)
    requires PrefixClosed(S)
    ensures After(S, n).r !in After(S, n).done
    ensures forall w :: w in S && Depth(w) < Depth(After(S, n).r) ==> w in After(S, n).done
  {
    PassIsOrderly(S, n);
  }

  /** Taking a label off the worklist is progress. */
  lemma PassTake(S: set<Label>, n: nat)
    requires PrefixClosed(S) && After(S, n).i == 256 && After(S, n).q != []
    ensures var b := After(S, n);
            && After(S, n + 1) == Pass(b.done + {b.r}, b.q[0], 0, b.q[1..])
            && b.q[0].Child? && b.r in S - b.done
  {
    PassIsOrderly(S, n);
  }

  /** When the worklist is empty every label has been reached and expanded. */
  lemma {:induction false} PassIsComplete(S: set<Label>, n: nat, w: Label)
    requires PrefixClosed(S) && After(S, n).i == 256 && After(S, n).q == [] && w in S
    ensures var b := After(S, n);
            w in b.done + {b.r} && (w.Child? ==> Reached(b.done, b.r, 256, w))
  {
    PassIsOrderly(S, n);
    if w.Child? {
      PassIsComplete(S, n, w.parent);
    }
  }
}
