/** What collapsing a request path means: its segments are run through a stack. */
module PathSpec {
  import opened Bytes

  const SLASH: Byte := 47
  const BACKSLASH: Byte := 92
  const DOT: Byte := 46

  datatype Outcome = Rejected | Path(text: Word)

  /** The directory reached so far, a stack of segments. */
  datatype Place = Root | Sub(parent: Place, seg: Word)

  predicate Separator(b: Byte) {
    b == SLASH || b == BACKSLASH
  }

  /** The length of the first segment of `p`. */
  function SegEnd(p: Word): (n: nat)
    ensures n <= |p|
  {
    if p == [] || Separator(p[0]) then 0 else 1 + SegEnd(p[1..])
  }

  predicate NoSeparator(seg: Word) {
    forall k :: 0 <= k < |seg| ==> !Separator(seg[k])
  }

  /** The path of a directory, with its final slash. */
  function Dir(d: Place): (r: Word)
    ensures |r| >= 1
  {
    if d.Root? then [SLASH] else Dir(d.parent) + d.seg + [SLASH]
  }

  /** The same without the final slash, except for the root. */
  function File(d: Place): Word {
    if d.Root? then [SLASH] else Dir(d.parent) + d.seg
  }

  /** The last segment of a path, seen from directory `d`: a final "." drops the slash before
      it; a final ".." does too, and must not leave only the root. */
  function Final(d: Place, seg: Word): Outcome {
    if seg == [] then Path(Dir(d))
    else if seg == [DOT] then Path(File(d))
    else if seg == [DOT, DOT] then
      if d.Root? || d.parent.Root? then Rejected else Path(File(d.parent))
    else Path(File(Sub(d, seg)))
  }

  /** A segment with a separator after it: empty and "." are dropped, ".." pops. */
  function Step(d: Place, seg: Word): Place
    requires seg == [DOT, DOT] ==> d.Sub?
  {
    if seg == [] || seg == [DOT] then d
    else if seg == [DOT, DOT] then d.parent
    else Sub(d, seg)
  }

  /** The rest `p` of a path, seen from directory `d`. */
  function Collapse(d: Place, p: Word): Outcome
    decreases |p|
  {
    var n := SegEnd(p);
    var seg := p[..n];
    if n == |p| then Final(d, seg)
    else if seg == [DOT, DOT] && d.Root? then Rejected
    else Collapse(Step(d, seg), p[n + 1..])
  }

  /** A path anchored with a separator. */
  function CollapsePath(path: Word): Outcome
    requires path != []
  {
    Collapse(Root, path[1..])
  }

  lemma {:induction false} SegEndAt(seg: Word, rest: Word)
    requires NoSeparator(seg) && (rest == [] || Separator(rest[0]))
    ensures SegEnd(seg + rest) == |seg|
  {
    if seg == [] {
      assert seg + rest == rest;
    } else {
      assert (seg + rest)[1..] == seg[1..] + rest;
      SegEndAt(seg[1..], rest);
    }
  }

  lemma {:induction false} SegEndIsFirst(p: Word)
    ensures NoSeparator(p[..SegEnd(p)]) && (SegEnd(p) < |p| ==> Separator(p[SegEnd(p)]))
  {
    if p != [] && !Separator(p[0]) {
      SegEndIsFirst(p[1..]);
      var n := SegEnd(p[1..]);
      assert p[..n + 1] == [p[0]] + p[1..][..n];
    }
  }

  // ---------- collapsed paths ----------

  /** A segment that means itself. */
  predicate Plain(seg: Word) {
    seg != [] && seg != [DOT] && seg != [DOT, DOT] && NoSeparator(seg)
  }

  predicate AllPlain(d: Place) {
    d.Sub? ==> Plain(d.seg) && AllPlain(d.parent)
  }

  /** No backslash, no empty, "." or ".." segment: the root, a directory or a file path. */
  ghost predicate Collapsed(p: Word) {
    exists d :: AllPlain(d) && (p == Dir(d) || p == File(d))
  }

  lemma {:induction false} CollapseIsCollapsed(d: Place, p: Word)
    requires AllPlain(d) && Collapse(d, p).Path?
    ensures Collapsed(Collapse(d, p).text)
    decreases |p|
  {
    var n := SegEnd(p);
    var seg := p[..n];
    SegEndIsFirst(p);
    if n == |p| {
      assert AllPlain(if seg == [DOT, DOT] then d.parent else if seg == [] || seg == [DOT] then d else Sub(d, seg));
    } else {
      CollapseIsCollapsed(Step(d, seg), p[n + 1..]);
    }
  }

  lemma PlainStep(d: Place, seg: Word, rest: Word)
    requires Plain(seg)
    ensures Collapse(d, seg + ([SLASH] + rest)) == Collapse(Sub(d, seg), rest)
  {
    var p := seg + ([SLASH] + rest);
    SegEndAt(seg, [SLASH] + rest);
    assert p[..|seg|] == seg && p[|seg| + 1..] == rest;
  }

  /** Reading a collapsed directory path leads to that directory. */
  lemma {:induction false} CollapseDir(d: Place, rest: Word)
    requires AllPlain(d)
    ensures Collapse(Root, Dir(d)[1..] + rest) == Collapse(d, rest)
  {
    if d.Root? {
      assert Dir(d)[1..] + rest == rest;
    } else {
      var more := d.seg + ([SLASH] + rest);
      assert Dir(d)[1..] + rest == Dir(d.parent)[1..] + more;
      CollapseDir(d.parent, more);
      PlainStep(d.parent, d.seg, rest);
    }
  }

  lemma CollapsedDirIsFixed(d: Place)
    requires AllPlain(d)
    ensures CollapsePath(Dir(d)) == Path(Dir(d))
  {
    assert Dir(d)[1..] + [] == Dir(d)[1..];
    CollapseDir(d, []);
  }

  lemma CollapsedFileIsFixed(d: Place)
    requires AllPlain(d)
    ensures File(d) != [] && CollapsePath(File(d)) == Path(File(d))
  {
    if d.Root? {
      CollapsedDirIsFixed(d);
    } else {
      assert File(d)[1..] == Dir(d.parent)[1..] + d.seg;
      CollapseDir(d.parent, d.seg);
      assert d.seg + [] == d.seg && d.seg[..|d.seg|] == d.seg;
      SegEndAt(d.seg, []);
    }
  }

  /** What comes out of a successful collapse is collapsed, and collapsing it again changes
      nothing. */
  lemma CollapseIdempotent(path: Word)
    requires path != [] && CollapsePath(path).Path?
    ensures var out := CollapsePath(path).text;
            Collapsed(out) && out != [] && CollapsePath(out) == Path(out)
  {
    var out := CollapsePath(path).text;
    CollapseIsCollapsed(Root, path[1..]);
    var d :| AllPlain(d) && (out == Dir(d) || out == File(d));
    CollapsedDirIsFixed(d);
    CollapsedFileIsFixed(d);
  }

  /** A backslash is as good as a slash. */
  function Slashed(p: Word): Word {
    seq(|p|, k requires 0 <= k < |p| => if p[k] == BACKSLASH then SLASH else p[k])
  }

  lemma {:induction false} SegEndSlashed(p: Word)
    ensures SegEnd(Slashed(p)) == SegEnd(p) && Slashed(p)[..SegEnd(p)] == p[..SegEnd(p)]
  {
    if p != [] && !Separator(p[0]) {
      assert Slashed(p)[1..] == Slashed(p[1..]);
      SegEndSlashed(p[1..]);
      var n := SegEnd(p[1..]);
      assert p[..n + 1] == [p[0]] + p[1..][..n];
      assert Slashed(p)[..n + 1] == [p[0]] + Slashed(p[1..])[..n];
    }
  }

  lemma {:induction false} CollapseSlashed(d: Place, p: Word)
    ensures Collapse(d, Slashed(p)) == Collapse(d, p)
    decreases |p|
  {
    var n := SegEnd(p);
    SegEndSlashed(p);
    if n < |p| && !(p[..n] == [DOT, DOT] && d.Root?) {
      assert Slashed(p)[n + 1..] == Slashed(p[n + 1..]);
      CollapseSlashed(Step(d, p[..n]), p[n + 1..]);
    }
  }
}
