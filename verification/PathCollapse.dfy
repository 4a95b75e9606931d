/** `http_decode_path`: collapsing a path in place, with a read and a write index. */
module PathCollapse {
  import opened Bytes
  import opened PathSpec

  const MAX_DECODE_LEN := 16384

  /** Where the scan of `path` stands. */
  datatype Scan =
    | Begin               // nothing read yet
    | InDir(d: Place)     // just behind a separator
    | AfterSeg(d: Place)  // at the separator behind the last segment of `d`
    | Ended(out: Word)    // at the end, `out` written without its terminator
    | Copied(out: Word)   // past the end, `out` written with its terminator

  /** What has been written by then. */
  function Written(at: Scan): Word {
    match at
    case Begin => []
    case InDir(d) => Dir(d)
    case AfterSeg(d) => File(d)
    case Ended(out) => out
    case Copied(out) => out + [0]
  }

  /** With `r` bytes read, the scan stands at `at` and what is left decides the same outcome. */
  ghost predicate Meets(path: Word, r: int, slashseen: bool, at: Scan)
    requires path != []
  {
    match at
    case Begin => r == 0 && !slashseen
    case InDir(d) => 0 <= r <= |path| && slashseen && AllPlain(d) && Collapse(d, path[r..]) == CollapsePath(path)
    case AfterSeg(d) =>
      && 0 <= r < |path| && Separator(path[r]) && !slashseen && d.Sub? && AllPlain(d)
      && Collapse(d, path[r + 1..]) == CollapsePath(path)
    case Ended(out) => r == |path| && !slashseen && CollapsePath(path) == Path(out)
    case Copied(out) => r == |path| + 1 && CollapsePath(path) == Path(out)
  }

  /** The buffer: `out` written, never past the read index, and the unread part untouched. */
  ghost predicate Buffered(path: Word, buf: Word, w: int, r: int, out: Word) {
    && 0 <= w <= r <= |path| + 1 <= |buf|
    && buf[..w] == out
    && (forall k :: r <= k < |path| ==> buf[k] == path[k])
    && (r <= |path| ==> buf[|path|] == 0)
  }

  // ---------- reading one segment ----------

  lemma ReadNothing(d: Place)
    ensures Collapse(d, []) == Path(Dir(d))
  {
  }

  lemma ReadSeparator(d: Place, p: Word)
    requires p != [] && Separator(p[0])
    ensures Collapse(d, p) == Collapse(d, p[1..])
  {
    assert SegEnd(p) == 0;
  }

  lemma ReadDots(d: Place, p: Word)
    ensures |p| >= 2 && p[0] == DOT && Separator(p[1]) ==> Collapse(d, p) == Collapse(d, p[2..])
    ensures p == [DOT] ==> Collapse(d, p) == Path(File(d))
    ensures p == [DOT, DOT] ==> Collapse(d, p) == if d.Root? || d.parent.Root? then Rejected else Path(File(d.parent))
    ensures |p| >= 3 && p[0] == p[1] == DOT && Separator(p[2]) ==>
              Collapse(d, p) == if d.Root? then Rejected else Collapse(d.parent, p[3..])
  {
    if p != [] && p[0] == DOT {
      if |p| == 1 || Separator(p[1]) {
        assert p == [DOT] + p[1..];
        SegEndAt([DOT], p[1..]);
        assert p[..1] == [DOT];
      } else if p[1] == DOT && (|p| == 2 || Separator(p[2])) {
        assert p == [DOT, DOT] + p[2..];
        SegEndAt([DOT, DOT], p[2..]);
        assert p[..2] == [DOT, DOT];
      }
    }
  }

  /** Any other segment is plain. */
  lemma ReadPlain(d: Place, p: Word)
    requires p != [] && !Separator(p[0])
    requires !(p[0] == DOT && (|p| == 1 || Separator(p[1])))
    requires !(|p| >= 2 && p[0] == p[1] == DOT && (|p| == 2 || Separator(p[2])))
    ensures var n := SegEnd(p);
            && 0 < n && Plain(p[..n])
            && Collapse(d, p) == if n == |p| then Path(File(Sub(d, p))) else Collapse(Sub(d, p[..n]), p[n + 1..])
  {
    var n := SegEnd(p);
    SegEndIsFirst(p);
    assert p[..n][0] == p[0];
    if n == |p| {
      assert p[..n] == p;
    }
  }

  // ---------- the loops ----------

  /** The segment at `start` ends at the first separator. */
  lemma SegmentLength(path: Word, start: nat, end: nat)
    requires start <= end <= |path|
    requires forall k :: start <= k < end ==> !Separator(path[k])
    requires end < |path| ==> Separator(path[end])
    ensures SegEnd(path[start..]) == end - start
  {
    assert path[start..] == path[start..end] + path[end..];
    SegEndAt(path[start..end], path[end..]);
  }

  /** One byte moved down from the read index to the write index. */
  lemma MoveByte(path: Word, buf: Word, w: int, r: int, out: Word, b: Byte)
    requires Buffered(path, buf, w, r, out) && r <= |path|
    ensures r < |path| ==> buf[r] == path[r]
    ensures Buffered(path, buf[w := b], w + 1, r + 1, out + [b])
  {
    assert buf[w := b][..w + 1] == buf[..w] + [b];
  }

  /** Bytes skipped by the read index, or taken back by the write index. */
  lemma Skip(path: Word, buf: Word, w: int, r: int, out: Word, w': int, r': int)
    requires Buffered(path, buf, w, r, out) && 0 <= w' <= w && r <= r' <= |path| + 1
    ensures Buffered(path, buf, w', r', out[..w'])
  {
    assert buf[..w'] == buf[..w][..w'];
  }

  /** Copy the segment at `start` down to `from`; the last one takes the terminator with it. */
  method CopySegment(s: array<Byte>, ls: int, from: int, start: int, ghost path: Word, ghost out: Word)
    returns (w: int, r: int)
    requires start < |path| && ls == |path| + 1 && Buffered(path, s[..], from, start, out)
    modifies s
    ensures start <= r <= |path| + 1 && r != |path|
    ensures SegEnd(path[start..]) == (if r < |path| then r else |path|) - start
    ensures r < |path| ==> Buffered(path, s[..], w, r, out + path[start..r])
    ensures r > |path| ==> Buffered(path, s[..], w, r, out + path[start..] + [0])
  {
    ghost var whole := path + [0];
    w, r := from, start;
    assert out + whole[start..start] == out;
    while r < ls
      invariant start <= r <= |path| + 1
      invariant forall k :: start <= k < r && k < |path| ==> !Separator(path[k])
      invariant Buffered(path, s[..], w, r, out + whole[start..r])
    {
      ghost var b, before := s[r], s[..];
      MoveByte(path, before, w, r, out + whole[start..r], b);
      s[w] := s[r];
      assert s[..] == before[w := b];
      if s[r] == SLASH || s[r] == BACKSLASH {
        assert s[..w] == before[..w];
        break;
      }
      assert b == whole[r] && whole[start..r + 1] == whole[start..r] + [b];
      assert out + (whole[start..r] + [b]) == out + whole[start..r] + [b];
      w, r := w + 1, r + 1;
    }
    SegmentLength(path, start, if r < |path| then r else |path|);
    assert whole[start..if r < |path| then r else |path|] == path[start..if r < |path| then r else |path|];
    assert r > |path| ==> whole[start..r] == path[start..] + [0];
  }

  /** From the final slash of `Dir(d)` back to the slash before its last segment, or to 0. */
  method ScanBack(s: array<Byte>, from: int, ghost d: Place) returns (w: int)
    requires d.Sub? && AllPlain(d) && 0 <= from < s.Length && s[..from + 1] == Dir(d)
    ensures w == |Dir(d.parent)| - 1 && w < from
    ensures s[..w + 1] == Dir(d.parent)
  {
    w := from;
    ghost var m := |Dir(d.parent)|;
    DirEndsInSlash(d.parent);
    assert forall k :: 0 <= k < m ==> s[k] == File(d)[k] == Dir(d.parent)[k];
    assert forall k :: m <= k < from ==> s[k] == d.seg[k - m];
    while w > 0
      invariant m <= w <= from
    {
      w := w - 1;
      if s[w] == SLASH {
        break;
      }
    }
  }

  lemma DirEndsInSlash(d: Place)
    ensures Dir(d)[|Dir(d)| - 1] == SLASH
    ensures d.Sub? ==> Dir(d)[..|Dir(d)| - 1] == File(d)
  {
  }

  // ---------- one turn of the outer loop ----------

  /** The terminator is read: what has been written is the result. */
  lemma EndMeans(path: Word, slashseen: bool, at: Scan)
    requires path != [] && Meets(path, |path|, slashseen, at)
    ensures CollapsePath(path) == Path(Written(at))
  {
    if at.InDir? {
      assert path[|path|..] == [];
      ReadNothing(at.d);
    }
  }

  lemma SeparatorMeans(path: Word, r: int, slashseen: bool, at: Scan)
    requires path != [] && Meets(path, r, slashseen, at) && r < |path| && Separator(path[r])
    ensures slashseen ==> at.InDir? && Meets(path, r + 1, true, at)
    ensures !slashseen ==> at.Begin? || at.AfterSeg?
    ensures !slashseen ==> var d := if at.Begin? then Root else at.d;
              Meets(path, r + 1, true, InDir(d)) && Dir(d) == Written(at) + [SLASH]
  {
    if slashseen {
      ReadSeparator(at.d, path[r..]);
      assert path[r..][1..] == path[r + 1..];
    }
  }

  /** A "." segment with more behind it. */
  lemma DotMeans(path: Word, r: int, d: Place)
    requires path != [] && Meets(path, r, true, InDir(d)) && r + 1 < |path| && path[r] == DOT && Separator(path[r + 1])
    ensures Meets(path, r + 2, true, InDir(d))
  {
    ReadDots(d, path[r..]);
    assert path[r..][2..] == path[r + 2..];
  }

  /** A final ".". */
  lemma FinalDotMeans(path: Word, r: int, d: Place)
    requires path != [] && Meets(path, r, true, InDir(d)) && r + 1 == |path| && path[r] == DOT
    ensures Meets(path, r + 1, false, Ended(File(d)))
    ensures File(d) == Dir(d)[..if |Dir(d)| > 1 then |Dir(d)| - 1 else |Dir(d)|]
  {
    ReadDots(d, path[r..]);
    DirEndsInSlash(d);
    assert path[r..] == [DOT];
  }

  /** A ".." segment: rejected at the root, and at the end also one level below it. */
  lemma DotDotMeans(path: Word, r: int, d: Place)
    requires path != [] && Meets(path, r, true, InDir(d)) && r + 1 < |path| && path[r] == path[r + 1] == DOT
    requires r + 2 == |path| || Separator(path[r + 2])
    ensures |Dir(d)| == 1 <==> d.Root?
    ensures d.Root? ==> CollapsePath(path) == Rejected
    ensures d.Sub? && r + 2 == |path| && d.parent.Root? ==> CollapsePath(path) == Rejected
    ensures d.Sub? && r + 2 == |path| && d.parent.Sub? ==> Meets(path, r + 2, false, Ended(File(d.parent)))
    ensures d.Sub? && r + 2 < |path| ==> Meets(path, r + 3, true, InDir(d.parent))
  {
    ReadDots(d, path[r..]);
    if r + 2 == |path| {
      assert path[r..] == [DOT, DOT];
    } else {
      assert path[r..][3..] == path[r + 3..];
    }
  }

  /** Any other segment. */
  predicate NotDots(path: Word, r: int) {
    && 0 <= r < |path| && !Separator(path[r])
    && !(path[r] == DOT && (r + 1 == |path| || Separator(path[r + 1])))
    && !(r + 1 < |path| && path[r] == path[r + 1] == DOT && (r + 2 == |path| || Separator(path[r + 2])))
  }

  lemma PlainMeans(path: Word, r: int, d: Place, end: int)
    requires path != [] && Meets(path, r, true, InDir(d)) && NotDots(path, r) && end < |path| &&
              SegEnd(path[r..]) == end - r
    ensures r < end && Meets(path, end, false, AfterSeg(Sub(d, path[r..end])))
    ensures File(Sub(d, path[r..end])) == Dir(d) + path[r..end]
  {
    ReadPlain(d, path[r..]);
    SegEndIsFirst(path[r..]);
    Slices(path, r, end);
  }

  lemma FinalPlainMeans(path: Word, r: int, d: Place)
    requires path != [] && Meets(path, r, true, InDir(d)) && NotDots(path, r) && SegEnd(path[r..]) == |path| - r
    ensures Meets(path, |path| + 1, false, Copied(File(Sub(d, path[r..]))))
    ensures File(Sub(d, path[r..])) == Dir(d) + path[r..]
  {
    ReadPlain(d, path[r..]);
  }

  lemma Slices(path: Word, r: int, end: int)
    requires 0 <= r <= end <= |path|
    ensures path[r..][..end - r] == path[r..end]
    ensures end < |path| ==> path[r..][end - r + 1..] == path[end + 1..]
    ensures end == |path| ==> path[r..] == path[r..end]
  {
  }

  // ---------- http_decode_path ----------

  /** The result the caller sees: the string up to its terminator, or an empty string. */
  ghost predicate Holds(buf: Word, ret: int, want: Outcome) {
    match want
    case Rejected => ret == -1 && buf != [] && buf[0] == 0
    case Path(out) => ret == 0 && |out| < |buf| && buf[..|out|] == out && buf[|out|] == 0
  }

  /** The path of `sLen` bytes in `s` is anchored with a separator, holds no NUL and is
      followed by one.  It is replaced by its collapsed form; lengths out of range are left alone. */
  method HttpDecodePath(s: array<Byte>, sLen: int) returns (ret: int)
    requires 0 < sLen <= MAX_DECODE_LEN ==>
               && sLen < s.Length && s[sLen] == 0 && Separator(s[0])
               && forall k :: 0 <= k < sLen ==> s[k] != 0
    modifies s
    ensures !(0 < sLen <= MAX_DECODE_LEN) ==> ret == 0 && s[..] == old(s[..])
    ensures 0 < sLen <= MAX_DECODE_LEN ==> Holds(s[..], ret, CollapsePath(old(s[..sLen])))
    ensures 0 < sLen <= MAX_DECODE_LEN && ret == 0 ==> |CollapsePath(old(s[..sLen])).text| <= sLen
  {
    var ls := sLen + 1;
    if sLen > MAX_DECODE_LEN || sLen <= 0 {
      return 0;
    }
    ghost var path := s[..sLen];
    ghost var at := Begin;
    var slashseen := false;
    var r, w := 0, 0;
    while r < ls
      invariant Meets(path, r, slashseen, at)
      invariant Buffered(path, s[..], w, r, Written(at))
    {
      if s[r] == 0 {
        EndMeans(path, slashseen, at);
        s[w] := 0;
        return 0;
      }
      if slashseen {
        if s[r] == SLASH || s[r] == BACKSLASH {
          SeparatorMeans(path, r, slashseen, at);
          r := r + 1;
          continue;
        }
      } else if s[r] == SLASH || s[r] == BACKSLASH {
        slashseen := true;
        w, r, at := CopySlash(s, w, r, path, at);
        continue;
      }
      var stop;
      w, r, slashseen, stop, at := Segment(s, ls, w, r, path, at.d);
      if stop {
        s[0] := 0;
        return -1;
      }
    }
    return 0;
  }

  /** Either separator becomes a slash. */
  method CopySlash(s: array<Byte>, from: int, start: int, ghost path: Word, ghost was: Scan)
    returns (w: int, r: int, ghost at: Scan)
    requires path != [] && Meets(path, start, false, was) && Buffered(path, s[..], from, start, Written(was))
    requires start < |path| && Separator(path[start])
    modifies s
    ensures r == start + 1 && Meets(path, r, true, at) && Buffered(path, s[..], w, r, Written(at))
  {
    SeparatorMeans(path, start, false, was);
    MoveByte(path, s[..], from, start, Written(was), SLASH);
    ghost var next := s[..][from := SLASH];
    s[from] := SLASH;
    assert s[..] == next;
    w, r, at := from + 1, start + 1, InDir(if was.Begin? then Root else was.d);
  }

  /** The part of the loop body that reads a segment; `slashseen` has just been cleared. */
  method Segment(s: array<Byte>, ls: int, from: int, start: int, ghost path: Word, ghost d: Place)
    returns (w: int, r: int, slashseen: bool, stop: bool, ghost at: Scan)
    requires path != [] && ls == |path| + 1 && (forall k :: 0 <= k < |path| ==> path[k] != 0)
    requires Meets(path, start, true, InDir(d)) && Buffered(path, s[..], from, start, Dir(d))
    requires start < |path| && !Separator(path[start])
    modifies s
    ensures stop ==> CollapsePath(path) == Rejected
    ensures !stop ==> r > start && Meets(path, r, slashseen, at) && Buffered(path, s[..], w, r, Written(at))
  {
    var here, next := s[start], s[start + 1];
    assert here == path[start] && next == if start + 1 < |path| then path[start + 1] else 0;
    if here == DOT && (next == SLASH || next == BACKSLASH) {
      DotMeans(path, start, d);
      Skip(path, s[..], from, start, Dir(d), from, start + 2);
      w, r, slashseen, stop, at := from, start + 2, true, false, InDir(d);
    } else if here == DOT && next == 0 {
      w, at := FinalDot(s, from, start, path, d);
      r, slashseen, stop := start + 1, false, false;
    } else {
      w, r, slashseen, stop, at := DotDotOrPlain(s, ls, from, start, path, d);
    }
  }

  /** A final ".": the slash before it goes too, unless it is the root's. */
  method FinalDot(s: array<Byte>, from: int, r: int, ghost path: Word, ghost d: Place) returns (w: int, ghost at: Scan)
    requires path != [] && Meets(path, r, true, InDir(d)) && Buffered(path, s[..], from, r, Dir(d))
    requires r + 1 == |path| && path[r] == DOT
    ensures Meets(path, r + 1, false, at) && Buffered(path, s[..], w, r + 1, Written(at))
  {
    FinalDotMeans(path, r, d);
    w, at := from, Ended(File(d));
    if w > 1 {
      w := w - 1;
    }
    Skip(path, s[..], from, r, Dir(d), w, r + 1);
  }

  /** The other segments. */
  method DotDotOrPlain(s: array<Byte>, ls: int, from: int, start: int, ghost path: Word, ghost d: Place)
    returns (w: int, r: int, slashseen: bool, stop: bool, ghost at: Scan)
    requires path != [] && ls == |path| + 1 && (forall k :: 0 <= k < |path| ==> path[k] != 0)
    requires Meets(path, start, true, InDir(d)) && Buffered(path, s[..], from, start, Dir(d))
    requires start < |path| && !Separator(path[start])
    requires !(path[start] == DOT && (start + 1 == |path| || Separator(path[start + 1])))
    modifies s
    ensures stop ==> CollapsePath(path) == Rejected
    ensures !stop ==> r > start && Meets(path, r, slashseen, at) && Buffered(path, s[..], w, r, Written(at))
  {
    var up := s[start] == DOT && s[start + 1] == DOT;
    if up && s[start + 2] == 0 {
      w, stop := PopLast(s, from, start, path, d);
      r, slashseen, at := start + 2, false, Ended(if stop then [] else File(d.parent));
    } else if up && (s[start + 2] == SLASH || s[start + 2] == BACKSLASH) {
      w, stop := PopSegment(s, from, start, path, d);
      r, slashseen, at := start + 3, true, InDir(if stop then d else d.parent);
    } else {
      w, r, at := PlainSegment(s, ls, from, start, path, d);
      slashseen, stop := false, false;
    }
  }

  /** A segment that is neither "." nor "..", copied. */
  method PlainSegment(s: array<Byte>, ls: int, from: int, start: int, ghost path: Word, ghost d: Place)
    returns (w: int, r: int, ghost at: Scan)
    requires path != [] && ls == |path| + 1
    requires Meets(path, start, true, InDir(d)) && Buffered(path, s[..], from, start, Dir(d))
    requires NotDots(path, start)
    modifies s
    ensures r > start && Meets(path, r, false, at) && Buffered(path, s[..], w, r, Written(at))
  {
    w, r := CopySegment(s, ls, from, start, path, Dir(d));
    if r < |path| {
      PlainMeans(path, start, d, r);
      at := AfterSeg(Sub(d, path[start..r]));
    } else {
      FinalPlainMeans(path, start, d);
      at := Copied(File(Sub(d, path[start..])));
    }
  }

  /** A final "..": back over the last segment, if that leaves more than the root. */
  method PopLast(s: array<Byte>, from: int, r: int, ghost path: Word, ghost d: Place) returns (w: int, stop: bool)
    requires path != [] && r + 2 == |path| && Meets(path, r, true, InDir(d)) && path[r] == path[r + 1] == DOT
    requires Buffered(path, s[..], from, r, Dir(d))
    ensures stop ==> CollapsePath(path) == Rejected
    ensures !stop ==> && d.Sub? && Meets(path, r + 2, false, Ended(File(d.parent)))
                      && Buffered(path, s[..], w, r + 2, File(d.parent))
  {
    DotDotMeans(path, r, d);
    if from == 0 || from == 1 {
      return from, true;
    }
    w := ScanBack(s, from - 1, d);
    stop := w == 0;
    DirEndsInSlash(d.parent);
    assert s[..w] == s[..w + 1][..w];
  }

  /** A ".." with more behind it: back over the last segment. */
  method PopSegment(s: array<Byte>, from: int, r: int, ghost path: Word, ghost d: Place) returns (w: int, stop: bool)
    requires path != [] && r + 2 < |path| && Meets(path, r, true, InDir(d)) && path[r] == path[r + 1] == DOT
    requires Separator(path[r + 2]) && Buffered(path, s[..], from, r, Dir(d))
    ensures stop ==> CollapsePath(path) == Rejected
    ensures !stop ==> && d.Sub? && Meets(path, r + 3, true, InDir(d.parent))
                      && Buffered(path, s[..], w, r + 3, Dir(d.parent))
  {
    DotDotMeans(path, r, d);
    if from == 0 || from == 1 {
      return from, true;
    }
    w := ScanBack(s, from - 1, d);
    DirEndsInSlash(d.parent);
    assert s[w] == s[..w + 1][w];
    if s[w] == SLASH {
      return w + 1, false;
    }
    return w, true;
  }
}
