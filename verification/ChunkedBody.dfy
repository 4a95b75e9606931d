/** `recv_chunk` and `http_read_line`: receiving a chunked body from buffers. */
module ChunkedBody {
  import opened Bytes
  import opened ChunkSpec

  const HTTP_CHUNK_SIZE := 0
  const HTTP_CHUNK_FIN := 1

  /** The local state of a connection's body; `ended` is the state HTTP_STATE_NONE. */
  class Receiver {
    var unRecvChunkedLen: int
    var chunkFlag: int
    const cacheBuf: array<Byte>
    var cacheBufLen: nat
    var ended: bool

    ghost predicate Valid()
      reads this, cacheBuf
    {
      && cacheBuf.Length == CACHE_SIZE && cacheBufLen <= CACHE_SIZE && !HasCrlf(Line())
      && (chunkFlag == HTTP_CHUNK_SIZE || chunkFlag == HTTP_CHUNK_FIN)
    }

    /** The cached part of a size line. */
    ghost function Line(): Word
      requires cacheBufLen <= cacheBuf.Length
      reads this, cacheBuf
    {
      cacheBuf[..cacheBufLen]
    }

    ghost function State(): ChunkSpec.State
      requires Valid()
      reads this, cacheBuf
    {
      ChunkSpec.State(unRecvChunkedLen, chunkFlag == HTTP_CHUNK_FIN, Line())
    }

    constructor ()
      ensures Valid() && State() == START && !ended && fresh(cacheBuf)
    {
      cacheBuf := new Byte[CACHE_SIZE];
      cacheBufLen, unRecvChunkedLen, chunkFlag, ended := 0, 0, HTTP_CHUNK_SIZE, false;
    }

    /** `strlstr` with the pattern "\r\n": with fewer than two bytes one comparison is made. */
    method FindCrlf() returns (found: bool)
      requires cacheBuf.Length == CACHE_SIZE && 0 < cacheBufLen < CACHE_SIZE && cacheBuf[cacheBufLen] == 0
      ensures found <==> HasCrlf(Line())
    {
      var i := 0;
      while true
        invariant 0 <= i < cacheBufLen && (i == 0 || i < cacheBufLen - 1)
        invariant forall k :: 0 <= k < i ==> !(Line()[k] == CR && Line()[k + 1] == LF)
        decreases cacheBufLen - i
      {
        if cacheBuf[i] == CR && cacheBuf[i + 1] == LF {
          assert Line()[i] == CR && Line()[i + 1] == LF;
          return true;
        }
        i := i + 1;
        if i > cacheBufLen - 2 {
          return false;
        }
      }
    }

    /** One more byte of a size line; 0 when it completes the line, which stays in the cache. */
    method ReadLine(b: Byte) returns (ret: int)
      requires Valid() && cacheBufLen + 1 != CACHE_SIZE
      modifies this`cacheBufLen, cacheBuf
      ensures Valid()
      ensures old(cacheBufLen) == CACHE_SIZE ==> ret == -1 && Line() == old(Line())
      ensures old(cacheBufLen) < CACHE_SIZE ==>
                var line := old(Line()) + [b];
                && ret == (if EndsLine(old(Line()), b) then 0 else -1)
                && Line() == (if ret == 0 then [] else line)
                && |line| < CACHE_SIZE && cacheBuf[..|line|] == line && cacheBuf[|line|] == 0
    {
      if cacheBufLen + 1 > CACHE_SIZE {
        return -1;
      }
      cacheBuf[cacheBufLen] := b;
      cacheBufLen := cacheBufLen + 1;
      cacheBuf[cacheBufLen] := 0;
      assert Line() == old(Line()) + [b];
      CrlfAtEnd(old(Line()), b);
      var found := FindCrlf();
      if !found {
        return -1;
      }
      cacheBufLen := 0;
      return 0;
    }

    /** One buffer: the bytes of `stream` from `from` on. */
    method RecvChunk(data: Word, ghost stream: Word, ghost from: nat) returns (ret: int)
      requires Valid()
      requires from + |data| <= |stream| && forall k :: 0 <= k < |data| ==> data[k] == stream[from + k]
      requires AllFit(stream, State(), from, from + |data|)
      modifies this, cacheBuf
      ensures Valid() && ret == 0
      ensures State() == Run(stream, old(State()), from, from + |data|).0
      ensures ended == (old(ended) || Done(State()))
    {
      Consume(data, stream, from);
      if chunkFlag == HTTP_CHUNK_FIN && unRecvChunkedLen == 0 {
        ended := true;
      }
      return 0;
    }

    /** The loop over the buffer. */
    method Consume(data: Word, ghost stream: Word, ghost from: nat)
      requires Valid()
      requires from + |data| <= |stream| && forall k :: 0 <= k < |data| ==> data[k] == stream[from + k]
      requires AllFit(stream, State(), from, from + |data|)
      modifies this`unRecvChunkedLen, this`chunkFlag, this`cacheBufLen, cacheBuf
      ensures Valid() && State() == Run(stream, old(State()), from, from + |data|).0
    {
      ghost var at, end := from, from + |data|;
      ghost var result := Run(stream, State(), at, end).0;
      var point, left := 0, |data|;
      while left > 0
        invariant Valid()
        invariant 0 <= left <= |data| && point == |data| - left && at == end - left
        invariant Leads(stream, State(), at, end, result)
      {
        var n, stop := Turn(data[point], left, stream, at, end, result);
        if stop {
          return;
        }
        point, left, at := point + n, left - n, at + n;
      }
    }

    /** The loop body: `n` bytes are dealt with, or the rest of the buffer is. */
    method Turn(b: Byte, left: int, ghost stream: Word, ghost at: nat, ghost end: nat, ghost result: ChunkSpec.State)
      returns (n: int, stop: bool)
      requires Valid() && left > 0 && at + left == end <= |stream| && stream[at] == b
      requires Leads(stream, State(), at, end, result)
      modifies this`unRecvChunkedLen, this`chunkFlag, this`cacheBufLen, cacheBuf
      ensures Valid()
      ensures stop ==> State() == result
      ensures !stop ==> 0 < n <= left && Leads(stream, State(), at + n, end, result)
    {
      if unRecvChunkedLen > 0 {
        n, stop := Skip(left, stream, at, end);
      } else {
        stop := OneByte(b, stream, at, end);
        n := 1;
      }
    }

    /** The part of the loop body that counts off the bytes of a chunk. */
    method Skip(left: int, ghost stream: Word, ghost at: nat, ghost end: nat) returns (n: int, stop: bool)
      requires Valid() && unRecvChunkedLen > 0 && left > 0
      requires at + left == end <= |stream| && AllFit(stream, State(), at, end)
      modifies this`unRecvChunkedLen, this`chunkFlag
      ensures Valid()
      ensures stop ==> State() == Run(stream, old(State()), at, end).0
      ensures !stop ==> && 0 < n <= left && AllFit(stream, State(), at + n, end)
                        && Run(stream, State(), at + n, end) == Run(stream, old(State()), at, end)
    {
      ghost var s := State();
      n := unRecvChunkedLen;
      if left < unRecvChunkedLen {
        RunData(stream, s, at, left);
        unRecvChunkedLen := unRecvChunkedLen - left;
        return n, true;
      }
      if chunkFlag == HTTP_CHUNK_FIN {
        RunFinal(stream, s, at, end);
        unRecvChunkedLen := 0;
        return n, true;
      }
      RunSplit(stream, s, at, at + n, end);
      RunData(stream, s, at, n);
      unRecvChunkedLen, chunkFlag := 0, HTTP_CHUNK_SIZE;
      return n, false;
    }

    /** The part of the loop body that reads a byte of a size line. */
    method OneByte(b: Byte, ghost stream: Word, ghost at: nat, ghost end: nat) returns (stop: bool)
      requires Valid() && unRecvChunkedLen <= 0
      requires at < end <= |stream| && stream[at] == b && AllFit(stream, State(), at, end)
      modifies this`unRecvChunkedLen, this`chunkFlag, this`cacheBufLen, cacheBuf
      ensures Valid()
      ensures stop ==> State() == Run(stream, old(State()), at, end).0
      ensures !stop ==> && AllFit(stream, State(), at + 1, end)
                        && Run(stream, State(), at + 1, end) == Run(stream, old(State()), at, end)
    {
      ghost var s := State();
      assert Fits(s, b);
      var ret := ReadLine(b);
      if ret == -1 {
        assert State() == Feed(s, b);
        return false;
      }
      ghost var line := s.line + [b];
      StrtolBeforeNul(line, cacheBuf[|line|..]);
      assert cacheBuf[..] == line + cacheBuf[|line|..];
      unRecvChunkedLen := Truncate(Strtol(cacheBuf[..]));
      if unRecvChunkedLen < 0 {
        return true;
      }
      if unRecvChunkedLen == 0 {
        unRecvChunkedLen, chunkFlag := 2, HTTP_CHUNK_FIN;
        return false;
      }
      unRecvChunkedLen := unRecvChunkedLen + 2;
      return false;
    }
  }
}
