/** The packets of a proxied connection: the queues of one direction and the bytes they carry. */
module Packets {
  import opened Bytes

  /** A packet of the source with its data; `sendpos` bytes of it have been sent. */
  datatype Packet = Packet(data: Word, sendpos: nat)

  /** Something is left to send. */
  predicate Live(p: Packet) {
    p.sendpos < |p.data|
  }

  function Remaining(p: Packet): Word {
    if Live(p) then p.data[p.sendpos..] else []
  }

  /** `connection_queue_t`: the output queue, the packet just received, the blocked packet.
      Its input queue is never used. */
  datatype Side = Side(outq: seq<Packet>, pkt: Option<Packet>, blkpkt: Option<Packet>)

  const EMPTY := Side([], None, None)

  function Held(q: Side): nat {
    |q.outq| + (if q.pkt.Some? then 1 else 0) + if q.blkpkt.Some? then 1 else 0
  }

  function OptBytes(p: Option<Packet>): Word {
    if p.Some? then Remaining(p.value) else []
  }

  function QueueBytes(outq: seq<Packet>): Word {
    if outq == [] then [] else Remaining(outq[0]) + QueueBytes(outq[1..])
  }

  /** The bytes on their way, in the order in which they are to be sent. */
  function Pending(q: Side): Word {
    OptBytes(q.blkpkt) + QueueBytes(q.outq) + OptBytes(q.pkt)
  }

  predicate AllLive(q: Side) {
    && (q.pkt.Some? ==> Live(q.pkt.value)) && (q.blkpkt.Some? ==> Live(q.blkpkt.value))
    && forall k :: 0 <= k < |q.outq| ==> Live(q.outq[k])
  }

  lemma {:induction false} QueueBytesAppend(outq: seq<Packet>, p: Packet)
    ensures QueueBytes(outq + [p]) == QueueBytes(outq) + Remaining(p)
  {
    if outq != [] {
      assert (outq + [p])[1..] == outq[1..] + [p];
      QueueBytesAppend(outq[1..], p);
    } else {
      assert outq + [p] == [p] && [p][1..] == [];
    }
  }

  /** What went over the sockets of one direction, and what was forgotten of it: packets, bytes. */
  datatype Trace = Trace(received: Word, sent: Word, leaks: nat, lost: nat)

  /** What has been received is what has been sent and what is pending, in order; packets that
      were forgotten take at least a byte each with them. */
  ghost predicate Flow(t: Trace, pending: Word) {
    match t
    case Trace(received, sent, leaks, lost) =>
      && |received| == |sent| + |pending| + lost && leaks <= lost
      && (leaks == 0 ==> received == sent + pending)
  }

  /** One direction of a connection: its bytes flow, and it has a blocked packet exactly while
      its socket is blocked, unless that packet was forgotten. */
  ghost predicate Direction(q: Side, blocked: bool, t: Trace) {
    match q
    case Side(_, _, blkpkt) =>
      && Flow(t, Pending(q)) && AllLive(q)
      && (blkpkt.Some? ==> blocked) && (blocked && t.leaks == 0 ==> blkpkt.Some?)
  }

  /** Nothing is lost, doubled or reordered exactly as long as no packet was forgotten. */
  lemma FlowExactlyWhen(t: Trace, pending: Word)
    requires Flow(t, pending)
    ensures t.received == t.sent + pending <==> t.leaks == 0
  {
    if t.received == t.sent + pending {
      assert |t.received| == |t.sent| + |pending|;
    }
  }

  /** `n` bytes of packet `p` are sent. */
  function Sent(t: Trace, p: Packet, n: nat): (r: Trace)
    requires n <= |Remaining(p)|
    ensures |r.sent| == |t.sent| + n && r.leaks == t.leaks
  {
    t.(sent := t.sent + Remaining(p)[..n])
  }

  /** The packet behind them. */
  function Rest(p: Packet, n: nat): (q: Packet)
    requires n <= |Remaining(p)|
    ensures |Remaining(q)| == |Remaining(p)| - n && (n < |Remaining(p)| ==> Live(q))
  {
    p.(sendpos := p.sendpos + n)
  }

  lemma RestRemains(p: Packet, n: nat)
    requires n <= |Remaining(p)|
    ensures Remaining(p) == Remaining(p)[..n] + Remaining(Rest(p, n))
  {
  }

  lemma FlowSend(t: Trace, p: Packet, rest: Word, n: nat)
    requires n <= |Remaining(p)| && Flow(t, Remaining(p) + rest)
    ensures Flow(Sent(t, p, n), Remaining(Rest(p, n)) + rest)
    ensures n == |Remaining(p)| ==> Flow(Sent(t, p, n), rest)
  {
    var q := Rest(p, n);
    RestRemains(p, n);
    Regroup(t.sent, Remaining(p)[..n], Remaining(q), rest);
    assert n == |Remaining(p)| ==> Remaining(q) + rest == rest;
  }

  lemma Regroup(a: Word, b: Word, c: Word, d: Word)
    ensures a + (b + c + d) == a + b + (c + d)
  {
  }

  /** A packet with bytes left is forgotten. */
  function Leaked(t: Trace, p: Packet): Trace {
    t.(leaks := t.leaks + 1, lost := t.lost + |Remaining(p)|)
  }

  lemma FlowLeak(t: Trace, p: Packet, rest: Word)
    requires Live(p) && Flow(t, Remaining(p) + rest)
    ensures Flow(Leaked(t, p), rest)
  {
  }

  /** A packet received goes behind everything that is pending. */
  lemma Received(q: Side, t: Trace, data: Word)
    requires q.pkt.None? && data != [] && Flow(t, Pending(q))
    ensures Pending(q.(pkt := Some(Packet(data, 0)))) == Pending(q) + data
    ensures Flow(t.(received := t.received + data), Pending(q) + data)
  {
    var next := q.(pkt := Some(Packet(data, 0)));
    assert Remaining(next.pkt.value) == data;
    assert t.sent + Pending(q) + data == t.sent + (Pending(q) + data);
  }

  /** Moving it to the output queue changes nothing in what is pending. */
  lemma Queued(q: Side)
    requires q.pkt.Some?
    ensures Pending(q.(pkt := None, outq := q.outq + [q.pkt.value])) == Pending(q)
  {
    QueueBytesAppend(q.outq, q.pkt.value);
  }

  /** The packet that is to be sent next. */
  predicate HasFirst(q: Side) {
    q.blkpkt.Some? || q.outq != []
  }

  function First(q: Side): Packet
    requires HasFirst(q)
  {
    if q.blkpkt.Some? then q.blkpkt.value else q.outq[0]
  }

  /** The first packet was cut short although the socket was blocked before: it had taken `before`
      bytes and takes `after`. */
  predicate CutAgain(blocked: bool, q: Side, before: nat, after: nat) {
    blocked && HasFirst(q) && after < before + |Remaining(First(q))|
  }

  /** A queue with a packet has bytes to send. */
  lemma PendingBytes(q: Side)
    requires AllLive(q) && q.outq != []
    ensures |Pending(q)| > 0
  {
    assert Live(q.outq[0]) && |Remaining(q.outq[0])| > 0;
    assert |QueueBytes(q.outq)| > 0;
  }

  /** A direction in which nothing is blocked and nothing was forgotten has sent all it received
      exactly if its queue is empty. */
  lemma AllSentExactlyWhen(q: Side, t: Trace)
    requires Direction(q, false, t) && q.pkt.None? && t.leaks == 0
    ensures t.received == t.sent <==> q.outq == []
  {
    PendingOf(q);
    if q.outq == [] {
      assert t.sent + [] == t.sent;
    } else {
      PendingBytes(q);
      assert |t.received| == |t.sent| + |Pending(q)|;
    }
  }

  lemma PendingOf(q: Side)
    requires q.pkt.None?
    ensures Pending(q) == OptBytes(q.blkpkt) + QueueBytes(q.outq)
    ensures q.blkpkt.None? ==> Pending(q) == QueueBytes(q.outq)
  {
  }

  /** The trace of a packet cut short at `i` and again at `j`, then forgotten. */
  lemma CutTwice(data: Word, i: nat, j: nat)
    requires i <= j < |data|
    ensures var p := Packet(data, i);
            && |Remaining(p)| == |data| - i
            && Leaked(Sent(Trace(data, data[..i], 0, 0), p, j - i), Rest(p, j - i))
               == Trace(data, data[..j], 1, |data| - j)
  {
    assert data[..i] + data[i..][..j - i] == data[..j];
  }
}
