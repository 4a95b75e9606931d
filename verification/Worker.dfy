/** The work thread of the proxy: what each event does to one connection and to the count of
    blocked sockets.  Results of system calls are left open; every call is logged. */
module Worker {
  import opened Bytes
  import opened Calls
  import opened Packets

  // ---------- system calls ----------

  /** `sk_send`: an error, or some of the bytes, possibly none. */
  method SkSend(s: Connection, fd: int, bytes: Word) returns (n: int)
    modifies s`calls
    ensures -1 <= n <= |bytes| && (fd < 0 || |bytes| < 1 ==> n == -1)
    ensures s.calls == old(s.calls) + [Send(fd, bytes, n)]
  {
    n := *;
    if n < -1 || n > |bytes| {
      n := 0;
    }
    if fd < 0 || |bytes| < 1 {
      n := -1;
    }
    s.calls := s.calls + [Send(fd, bytes, n)];
  }

  /** `sk_recv`: an error, or at most `room` bytes; the peer has closed only when none came. */
  method SkRecv(s: Connection, fd: int, room: nat) returns (ok: bool, data: Word, closed: bool)
    modifies s`calls
    ensures |data| <= room && (closed || !ok ==> data == []) && (closed ==> ok)
    ensures fd < 0 || room < 1 ==> !ok
    ensures s.calls == old(s.calls) + [Recv(fd, room, ok, data, closed)]
  {
    ok, data, closed := *, *, *;
    if |data| > room {
      data := data[..room];
    }
    if fd < 0 || room < 1 || !ok {
      ok, data := false, [];
    }
    if !ok || data != [] {
      closed := false;
    }
    s.calls := s.calls + [Recv(fd, room, ok, data, closed)];
  }

  /** `sk_tcp_client_nb`: an error, or a socket that may still have to wait for its connection.
      A new descriptor is not that of the client's socket, and never 0, which the source takes
      for no socket. */
  method SkConnect(s: Connection) returns (fd: int, wait: bool)
    requires s.clifd > 0
    modifies s`calls
    ensures fd != 0 && fd != s.clifd && s.calls == old(s.calls) + [Connect(fd, wait)]
  {
    fd, wait := *, *;
    if fd == 0 || fd == s.clifd {
      fd := -1;
    }
    s.calls := s.calls + [Connect(fd, wait)];
  }

  /** `sk_is_connected`. */
  method SkIsConnected(s: Connection, fd: int) returns (ok: bool)
    modifies s`calls
    ensures s.calls == old(s.calls) + [Connected(fd, ok)]
  {
    ok := *;
    s.calls := s.calls + [Connected(fd, ok)];
  }

  /** `epoll_ctl`, to add a socket to an epoll or to take it out. */
  method EpollCtl(s: Connection, epoll: Epoll, add: bool, fd: int) returns (ok: bool)
    modifies s`calls
    ensures s.calls == old(s.calls) + [Control(epoll, add, fd, ok)]
  {
    ok := *;
    s.calls := s.calls + [Control(epoll, add, fd, ok)];
  }

  // ---------- connections ----------

  function One(flag: bool): nat {
    if flag then 1 else 0
  }

  /** What an event finds and leaves of a connection. */
  datatype Sockets = Sockets(clifd: int, svrfd: int, cliblock: bool, svrblock: bool, svrwait: bool,
                             cliq: Side, svrq: Side, cliTrace: Trace, svrTrace: Trace, calls: seq<Call>)

  class Connection {
    var id: int
    var clifd: int
    var svrfd: int
    var nalloced: int
    var cliq: Side
    var svrq: Side
    var isClierror: bool
    var isCliclose: bool
    var isCliblock: bool
    var isSvrerror: bool
    var isSvrclose: bool
    var isSvrwait: bool
    var isSvrblock: bool

    ghost var cliTrace: Trace
    ghost var svrTrace: Trace
    /** The calls made for this connection. */
    ghost var calls: seq<Call>

    constructor (slot: int)
      ensures Settled() && Flags() == 0 && nalloced == 0 && id == slot && clifd == 0
      ensures cliq == EMPTY && !isSvrblock && !isSvrwait
      ensures svrTrace == cliTrace == Trace([], [], 0, 0)
    {
      id := slot;
      clifd, svrfd, nalloced, cliq, svrq := 0, 0, 0, EMPTY, EMPTY;
      isClierror, isCliclose, isCliblock, isSvrerror, isSvrclose := false, false, false, false, false;
      isSvrwait, isSvrblock := false, false;
      cliTrace, svrTrace, calls := Trace([], [], 0, 0), Trace([], [], 0, 0), [];
    }

    /** The sockets of this connection that wait in the send epoll. */
    ghost function Flags(): nat
      reads this`isSvrwait, this`isSvrblock, this`isCliblock
    {
      One(isSvrwait) + One(isSvrblock) + One(isCliblock)
    }

    ghost function View(): Sockets
      reads this`clifd, this`svrfd, this`isCliblock, this`isSvrblock, this`isSvrwait, this`cliq, this`svrq
      reads this`cliTrace, this`svrTrace, this`calls
    {
      Sockets(clifd, svrfd, isCliblock, isSvrblock, isSvrwait, cliq, svrq, cliTrace, svrTrace, calls)
    }

    /** The client's socket as the connection has it: what was received from the client, what was
        sent to it, and whether it waits to be writable. */
    ghost function ClientWire(): Wire
      reads this`clifd, this`isCliblock, this`cliTrace, this`svrTrace
    {
      Wire(cliTrace.received, svrTrace.sent, isCliblock, clifd > 0)
    }

    ghost function ServerWire(): Wire
      reads this`svrfd, this`isSvrwait, this`isSvrblock, this`cliTrace, this`svrTrace
    {
      Wire(svrTrace.received, cliTrace.sent, isSvrwait || isSvrblock, svrfd > 0 && !isSvrwait)
    }

    ghost predicate LoggedIn(log: seq<Call>)
      reads this`clifd, this`svrfd, this`isCliblock, this`isSvrwait, this`isSvrblock, this`cliTrace, this`svrTrace
    {
      Shows(log, clifd, svrfd, ClientWire(), ServerWire())
    }

    /** The log shows of both sockets what the connection has of them. */
    ghost predicate Logged()
      reads this`clifd, this`svrfd, this`isCliblock, this`isSvrwait, this`isSvrblock, this`cliTrace, this`svrTrace
      reads this`calls
    {
      LoggedIn(calls)
    }

    /** Every packet taken from the pool is held, or was forgotten. */
    ghost predicate Counted()
      reads this`nalloced, this`cliq, this`svrq, this`cliTrace, this`svrTrace
    {
      nalloced == Held(cliq) + Held(svrq) + cliTrace.leaks + svrTrace.leaks
    }

    ghost predicate ToClientFlows()
      reads this`svrq, this`isCliblock, this`svrTrace
    {
      Direction(svrq, isCliblock, svrTrace)
    }

    ghost predicate ToServerFlows()
      reads this`cliq, this`isSvrblock, this`cliTrace, this`isSvrwait, this`svrfd
    {
      Direction(cliq, isSvrblock, cliTrace) && ServerSocket()
    }

    ghost predicate ServerSocket()
      reads this`isSvrblock, this`isSvrwait, this`svrfd
    {
      !(isSvrwait && isSvrblock) && (isSvrwait || isSvrblock ==> svrfd > 0)
    }

    /** A new connection is registered for what its client sends; nothing else was called. */
    ghost predicate Entered(fd: int)
      reads this`clifd, this`calls
    {
      clifd == fd && calls == [Control(ForRecv, true, fd, true)]
    }

    /** What the log shows of the two sockets. */
    lemma Wires()
      requires Logged()
      ensures WireOf(calls, clifd) == ClientWire() && WireOf(calls, svrfd) == ServerWire()
    {
    }

    /** A server's socket comes with a client's, and is another one. */
    lemma SocketsApart()
      requires Logged() && svrfd > 0
      ensures clifd > 0 && svrfd != clifd
    {
    }

    /** Between events nothing waits to be sent without its socket being counted. */
    ghost predicate Settled()
      reads this
    {
      Sound() && ServerIdle()
    }

    /** The same, except that packets may wait for the server's socket. */
    ghost predicate Sound()
      reads this
    {
      && Counted() && ToClientFlows() && ToServerFlows() && ClientIdle() && Logged()
      && !isCliclose && !isSvrclose && !isClierror && !isSvrerror
    }

    /** Packets are to be sent to the server, and the client may have closed. */
    ghost predicate ToServer()
      reads this
    {
      && Counted() && ToClientFlows() && ToServerFlows() && ClientIdle() && Logged()
      && cliq.pkt.None? && (isSvrwait ==> cliq.outq != []) && !isSvrclose && !isClierror && !isSvrerror
    }

    /** Packets are to be sent to the client, and the server may have closed. */
    ghost predicate ToClient()
      reads this
    {
      && Counted() && ToClientFlows() && ToServerFlows() && ServerIdle() && Logged()
      && svrq.pkt.None? && !isCliclose && !isClierror && !isSvrerror
    }

    ghost predicate ClientIdle()
      reads this`svrq, this`isCliblock
    {
      svrq.pkt.None? && (!isCliblock ==> svrq.outq == [])
    }

    ghost predicate ServerIdle()
      reads this`cliq, this`isSvrblock, this`isSvrwait
    {
      cliq.pkt.None? && (!isSvrblock && !isSvrwait ==> cliq.outq == []) && (isSvrwait ==> cliq.outq != [])
    }
  }

  /** `_work_get_packet`, which has no packet when the pool is exhausted. */
  method GetPacket(s: Connection) returns (ok: bool)
    modifies s`nalloced, s`calls
    ensures s.nalloced == old(s.nalloced) + (if ok then 1 else 0) && s.calls == old(s.calls) + [Pool(ok)]
  {
    ok := *;
    if ok {
      s.nalloced := s.nalloced + 1;
    }
    s.calls := s.calls + [Pool(ok)];
  }

  class Worker {
    var nblocked: int
    const capacity: nat

    constructor (room: nat)
      ensures nblocked == 0 && capacity == room
    {
      nblocked, capacity := 0, room;
    }

    // ---------- sending to the client ----------

    /** A packet taken from the queue towards the client is in hand. */
    ghost predicate ClientSending(s: Connection, pkt: Packet)
      reads s
    {
      && s.nalloced == Held(s.cliq) + Held(s.svrq) + 1 + s.cliTrace.leaks + s.svrTrace.leaks
      && Live(pkt) && AllLive(s.svrq) && s.svrq.blkpkt.None? && s.svrq.pkt.None? && s.clifd > 0
      && Flow(s.svrTrace, Remaining(pkt) + QueueBytes(s.svrq.outq))
    }

    /** One turn of the loop: 0 to go on, 1 to stop, -1 on error. */
    method SendClientPacket(s: Connection, packet: Packet) returns (ret: int)
      requires ClientSending(s, packet) && s.Logged()
      modifies this`nblocked, s`svrq, s`nalloced, s`isClierror, s`isCliblock, s`svrTrace, s`calls
      ensures ret == 0 || ret == 1 || ret == -1
      ensures nblocked - s.Flags() == old(nblocked - s.Flags()) && s.Counted()
      ensures ret == 0 ==> && s.svrq == old(s.svrq) && !s.isCliblock && s.svrTrace.leaks == old(s.svrTrace.leaks)
                           && Flow(s.svrTrace, QueueBytes(s.svrq.outq))
      ensures ret == 1 ==> s.ToClientFlows() && s.svrq.pkt.None? && s.isCliblock
      ensures s.svrTrace.leaks == old(s.svrTrace.leaks) + if ret == 1 && old(s.isCliblock) then 1 else 0
      ensures ret == 0 ==> |s.svrTrace.sent| == |old(s.svrTrace.sent)| + |Remaining(packet)|
      ensures ret == 1 ==> |old(s.svrTrace.sent)| <= |s.svrTrace.sent| < |old(s.svrTrace.sent)| + |Remaining(packet)|
      ensures s.Logged() && (ret != -1 ==> s.isClierror == old(s.isClierror))
      ensures Tried(old(s.calls), s.calls, s.clifd, 0, ret == -1)
      ensures SendsAt(s.calls, |old(s.calls)|, s.clifd, Remaining(packet))
    {
      hide Shows;
      var n := SkSend(s, s.clifd, Remaining(packet));
      TriedOne(old(s.calls), Send(s.clifd, Remaining(packet), n), s.clifd, 0);
      if n < 0 {
        ShowsSame(old(s.calls), Send(s.clifd, Remaining(packet), n), s.clifd, s.svrfd, s.ClientWire(), s.ServerWire());
        s.isClierror := true;
        s.nalloced := s.nalloced - 1;
        return -1;
      }
      ghost var sent := s.calls;
      ret := SentToClient(s, packet, n, old(s.calls));
      TriedThen(old(s.calls), sent, s.calls, s.clifd, 0, ret == -1);
    }

    /** After `n` bytes of the packet were sent. */
    method SentToClient(s: Connection, packet: Packet, n: nat, ghost before: seq<Call>) returns (ret: int)
      requires ClientSending(s, packet) && n <= |Remaining(packet)|
      requires s.calls == before + [Send(s.clifd, Remaining(packet), n)] && s.LoggedIn(before)
      modifies this`nblocked, s`svrq, s`nalloced, s`isCliblock, s`svrTrace, s`calls
      ensures ret == 0 || ret == 1 || ret == -1
      ensures nblocked - s.Flags() == old(nblocked - s.Flags()) && s.Counted()
      ensures ret == 0 ==> && s.svrq == old(s.svrq) && !s.isCliblock && s.svrTrace.leaks == old(s.svrTrace.leaks)
                           && Flow(s.svrTrace, QueueBytes(s.svrq.outq))
      ensures ret == 1 ==> s.ToClientFlows() && s.svrq.pkt.None? && s.isCliblock
      ensures s.svrTrace.leaks == old(s.svrTrace.leaks) + if ret == 1 && old(s.isCliblock) then 1 else 0
      ensures ret == 0 ==> |s.svrTrace.sent| == |old(s.svrTrace.sent)| + |Remaining(packet)|
      ensures ret == 1 ==> |old(s.svrTrace.sent)| <= |s.svrTrace.sent| < |old(s.svrTrace.sent)| + |Remaining(packet)|
      ensures old(s.isCliblock) && n < |Remaining(packet)| ==>
                && ret == 1 && s.svrTrace == Leaked(Sent(old(s.svrTrace), packet, n), Rest(packet, n))
                && s.svrq == old(s.svrq) && s.nalloced == old(s.nalloced)
      ensures s.Logged() && Tried(old(s.calls), s.calls, s.clifd, 0, ret == -1)
    {
      hide Shows;
      ShowsNext(before, Send(s.clifd, Remaining(packet), n), s.clifd, s.svrfd, s.ClientWire(), s.ServerWire());
      FlowSend(s.svrTrace, packet, QueueBytes(s.svrq.outq), n);
      s.svrTrace := Sent(s.svrTrace, packet, n);
      var pkt := Rest(packet, n);
      if n < |Remaining(packet)| {
        ret := BlockClient(s, pkt);
      } else {
        ret := UnblockClient(s);
      }
    }

    /** Sent in part: the packet waits, unless the socket was blocked already. */
    method BlockClient(s: Connection, pkt: Packet) returns (ret: int)
      requires ClientSending(s, pkt) && s.Logged()
      modifies this`nblocked, s`svrq, s`nalloced, s`isCliblock, s`svrTrace, s`calls
      ensures ret == 1 || ret == -1
      ensures nblocked - s.Flags() == old(nblocked - s.Flags()) && s.Counted()
      ensures ret == 1 ==> s.ToClientFlows() && s.svrq.pkt.None? && s.isCliblock
      ensures old(s.isCliblock) ==> ret == 1 && s.svrq == old(s.svrq) && s.nalloced == old(s.nalloced)
      ensures s.svrTrace == if ret == 1 && old(s.isCliblock) then Leaked(old(s.svrTrace), pkt) else old(s.svrTrace)
      ensures s.Logged() && Tried(old(s.calls), s.calls, s.clifd, 0, ret == -1)
    {
      if s.isCliblock {
        FlowLeak(s.svrTrace, pkt, QueueBytes(s.svrq.outq));
        s.svrTrace := Leaked(s.svrTrace, pkt);
        PendingOf(s.svrq);
        return 1;
      }
      var ok := EpollCtl(s, ForSend, true, s.clifd);
      LogControl(s, old(s.calls), ForSend, true, s.clifd, ok);
      if !ok {
        s.nalloced := s.nalloced - 1;
        return -1;
      }
      s.svrq := s.svrq.(blkpkt := Some(pkt));
      PendingOf(s.svrq);
      s.isCliblock := true;
      nblocked := nblocked + 1;
      return 1;
    }

    /** What an answer of `epoll_ctl` shows. */
    lemma LogControl(s: Connection, before: seq<Call>, epoll: Epoll, add: bool, fd: int, ok: bool)
      requires s.LoggedIn(before) && s.clifd > 0 && (fd == s.clifd || (fd == s.svrfd && s.svrfd > 0))
      ensures var c := Control(epoll, add, fd, ok);
              && Shows(before + [c], s.clifd, s.svrfd,
                       Step(s.ClientWire(), c, s.clifd), Step(s.ServerWire(), c, s.svrfd))
              && Tried(before, before + [c], fd, 0, !ok) && Tried(before, before + [c], fd, 1, !ok)
    {
      ShowsNext(before, Control(epoll, add, fd, ok), s.clifd, s.svrfd, s.ClientWire(), s.ServerWire());
    }

    /** Sent completely: the socket is not blocked any more, and the packet goes back. */
    method UnblockClient(s: Connection) returns (ret: int)
      requires s.nalloced == Held(s.cliq) + Held(s.svrq) + 1 + s.cliTrace.leaks + s.svrTrace.leaks
      requires s.Logged() && s.clifd > 0
      modifies this`nblocked, s`nalloced, s`isCliblock, s`calls
      ensures ret == 0 || ret == -1
      ensures nblocked - s.Flags() == old(nblocked - s.Flags()) && s.Counted()
      ensures ret == 0 ==> !s.isCliblock
      ensures s.Logged() && Tried(old(s.calls), s.calls, s.clifd, 0, ret == -1)
    {
      if s.isCliblock {
        var ok := EpollCtl(s, ForSend, false, s.clifd);
        LogControl(s, old(s.calls), ForSend, false, s.clifd, ok);
        if !ok {
          s.nalloced := s.nalloced - 1;
          return -1;
        }
        s.isCliblock := false;
        nblocked := nblocked - 1;
      }
      s.nalloced := s.nalloced - 1;
      return 0;
    }

    /** The blocked packet, or else the first one of the queue. */
    method TakeClientPacket(s: Connection) returns (pkt: Packet)
      requires s.Counted() && s.svrq.pkt.None? && AllLive(s.svrq) && Flow(s.svrTrace, Pending(s.svrq)) &&
                HasFirst(s.svrq) && s.clifd > 0
      modifies s`svrq
      ensures old(s.svrq.blkpkt).Some? ==> s.svrq == old(s.svrq).(blkpkt := None)
      ensures ClientSending(s, pkt) && pkt == First(old(s.svrq)) && |s.svrq.outq| <= |old(s.svrq.outq)|
      ensures old(s.svrq.blkpkt).None? ==> |s.svrq.outq| < |old(s.svrq.outq)|
    {
      PendingOf(s.svrq);
      if s.svrq.blkpkt.Some? {
        pkt := s.svrq.blkpkt.value;
        s.svrq := s.svrq.(blkpkt := None);
      } else {
        pkt := s.svrq.outq[0];
        s.svrq := s.svrq.(outq := s.svrq.outq[1..]);
      }
    }

    /** `_work_sendto_client`: the blocked packet first, then the queue. */
    method SendToClient(s: Connection) returns (ret: int)
      requires s.Counted() && s.ToClientFlows() && s.svrq.pkt.None? && s.Logged() && s.clifd > 0
      modifies this`nblocked, s`svrq, s`nalloced, s`isClierror, s`isCliblock, s`svrTrace, s`calls
      ensures ret == 0 || ret == -1
      ensures !old(HasFirst(s.svrq)) ==>
                ret == 0 && s.svrq == old(s.svrq) && s.svrTrace == old(s.svrTrace) && s.calls == old(s.calls)
      ensures old(HasFirst(s.svrq)) ==>
                SendsAt(s.calls, |old(s.calls)|, s.clifd, Remaining(First(old(s.svrq))))
      ensures nblocked - s.Flags() == old(nblocked - s.Flags()) && s.Counted()
      ensures ret == 0 ==> s.ToClientFlows() && s.svrq.pkt.None? && s.isClierror == old(s.isClierror)
      ensures ret == 0 && !s.isCliblock ==> s.svrq.outq == []
      ensures s.svrTrace.leaks == old(s.svrTrace.leaks) +
                if ret == 0 && CutAgain(old(s.isCliblock), old(s.svrq), |old(s.svrTrace.sent)|, |s.svrTrace.sent|)
                then 1 else 0
      ensures s.Logged() && Tried(old(s.calls), s.calls, s.clifd, 0, ret == -1)
    {
      hide Shows, Pending, Flow, Direction;
      if |s.svrq.outq| < 1 && s.svrq.blkpkt.None? {
        return 0;
      }
      ret := SendAllToClient(s);
    }

    /** One turn of the loop and the packet for the next one. */
    method TurnToClient(s: Connection, packet: Packet, ghost before: seq<Call>) returns (ret: int, next: Option<Packet>)
      requires ClientSending(s, packet) && s.Logged() && Tried(before, s.calls, s.clifd, 0, false)
      modifies this`nblocked, s`svrq, s`nalloced, s`isClierror, s`isCliblock, s`svrTrace, s`calls
      ensures ret == 0 || ret == 1 || ret == -1
      ensures nblocked - s.Flags() == old(nblocked - s.Flags()) && s.Logged()
      ensures Tried(before, s.calls, s.clifd, 0, ret == -1) && old(s.calls) <= s.calls
      ensures SendsAt(s.calls, |old(s.calls)|, s.clifd, Remaining(packet))
      ensures ret != -1 ==> s.isClierror == old(s.isClierror)
      ensures ret != 0 ==> s.Counted()
      ensures s.svrTrace.leaks == old(s.svrTrace.leaks) + if ret == 1 && old(s.isCliblock) then 1 else 0
      ensures ret == 1 ==> s.ToClientFlows() && s.svrq.pkt.None? && s.isCliblock
      ensures ret == 1 ==> |old(s.svrTrace.sent)| <= |s.svrTrace.sent| < |old(s.svrTrace.sent)| + |Remaining(packet)|
      ensures ret == 0 ==> |s.svrTrace.sent| == |old(s.svrTrace.sent)| + |Remaining(packet)| && !s.isCliblock
      ensures ret == 0 && next.Some? ==> ClientSending(s, next.value) && |s.svrq.outq| < |old(s.svrq.outq)|
      ensures ret == 0 && next.None? ==> s.svrq == EMPTY && s.Counted() && Flow(s.svrTrace, [])
    {
      hide Shows;
      next := None;
      ghost var mid := s.calls;
      ret := SendClientPacket(s, packet);
      TriedThen(before, mid, s.calls, s.clifd, 0, ret == -1);
      if ret == 0 && s.svrq.outq != [] {
        PendingOf(s.svrq);
        var pkt := TakeClientPacket(s);
        next := Some(pkt);
      }
    }

    method SendAllToClient(s: Connection) returns (ret: int)
      requires s.Counted() && s.ToClientFlows() && s.svrq.pkt.None? && HasFirst(s.svrq) && s.Logged() && s.clifd > 0
      modifies this`nblocked, s`svrq, s`nalloced, s`isClierror, s`isCliblock, s`svrTrace, s`calls
      ensures ret == 0 || ret == -1
      ensures nblocked - s.Flags() == old(nblocked - s.Flags()) && s.Counted()
      ensures ret == 0 ==> s.ToClientFlows() && s.svrq.pkt.None? && s.isClierror == old(s.isClierror)
      ensures ret == 0 && !s.isCliblock ==> s.svrq.outq == []
      ensures s.svrTrace.leaks == old(s.svrTrace.leaks) +
                if ret == 0 && CutAgain(old(s.isCliblock), old(s.svrq), |old(s.svrTrace.sent)|, |s.svrTrace.sent|)
                then 1 else 0
      ensures s.Logged() && Tried(old(s.calls), s.calls, s.clifd, 0, ret == -1)
      ensures SendsAt(s.calls, |old(s.calls)|, s.clifd, Remaining(First(old(s.svrq))))
    {
      hide Shows;
      PendingOf(s.svrq);
      ghost var first, before := First(s.svrq), s.calls;
      var next := TakeClientPacket(s);
      var pkt := Some(next);
      while pkt.Some?
        invariant nblocked - s.Flags() == old(nblocked - s.Flags()) && s.svrTrace.leaks == old(s.svrTrace.leaks)
        invariant (|s.svrTrace.sent| == |old(s.svrTrace.sent)| && pkt == Some(first) &&
                  s.isCliblock == old(s.isCliblock) && s.calls == before)
                  || (|s.svrTrace.sent| >= |old(s.svrTrace.sent)| + |Remaining(first)| && !s.isCliblock
                  && SendsAt(s.calls, |before|, s.clifd, Remaining(first)))
        invariant s.Logged() && Tried(before, s.calls, s.clifd, 0, false) && s.isClierror == old(s.isClierror)
        invariant pkt.Some? ==> ClientSending(s, pkt.value)
        invariant pkt.None? ==> !s.isCliblock && s.svrq == EMPTY && s.Counted() && Flow(s.svrTrace, [])
        decreases |s.svrq.outq|, if pkt.Some? then 1 else 0
      {
        var r, following := TurnToClient(s, pkt.value, before);
        if r == -1 {
          return -1;
        }
        if r == 1 {
          break;
        }
        pkt := following;
      }
      PendingOf(s.svrq);
      return 0;
    }

    // ---------- sending to the server ----------

    ghost predicate ServerSending(s: Connection, pkt: Packet)
      reads s
    {
      && s.nalloced == Held(s.cliq) + Held(s.svrq) + 1 + s.cliTrace.leaks + s.svrTrace.leaks
      && Live(pkt) && AllLive(s.cliq) && s.cliq.blkpkt.None? && s.cliq.pkt.None? && !s.isSvrwait
      && s.svrfd > 0 && s.clifd > 0 && Flow(s.cliTrace, Remaining(pkt) + QueueBytes(s.cliq.outq))
    }

    /** One turn of the loop: 0 to go on, 1 to stop, -1 on error; sending nothing is an error here. */
    method SendServerPacket(s: Connection, packet: Packet) returns (ret: int)
      requires ServerSending(s, packet) && s.Logged()
      modifies this`nblocked, s`cliq, s`nalloced, s`isSvrerror, s`isSvrblock, s`cliTrace, s`calls
      ensures ret == 0 || ret == 1 || ret == -1
      ensures nblocked - s.Flags() == old(nblocked - s.Flags()) && s.Counted()
      ensures ret == 0 ==> && s.cliq == old(s.cliq) && !s.isSvrblock && s.cliTrace.leaks == old(s.cliTrace.leaks)
                           && Flow(s.cliTrace, QueueBytes(s.cliq.outq))
      ensures ret == 1 ==> s.ToServerFlows() && s.cliq.pkt.None? && s.isSvrblock
      ensures s.cliTrace.leaks == old(s.cliTrace.leaks) + if ret == 1 && old(s.isSvrblock) then 1 else 0
      ensures ret == 0 ==> |s.cliTrace.sent| == |old(s.cliTrace.sent)| + |Remaining(packet)|
      ensures ret == 1 ==> |old(s.cliTrace.sent)| <= |s.cliTrace.sent| < |old(s.cliTrace.sent)| + |Remaining(packet)|
      ensures s.Logged() && (ret != -1 ==> s.isSvrerror == old(s.isSvrerror))
      ensures Tried(old(s.calls), s.calls, s.svrfd, 1, ret == -1)
      ensures SendsAt(s.calls, |old(s.calls)|, s.svrfd, Remaining(packet))
    {
      hide Shows;
      var bytes := Remaining(packet);
      var n := SkSend(s, s.svrfd, bytes);
      TriedOne(old(s.calls), Send(s.svrfd, bytes, n), s.svrfd, 1);
      ShowsNext(old(s.calls), Send(s.svrfd, bytes, n), s.clifd, s.svrfd, s.ClientWire(), s.ServerWire());
      if n <= 0 {
        SentNothing(s.cliTrace.sent, bytes);
        s.isSvrerror := true;
        s.nalloced := s.nalloced - 1;
        return -1;
      }
      FlowSend(s.cliTrace, packet, QueueBytes(s.cliq.outq), n);
      s.cliTrace := Sent(s.cliTrace, packet, n);
      ghost var mid := s.calls;
      ret := SentToServer(s, Rest(packet, n), n < |bytes|);
      TriedThen(old(s.calls), mid, s.calls, s.svrfd, 1, ret == -1);
    }

    /** After a packet was sent in part or completely. */
    method SentToServer(s: Connection, pkt: Packet, short: bool) returns (ret: int)
      requires s.nalloced == Held(s.cliq) + Held(s.svrq) + 1 + s.cliTrace.leaks + s.svrTrace.leaks
      requires s.Logged() && s.clifd > 0 && s.svrfd > 0 && !s.isSvrwait && (short ==> ServerSending(s, pkt))
      modifies this`nblocked, s`cliq, s`nalloced, s`isSvrerror, s`isSvrblock, s`cliTrace, s`calls
      ensures nblocked - s.Flags() == old(nblocked - s.Flags()) && s.Counted()
      ensures if short then ret == 1 || ret == -1 else ret == 0 || ret == -1
      ensures ret == 1 ==> s.ToServerFlows() && s.cliq.pkt.None? && s.isSvrblock
      ensures ret == 0 ==> !s.isSvrblock
      ensures !short ==> s.cliq == old(s.cliq)
      ensures s.cliTrace == if ret == 1 && old(s.isSvrblock) then Leaked(old(s.cliTrace), pkt) else old(s.cliTrace)
      ensures s.Logged() && Tried(old(s.calls), s.calls, s.svrfd, 1, ret == -1)
      ensures ret != -1 ==> s.isSvrerror == old(s.isSvrerror)
    {
      hide Shows;
      if short {
        ret := BlockServer(s, pkt);
      } else {
        ret := UnblockServer(s);
      }
    }

    lemma SentNothing(sent: Word, bytes: Word)
      ensures sent + bytes[..0] == sent
    {
    }

    /** Sent in part: the packet waits, unless the socket was blocked already. */
    method BlockServer(s: Connection, pkt: Packet) returns (ret: int)
      requires ServerSending(s, pkt) && s.Logged()
      modifies this`nblocked, s`cliq, s`nalloced, s`isSvrerror, s`isSvrblock, s`cliTrace, s`calls
      ensures ret == 1 || ret == -1
      ensures nblocked - s.Flags() == old(nblocked - s.Flags()) && s.Counted()
      ensures ret == 1 ==> s.ToServerFlows() && s.cliq.pkt.None? && s.isSvrblock && s.isSvrerror == old(s.isSvrerror)
      ensures s.cliTrace == if ret == 1 && old(s.isSvrblock) then Leaked(old(s.cliTrace), pkt) else old(s.cliTrace)
      ensures s.Logged() && Tried(old(s.calls), s.calls, s.svrfd, 1, ret == -1)
    {
      if s.isSvrblock {
        FlowLeak(s.cliTrace, pkt, QueueBytes(s.cliq.outq));
        s.cliTrace := Leaked(s.cliTrace, pkt);
        PendingOf(s.cliq);
        return 1;
      }
      var ok := EpollCtl(s, ForSend, true, s.svrfd);
      LogControl(s, old(s.calls), ForSend, true, s.svrfd, ok);
      if !ok {
        s.isSvrerror := true;
        s.nalloced := s.nalloced - 1;
        return -1;
      }
      s.cliq := s.cliq.(blkpkt := Some(pkt));
      PendingOf(s.cliq);
      s.isSvrblock := true;
      nblocked := nblocked + 1;
      return 1;
    }

    /** Sent completely: the socket is not blocked any more, and the packet goes back. */
    method UnblockServer(s: Connection) returns (ret: int)
      requires s.nalloced == Held(s.cliq) + Held(s.svrq) + 1 + s.cliTrace.leaks + s.svrTrace.leaks
      requires s.Logged() && s.clifd > 0 && s.svrfd > 0 && !s.isSvrwait
      modifies this`nblocked, s`nalloced, s`isSvrerror, s`isSvrblock, s`calls
      ensures ret == 0 || ret == -1
      ensures nblocked - s.Flags() == old(nblocked - s.Flags()) && s.Counted()
      ensures ret == 0 ==> !s.isSvrblock && s.isSvrerror == old(s.isSvrerror)
      ensures s.Logged() && Tried(old(s.calls), s.calls, s.svrfd, 1, ret == -1)
    {
      if s.isSvrblock {
        var ok := EpollCtl(s, ForSend, false, s.svrfd);
        LogControl(s, old(s.calls), ForSend, false, s.svrfd, ok);
        if !ok {
          s.isSvrerror := true;
          s.nalloced := s.nalloced - 1;
          return -1;
        }
        s.isSvrblock := false;
        nblocked := nblocked - 1;
      }
      s.nalloced := s.nalloced - 1;
      return 0;
    }

    /** The blocked packet, or else the first one of the queue. */
    method TakeServerPacket(s: Connection) returns (pkt: Packet)
      requires s.Counted() && s.cliq.pkt.None? && AllLive(s.cliq) && Flow(s.cliTrace, Pending(s.cliq)) &&
                HasFirst(s.cliq) && !s.isSvrwait && s.svrfd > 0 && s.clifd > 0
      modifies s`cliq
      ensures ServerSending(s, pkt) && pkt == First(old(s.cliq)) && |s.cliq.outq| <= |old(s.cliq.outq)|
      ensures old(s.cliq.blkpkt).None? ==> |s.cliq.outq| < |old(s.cliq.outq)|
    {
      PendingOf(s.cliq);
      if s.cliq.blkpkt.Some? {
        pkt := s.cliq.blkpkt.value;
        s.cliq := s.cliq.(blkpkt := None);
      } else {
        pkt := s.cliq.outq[0];
        s.cliq := s.cliq.(outq := s.cliq.outq[1..]);
      }
    }

    /** `_work_get_server`: connect if there is no server socket yet. */
    method GetServer(s: Connection) returns (ret: int)
      requires s.Logged() && s.clifd > 0 && (s.svrfd <= 0 ==> !s.isSvrwait && !s.isSvrblock)
      modifies this`nblocked, s`svrfd, s`isSvrwait, s`isSvrerror, s`calls
      ensures ret == 0 || ret == -1
      ensures nblocked - s.Flags() == old(nblocked - s.Flags()) && s.Logged()
      ensures ret == 0 ==> s.svrfd > 0 && s.isSvrerror == old(s.isSvrerror)
      ensures old(s.svrfd) > 0 ==> ret == 0 && s.svrfd == old(s.svrfd) && s.isSvrwait == old(s.isSvrwait)
                                   && s.calls == old(s.calls)
      ensures ret == -1 ==> s.isSvrerror && s.svrfd <= 0
      ensures old(s.svrfd) <= 0 && ret == 0 ==>
                s.calls == old(s.calls) + [Connect(s.svrfd, s.isSvrwait)]
                           + [Control(if s.isSvrwait then ForSend else ForRecv, true, s.svrfd, true)]
      ensures ret == -1 ==> NotConnected(old(s.calls), s.calls)
    {
      if s.svrfd > 0 {
        return 0;
      }
      var fd, wait := SkConnect(s);
      ShowsSame(old(s.calls), Connect(fd, wait), s.clifd, s.svrfd, s.ClientWire(), s.ServerWire());
      if fd < 0 {
        s.isSvrerror := true;
        return -1;
      }
      ret := EnterServer(s, fd, wait, old(s.calls));
    }

    /** A new server socket is registered, to wait for its connection or to be read from. */
    method EnterServer(s: Connection, fd: int, wait: bool, ghost before: seq<Call>) returns (ret: int)
      requires s.Logged() && s.LoggedIn(before) && s.calls == before + [Connect(fd, wait)]
      requires s.clifd > 0 && s.svrfd <= 0 && fd > 0 && fd != s.clifd && !s.isSvrwait && !s.isSvrblock
      modifies this`nblocked, s`svrfd, s`isSvrwait, s`isSvrerror, s`calls
      ensures ret == 0 || ret == -1
      ensures nblocked - s.Flags() == old(nblocked - s.Flags()) && s.Logged()
      ensures if ret == 0 then s.svrfd == fd && s.isSvrwait == wait && s.isSvrerror == old(s.isSvrerror)
              else s.svrfd == old(s.svrfd) && s.isSvrwait == old(s.isSvrwait) && s.isSvrerror
      ensures s.calls == old(s.calls) + [Control(if wait then ForSend else ForRecv, true, fd, ret == 0)]
    {
      var ok := EpollCtl(s, if wait then ForSend else ForRecv, true, fd);
      if !ok {
        ShowsSame(old(s.calls), Control(if wait then ForSend else ForRecv, true, fd, false), s.clifd, s.svrfd,
                  s.ClientWire(), s.ServerWire());
        s.isSvrerror := true;
        return -1;
      }
      ShowsConnect(before, s.clifd, s.svrfd, s.ClientWire(), s.ServerWire(), fd, wait);
      if wait {
        nblocked := nblocked + 1;
        s.isSvrwait := true;
      }
      s.svrfd := fd;
      return 0;
    }

    /** `_work_sendto_server`. */
    method SendToServer(s: Connection) returns (ret: int)
      requires s.Counted() && s.ToServerFlows() && s.cliq.pkt.None? && (s.isSvrwait ==> s.cliq.outq != [])
      requires s.Logged() && s.clifd > 0
      modifies this`nblocked, s`svrfd, s`cliq, s`nalloced, s`isSvrerror, s`isSvrwait, s`isSvrblock, s`cliTrace, s`calls
      ensures ret == 0 || ret == -1
      ensures !old(HasFirst(s.cliq)) || old(s.isSvrwait) ==>
                ret == 0 && s.cliq == old(s.cliq) && s.cliTrace == old(s.cliTrace) && s.calls == old(s.calls)
      ensures old(HasFirst(s.cliq)) && !old(s.isSvrwait) ==>
                StartsAt(s.calls, |old(s.calls)|, old(s.svrfd), Remaining(First(old(s.cliq))))
      ensures ret == 0 && s.isSvrwait ==> s.cliq.outq != []
      ensures old(s.svrfd) > 0 ==> s.svrfd == old(s.svrfd)
      ensures nblocked - s.Flags() == old(nblocked - s.Flags()) && s.Counted()
      ensures ret == 0 ==> s.ToServerFlows() && s.cliq.pkt.None? && s.isSvrerror == old(s.isSvrerror)
      ensures ret == 0 && !s.isSvrblock && !s.isSvrwait ==> s.cliq.outq == []
      ensures s.cliTrace.leaks == old(s.cliTrace.leaks) +
                if ret == 0 && CutAgain(old(s.isSvrblock), old(s.cliq), |old(s.cliTrace.sent)|, |s.cliTrace.sent|)
                then 1 else 0
      ensures s.Logged()
      ensures Tried(old(s.calls), s.calls, Peer(s.calls, |old(s.calls)|, old(s.svrfd)), 1, ret == -1)
    {
      hide Shows, Pending, Flow;
      if |s.cliq.outq| < 1 && s.cliq.blkpkt.None? {
        return 0;
      }
      var got := GetServer(s);
      if got != 0 {
        return -1;
      }
      if s.isSvrwait {
        return 0;
      }
      ghost var mid := s.calls;
      ret := SendAllToServer(s);
      SentBehind(old(s.calls), mid, s.calls, old(s.svrfd), s.svrfd, Remaining(First(old(s.cliq))), ret == -1);
    }

    /** The calls of a send that began with connecting, or not. */
    lemma SentBehind(before: seq<Call>, mid: seq<Call>, after: seq<Call>, was: int, svrfd: int, bytes: Word,
                     failed: bool)
      requires svrfd > 0 && Tried(mid, after, svrfd, 1, failed) && SendsAt(after, |mid|, svrfd, bytes)
      requires if was > 0 then mid == before && was == svrfd
               else mid == before + [Connect(svrfd, false)] + [Control(ForRecv, true, svrfd, true)]
      ensures StartsAt(after, |before|, was, bytes)
      ensures Tried(before, after, Peer(after, |before|, was), 1, failed)
    {
      if was <= 0 {
        assert after[|before|] == mid[|before|] == Connect(svrfd, false);
        assert Tried(before, mid, svrfd, 1, false);
        TriedThen(before, mid, after, svrfd, 1, failed);
      }
    }

    /** One turn of the loop and the packet for the next one. */
    method TurnToServer(s: Connection, packet: Packet, ghost before: seq<Call>) returns (ret: int, next: Option<Packet>)
      requires ServerSending(s, packet) && s.Logged() && Tried(before, s.calls, s.svrfd, 1, false)
      modifies this`nblocked, s`cliq, s`nalloced, s`isSvrerror, s`isSvrblock, s`cliTrace, s`calls
      ensures ret == 0 || ret == 1 || ret == -1
      ensures nblocked - s.Flags() == old(nblocked - s.Flags()) && s.Logged()
      ensures Tried(before, s.calls, s.svrfd, 1, ret == -1) && old(s.calls) <= s.calls
      ensures SendsAt(s.calls, |old(s.calls)|, s.svrfd, Remaining(packet))
      ensures ret != -1 ==> s.isSvrerror == old(s.isSvrerror)
      ensures ret != 0 ==> s.Counted()
      ensures s.cliTrace.leaks == old(s.cliTrace.leaks) + if ret == 1 && old(s.isSvrblock) then 1 else 0
      ensures ret == 1 ==> s.ToServerFlows() && s.cliq.pkt.None? && s.isSvrblock
      ensures ret == 1 ==> |old(s.cliTrace.sent)| <= |s.cliTrace.sent| < |old(s.cliTrace.sent)| + |Remaining(packet)|
      ensures ret == 0 ==> |s.cliTrace.sent| == |old(s.cliTrace.sent)| + |Remaining(packet)| && !s.isSvrblock
      ensures ret == 0 && next.Some? ==> ServerSending(s, next.value) && |s.cliq.outq| < |old(s.cliq.outq)|
      ensures ret == 0 && next.None? ==> s.cliq == EMPTY && s.Counted() && Flow(s.cliTrace, [])
    {
      hide Shows;
      next := None;
      ghost var mid := s.calls;
      ret := SendServerPacket(s, packet);
      TriedThen(before, mid, s.calls, s.svrfd, 1, ret == -1);
      if ret == 0 && s.cliq.outq != [] {
        PendingOf(s.cliq);
        var pkt := TakeServerPacket(s);
        next := Some(pkt);
      }
    }

    method SendAllToServer(s: Connection) returns (ret: int)
      requires s.Counted() && s.ToServerFlows() && s.cliq.pkt.None? && !s.isSvrwait && s.svrfd > 0
      requires HasFirst(s.cliq) && s.Logged() && s.clifd > 0
      modifies this`nblocked, s`cliq, s`nalloced, s`isSvrerror, s`isSvrblock, s`cliTrace, s`calls
      ensures ret == 0 || ret == -1
      ensures nblocked - s.Flags() == old(nblocked - s.Flags()) && s.Counted()
      ensures ret == 0 ==> s.ToServerFlows() && s.cliq.pkt.None? && s.isSvrerror == old(s.isSvrerror)
      ensures ret == 0 && !s.isSvrblock ==> s.cliq.outq == []
      ensures s.cliTrace.leaks == old(s.cliTrace.leaks) +
                if ret == 0 && CutAgain(old(s.isSvrblock), old(s.cliq), |old(s.cliTrace.sent)|, |s.cliTrace.sent|)
                then 1 else 0
      ensures s.Logged() && Tried(old(s.calls), s.calls, s.svrfd, 1, ret == -1)
      ensures SendsAt(s.calls, |old(s.calls)|, s.svrfd, Remaining(First(old(s.cliq))))
    {
      hide Shows;
      ghost var first, before := First(s.cliq), s.calls;
      var next := TakeServerPacket(s);
      var pkt := Some(next);
      while pkt.Some?
        invariant nblocked - s.Flags() == old(nblocked - s.Flags()) && s.cliTrace.leaks == old(s.cliTrace.leaks)
        invariant (|s.cliTrace.sent| == |old(s.cliTrace.sent)| && pkt == Some(first) &&
                  s.isSvrblock == old(s.isSvrblock) && s.calls == before)
                  || (|s.cliTrace.sent| >= |old(s.cliTrace.sent)| + |Remaining(first)| && !s.isSvrblock
                  && SendsAt(s.calls, |before|, s.svrfd, Remaining(first)))
        invariant s.Logged() && Tried(before, s.calls, s.svrfd, 1, false) && s.isSvrerror == old(s.isSvrerror)
        invariant pkt.Some? ==> ServerSending(s, pkt.value)
        invariant pkt.None? ==> !s.isSvrblock && s.cliq == EMPTY && s.Counted() && Flow(s.cliTrace, [])
        decreases |s.cliq.outq|, if pkt.Some? then 1 else 0
      {
        var r, following := TurnToServer(s, pkt.value, before);
        if r == -1 {
          return -1;
        }
        if r == 1 {
          break;
        }
        pkt := following;
      }
      PendingOf(s.cliq);
      return 0;
    }

    /** `_work_check_server`: the connection has come about, or has failed. */
    method CheckServer(s: Connection) returns (ret: int)
      requires s.isSvrwait && !s.isSvrblock && s.svrfd > 0 && s.clifd > 0 && s.Logged()
      modifies this`nblocked, s`isSvrwait, s`calls
      ensures ret == 0 || ret == -1
      ensures nblocked - s.Flags() == old(nblocked - s.Flags())
      ensures ret == 0 ==> !s.isSvrwait && s.Logged()
      ensures ret == 0 ==>
                s.calls == old(s.calls) + [Connected(s.svrfd, true)]
                           + [Control(ForSend, false, s.svrfd, true)] + [Control(ForRecv, true, s.svrfd, true)]
      ensures Tried(old(s.calls), s.calls, s.svrfd, 1, ret == -1)
      ensures |old(s.calls)| < |s.calls| <= |old(s.calls)| + 3 && s.calls[|old(s.calls)|].Connected?
    {
      var connected := SkIsConnected(s, s.svrfd);
      if !connected {
        return -1;
      }
      s.isSvrwait := false;
      nblocked := nblocked - 1;
      var removed := EpollCtl(s, ForSend, false, s.svrfd);
      if !removed {
        return -1;
      }
      var added := EpollCtl(s, ForRecv, true, s.svrfd);
      if !added {
        return -1;
      }
      ServerEntered(old(s.calls), s.clifd, s.svrfd, s.ClientWire(), s.ServerWire());
      return 0;
    }

    /** The server's socket moves from one epoll to the other. */
    lemma ServerEntered(before: seq<Call>, clifd: int, svrfd: int, client: Wire, server: Wire)
      requires Shows(before, clifd, svrfd, client, server.(forSend := true, forRecv := false)) && clifd > 0 && svrfd > 0
      requires !server.forSend && server.forRecv
      ensures Shows(before + [Connected(svrfd, true)] + [Control(ForSend, false, svrfd, true)]
                    + [Control(ForRecv, true, svrfd, true)], clifd, svrfd, client, server)
    {
      var w := server.(forSend := true, forRecv := false);
      var one := before + [Connected(svrfd, true)];
      var two := one + [Control(ForSend, false, svrfd, true)];
      ShowsNext(before, Connected(svrfd, true), clifd, svrfd, client, w);
      ShowsNext(one, Control(ForSend, false, svrfd, true), clifd, svrfd, client, w);
      ShowsNext(two, Control(ForRecv, true, svrfd, true), clifd, svrfd, client, w.(forSend := false));
    }

    // ---------- receiving ----------

    /** `_work_recvfrom_client`. */
    method ReceiveFromClient(s: Connection) returns (ret: int, ghost data: Word)
      requires s.Counted() && s.ToServerFlows() && s.cliq.pkt.None? && s.Logged() && s.clifd > 0 && !s.isCliclose
      modifies s`cliq, s`nalloced, s`isClierror, s`isCliclose, s`cliTrace, s`calls
      ensures ret == 0 || ret == -1
      ensures s.cliq.outq == old(s.cliq.outq)
      ensures s.isCliclose ==> ret == 0 && data == [] && s.cliq == old(s.cliq)
      ensures s.Counted() && (ret == 0 ==> s.ToServerFlows() && Pending(s.cliq) == old(Pending(s.cliq)) + data)
      ensures s.cliTrace
              == if ret == 0 then old(s.cliTrace).(received := old(s.cliTrace.received) + data) else old(s.cliTrace)
      ensures ret == 0 ==> s.Logged() && s.isClierror == old(s.isClierror)
      ensures ret == 0 ==> s.calls == old(s.calls) + [Pool(true), Recv(s.clifd, capacity, true, data, s.isCliclose)]
      ensures ret == -1 ==> NothingReceived(old(s.calls), s.calls, s.clifd, capacity)
    {
      hide Shows;
      data := [];
      var got := GetPacket(s);
      if !got {
        return -1, data;
      }
      s.cliq := s.cliq.(pkt := Some(Packet([], 0)));
      var ok, bytes, close := SkRecv(s, s.clifd, capacity);
      assert s.calls == old(s.calls) + [Pool(true), Recv(s.clifd, capacity, ok, bytes, close)];
      if !ok {
        s.isClierror := true;
        return -1, data;
      }
      KeepFromClient(s, bytes, close, old(s.calls), old(s.cliq));
      return 0, bytes;
    }

    /** An empty packet goes back to the pool. */
    method KeepFromClient(s: Connection, bytes: Word, close: bool, ghost before: seq<Call>, ghost q: Side)
      requires s.nalloced == Held(s.cliq) + Held(s.svrq) + s.cliTrace.leaks + s.svrTrace.leaks
      requires q.pkt.None? && s.cliq == q.(pkt := Some(Packet([], 0))) && s.LoggedIn(before)
      requires s.calls == before + [Pool(true), Recv(s.clifd, capacity, true, bytes, close)]
      requires s.clifd > 0
      requires Flow(s.cliTrace, Pending(q)) && AllLive(q) && (close ==> bytes == [])
      modifies s`cliq, s`nalloced, s`isCliclose, s`cliTrace
      ensures Flow(s.cliTrace, Pending(s.cliq)) && Pending(s.cliq) == Pending(q) + bytes && AllLive(s.cliq)
      ensures s.cliq == q.(pkt := s.cliq.pkt) && (bytes == [] ==> s.cliq == q)
      ensures s.cliTrace == old(s.cliTrace).(received := old(s.cliTrace.received) + bytes)
      ensures s.Counted() && s.Logged() && s.isCliclose == (old(s.isCliclose) || close)
    {
      ShowsReceive(before, s.clifd, s.svrfd, s.ClientWire(), s.ServerWire(), s.clifd, capacity, bytes, close);
      if bytes == [] {
        s.cliq := s.cliq.(pkt := None);
        s.nalloced := s.nalloced - 1;
        assert Pending(q) + [] == Pending(q);
      } else {
        Received(q, s.cliTrace, bytes);
        s.cliTrace := s.cliTrace.(received := s.cliTrace.received + bytes);
        s.cliq := s.cliq.(pkt := Some(Packet(bytes, 0)));
      }
      if close {
        s.isCliclose := true;
      }
    }

    /** `_work_parse_client`, whose checks are switched off: the packet goes to the output queue. */
    method ParseClient(s: Connection)
      requires s.Counted() && s.ToServerFlows()
      modifies s`cliq
      ensures old(s.cliq.outq) <= s.cliq.outq && (old(s.cliq.pkt).None? ==> s.cliq == old(s.cliq))
      ensures s.Counted() && s.ToServerFlows() && s.cliq.pkt.None? && Pending(s.cliq) == old(Pending(s.cliq))
    {
      if s.cliq.pkt.Some? {
        Queued(s.cliq);
        s.cliq := s.cliq.(pkt := None, outq := s.cliq.outq + [s.cliq.pkt.value]);
      }
    }

    /** `_work_recvfrom_server`. */
    method ReceiveFromServer(s: Connection) returns (ret: int, ghost data: Word)
      requires s.Counted() && s.ToClientFlows() && s.svrq.pkt.None? && s.Logged() && s.svrfd > 0 && !s.isSvrclose
      modifies s`svrq, s`nalloced, s`isSvrerror, s`isSvrclose, s`svrTrace, s`calls
      ensures ret == 0 || ret == -1
      ensures s.svrq.outq == old(s.svrq.outq)
      ensures s.isSvrclose ==> ret == 0 && data == [] && s.svrq == old(s.svrq)
      ensures s.Counted() && (ret == 0 ==> s.ToClientFlows() && Pending(s.svrq) == old(Pending(s.svrq)) + data)
      ensures s.svrTrace
              == if ret == 0 then old(s.svrTrace).(received := old(s.svrTrace.received) + data) else old(s.svrTrace)
      ensures ret == 0 ==> s.Logged() && s.isSvrerror == old(s.isSvrerror)
      ensures ret == 0 ==> s.calls == old(s.calls) + [Pool(true), Recv(s.svrfd, capacity, true, data, s.isSvrclose)]
      ensures ret == -1 ==> NothingReceived(old(s.calls), s.calls, s.svrfd, capacity)
    {
      hide Shows;
      s.SocketsApart();
      data := [];
      var got := GetPacket(s);
      if !got {
        return -1, data;
      }
      s.svrq := s.svrq.(pkt := Some(Packet([], 0)));
      var ok, bytes, close := SkRecv(s, s.svrfd, capacity);
      assert s.calls == old(s.calls) + [Pool(true), Recv(s.svrfd, capacity, ok, bytes, close)];
      if !ok {
        s.isSvrerror := true;
        return -1, data;
      }
      KeepFromServer(s, bytes, close, old(s.calls), old(s.svrq));
      return 0, bytes;
    }

    /** An empty packet goes back to the pool. */
    method KeepFromServer(s: Connection, bytes: Word, close: bool, ghost before: seq<Call>, ghost q: Side)
      requires s.nalloced == Held(s.cliq) + Held(s.svrq) + s.cliTrace.leaks + s.svrTrace.leaks
      requires q.pkt.None? && s.svrq == q.(pkt := Some(Packet([], 0))) && s.LoggedIn(before)
      requires s.calls == before + [Pool(true), Recv(s.svrfd, capacity, true, bytes, close)]
      requires s.svrfd > 0 && s.svrfd != s.clifd && s.clifd > 0
      requires Flow(s.svrTrace, Pending(q)) && AllLive(q) && (close ==> bytes == [])
      modifies s`svrq, s`nalloced, s`isSvrclose, s`svrTrace
      ensures Flow(s.svrTrace, Pending(s.svrq)) && Pending(s.svrq) == Pending(q) + bytes && AllLive(s.svrq)
      ensures s.svrq == q.(pkt := s.svrq.pkt) && (bytes == [] ==> s.svrq == q)
      ensures s.svrTrace == old(s.svrTrace).(received := old(s.svrTrace.received) + bytes)
      ensures s.Counted() && s.Logged() && s.isSvrclose == (old(s.isSvrclose) || close)
    {
      ShowsReceive(before, s.clifd, s.svrfd, s.ClientWire(), s.ServerWire(), s.svrfd, capacity, bytes, close);
      if bytes == [] {
        s.svrq := s.svrq.(pkt := None);
        s.nalloced := s.nalloced - 1;
        assert Pending(q) + [] == Pending(q);
      } else {
        Received(q, s.svrTrace, bytes);
        s.svrTrace := s.svrTrace.(received := s.svrTrace.received + bytes);
        s.svrq := s.svrq.(pkt := Some(Packet(bytes, 0)));
      }
      if close {
        s.isSvrclose := true;
      }
    }

    /** `_work_parse_server`: the packet goes to the output queue. */
    method ParseServer(s: Connection)
      requires s.Counted() && s.ToClientFlows()
      modifies s`svrq
      ensures old(s.svrq.outq) <= s.svrq.outq && (old(s.svrq.pkt).None? ==> s.svrq == old(s.svrq))
      ensures s.Counted() && s.ToClientFlows() && s.svrq.pkt.None? && Pending(s.svrq) == old(Pending(s.svrq))
    {
      if s.svrq.pkt.Some? {
        Queued(s.svrq);
        s.svrq := s.svrq.(pkt := None, outq := s.svrq.outq + [s.svrq.pkt.value]);
      }
    }

    // ---------- events; -1 means that the connection is to be freed ----------

    /** `_work_process_client`.  A client that closes loses what it has sent exactly if the
        server's connection is still waited for. */
    method ProcessClient(s: Connection) returns (ret: int)
      requires s.Settled() && s.clifd > 0
      modifies this`nblocked, s`cliq, s`nalloced, s`isClierror, s`isCliclose, s`cliTrace, s`calls,
               s`svrfd, s`isSvrerror, s`isSvrwait, s`isSvrblock
      ensures ret == 0 || ret == -1
      ensures nblocked - s.Flags() == old(nblocked - s.Flags()) && s.Counted()
      ensures ret == 0 ==> s.Settled()
      ensures !old(s.isSvrblock) ==> s.cliTrace.leaks == old(s.cliTrace.leaks)
      ensures s.isCliclose && !old(s.isSvrblock) && old(s.cliTrace.leaks) == 0 ==>
                (s.cliTrace.received == s.cliTrace.sent <==> !old(s.isSvrwait))
      ensures Forwarding(old(s.calls), s.calls,
                         Route(s.clifd, capacity, Peer(s.calls, |old(s.calls)| + 2, old(s.svrfd)), 1))
              == if ret == -1 then Gone else Kept
    {
      hide Shows, Pending;
      if !s.isSvrblock && s.cliTrace.leaks == 0 {
        AllSentExactlyWhen(s.cliq, s.cliTrace);
      }
      ret := ForwardFromClient(s);
    }

    /** Receiving, parsing and sending. */
    method ForwardFromClient(s: Connection) returns (ret: int)
      requires s.Settled() && s.clifd > 0
      modifies this`nblocked, s`cliq, s`nalloced, s`isClierror, s`isCliclose, s`cliTrace, s`calls,
               s`svrfd, s`isSvrerror, s`isSvrwait, s`isSvrblock
      ensures ret == 0 || ret == -1
      ensures nblocked - s.Flags() == old(nblocked - s.Flags()) && s.Counted()
      ensures ret == 0 ==> s.Settled()
      ensures !old(s.isSvrblock) ==> s.cliTrace.leaks == old(s.cliTrace.leaks)
      ensures s.isCliclose && !old(s.isSvrblock) ==> s.cliTrace == old(s.cliTrace)
      ensures Forwarding(old(s.calls), s.calls,
                         Route(s.clifd, capacity, Peer(s.calls, |old(s.calls)| + 2, old(s.svrfd)), 1))
              == if ret == -1 then Gone else Kept
    {
      hide Shows, Pending, Flow;
      ghost var data;
      ret, data := TakeFromClient(s);
      if ret == 0 {
        ret := PassToServer(s, old(s.calls), data);
      }
    }

    method TakeFromClient(s: Connection) returns (ret: int, ghost data: Word)
      requires s.Settled() && s.clifd > 0
      modifies s`cliq, s`nalloced, s`isClierror, s`isCliclose, s`cliTrace, s`calls
      ensures ret == 0 || ret == -1
      ensures s.Counted() && s.cliTrace.leaks == old(s.cliTrace.leaks)
      ensures s.isCliclose ==> ret == 0 && s.cliq == old(s.cliq) && s.cliTrace == old(s.cliTrace)
      ensures ret == 0 ==> s.ToServer()
      ensures ret == 0 ==> s.calls == old(s.calls) + [Pool(true), Recv(s.clifd, capacity, true, data, s.isCliclose)]
      ensures ret == -1 ==>
                Forwarding(old(s.calls), s.calls,
                           Route(s.clifd, capacity, Peer(s.calls, |old(s.calls)| + 2, s.svrfd), 1)) == Gone
    {
      hide Shows, Pending, Flow, Direction;
      ret, data := ReceiveFromClient(s);
      if ret != 0 {
        NotForwarded(old(s.calls), s.calls,
                     Route(s.clifd, capacity, Peer(s.calls, |old(s.calls)| + 2, s.svrfd), 1));
        return;
      }
      ParseClient(s);
    }

    /** What came from the client is sent; a connection without its client is freed. */
    method PassToServer(s: Connection, ghost before: seq<Call>, ghost data: Word) returns (ret: int)
      requires s.ToServer() && s.clifd > 0
      requires s.calls == before + [Pool(true), Recv(s.clifd, capacity, true, data, s.isCliclose)]
      modifies this`nblocked, s`svrfd, s`cliq, s`nalloced, s`isSvrerror, s`isSvrwait, s`isSvrblock, s`cliTrace, s`calls
      ensures ret == 0 || ret == -1
      ensures nblocked - s.Flags() == old(nblocked - s.Flags()) && s.Counted()
      ensures !old(s.isSvrblock) ==> s.cliTrace.leaks == old(s.cliTrace.leaks)
      ensures !old(HasFirst(s.cliq)) || old(s.isSvrwait) ==> s.cliTrace == old(s.cliTrace)
      ensures ret == 0 ==> s.Settled()
      ensures Forwarding(before, s.calls, Route(s.clifd, capacity, Peer(s.calls, |before| + 2, old(s.svrfd)), 1))
              == if ret == -1 then Gone else Kept
    {
      hide Shows, Pending, Flow, Direction;
      ret := SendToServer(s);
      ForwardedAll(before, data, s.isCliclose, s.calls,
                   Route(s.clifd, capacity, Peer(s.calls, |before| + 2, old(s.svrfd)), 1), ret == -1);
      if ret == 0 && (s.isClierror || s.isCliclose) {
        ret := -1;
      }
    }

    /** `_work_process_server`.  A server that closes has all its bytes with the client. */
    method ProcessServer(s: Connection) returns (ret: int)
      requires s.Settled() && s.svrfd > 0
      modifies this`nblocked, s`svrq, s`nalloced, s`isSvrerror, s`isSvrclose, s`svrTrace, s`calls,
               s`isClierror, s`isCliblock
      ensures ret == 0 || ret == -1
      ensures nblocked - s.Flags() == old(nblocked - s.Flags()) && s.Counted()
      ensures ret == 0 ==> s.Settled()
      ensures !old(s.isCliblock) ==> s.svrTrace.leaks == old(s.svrTrace.leaks)
      ensures s.isSvrclose && !old(s.isCliblock) && old(s.svrTrace.leaks) == 0 ==>
                s.svrTrace.received == s.svrTrace.sent
      ensures Forwarding(old(s.calls), s.calls, Route(s.svrfd, capacity, s.clifd, 0))
              == if ret == -1 then Gone else Kept
    {
      hide Shows, Pending;
      if !s.isCliblock && s.svrTrace.leaks == 0 {
        AllSentExactlyWhen(s.svrq, s.svrTrace);
      }
      ret := ForwardFromServer(s);
    }

    /** Receiving, parsing and sending. */
    method ForwardFromServer(s: Connection) returns (ret: int)
      requires s.Settled() && s.svrfd > 0
      modifies this`nblocked, s`svrq, s`nalloced, s`isSvrerror, s`isSvrclose, s`svrTrace, s`calls,
               s`isClierror, s`isCliblock
      ensures ret == 0 || ret == -1
      ensures nblocked - s.Flags() == old(nblocked - s.Flags()) && s.Counted()
      ensures ret == 0 ==> s.Settled()
      ensures !old(s.isCliblock) ==> s.svrTrace.leaks == old(s.svrTrace.leaks)
      ensures s.isSvrclose && !old(s.isCliblock) ==> s.svrTrace == old(s.svrTrace)
      ensures Forwarding(old(s.calls), s.calls, Route(s.svrfd, capacity, s.clifd, 0))
              == if ret == -1 then Gone else Kept
    {
      hide Shows, Pending, Flow;
      s.SocketsApart();
      ghost var data;
      ret, data := TakeFromServer(s);
      if ret == 0 {
        ret := PassToClient(s, old(s.calls), data);
      }
    }

    method TakeFromServer(s: Connection) returns (ret: int, ghost data: Word)
      requires s.Settled() && s.svrfd > 0
      modifies s`svrq, s`nalloced, s`isSvrerror, s`isSvrclose, s`svrTrace, s`calls
      ensures ret == 0 || ret == -1
      ensures s.Counted() && s.svrTrace.leaks == old(s.svrTrace.leaks)
      ensures s.isSvrclose ==> ret == 0 && s.svrq == old(s.svrq) && s.svrTrace == old(s.svrTrace)
      ensures ret == 0 ==> s.ToClient()
      ensures ret == 0 ==> s.calls == old(s.calls) + [Pool(true), Recv(s.svrfd, capacity, true, data, s.isSvrclose)]
      ensures ret == -1 ==> Forwarding(old(s.calls), s.calls, Route(s.svrfd, capacity, s.clifd, 0)) == Gone
    {
      hide Shows, Pending, Flow, Direction;
      ret, data := ReceiveFromServer(s);
      if ret != 0 {
        NotForwarded(old(s.calls), s.calls, Route(s.svrfd, capacity, s.clifd, 0));
        return;
      }
      ParseServer(s);
    }

    /** What came from the server is sent; a connection without its server is freed. */
    method PassToClient(s: Connection, ghost before: seq<Call>, ghost data: Word) returns (ret: int)
      requires s.ToClient() && s.clifd > 0
      requires s.calls == before + [Pool(true), Recv(s.svrfd, capacity, true, data, s.isSvrclose)]
      modifies this`nblocked, s`svrq, s`nalloced, s`isClierror, s`isCliblock, s`svrTrace, s`calls
      ensures ret == 0 || ret == -1
      ensures nblocked - s.Flags() == old(nblocked - s.Flags()) && s.Counted()
      ensures !old(s.isCliblock) ==> s.svrTrace.leaks == old(s.svrTrace.leaks)
      ensures !old(HasFirst(s.svrq)) ==> s.svrTrace == old(s.svrTrace)
      ensures ret == 0 ==> s.Settled()
      ensures Forwarding(before, s.calls, Route(s.svrfd, capacity, s.clifd, 0)) == if ret == -1 then Gone else Kept
    {
      hide Shows, Pending, Flow, Direction;
      ret := SendToClient(s);
      ForwardedAll(before, data, s.isSvrclose, s.calls, Route(s.svrfd, capacity, s.clifd, 0), ret == -1);
      if ret == 0 && (s.isSvrerror || s.isSvrclose) {
        ret := -1;
      }
    }

    /** A new connection is registered with its client's socket. */
    method TakeClient(s: Connection, fd: int) returns (ok: bool)
      requires s.Settled() && s.clifd <= 0 && fd > 0
      modifies s`clifd, s`calls
      ensures s.Flags() == old(s.Flags()) && s.Counted()
      ensures ok ==> s.Settled() && s.Entered(fd)
    {
      ok := EpollCtl(s, ForRecv, true, fd);
      if ok {
        WireNext([], Control(ForRecv, true, fd, true), fd);
        WireNext([], Control(ForRecv, true, fd, true), s.svrfd);
        assert [] + [Control(ForRecv, true, fd, true)] == s.calls;
        s.clifd := fd;
      }
    }

    /** The client's socket can be written to. */
    method ClientWritable(s: Connection) returns (ret: int)
      requires s.Settled() && s.clifd > 0
      modifies this`nblocked, s`svrq, s`nalloced, s`isClierror, s`isCliblock, s`svrTrace, s`calls
      ensures ret == 0 || ret == -1
      ensures nblocked - s.Flags() == old(nblocked - s.Flags()) && s.Counted()
      ensures ret == 0 ==> s.Settled()
      ensures s.svrTrace.leaks == old(s.svrTrace.leaks) +
                if ret == 0 && CutAgain(old(s.isCliblock), old(s.svrq), |old(s.svrTrace.sent)|, |s.svrTrace.sent|)
                then 1 else 0
      ensures Writing(old(s.calls), s.calls, s.clifd, 0, false, old(s.svrq)) == if ret == -1 then Gone else Kept
    {
      hide Shows, Pending, Flow, Direction;
      ret := SendToClient(s);
      WritingIs(old(s.calls), s.calls, s.clifd, 0, false, old(s.svrq), ret == -1);
    }

    /** `_work_sendto_server` over a socket that has connected. */
    method SendToConnected(s: Connection, ghost before: seq<Call>, ghost wait: bool) returns (ret: int)
      requires s.Sound() && s.cliq.pkt.None? && !s.isSvrwait && s.svrfd > 0
      requires Tried(before, s.calls, s.svrfd, 1, false)
      requires |s.calls| == |before| + (if wait then 3 else 0) && (wait ==> s.calls[|before|].Connected?)
      modifies this`nblocked, s`svrfd, s`cliq, s`nalloced, s`isSvrerror, s`isSvrwait, s`isSvrblock, s`cliTrace, s`calls
      ensures ret == 0 || ret == -1
      ensures nblocked - s.Flags() == old(nblocked - s.Flags()) && s.Counted() && s.svrfd == old(s.svrfd)
      ensures ret == 0 ==> s.Settled()
      ensures s.cliTrace.leaks == old(s.cliTrace.leaks) +
                if ret == 0 && CutAgain(old(s.isSvrblock), old(s.cliq), |old(s.cliTrace.sent)|, |s.cliTrace.sent|)
                then 1 else 0
      ensures Writing(before, s.calls, s.svrfd, 1, wait, old(s.cliq)) == if ret == -1 then Gone else Kept
    {
      hide Shows, Pending, Flow, Direction;
      s.SocketsApart();
      ghost var mid := s.calls;
      ret := SendToServer(s);
      TriedThen(before, mid, s.calls, s.svrfd, 1, ret == -1);
      assert wait ==> s.calls[|before|] == mid[|before|];
      WritingIs(before, s.calls, s.svrfd, 1, wait, old(s.cliq), ret == -1);
    }

    /** The server's socket can be written to, or has connected. */
    method ServerWritable(s: Connection) returns (ret: int)
      requires s.Settled() && s.svrfd > 0
      modifies this`nblocked, s`svrfd, s`cliq, s`nalloced, s`isSvrerror, s`isSvrwait, s`isSvrblock, s`cliTrace, s`calls
      ensures ret == 0 || ret == -1
      ensures nblocked - s.Flags() == old(nblocked - s.Flags()) && s.Counted() && s.svrfd == old(s.svrfd)
      ensures ret == 0 ==> s.Settled()
      ensures s.cliTrace.leaks == old(s.cliTrace.leaks) +
                if ret == 0 && CutAgain(old(s.isSvrblock), old(s.cliq), |old(s.cliTrace.sent)|, |s.cliTrace.sent|)
                then 1 else 0
      ensures Writing(old(s.calls), s.calls, s.svrfd, 1, old(s.isSvrwait), old(s.cliq))
              == if ret == -1 then Gone else Kept
    {
      hide Shows, Pending, Flow, Direction;
      ret := AwaitServer(s);
      if ret == 0 {
        ret := SendToConnected(s, old(s.calls), old(s.isSvrwait));
      }
    }

    /** A connection that is waited for is checked. */
    method AwaitServer(s: Connection) returns (ret: int)
      requires s.Settled() && s.svrfd > 0
      modifies this`nblocked, s`isSvrwait, s`calls
      ensures ret == 0 || ret == -1
      ensures nblocked - s.Flags() == old(nblocked - s.Flags())
      ensures ret == 0 ==> s.Sound() && !s.isSvrwait && Tried(old(s.calls), s.calls, s.svrfd, 1, false)
      ensures ret == 0 ==> |s.calls| == |old(s.calls)| + if old(s.isSvrwait) then 3 else 0
      ensures ret == 0 && old(s.isSvrwait) ==> s.calls[|old(s.calls)|].Connected?
      ensures !old(s.isSvrwait) ==> ret == 0 && s.calls == old(s.calls)
      ensures ret == -1 ==> Writing(old(s.calls), s.calls, s.svrfd, 1, old(s.isSvrwait), s.cliq) == Gone
    {
      hide Shows, Pending, Flow, Direction;
      s.SocketsApart();
      ret := 0;
      if s.isSvrwait {
        ret := CheckServer(s);
        if ret == -1 {
          WritingIs(old(s.calls), s.calls, s.svrfd, 1, true, s.cliq, true);
        }
      }
    }

    /** `_work_clean_connection`: every packet of a queue goes back to the pool. */
    method Clean(s: Connection, q: Side)
      modifies s`nalloced
      ensures s.nalloced == old(s.nalloced) - Held(q)
    {
      if q.pkt.Some? {
        s.nalloced := s.nalloced - 1;
      }
      if q.blkpkt.Some? {
        s.nalloced := s.nalloced - 1;
      }
      var outq := q.outq;
      while outq != []
        invariant s.nalloced == old(s.nalloced) - Held(q) + |outq|
        decreases |outq|
      {
        s.nalloced, outq := s.nalloced - 1, outq[1..];
      }
    }

    /** Both queues of a connection that is freed: what remains counted was forgotten. */
    method CleanBoth(s: Connection)
      requires s.Counted()
      modifies s`nalloced
      ensures s.nalloced == s.cliTrace.leaks + s.svrTrace.leaks
    {
      Clean(s, s.cliq);
      Clean(s, s.svrq);
    }
  }

  /** The log of a connection that has received `data` and sent `i` bytes of it. */
  ghost function BlockedLog(data: Word, i: nat): seq<Call> {
    [Control(ForRecv, true, 1, true)] + [Connect(2, false)] + [Control(ForRecv, true, 2, true)]
    + [Recv(2, |data|, true, data, false)] + [Send(1, data, i)] + [Control(ForSend, true, 1, true)]
  }

  lemma BlockedLogShows(data: Word, i: nat)
    requires i <= |data|
    ensures Shows(BlockedLog(data, i), 1, 2, Wire([], data[..i], true, true), Wire(data, [], false, true))
  {
    var l1: seq<Call> := [Control(ForRecv, true, 1, true)];
    var l2 := l1 + [Connect(2, false)];
    var l3 := l2 + [Control(ForRecv, true, 2, true)];
    var l4 := l3 + [Recv(2, |data|, true, data, false)];
    var l5 := l4 + [Send(1, data, i)];
    var on := IDLE.(forRecv := true);
    assert l1 == [] + l1;
    ShowsNext([], Control(ForRecv, true, 1, true), 1, 2, IDLE, IDLE);
    ShowsNext(l1, Connect(2, false), 1, 2, on, IDLE);
    ShowsNext(l2, Control(ForRecv, true, 2, true), 1, 2, on, IDLE);
    ShowsNext(l3, Recv(2, |data|, true, data, false), 1, 2, on, on);
    ShowsNext(l4, Send(1, data, i), 1, 2, on, on.(got := [] + data));
    ShowsNext(l5, Control(ForSend, true, 1, true), 1, 2, on.(taken := [] + data[..i]), on.(got := [] + data));
    assert [] + data == data && [] + data[..i] == data[..i];
  }

  /** A connection whose client's socket is blocked with `i` bytes of a packet taken. */
  method BlockedConnection(data: Word, i: nat) returns (s: Connection)
    requires i < |data|
    ensures fresh(s) && s.Settled() && s.Flags() == 1 && s.isCliblock && s.clifd == 1 && s.svrfd == 2
    ensures s.svrq == Side([], None, Some(Packet(data, i))) && s.cliq == EMPTY && s.nalloced == 1
    ensures s.svrTrace == Trace(data, data[..i], 0, 0) && s.cliTrace == Trace([], [], 0, 0)
  {
    hide Shows, Direction, Pending, BlockedLog;
    s := new Connection(0);
    s.nalloced, s.isCliblock, s.clifd, s.svrfd := 1, true, 1, 2;
    s.svrq, s.svrTrace := Side([], None, Some(Packet(data, i))), Trace(data, data[..i], 0, 0);
    s.calls := BlockedLog(data, i);
    BlockedSettled(s, data, i);
  }

  lemma BlockedSettled(s: Connection, data: Word, i: nat)
    requires i < |data| && s.nalloced == 1 && s.clifd == 1 && s.svrfd == 2 && s.calls == BlockedLog(data, i)
    requires s.cliq == EMPTY && s.svrq == Side([], None, Some(Packet(data, i)))
    requires s.cliTrace == Trace([], [], 0, 0) && s.svrTrace == Trace(data, data[..i], 0, 0)
    requires s.isCliblock && !s.isSvrblock && !s.isSvrwait
    requires !s.isCliclose && !s.isSvrclose && !s.isClierror && !s.isSvrerror
    ensures s.Settled()
  {
    BlockedFlows(data, i);
    BlockedLogShows(data, i);
  }

  lemma BlockedFlows(data: Word, i: nat)
    requires i < |data|
    ensures Direction(Side([], None, Some(Packet(data, i))), true, Trace(data, data[..i], 0, 0))
    ensures Held(Side([], None, Some(Packet(data, i)))) == 1
  {
    PendingOf(Side([], None, Some(Packet(data, i))));
    assert data[..i] + data[i..] == data;
  }

  /** Packets are really forgotten: that one, when the client takes more bytes but not all. */
  method ForgottenPacket(data: Word, i: nat, j: nat) returns (s: Connection)
    requires i <= j < |data|
    ensures s.isCliblock && s.svrq == EMPTY && s.svrTrace == Trace(data, data[..j], 1, |data| - j)
    ensures WireOf(s.calls, s.svrfd).got == data && WireOf(s.calls, s.clifd).taken == data[..j]
    ensures s.svrTrace.received != s.svrTrace.sent + Pending(s.svrq)
    ensures s.nalloced == 1 && Held(s.cliq) + Held(s.svrq) == 0
  {
    hide Direction;
    var wi := new Worker(1);
    s := BlockedConnection(data, i);
    var packet := wi.TakeClientPacket(s);
    CutShort(wi, s, data, i, j);
    assert |s.svrTrace.received| > |s.svrTrace.sent + Pending(EMPTY)|;
  }

  /** The packet in hand is cut short at `j`. */
  method CutShort(wi: Worker, s: Connection, data: Word, i: nat, j: nat)
    requires i <= j < |data| && wi.ClientSending(s, Packet(data, i)) && s.Logged()
    requires s.isCliblock && s.svrTrace == Trace(data, data[..i], 0, 0)
    modifies wi`nblocked, s`svrq, s`nalloced, s`isCliblock, s`svrTrace, s`calls
    ensures s.isCliblock && s.svrTrace == Trace(data, data[..j], 1, |data| - j)
    ensures s.svrq == old(s.svrq) && s.nalloced == old(s.nalloced) && s.Logged()
  {
    hide Shows, Direction;
    CutTwice(data, i, j);
    ghost var before, bytes := s.calls, Remaining(Packet(data, i));
    s.calls := before + [Send(s.clifd, bytes, j - i)];
    var ret := wi.SentToClient(s, Packet(data, i), j - i, before);
  }
}
