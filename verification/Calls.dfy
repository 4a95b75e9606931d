/** What the work thread asks of the system for one connection: the calls it makes, their results,
    and what they say of a socket. */
module Calls {
  import opened Bytes
  import opened Packets

  /** The two epolls of a work thread. */
  datatype Epoll = ForSend | ForRecv

  /** A call with its result: `sk_recv`, `sk_send`, `epoll_ctl`, `sk_tcp_client_nb`,
      `sk_is_connected`, and `mempool_get` for a packet. */
  datatype Call =
    | Recv(fd: int, room: nat, ok: bool, data: Word, closed: bool)
    | Send(fd: int, bytes: Word, n: int)
    | Control(epoll: Epoll, add: bool, fd: int, ok: bool)
    | Connect(fd: int, wait: bool)
    | Connected(fd: int, ok: bool)
    | Pool(ok: bool)

  // ---------- a socket ----------

  /** A socket as the log shows it: the bytes got from it, the bytes it has taken, and the epolls it
      is registered with. */
  datatype Wire = Wire(got: Word, taken: Word, forSend: bool, forRecv: bool)

  const IDLE := Wire([], [], false, false)

  function Step(w: Wire, c: Call, fd: int): Wire {
    match c
    case Recv(f, _, ok, data, _) => if f == fd && ok then w.(got := w.got + data) else w
    case Send(f, bytes, n) => if f == fd && 0 <= n <= |bytes| then w.(taken := w.taken + bytes[..n]) else w
    case Control(epoll, add, f, ok) =>
      if f != fd || !ok then w else if epoll.ForSend? then w.(forSend := add) else w.(forRecv := add)
    case _ => w
  }

  function WireOf(calls: seq<Call>, fd: int): Wire {
    if calls == [] then IDLE else Step(WireOf(calls[..|calls| - 1], fd), calls[|calls| - 1], fd)
  }

  lemma WireNext(calls: seq<Call>, c: Call, fd: int)
    ensures WireOf(calls + [c], fd) == Step(WireOf(calls, fd), c, fd)
  {
    assert (calls + [c])[..|calls|] == calls;
  }

  /** The call changes nothing for other sockets than `fd`. */
  predicate About(c: Call, fd: int) {
    match c
    case Recv(f, _, _, _, _) => f == fd
    case Send(f, _, _) => f == fd
    case Control(_, _, f, ok) => ok ==> f == fd
    case _ => true
  }

  predicate OnlyAbout(calls: seq<Call>, fd: int) {
    forall k :: 0 <= k < |calls| ==> About(calls[k], fd)
  }

  lemma {:induction false} OthersIdle(calls: seq<Call>, fd: int, other: int)
    requires OnlyAbout(calls, fd) && other != fd
    ensures WireOf(calls, other) == IDLE
  {
    if calls != [] {
      OthersIdle(calls[..|calls| - 1], fd, other);
      assert About(calls[|calls| - 1], fd);
    }
  }

  /** The log of a connection shows this of its client's and its server's socket.  A connection
      without the client's has made no calls, and without the server's only calls about the
      client's. */
  ghost predicate Shows(calls: seq<Call>, clifd: int, svrfd: int, client: Wire, server: Wire) {
    && WireOf(calls, clifd) == client && WireOf(calls, svrfd) == server
    && (clifd <= 0 ==> calls == [] && svrfd <= 0)
    && (if svrfd <= 0 then OnlyAbout(calls, clifd) else svrfd != clifd)
  }

  /** One call more. */
  lemma ShowsNext(calls: seq<Call>, c: Call, clifd: int, svrfd: int, client: Wire, server: Wire)
    requires Shows(calls, clifd, svrfd, client, server) && clifd > 0 && (svrfd <= 0 ==> About(c, clifd))
    ensures Shows(calls + [c], clifd, svrfd, Step(client, c, clifd), Step(server, c, svrfd))
  {
    WireNext(calls, c, clifd);
    WireNext(calls, c, svrfd);
  }

  /** A call that failed shows nothing of the sockets. */
  lemma ShowsSame(calls: seq<Call>, c: Call, clifd: int, svrfd: int, client: Wire, server: Wire)
    requires Shows(calls, clifd, svrfd, client, server) && clifd > 0
    requires About(c, clifd) && Step(client, c, clifd) == client
    requires svrfd > 0 ==> Step(server, c, svrfd) == server
    ensures Shows(calls + [c], clifd, svrfd, client, server)
  {
    ShowsNext(calls, c, clifd, svrfd, client, server);
    if svrfd <= 0 {
      OthersIdle(calls, clifd, svrfd);
      OthersIdle(calls + [c], clifd, svrfd);
    }
  }

  /** A server's socket comes about; it is registered with the epoll that fits. */
  lemma ShowsConnect(calls: seq<Call>, clifd: int, svrfd: int, client: Wire, server: Wire, fd: int, wait: bool)
    requires Shows(calls, clifd, svrfd, client, server) && clifd > 0 && svrfd <= 0 && fd > 0 && fd != clifd
    ensures var c, d := Connect(fd, wait), Control(if wait then ForSend else ForRecv, true, fd, true);
            server == IDLE && Shows(calls + [c] + [d], clifd, fd, client, Wire([], [], wait, !wait))
  {
    OthersIdle(calls, clifd, svrfd);
    OthersIdle(calls, clifd, fd);
    var c, d := Connect(fd, wait), Control(if wait then ForSend else ForRecv, true, fd, true);
    WireNext(calls, c, clifd);
    WireNext(calls, c, fd);
    WireNext(calls + [c], d, clifd);
    WireNext(calls + [c], d, fd);
  }

  /** Bytes are got from one of the sockets, or none. */
  lemma ShowsReceive(calls: seq<Call>, clifd: int, svrfd: int, client: Wire, server: Wire,
                     fd: int, room: nat, data: Word, closed: bool)
    requires Shows(calls, clifd, svrfd, client, server) && clifd > 0 && (fd == clifd || (fd == svrfd && svrfd > 0))
    ensures Shows(calls + [Pool(true), Recv(fd, room, true, data, closed)], clifd, svrfd,
                  if fd == clifd then client.(got := client.got + data) else client,
                  if fd == svrfd then server.(got := server.got + data) else server)
    ensures client.got + [] == client.got && server.got + [] == server.got
  {
    ShowsNext(calls, Pool(true), clifd, svrfd, client, server);
    ShowsNext(calls + [Pool(true)], Recv(fd, room, true, data, closed), clifd, svrfd, client, server);
    assert calls + [Pool(true)] + [Recv(fd, room, true, data, closed)]
        == calls + [Pool(true), Recv(fd, room, true, data, closed)];
  }

  // ---------- what one step calls ----------

  /** The call has failed; to send fewer than `least` bytes is a failure. */
  predicate Failed(c: Call, least: int) {
    match c
    case Recv(_, _, ok, _, _) => !ok
    case Send(_, _, n) => n < least
    case Control(_, _, _, ok) => !ok
    case Connect(fd, _) => fd < 0
    case Connected(_, ok) => !ok
    case Pool(ok) => !ok
  }

  /** A call made to send to socket `fd`. */
  predicate Sending(c: Call, fd: int) {
    match c
    case Recv(_, _, _, _, _) => false
    case Send(f, _, _) => f == fd
    case Control(_, _, f, _) => f == fd
    case Connect(f, _) => f == fd
    case Connected(f, _) => f == fd
    case Pool(_) => false
  }

  /** The calls that lead from `before` to `after` are made to send to `fd`, and each of them
      succeeds except that the last one fails if `failed`. */
  ghost predicate Tried(before: seq<Call>, after: seq<Call>, fd: int, least: int, failed: bool) {
    && before <= after && (failed ==> before != after)
    && forall k :: |before| <= k < |after| ==>
         Sending(after[k], fd) && (Failed(after[k], least) <==> failed && k == |after| - 1)
  }

  lemma TriedOne(before: seq<Call>, c: Call, fd: int, least: int)
    requires Sending(c, fd)
    ensures Tried(before, before + [c], fd, least, Failed(c, least))
  {
  }

  lemma TriedThen(a: seq<Call>, b: seq<Call>, c: seq<Call>, fd: int, least: int, failed: bool)
    requires Tried(a, b, fd, least, false) && Tried(b, c, fd, least, failed)
    ensures Tried(a, c, fd, least, failed)
  {
    forall k | |a| <= k < |c|
      ensures Sending(c[k], fd) && (Failed(c[k], least) <==> failed && k == |c| - 1)
    {
      if k < |b| {
        assert c[k] == b[k];
      }
    }
  }

  /** At `at` the log has an attempt to send these bytes. */
  ghost predicate SendsAt(calls: seq<Call>, at: nat, fd: int, bytes: Word) {
    at < |calls| && calls[at].Send? && calls[at].fd == fd && calls[at].bytes == bytes
  }

  /** The socket that is sent to, when the calls from `at` on may begin with connecting. */
  function Peer(calls: seq<Call>, at: nat, svrfd: int): int {
    if at < |calls| && calls[at].Connect? then calls[at].fd else svrfd
  }

  /** To send `bytes` to the server begins with connecting if there is no socket. */
  ghost predicate StartsAt(calls: seq<Call>, at: nat, svrfd: int, bytes: Word) {
    if svrfd > 0 then SendsAt(calls, at, svrfd, bytes)
    else at < |calls| && calls[at].Connect? && (|calls| > at + 2 ==> SendsAt(calls, at + 2, calls[at].fd, bytes))
  }

  /** Connecting has failed, or registering the new socket. */
  ghost predicate NotConnected(before: seq<Call>, after: seq<Call>) {
    && before <= after && |before| < |after| <= |before| + 2 && after[|before|].Connect?
    && if |after| == |before| + 1 then after[|before|].fd < 0
       else
         var c := after[|before| + 1];
         after[|before|].fd > 0 && c.Control? && c.add && c.fd == after[|before|].fd && !c.ok
  }

  /** From one socket, at most `room` bytes, to the other, at least `least` of a packet. */
  datatype Route = Route(source: int, room: nat, target: int, least: int)

  /** What the calls of an event mean for its connection; they may also be none that such an event
      makes. */
  datatype Outcome = Kept | Gone | OtherCalls

  /** Forwarding from a socket: a packet from the pool, one receive from the source, then calls
      made to send to the target.  The connection is gone exactly if one of them has failed or the
      source has closed. */
  ghost function Forwarding(before: seq<Call>, after: seq<Call>, route: Route): Outcome {
    var n := |before|;
    if !(before <= after && n < |after| && after[n].Pool?) then OtherCalls
    else if !after[n].ok then (if |after| == n + 1 then Gone else OtherCalls)
    else if !(n + 2 <= |after| && after[n + 1].Recv?) then OtherCalls
    else if after[n + 1].fd != route.source || after[n + 1].room != route.room then OtherCalls
    else if !after[n + 1].ok then (if |after| == n + 2 then Gone else OtherCalls)
    else
      var failed := Failed(after[|after| - 1], route.least);
      if !Tried(after[..n + 2], after, route.target, route.least, failed) then OtherCalls
      else if failed || after[n + 1].closed then Gone else Kept
  }

  /** No packet from the pool, or an error of the receive. */
  ghost predicate NothingReceived(before: seq<Call>, after: seq<Call>, source: int, room: nat) {
    after == before + [Pool(false)] || after == before + [Pool(true), Recv(source, room, false, [], false)]
  }

  lemma NotForwarded(before: seq<Call>, after: seq<Call>, route: Route)
    requires NothingReceived(before, after, route.source, route.room)
    ensures Forwarding(before, after, route) == Gone
  {
  }

  lemma ForwardedAll(before: seq<Call>, data: Word, closed: bool, after: seq<Call>, route: Route, failed: bool)
    requires var mid := before + [Pool(true), Recv(route.source, route.room, true, data, closed)];
             Tried(mid, after, route.target, route.least, failed)
    ensures Forwarding(before, after, route) == if failed || closed then Gone else Kept
  {
    var mid := before + [Pool(true), Recv(route.source, route.room, true, data, closed)];
    assert after[..|before| + 2] == mid;
    assert after[|before|] == mid[|before|] && after[|before| + 1] == mid[|before| + 1];
  }

  /** Sending from a queue to socket `fd`, behind the three calls that turn a connection waited for
      into one that is read from: the first packet is sent first, and if there is none nothing is
      called. */
  ghost function Writing(before: seq<Call>, after: seq<Call>, fd: int, least: int, wait: bool, q: Side): Outcome {
    var at := |before| + (if wait then 3 else 0);
    var failed := after != [] && before != after && Failed(after[|after| - 1], least);
    if !Tried(before, after, fd, least, failed) then OtherCalls
    else if wait && !(|before| < |after| && after[|before|].Connected?) then OtherCalls
    else if !failed && |after| < at then OtherCalls
    else if HasFirst(q) && (|after| > at || !failed) && !SendsAt(after, at, fd, Remaining(First(q))) then OtherCalls
    else if !HasFirst(q) && |after| > at then OtherCalls
    else if failed then Gone else Kept
  }

  lemma WritingIs(before: seq<Call>, after: seq<Call>, fd: int, least: int, wait: bool, q: Side, failed: bool)
    requires Tried(before, after, fd, least, failed)
    requires var at := |before| + (if wait then 3 else 0);
             && (wait ==> |before| < |after| && after[|before|].Connected?) && (failed || |after| >= at)
             && (HasFirst(q) && (|after| > at || !failed) ==> SendsAt(after, at, fd, Remaining(First(q))))
             && (!HasFirst(q) ==> |after| <= at)
    ensures Writing(before, after, fd, least, wait, q) == if failed then Gone else Kept
  {
  }
}
