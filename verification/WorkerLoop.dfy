/** The work thread's loop over all its connections. */
module WorkerLoop {
  import opened Calls
  import opened Packets
  import opened Worker

  // ---------- sums ----------

  function Sum(ws: seq<nat>): nat {
    if ws == [] then 0 else Sum(ws[..|ws| - 1]) + ws[|ws| - 1]
  }

  lemma {:induction false} SumUpdate(ws: seq<nat>, k: int, w: nat)
    requires 0 <= k < |ws|
    ensures Sum(ws[k := w]) == Sum(ws) - ws[k] + w
  {
    var n := |ws| - 1;
    if k < n {
      assert ws[k := w][..n] == ws[..n][k := w];
      SumUpdate(ws[..n], k, w);
    } else {
      assert ws[k := w][..n] == ws[..n];
    }
  }

  lemma {:induction false} SumBounds(ws: seq<nat>, k: int)
    requires 0 <= k < |ws|
    ensures ws[k] <= Sum(ws)
  {
    if k < |ws| - 1 {
      SumBounds(ws[..|ws| - 1], k);
    }
  }

  lemma {:induction false} SumOfZeros(ws: seq<nat>)
    requires forall k :: 0 <= k < |ws| ==> ws[k] == 0
    ensures Sum(ws) == 0
  {
    if ws != [] {
      SumOfZeros(ws[..|ws| - 1]);
    }
  }

  // ---------- the thread ----------

  ghost function Weight(s: Connection?): nat
    reads s
  {
    if s == null then 0 else s.Flags()
  }

  /** The flags of every live connection. */
  ghost function Weights(t: seq<Connection?>): (ws: seq<nat>)
    reads t
    ensures |ws| == |t| && forall k :: 0 <= k < |t| ==> ws[k] == Weight(t[k])
  {
    seq(|t|, k requires 0 <= k < |t| reads t => Weight(t[k]))
  }

  /** A descriptor of a socket; the source takes 0 for none. */
  type Descriptor = fd: int | fd > 0 witness 1

  /** What `epoll_wait` reports. */
  datatype Event = Event(fd: Descriptor, id: int, error: bool)

  /** How often a packet to the client, or to the server, was cut short again. */
  datatype Cuts = Cuts(client: nat, server: nat)

  /** The packets that writing to socket `fd` cut short again, from one view of a connection to
      the next. */
  function CutBy(fd: int, v: Sockets, w: Sockets): Cuts {
    Cuts(
      if v.clifd == fd && CutAgain(v.cliblock, v.svrq, Taken(v, fd), Taken(w, fd)) then 1 else 0,
      if v.clifd != fd && v.svrfd == fd && CutAgain(v.svrblock, v.cliq, Taken(v, fd), Taken(w, fd)) then 1 else 0)
  }

  /** How many bytes the socket has taken so far. */
  function Taken(v: Sockets, fd: int): nat {
    |WireOf(v.calls, fd).taken|
  }

  /** What an event of the receive epoll makes of a connection: it reads from that socket and
      writes to the other one, unless the other one is blocked; the other direction stays as it
      is. */
  ghost function ReadBy(fd: int, room: nat, v: Sockets, w: Sockets): Outcome {
    if v.clifd == fd then
      if v.svrblock then (if w == v then Kept else OtherCalls)
      else if (w.clifd, w.svrq, w.svrTrace) != (v.clifd, v.svrq, v.svrTrace) then OtherCalls
      else Forwarding(v.calls, w.calls, Route(fd, room, Peer(w.calls, |v.calls| + 2, v.svrfd), 1))
    else if v.svrfd == fd then
      if v.cliblock then (if w == v then Kept else OtherCalls)
      else if (w.clifd, w.svrfd, w.cliq, w.cliTrace) != (v.clifd, v.svrfd, v.cliq, v.cliTrace) then OtherCalls
      else Forwarding(v.calls, w.calls, Route(fd, room, v.clifd, 0))
    else if w == v then Kept else OtherCalls
  }

  /** What an event of the send epoll makes of it: the queue of that socket is sent. */
  ghost function WrittenBy(fd: int, v: Sockets, w: Sockets): Outcome {
    if (w.clifd, w.svrfd) != (v.clifd, v.svrfd) then OtherCalls
    else if v.clifd == fd then
      if (w.cliq, w.cliTrace) != (v.cliq, v.cliTrace) then OtherCalls
      else Writing(v.calls, w.calls, fd, 0, false, v.svrq)
    else if v.svrfd == fd then
      if (w.svrq, w.svrTrace) != (v.svrq, v.svrTrace) then OtherCalls
      else Writing(v.calls, w.calls, fd, 1, v.svrwait, v.cliq)
    else if w == v then Kept else OtherCalls
  }

  function More(c: Cuts, d: Cuts): Cuts {
    Cuts(c.client + d.client, c.server + d.server)
  }

  class Thread {
    const wi: Worker
    /** `sesstbl`, by id. */
    var table: seq<Connection?>
    /** For each slot the cuts since its connection was added. */
    ghost var cuts: seq<Cuts>
    /** The flags that each freed connection had, which nobody counts down again. */
    ghost var freed: seq<nat>

    /** The flags of live connections, and those of freed ones. */
    ghost predicate Balanced()
      reads this`table, this`freed, wi`nblocked, table
    {
      wi.nblocked == Sum(Weights(table)) + Sum(freed)
    }

    /** A connection in its slot between events; only cuts made it forget packets. */
    ghost predicate InPlace(s: Connection, k: int, cut: Cuts)
      reads s
    {
      match cut
      case Cuts(client, server) =>
        s.id == k && s.Settled() && s.svrTrace.leaks == client && s.cliTrace.leaks == server
    }

    ghost predicate Valid()
      reads this, wi`nblocked, table
    {
      && Balanced() && |cuts| == |table|
      && forall k :: 0 <= k < |table| && table[k] != null ==> InPlace(table[k], k, cuts[k])
    }

    constructor (max: nat, capacity: nat)
      ensures Valid() && |table| == max && wi.nblocked == 0 && freed == [] && fresh(wi)
    {
      wi := new Worker(capacity);
      table, cuts, freed := seq(max, i => null), seq(max, i => Cuts(0, 0)), [];
      new;
      SumOfZeros(Weights(table));
    }

    /** The count is never negative, and is zero only when no connection waits for anything:
        then nothing that was received is still to be sent, unless it was forgotten. */
    lemma NothingWaits()
      requires Valid()
      ensures wi.nblocked >= 0
      ensures wi.nblocked < 1 ==> forall k :: 0 <= k < |table| && table[k] != null ==>
                && table[k].Flags() == 0 && Pending(table[k].cliq) == [] && Pending(table[k].svrq) == []
                && !WireOf(table[k].calls, table[k].clifd).forSend
                && !WireOf(table[k].calls, table[k].svrfd).forSend
    {
      if wi.nblocked < 1 {
        forall k | 0 <= k < |table| && table[k] != null
          ensures table[k].Flags() == 0 && Pending(table[k].cliq) == [] && Pending(table[k].svrq) == []
          ensures !WireOf(table[k].calls, table[k].clifd).forSend && !WireOf(table[k].calls, table[k].svrfd).forSend
        {
          SumBounds(Weights(table), k);
          assert InPlace(table[k], k, cuts[k]);
        }
      }
    }

    /** After any run: a connection's packets are those it holds and those cut short again; what was
        got from one socket is what the other one has taken and what is pending, in order, exactly
        if no packet of that direction was cut short again; and the sockets are registered with the
        epolls that the flags tell. */
    lemma AfterAnyRun(k: int)
      requires Valid() && 0 <= k < |table| && table[k] != null
      ensures var s, cut := table[k], cuts[k];
              var client, server := WireOf(s.calls, s.clifd), WireOf(s.calls, s.svrfd);
              && s.nalloced == Held(s.cliq) + Held(s.svrq) + cut.client + cut.server
              && (s.nalloced == Held(s.cliq) + Held(s.svrq) <==> cut == Cuts(0, 0))
              && (server.got == client.taken + Pending(s.svrq) <==> cut.client == 0)
              && (client.got == server.taken + Pending(s.cliq) <==> cut.server == 0)
              && (client.forSend <==> s.isCliblock) && (server.forSend <==> s.isSvrblock || s.isSvrwait)
              && (client.forRecv <==> s.clifd > 0) && (server.forRecv <==> s.svrfd > 0 && !s.isSvrwait)
    {
      var s := table[k];
      assert InPlace(s, k, cuts[k]);
      FlowExactlyWhen(s.svrTrace, Pending(s.svrq));
      FlowExactlyWhen(s.cliTrace, Pending(s.cliq));
    }

    /** The sum after one connection's flags have changed. */
    lemma Rebalanced(ws: seq<nat>, id: int, nblocked: int)
      requires 0 <= id < |ws| == |table| && nblocked == Sum(ws) + Sum(freed)
      requires forall k :: 0 <= k < |table| && k != id ==> Weight(table[k]) == ws[k]
      requires wi.nblocked - Weight(table[id]) == nblocked - ws[id]
      ensures Balanced()
    {
      SumUpdate(ws, id, Weight(table[id]));
      assert Weights(table) == ws[id := Weight(table[id])];
    }

    /** Slots keep their connections or lose them; nothing is taken back from `freed`. */
    ghost predicate Remain(before: seq<Connection?>, gone: seq<nat>)
      reads this`table, this`freed
    {
      && |table| == |before| && (forall k :: 0 <= k < |table| ==> table[k] == null || table[k] == before[k])
      && gone <= freed
    }

    /** Every slot but one. */
    ghost predicate OthersInPlace(id: int)
      reads this`table, this`cuts, table
    {
      |cuts| == |table| && forall k :: 0 <= k < |table| && k != id && table[k] != null ==> InPlace(table[k], k, cuts[k])
    }

    /** One connection has been dealt with, and is freed unless `ret` is 0. */
    method Settle(s: Connection, ret: int, ghost ws: seq<nat>, ghost was: int)
      requires 0 <= s.id < |ws| == |table| && table[s.id] == s && was == Sum(ws) + Sum(freed)
      requires forall k :: 0 <= k < |table| && k != s.id ==> Weight(table[k]) == ws[k]
      requires OthersInPlace(s.id)
      requires wi.nblocked - s.Flags() == was - ws[s.id] && s.Counted() && (ret == 0 ==> InPlace(s, s.id, cuts[s.id]))
      modifies this`table, this`freed, s`nalloced
      ensures Valid() && old(freed) <= freed
      ensures table == if ret == 0 then old(table) else old(table)[s.id := null]
    {
      Rebalanced(ws, s.id, was);
      if ret != 0 {
        FreeConnection(s);
      }
    }

    /** `_work_free_connection`; `nblocked` is not counted down. */
    method FreeConnection(s: Connection)
      requires 0 <= s.id < |table| && table[s.id] == s && Balanced() && OthersInPlace(s.id) && s.Counted()
      modifies this`table, this`freed, s`nalloced
      ensures Valid() && table == old(table)[s.id := null] && freed == old(freed) + [old(s.Flags())]
      ensures s.nalloced == s.cliTrace.leaks + s.svrTrace.leaks
    {
      var id := s.id;
      ghost var ws := Weights(table);
      SumUpdate(ws, id, 0);
      wi.CleanBoth(s);
      table := table[id := null];
      freed := freed + [s.Flags()];
      assert Weights(table) == ws[id := 0];
    }

    /** The slot of an event holds a connection. */
    predicate Holds(id: int)
      reads this`table
    {
      0 <= id < |table| && table[id] != null
    }

    /** One event of `_work_recv_data`: it makes no connection forget a packet.  A connection stays
        in its slot exactly if the calls of the event succeed and leave both peers. */
    method OnReceive(e: Event)
      requires Valid()
      modifies this`table, this`freed, wi`nblocked, table
      ensures Valid() && Remain(old(table), old(freed))
      ensures table == old(table) || (old(Holds(e.id)) && table == old(table)[e.id := null])
      ensures forall k :: 0 <= k < |table| && k != e.id && old(table)[k] != null ==> unchanged(old(table)[k])
      ensures old(Holds(e.id)) && e.error ==>
                table[e.id] == null && old(table)[e.id].View() == old(table[e.id].View())
      ensures old(Holds(e.id)) && !e.error ==>
                ReadBy(e.fd, wi.capacity, old(table[e.id].View()), old(table)[e.id].View())
                == if table[e.id] == null then Gone else Kept
    {
      hide ReadBy, Shows, Pending, Direction;
      if e.id < 0 || e.id >= |table| || table[e.id] == null {
        return;
      }
      var s := table[e.id];
      assert InPlace(s, e.id, cuts[e.id]);
      if e.error {
        FreeConnection(s);
        return;
      }
      Read(s, e.fd);
    }

    method Read(s: Connection, fd: Descriptor)
      requires Valid() && 0 <= s.id < |table| && table[s.id] == s && InPlace(s, s.id, cuts[s.id])
      modifies this`table, this`freed, wi`nblocked, s
      ensures Valid() && s.id == old(s.id) && old(freed) <= freed
      ensures table == old(table) || table == old(table)[s.id := null]
      ensures ReadBy(fd, wi.capacity, old(s.View()), s.View()) == if table[s.id] == null then Gone else Kept
    {
      ghost var ws, was := Weights(table), wi.nblocked;
      var ret := ReadSocket(s, fd);
      Settle(s, ret, ws, was);
    }

    method ReadSocket(s: Connection, fd: Descriptor) returns (ret: int)
      requires s.Settled()
      modifies wi`nblocked, s
      ensures ReadBy(fd, wi.capacity, old(s.View()), s.View()) == if ret == 0 then Kept else Gone
      ensures wi.nblocked - s.Flags() == old(wi.nblocked - s.Flags()) && s.Counted() && s.id == old(s.id)
      ensures s.svrTrace.leaks == old(s.svrTrace.leaks) && s.cliTrace.leaks == old(s.cliTrace.leaks)
      ensures ret == 0 ==> s.Settled()
    {
      hide Shows, Pending, Flow, Direction, Forwarding;
      ret := 0;
      if s.clifd == fd {
        if !s.isSvrblock {
          ret := wi.ProcessClient(s);
        }
      } else if s.svrfd == fd {
        if !s.isCliblock {
          ret := wi.ProcessServer(s);
        }
      }
    }

    /** One event of `_work_send_data`; once a connection is freed the event is over.  `again` is
        what the event adds to the cuts of its connection. */
    method OnSend(e: Event) returns (ghost again: Cuts)
      requires Valid()
      modifies this`table, this`cuts, this`freed, wi`nblocked, table
      ensures Valid() && Remain(old(table), old(freed))
      ensures table == old(table) || (old(Holds(e.id)) && table == old(table)[e.id := null])
      ensures forall k :: 0 <= k < |cuts| && k != e.id ==> cuts[k] == old(cuts)[k]
      ensures forall k :: 0 <= k < |table| && k != e.id && old(table)[k] != null ==> unchanged(old(table)[k])
      ensures old(Holds(e.id)) && e.error ==>
                table[e.id] == null && old(table)[e.id].View() == old(table[e.id].View())
      ensures old(Holds(e.id)) && !e.error ==>
                WrittenBy(e.fd, old(table[e.id].View()), old(table)[e.id].View())
                == if table[e.id] == null then Gone else Kept
      ensures 0 <= e.id < |table| && table[e.id] != null ==>
                && cuts[e.id] == More(old(cuts)[e.id], again)
                && again == CutBy(e.fd, old(table[e.id].View()), table[e.id].View())
    {
      hide WrittenBy, CutBy, Shows, Pending, Direction;
      again := Cuts(0, 0);
      if e.id < 0 || e.id >= |table| || table[e.id] == null {
        return;
      }
      var s := table[e.id];
      assert InPlace(s, e.id, cuts[e.id]);
      if e.error {
        FreeConnection(s);
        return;
      }
      again := Write(s, e.fd);
    }

    method Write(s: Connection, fd: Descriptor) returns (ghost again: Cuts)
      requires Valid() && 0 <= s.id < |table| && table[s.id] == s && InPlace(s, s.id, cuts[s.id])
      modifies this`table, this`cuts, this`freed, wi`nblocked, s
      ensures Valid() && s.id == old(s.id) && old(freed) <= freed
      ensures table == old(table) || table == old(table)[s.id := null]
      ensures cuts == old(cuts)[s.id := More(old(cuts)[s.id], again)]
      ensures table[s.id] == s ==> again == CutBy(fd, old(s.View()), s.View())
      ensures WrittenBy(fd, old(s.View()), s.View()) == if table[s.id] == null then Gone else Kept
    {
      ghost var ws, was := Weights(table), wi.nblocked;
      var ret;
      ret, again := WriteSlot(s, fd, ws);
      Settle(s, ret, ws, was);
    }

    method WriteSlot(s: Connection, fd: Descriptor, ghost ws: seq<nat>) returns (ret: int, ghost again: Cuts)
      requires Valid() && 0 <= s.id < |table| && table[s.id] == s && InPlace(s, s.id, cuts[s.id]) &&
                ws == Weights(table)
      modifies this`cuts, wi`nblocked, s
      ensures s.id == old(s.id) && OthersInPlace(s.id) && s.Counted() && (ret == 0 ==> InPlace(s, s.id, cuts[s.id]))
      ensures wi.nblocked - s.Flags() == old(wi.nblocked - s.Flags())
      ensures forall k :: 0 <= k < |table| && k != s.id ==> Weight(table[k]) == ws[k]
      ensures cuts == old(cuts)[s.id := More(old(cuts)[s.id], again)]
      ensures ret == 0 ==> again == CutBy(fd, old(s.View()), s.View())
      ensures WrittenBy(fd, old(s.View()), s.View()) == if ret == 0 then Kept else Gone
    {
      hide Shows, Pending, Flow, Direction, WrittenBy, CutBy;
      ret, again := WriteSocket(s, fd);
      cuts := cuts[s.id := More(cuts[s.id], again)];
    }

    method WriteSocket(s: Connection, fd: Descriptor) returns (ret: int, ghost again: Cuts)
      requires s.Settled()
      modifies wi`nblocked, s
      ensures wi.nblocked - s.Flags() == old(wi.nblocked - s.Flags()) && s.Counted() && s.id == old(s.id)
      ensures s.svrTrace.leaks == old(s.svrTrace.leaks) + again.client &&
                s.cliTrace.leaks == old(s.cliTrace.leaks) + again.server
      ensures ret == 0 ==> s.Settled() && again == CutBy(fd, old(s.View()), s.View())
      ensures WrittenBy(fd, old(s.View()), s.View()) == if ret == 0 then Kept else Gone
    {
      hide Shows, Pending, Flow, Direction, Writing, WireOf;
      s.Wires();
      ret, again := 0, Cuts(0, 0);
      ghost var client, server := s.svrTrace.leaks, s.cliTrace.leaks;
      if s.clifd == fd {
        ret := wi.ClientWritable(s);
      } else if s.svrfd == fd {
        ret := wi.ServerWritable(s);
      }
      if ret == 0 {
        s.Wires();
      }
      again := Cuts(s.svrTrace.leaks - client, s.cliTrace.leaks - server);
    }

    /** `_work_recv_data` over the reported events. */
    method RecvData(events: seq<Event>)
      requires Valid()
      modifies this`table, this`freed, wi`nblocked, table
      ensures Valid() && Remain(old(table), old(freed))
    {
      for i := 0 to |events|
        invariant Valid() && Remain(old(table), old(freed))
      {
        OnReceive(events[i]);
      }
    }

    /** `_work_send_data`: nothing is asked of the system while no socket is blocked. */
    method SendData(events: seq<Event>)
      requires Valid()
      modifies this`table, this`cuts, this`freed, wi`nblocked, table
      ensures Valid() && Remain(old(table), old(freed))
    {
      NothingWaits();
      assert wi.nblocked >= 0;
      if wi.nblocked < 1 {
        return;
      }
      for i := 0 to |events|
        invariant Valid() && Remain(old(table), old(freed))
      {
        ghost var again := OnSend(events[i]);
      }
    }

    /** One connection of `_work_get_connection`: it may get no memory, or no free slot. */
    method Accept(fd: Descriptor)
      requires Valid()
      modifies this`table, this`cuts, this`freed
      ensures Valid() && |table| == |old(table)| && old(freed) <= freed
      ensures forall k :: 0 <= k < |table| && table[k] != old(table)[k] ==>
                old(table)[k] == null && table[k] != null && fresh(table[k]) && table[k].Entered(fd)
    {
      var s := AllocConnection();
      if s == null {
        return;
      }
      Enroll(s, fd);
    }

    method Enroll(s: Connection, fd: Descriptor)
      requires Valid() && 0 <= s.id < |table| && table[s.id] == s && s.clifd <= 0
      modifies this`table, this`freed, s
      ensures Valid() && old(freed) <= freed && s.id == old(s.id)
      ensures (table == old(table) && s.Entered(fd)) || table == old(table)[s.id := null]
    {
      ghost var ws, was := Weights(table), wi.nblocked;
      assert InPlace(s, s.id, cuts[s.id]);
      var added := wi.TakeClient(s, fd);
      Settle(s, if added then 0 else -1, ws, was);
    }

    /** `_work_alloc_connection`: a slot begins without cuts. */
    method AllocConnection() returns (s: Connection?)
      requires Valid()
      modifies this`table, this`cuts
      ensures Valid()
      ensures s == null ==> table == old(table)
      ensures s != null ==> && fresh(s) && s.clifd == 0 && 0 <= s.id < |old(table)| && old(table)[s.id] == null
                            && table == old(table)[s.id := s] && cuts[s.id] == Cuts(0, 0)
    {
      var id: int := *;
      var ok: bool := *;
      if !ok || id < 0 || id >= |table| || table[id] != null {
        return null;
      }
      s := new Connection(id);
      Enter(s, id);
    }

    /** `connection_table_add`. */
    method Enter(s: Connection, id: int)
      requires Valid() && 0 <= id < |table| && table[id] == null && InPlace(s, id, Cuts(0, 0)) && s.Flags() == 0
      modifies this`table, this`cuts
      ensures Valid() && table == old(table)[id := s] && cuts == old(cuts)[id := Cuts(0, 0)]
    {
      ghost var ws := Weights(table);
      assert Weights(table[id := s]) == ws by {
        assert ws[id] == 0;
      }
      table := table[id := s];
      cuts := cuts[id := Cuts(0, 0)];
    }

    /** `_work_loop`: new connections, then sending, then receiving, over and over. */
    method Loop(rounds: nat)
      requires Valid()
      modifies this`table, this`cuts, this`freed, wi`nblocked, table
      ensures Valid() && |table| == |old(table)| && old(freed) <= freed
    {
      for i := 0 to rounds
        invariant Valid() && |table| == |old(table)| && old(freed) <= freed
        invariant forall k :: 0 <= k < |table| ==> table[k] == null || table[k] == old(table)[k] || fresh(table[k])
      {
        var arrivals: seq<Descriptor> := *;
        for j := 0 to |arrivals|
          invariant Valid() && |table| == |old(table)| && old(freed) <= freed
          invariant forall k :: 0 <= k < |table| ==> table[k] == null || table[k] == old(table)[k] || fresh(table[k])
        {
          Accept(arrivals[j]);
        }
        var writable: seq<Event> := *;
        SendData(writable);
        var readable: seq<Event> := *;
        RecvData(readable);
      }
    }
  }
}
