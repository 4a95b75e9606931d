/** The slab allocator: slabs of equal size, a list of the free units of all slabs, and
    counters that decide when a slab is allocated and when it is given back. */
module Mempool {
  import opened LinkedLists
  import opened SlabAccounts

  const INC_SIZE := 1000

  /** The `incsize` field: the default for a request below 1, and cut to 16 bits. */
  function IncSize(request: int): nat {
    (if request < 1 then INC_SIZE else request) % 0x1_0000
  }

  /** The requests that give a pool without increment, from which no unit can ever be had. */
  lemma ZeroIncrement(request: int)
    ensures IncSize(request) == 0 <==> request >= 1 && request % 0x1_0000 == 0
  {
  }

  class Pool {
    const incsize: nat
    const nodeList: LinkedList            // the free units
    const cacheList: LinkedList           // the slabs
    var headers: map<Addr, Header>        // the headers of the units in memory
    var slabs: map<Addr, Slab>
    var nalloced: int
    var nfreed: int

    /** The units on the free list. */
    ghost function Free(): set<Addr>
      reads nodeList
    {
      SetOf(nodeList.order)
    }

    /** The units handed out and not yet put back. */
    ghost function Used(): set<Addr>
      reads this, nodeList
    {
      headers.Keys - Free()
    }

    ghost predicate Valid()
      reads this, nodeList, cacheList
    {
      && nodeList != cacheList && nodeList.Valid() && cacheList.Valid()
      && Accounts(headers, slabs, Free(), incsize)
      && slabs.Keys == SetOf(cacheList.order)
      && nfreed == |nodeList.order|
      && nalloced == incsize * |cacheList.order|
    }

    /** An empty pool: no slab yet. */
    constructor (incsize: nat)
      ensures Valid() && this.incsize == incsize && Used() == {} && slabs == map[] && headers == map[] &&
                nfreed == nalloced == 0
      ensures fresh(nodeList) && fresh(cacheList)
    {
      this.incsize := incsize;
      nodeList := new LinkedList();
      cacheList := new LinkedList();
      headers, slabs, nalloced, nfreed := map[], map[], 0, 0;
    }

    /** `mempool_alloc`: no pool for a zero unit size or when an allocation fails.  The
        outcomes of the three allocations are parameters, as are the addresses they return. */
    static method Alloc(memsize: nat, request: int, haveOp: bool, haveCache: bool, havePool: bool, c: Addr,
                        units: seq<Addr>)
      returns (op: Pool?)
      requires |units| == IncSize(request) && NoDuplicates(units)
      ensures op != null <==> memsize >= 1 && haveOp && haveCache && havePool
      ensures op != null ==>
                && fresh(op) && fresh(op.nodeList) && fresh(op.cacheList)
                && op.Valid() && op.incsize == op.nfreed == op.nalloced == IncSize(request) && op.Used() == {}
    {
      if memsize < 1 || !haveOp {
        return null;
      }
      op := new Pool(IncSize(request));
      var r := op.AllocCache(haveCache, havePool, c, units);
      if r != 0 {
        op := null;
      }
    }

    // ---------- _op_alloc_cache ----------

    /** Write the headers of the units of a new slab and put them on the free list. */
    method FillCache(c: Addr, units: seq<Addr>)
      requires Valid() && |units| == incsize && NoDuplicates(units) && forall a :: a in units ==> a !in headers
      modifies this`headers, nodeList
      ensures nodeList.Valid() && |nodeList.order| == old(|nodeList.order|) + incsize
      ensures Free() == old(Free()) + SetOf(units)
      ensures headers.Keys == old(headers).Keys + SetOf(units)
      ensures forall a :: a in old(headers) ==> headers[a] == old(headers)[a]
      ensures forall a :: a in units ==> headers[a] == Header(c, false)
    {
      ghost var free, was := Free(), headers;
      for i := 0 to incsize
        invariant nodeList.Valid() && |nodeList.order| == old(|nodeList.order|) + i
        invariant Free() == free + SetOf(units[..i]) && free <= was.Keys
        invariant headers.Keys == was.Keys + SetOf(units[..i])
        invariant forall a :: a in was ==> headers[a] == was[a]
        invariant forall k :: 0 <= k < i ==> headers[units[k]] == Header(c, false)
      {
        assert units[..i + 1] == units[..i] + [units[i]];
        SetOfSnoc(units[..i], units[i]);
        headers := headers[units[i] := Header(c, false)];
        assert units[i] in units && units[i] !in Free();
        nodeList.PushFront(units[i]);
        assert Free() == free + SetOf(units[..i]) + {units[i]};
      }
      assert units[..incsize] == units;
    }

    /** `_op_alloc_cache`; the parameters are the outcomes and addresses of its allocations,
        which lie outside the memory in use. */
    method AllocCache(haveCache: bool, havePool: bool, c: Addr, units: seq<Addr>) returns (r: int)
      requires Valid() && |units| == incsize && NoDuplicates(units)
      requires c !in slabs && forall a :: a in units ==> a !in headers
      modifies this, nodeList, cacheList
      ensures Valid() && Used() == old(Used())
      ensures r == if haveCache && havePool then 0 else -1
      ensures r == -1 ==> unchanged(this) && unchanged(nodeList) && unchanged(cacheList)
      ensures r == 0 ==> nfreed == old(nfreed) + incsize && nalloced == old(nalloced) + incsize
      ensures r == 0 ==> slabs == old(slabs)[c := Slab(units, 0)] && Free() == old(Free()) + SetOf(units)
    {
      if !haveCache || !havePool {
        return -1;
      }
      FillCache(c, units);
      EnlistSlab(old(headers), headers, slabs, old(Free()), incsize, c, units);
      SizeStep(incsize, |cacheList.order|);
      slabs := slabs[c := Slab(units, 0)];
      nalloced := nalloced + incsize;
      nfreed := nfreed + incsize;
      assert c !in SetOf(cacheList.order);
      cacheList.PushFront(c);
      r := 0;
    }

    // ---------- _op_free_cache ----------

    /** Take the units of a slab off the free list. */
    method UnlinkUnits(units: seq<Addr>)
      requires nodeList.Valid() && NoDuplicates(units) && SetOf(units) <= Free()
      modifies nodeList
      ensures nodeList.Valid() && Free() == old(Free()) - SetOf(units)
      ensures |nodeList.order| == old(|nodeList.order|) - |units|
    {
      ghost var free := Free();
      for i := 0 to |units|
        invariant nodeList.Valid() && Free() == free - SetOf(units[..i])
        invariant |nodeList.order| == old(|nodeList.order|) - i
      {
        assert units[..i + 1] == units[..i] + [units[i]];
        SetOfSnoc(units[..i], units[i]);
        assert units[i] in SetOf(units) && units[i] !in SetOf(units[..i]);
        ghost var order := nodeList.order;
        assert units[i] in free && units[i] in Free();
        ghost var k :| 0 <= k < |order| && order[k] == units[i];
        LinkedNoDuplicates(nodeList.head, nodeList.links, order);
        SetOfWithout(order, k);
        nodeList.Unlink(units[i], k);
      }
      assert units[..|units|] == units;
    }

    /** `_op_free_cache`: a slab none of whose units is handed out goes back to the system. */
    method FreeCache(c: Addr)
      requires Valid() && c in slabs && slabs[c].nused == 0
      modifies this, nodeList, cacheList
      ensures Valid() && Used() == old(Used()) && slabs == old(slabs) - {c}
      ensures nfreed == old(nfreed) - incsize && nalloced == old(nalloced) - incsize
      ensures headers == old(headers) - SetOf(old(slabs)[c].units)
    {
      var units := slabs[c].units;
      assert SlabOk(headers, slabs, Free(), incsize, c);
      ReleaseSlab(headers, slabs, Free(), incsize, c);
      ghost var order := cacheList.order;
      ghost var k :| 0 <= k < |order| && order[k] == c;
      LinkedNoDuplicates(cacheList.head, cacheList.links, order);
      SetOfWithout(order, k);
      SizeStep(incsize, |order| - 1);
      cacheList.Unlink(c, k);
      UnlinkUnits(units);
      nalloced := nalloced - incsize;
      nfreed := nfreed - incsize;
      nodeList.Forget(SetOf(units));
      headers, slabs := headers - SetOf(units), slabs - {c};
      cacheList.Forget({c});
    }

    // ---------- get and put ----------

    /** `mempool_get`: hand out a unit, from a new slab if there is no free one. */
    method Get(haveCache: bool, havePool: bool, c: Addr, units: seq<Addr>) returns (p: Ptr)
      requires Valid() && incsize > 0 && |units| == incsize && NoDuplicates(units)
      requires c !in slabs && forall a :: a in units ==> a !in headers
      modifies this, nodeList, cacheList
      ensures Valid()
      ensures p.Null? <==> old(nfreed) == 0 && !(haveCache && havePool)
      ensures p.Null? ==> Used() == old(Used()) && slabs == old(slabs)
      ensures p.To? ==> p.addr !in old(Used()) && Used() == old(Used()) + {p.addr}
      ensures p.To? ==> p.addr in nodeList.links && nodeList.links[p.addr] == Links(Null, Unlinked)
      ensures p.To? ==> nfreed == (if old(nfreed) == 0 then incsize else old(nfreed)) - 1
    {
      if nfreed == 0 {
        var r := AllocCache(haveCache, havePool, c, units);
        if r != 0 {
          return Null;
        }
      }
      p := TakeFirst();
    }

    method TakeFirst() returns (p: Ptr)
      requires Valid() && nfreed > 0
      modifies this, nodeList
      ensures Valid()
      ensures p.To? && p.addr in old(Free()) && p.addr in headers && Used() == old(Used()) + {p.addr}
      ensures p.addr in nodeList.links && nodeList.links[p.addr] == Links(Null, Unlinked)
      ensures nfreed == old(nfreed) - 1 && slabs.Keys == old(slabs).Keys && headers.Keys == old(headers).Keys
    {
      ghost var order := nodeList.order;
      var a := nodeList.PopFront();
      assert order == [a] + nodeList.order;
      assert Free() == SetOf(order) - {a};
      TakeUnit(headers, slabs, SetOf(order), incsize, a);
      var h := headers[a];
      headers := headers[a := Header(h.cache, true)];
      slabs := slabs[h.cache := slabs[h.cache].(nused := slabs[h.cache].nused + 1)];
      nfreed := nfreed - 1;
      p := To(a);
    }

    /** `_op_put_node`: a unit handed out comes back; when that leaves its slab unused and
        more than two slabs' worth of units free, the slab is given back. */
    method PutNode(a: Addr)
      requires Valid() && a in Used()
      modifies this, nodeList, cacheList
      ensures Valid() && Used() == old(Used()) - {a}
      ensures old(headers)[a].cache in old(slabs)
      ensures var c := old(headers)[a].cache;
              var released := old(slabs)[c].nused == 1 && old(nfreed) + 1 > 2 * incsize;
              && slabs.Keys == (if released then old(slabs).Keys - {c} else old(slabs).Keys)
              && nfreed == old(nfreed) + 1 - (if released then incsize else 0)
              && (released ==> nfreed > incsize)
    {
      GiveUnit(headers, slabs, Free(), incsize, a);
      ghost var order := nodeList.order;
      var h := headers[a];
      nodeList.PushFront(a);
      assert Free() == SetOf(order) + {a};
      headers := headers[a := Header(h.cache, false)];
      nfreed := nfreed + 1;
      slabs := slabs[h.cache := slabs[h.cache].(nused := slabs[h.cache].nused - 1)];
      if slabs[h.cache].nused == 0 && nfreed > 2 * incsize {
        FreeCache(h.cache);
      }
    }

    /** `mempool_put1` and `mempool_put`: a null pointer is refused. */
    method Put(p: Ptr) returns (r: int)
      requires Valid() && (p.To? ==> p.addr in Used())
      modifies this, nodeList, cacheList
      ensures Valid() && r == if p.Null? then -1 else 0
      ensures Used() == if p.Null? then old(Used()) else old(Used()) - {p.addr}
      ensures p.Null? ==> slabs == old(slabs) && nfreed == old(nfreed)
      ensures p.To? ==> old(headers)[p.addr].cache in old(slabs)
      ensures p.To? ==>
                var c := old(headers)[p.addr].cache;
                var released := old(slabs)[c].nused == 1 && old(nfreed) + 1 > 2 * incsize;
                && slabs.Keys == (if released then old(slabs).Keys - {c} else old(slabs).Keys)
                && nfreed == old(nfreed) + 1 - (if released then incsize else 0)
                && (released ==> nfreed > incsize)
    {
      if p.Null? {
        return -1;
      }
      PutNode(p.addr);
      r := 0;
    }

    /** A unit handed out lies in a slab that has not been given back, and is marked used. */
    lemma UsedUnit(a: Addr)
      requires Valid() && a in Used()
      ensures headers[a].isUsed && headers[a].cache in slabs && a in slabs[headers[a].cache].units
      ensures slabs[headers[a].cache].nused > 0
    {
      assert UnitOk(headers, slabs, Free(), a);
      assert SlabOk(headers, slabs, Free(), incsize, headers[a].cache);
      CountNone(slabs[headers[a].cache].units, Free());
    }

    /** The counters of the slabs add up to the units handed out, and those are all units minus
        the free ones. */
    lemma Accounting()
      requires Valid()
      ensures forall k :: 0 <= k < |cacheList.order| ==> cacheList.order[k] in slabs
      ensures SumUsed(cacheList.order, slabs) == |Used()| == nalloced - nfreed
    {
      var order := cacheList.order;
      LinkedNoDuplicates(cacheList.head, cacheList.links, order);
      LinkedNoDuplicates(nodeList.head, nodeList.links, nodeList.order);
      assert forall k :: 0 <= k < |order| ==> order[k] in SetOf(order);
      SumOfCounters(order, headers, slabs, Free(), incsize);
      CountersCountUsed(order, headers, slabs, Free(), incsize);
      forall a
        ensures a in FreeIn(order, headers, Free()) <==> a in Free()
        ensures a in UsedIn(order, headers, Free()) <==> a in Used()
      {
        assert UnitOk(headers, slabs, Free(), a);
      }
      assert FreeIn(order, headers, Free()) == Free();
      assert UsedIn(order, headers, Free()) == Used();
      SizeOfSetOf(nodeList.order);
    }

    /** A pool without increment never has a unit: behind a slab it allocates, `mempool_get`
        would follow a null pointer. */
    lemma NothingToGive()
      requires Valid() && incsize == 0
      ensures nodeList.head.Null? && nfreed == 0 && Used() == {}
    {
      forall a ensures a !in headers {
        var c := if a in headers then headers[a].cache else a;
        assert UnitOk(headers, slabs, Free(), a);
        assert SlabOk(headers, slabs, Free(), incsize, c);
      }
      LinkedNoDuplicates(nodeList.head, nodeList.links, nodeList.order);
      SizeOfSetOf(nodeList.order);
      assert Free() == {} && Used() == {};
    }
  }

  // ---------- runs ----------

  /** What the callers of a pool have done. */
  datatype Use = Got(unit: Addr) | Gave(unit: Addr)

  /** The units handed out and not yet put back. */
  function HeldAfter(log: seq<Use>): set<Addr> {
    if log == [] then {}
    else
      var before, use := HeldAfter(log[..|log| - 1]), log[|log| - 1];
      if use.Got? then before + {use.unit} else before - {use.unit}
  }

  /** No unit is handed out while it is held, and only held units are put back. */
  predicate Exclusive(log: seq<Use>) {
    log != [] ==>
      var before, use := log[..|log| - 1], log[|log| - 1];
      Exclusive(before) && (use.Got? <==> use.unit !in HeldAfter(before))
  }

  lemma OneMore(log: seq<Use>, use: Use)
    requires Exclusive(log) && (use.Got? <==> use.unit !in HeldAfter(log))
    ensures Exclusive(log + [use])
    ensures HeldAfter(log + [use]) == if use.Got? then HeldAfter(log) + {use.unit} else HeldAfter(log) - {use.unit}
  {
    assert (log + [use])[..|log|] == log;
  }

  /** Any calls of `mempool_get` and `mempool_put`, in any order, where `malloc` may fail and
      gives memory that is not in use. */
  method AnyRun(op: Pool, rounds: nat) returns (ghost log: seq<Use>)
    requires op.Valid() && op.incsize > 0 && op.Used() == {}
    modifies op, op.nodeList, op.cacheList
    ensures op.Valid() && Exclusive(log) && op.Used() == HeldAfter(log)
  {
    log := [];
    var held: set<Addr> := {};
    for i := 0 to rounds
      invariant op.Valid() && Exclusive(log) && op.Used() == HeldAfter(log) == held
    {
      var get: bool := *;
      var a: Addr := *;
      if get {
        var haveCache: bool, havePool: bool, c: Addr, units: seq<Addr> := *, *, *, *;
        if |units| == op.incsize && NoDuplicates(units) && c !in op.slabs
           && forall u :: u in units ==> u !in op.headers {
          var p := op.Get(haveCache, havePool, c, units);
          if p.To? {
            OneMore(log, Got(p.addr));
            log, held := log + [Got(p.addr)], held + {p.addr};
          }
        }
      } else if a in held {
        var r := op.Put(To(a));
        OneMore(log, Gave(a));
        log, held := log + [Gave(a)], held - {a};
      }
    }
  }
}
