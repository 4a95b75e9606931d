/** The book-keeping of a slab allocator as plain values: which unit lies in which slab,
    which units are free, and how many units of each slab are handed out. */
module SlabAccounts {
  import opened LinkedLists

  /** The header of a memory unit, without its links. */
  datatype Header = Header(cache: Addr, isUsed: bool)

  /** A slab: the addresses of its units and the number of them handed out. */
  datatype Slab = Slab(units: seq<Addr>, nused: int)

  function SetOf(s: seq<Addr>): set<Addr> {
    set a | a in s
  }

  function CountUsed(units: seq<Addr>, free: set<Addr>): nat {
    if units == [] then 0
    else CountUsed(units[..|units| - 1], free) + (if units[|units| - 1] in free then 0 else 1)
  }

  /** The header of unit `a` names its slab and says whether it is free. */
  ghost predicate UnitOk(headers: map<Addr, Header>, slabs: map<Addr, Slab>, free: set<Addr>, a: Addr) {
    a in headers ==>
      && headers[a].cache in slabs && a in slabs[headers[a].cache].units
      && (headers[a].isUsed <==> a !in free)
  }

  /** Slab `c` has `size` distinct units that name it, and counts those handed out. */
  ghost predicate SlabOk(headers: map<Addr, Header>, slabs: map<Addr, Slab>, free: set<Addr>, size: int, c: Addr) {
    c in slabs ==>
      var s := slabs[c];
      && |s.units| == size && NoDuplicates(s.units)
      && s.nused == CountUsed(s.units, free)
      && forall k :: 0 <= k < |s.units| ==> s.units[k] in headers && headers[s.units[k]].cache == c
  }

  ghost predicate Accounts(headers: map<Addr, Header>, slabs: map<Addr, Slab>, free: set<Addr>, size: int) {
    && free <= headers.Keys
    && (forall a {:trigger UnitOk(headers, slabs, free, a)} :: UnitOk(headers, slabs, free, a))
    && (forall c {:trigger SlabOk(headers, slabs, free, size, c)} :: SlabOk(headers, slabs, free, size, c))
  }

  lemma {:induction false} CountSame(units: seq<Addr>, f: set<Addr>, g: set<Addr>)
    requires forall k :: 0 <= k < |units| ==> (units[k] in f <==> units[k] in g)
    ensures CountUsed(units, f) == CountUsed(units, g)
  {
    if units != [] {
      CountSame(units[..|units| - 1], f, g);
    }
  }

  lemma {:induction false} CountTake(units: seq<Addr>, free: set<Addr>, a: Addr)
    requires NoDuplicates(units) && a in units && a in free
    ensures CountUsed(units, free - {a}) == CountUsed(units, free) + 1
  {
    var n := |units| - 1;
    if units[n] == a {
      CountSame(units[..n], free, free - {a});
    } else {
      CountTake(units[..n], free, a);
    }
  }

  lemma {:induction false} CountNone(units: seq<Addr>, free: set<Addr>)
    ensures CountUsed(units, free) == 0 <==> forall k :: 0 <= k < |units| ==> units[k] in free
  {
    if units != [] {
      CountNone(units[..|units| - 1], free);
    }
  }

  /** A free unit is handed out. */
  lemma TakeUnit(headers: map<Addr, Header>, slabs: map<Addr, Slab>, free: set<Addr>, size: int, a: Addr)
    requires Accounts(headers, slabs, free, size) && a in free
    ensures a in headers && headers[a].cache in slabs
    ensures var c := headers[a].cache;
            var s := slabs[c];
            Accounts(headers[a := Header(c, true)], slabs[c := s.(nused := s.nused + 1)], free - {a}, size)
  {
    assert UnitOk(headers, slabs, free, a);
    var c := headers[a].cache;
    var s := slabs[c];
    var headers', slabs', free' := headers[a := Header(c, true)], slabs[c := s.(nused := s.nused + 1)], free - {a};
    forall b
      ensures UnitOk(headers', slabs', free', b)
    {
      assert UnitOk(headers, slabs, free, b);
    }
    forall d | d in slabs'
      ensures SlabOk(headers', slabs', free', size, d)
    {
      assert SlabOk(headers, slabs, free, size, d);
      if d == c {
        CountTake(s.units, free, a);
      } else {
        CountSame(slabs[d].units, free, free');
      }
    }
  }

  /** A unit is put back. */
  lemma GiveUnit(headers: map<Addr, Header>, slabs: map<Addr, Slab>, free: set<Addr>, size: int, a: Addr)
    requires Accounts(headers, slabs, free, size) && a in headers && a !in free
    ensures headers[a].cache in slabs
    ensures var c := headers[a].cache;
            var s := slabs[c];
            Accounts(headers[a := Header(c, false)], slabs[c := s.(nused := s.nused - 1)], free + {a}, size)
  {
    assert UnitOk(headers, slabs, free, a);
    var c := headers[a].cache;
    var s := slabs[c];
    var headers', slabs', free' := headers[a := Header(c, false)], slabs[c := s.(nused := s.nused - 1)], free + {a};
    forall b
      ensures UnitOk(headers', slabs', free', b)
    {
      assert UnitOk(headers, slabs, free, b);
    }
    forall d | d in slabs'
      ensures SlabOk(headers', slabs', free', size, d)
    {
      assert SlabOk(headers, slabs, free, size, d);
      if d == c {
        CountTake(s.units, free', a);
        assert free' - {a} == free;
      } else {
        CountSame(slabs[d].units, free, free');
      }
    }
  }

  /** A new slab, all of whose units are free. */
  lemma EnlistSlab(headers: map<Addr, Header>, headers': map<Addr, Header>, slabs: map<Addr, Slab>, free: set<Addr>,
                   size: int, c: Addr, units: seq<Addr>)
    requires Accounts(headers, slabs, free, size) && c !in slabs
    requires |units| == size && NoDuplicates(units) && forall a :: a in units ==> a !in headers
    requires headers'.Keys == headers.Keys + SetOf(units)
    requires forall a :: a in headers ==> headers'[a] == headers[a]
    requires forall a :: a in units ==> headers'[a] == Header(c, false)
    ensures Accounts(headers', slabs[c := Slab(units, 0)], free + SetOf(units), size)
  {
    var slabs', free' := slabs[c := Slab(units, 0)], free + SetOf(units);
    forall b
      ensures UnitOk(headers', slabs', free', b)
    {
      assert UnitOk(headers, slabs, free, b);
    }
    forall d | d in slabs'
      ensures SlabOk(headers', slabs', free', size, d)
    {
      assert SlabOk(headers, slabs, free, size, d);
      if d == c {
        CountNone(units, free');
      } else {
        CountSame(slabs[d].units, free, free');
      }
    }
  }

  /** A slab all of whose units are free is given back. */
  lemma ReleaseSlab(headers: map<Addr, Header>, slabs: map<Addr, Slab>, free: set<Addr>, size: int, c: Addr)
    requires Accounts(headers, slabs, free, size) && c in slabs && slabs[c].nused == 0
    ensures SetOf(slabs[c].units) <= free
    ensures var gone := SetOf(slabs[c].units);
            Accounts(headers - gone, slabs - {c}, free - gone, size)
  {
    var gone := SetOf(slabs[c].units);
    assert SlabOk(headers, slabs, free, size, c);
    CountNone(slabs[c].units, free);
    forall b
      ensures UnitOk(headers - gone, slabs - {c}, free - gone, b)
    {
      assert UnitOk(headers, slabs, free, b);
    }
    forall d | d in slabs && d != c
      ensures SlabOk(headers - gone, slabs - {c}, free - gone, size, d)
    {
      assert SlabOk(headers, slabs, free, size, d);
      forall k | 0 <= k < |slabs[d].units|
        ensures slabs[d].units[k] !in gone
      {
        assert headers[slabs[d].units[k]].cache == d;
      }
      CountSame(slabs[d].units, free, free - gone);
    }
  }

  // ---------- the sum of the counters ----------

  function SumUsed(order: seq<Addr>, slabs: map<Addr, Slab>): int
    requires forall k :: 0 <= k < |order| ==> order[k] in slabs
  {
    if order == [] then 0 else SumUsed(order[..|order| - 1], slabs) + slabs[order[|order| - 1]].nused
  }

  /** The free units of the slabs in `order`. */
  ghost function FreeIn(order: seq<Addr>, headers: map<Addr, Header>, free: set<Addr>): set<Addr> {
    set a | a in free && a in headers && headers[a].cache in order
  }

  lemma SetOfSnoc(s: seq<Addr>, a: Addr)
    ensures SetOf(s + [a]) == SetOf(s) + {a}
  {
  }

  lemma SetOfWithout(s: seq<Addr>, k: nat)
    requires NoDuplicates(s) && k < |s|
    ensures SetOf(Without(s, k)) == SetOf(s) - {s[k]}
  {
    var r := Without(s, k);
    forall a | a in SetOf(s) - {s[k]}
      ensures a in r
    {
      var j :| 0 <= j < |s| && s[j] == a;
      assert r[if j < k then j else j - 1] == a;
    }
  }

  lemma {:induction false} SizeOfSetOf(s: seq<Addr>)
    requires NoDuplicates(s)
    ensures |SetOf(s)| == |s|
  {
    if s != [] {
      var n := |s| - 1;
      SizeOfSetOf(s[..n]);
      SetOfSnoc(s[..n], s[n]);
      assert s == s[..n] + [s[n]];
    }
  }

  lemma {:induction false} FreeOfSlab(units: seq<Addr>, free: set<Addr>)
    requires NoDuplicates(units)
    ensures |free * SetOf(units)| == |units| - CountUsed(units, free)
  {
    if units == [] {
      assert free * SetOf(units) == {};
    } else {
      var n := |units| - 1;
      FreeOfSlab(units[..n], free);
      FreeOfMore(units[..n], units[n], free);
      assert units == units[..n] + [units[n]];
    }
  }

  lemma FreeOfMore(units: seq<Addr>, a: Addr, free: set<Addr>)
    requires a !in units
    ensures |free * SetOf(units + [a])| == |free * SetOf(units)| + if a in free then 1 else 0
  {
    SetOfSnoc(units, a);
    SizeOfMore(free, SetOf(units), a);
  }

  lemma SizeOfMore(free: set<Addr>, s: set<Addr>, a: Addr)
    requires a !in s
    ensures |free * (s + {a})| == |free * s| + if a in free then 1 else 0
  {
    assert free * (s + {a}) == if a in free then free * s + {a} else free * s;
  }

  lemma SizeStep(size: int, n: int)
    ensures size * (n + 1) == size * n + size
  {
  }

  /** Over the slabs, the units handed out are all units minus the free ones. */
  lemma {:induction false} SumOfCounters(order: seq<Addr>, headers: map<Addr, Header>, slabs: map<Addr, Slab>,
                                         free: set<Addr>, size: int)
    requires Accounts(headers, slabs, free, size) && NoDuplicates(order)
    requires forall k :: 0 <= k < |order| ==> order[k] in slabs
    ensures SumUsed(order, slabs) == size * |order| - |FreeIn(order, headers, free)|
  {
    if order == [] {
      assert FreeIn(order, headers, free) == {};
    } else {
      var n := |order| - 1;
      var rest, c := order[..n], order[n];
      SumOfCounters(rest, headers, slabs, free, size);
      SizeStep(size, n);
      assert SlabOk(headers, slabs, free, size, c);
      FreeOfSlab(slabs[c].units, free);
      FreeInSnoc(rest, c, headers, slabs, free, size);
      assert order == rest + [c];
    }
  }

  lemma FreeInSnoc(rest: seq<Addr>, c: Addr, headers: map<Addr, Header>, slabs: map<Addr, Slab>, free: set<Addr>,
                   size: int)
    requires Accounts(headers, slabs, free, size) && c in slabs && c !in rest
    ensures |FreeIn(rest + [c], headers, free)| == |FreeIn(rest, headers, free)| + |free * SetOf(slabs[c].units)|
  {
    var mine := free * SetOf(slabs[c].units);
    assert SlabOk(headers, slabs, free, size, c);
    forall a
      ensures a in FreeIn(rest + [c], headers, free) <==> a in FreeIn(rest, headers, free) + mine
    {
      assert UnitOk(headers, slabs, free, a);
    }
    assert FreeIn(rest + [c], headers, free) == FreeIn(rest, headers, free) + mine;
    assert FreeIn(rest, headers, free) !! mine;
  }

  // ---------- the units handed out ----------

  /** The units of the slabs in `order` that are handed out. */
  ghost function UsedIn(order: seq<Addr>, headers: map<Addr, Header>, free: set<Addr>): set<Addr> {
    set a | a in headers && a !in free && headers[a].cache in order
  }

  lemma UsedOfSlab(units: seq<Addr>, free: set<Addr>)
    requires NoDuplicates(units)
    ensures |SetOf(units) - free| == CountUsed(units, free)
  {
    FreeOfSlab(units, free);
    SizeOfSetOf(units);
    assert SetOf(units) == free * SetOf(units) + (SetOf(units) - free);
  }

  lemma UsedInSnoc(rest: seq<Addr>, c: Addr, headers: map<Addr, Header>, slabs: map<Addr, Slab>, free: set<Addr>,
                   size: int)
    requires Accounts(headers, slabs, free, size) && c in slabs && c !in rest
    ensures |UsedIn(rest + [c], headers, free)| == |UsedIn(rest, headers, free)| + slabs[c].nused
  {
    var mine := SetOf(slabs[c].units) - free;
    assert SlabOk(headers, slabs, free, size, c);
    forall a
      ensures a in UsedIn(rest + [c], headers, free) <==> a in UsedIn(rest, headers, free) + mine
    {
      assert UnitOk(headers, slabs, free, a);
    }
    assert UsedIn(rest + [c], headers, free) == UsedIn(rest, headers, free) + mine;
    assert UsedIn(rest, headers, free) !! mine;
    UsedOfSlab(slabs[c].units, free);
  }

  /** The counters of the slabs add up to the number of units handed out. */
  lemma {:induction false} CountersCountUsed(order: seq<Addr>, headers: map<Addr, Header>, slabs: map<Addr, Slab>,
                                             free: set<Addr>, size: int)
    requires Accounts(headers, slabs, free, size) && NoDuplicates(order)
    requires forall k :: 0 <= k < |order| ==> order[k] in slabs
    ensures SumUsed(order, slabs) == |UsedIn(order, headers, free)|
  {
    if order == [] {
      assert UsedIn(order, headers, free) == {};
    } else {
      var n := |order| - 1;
      CountersCountUsed(order[..n], headers, slabs, free, size);
      UsedInSnoc(order[..n], order[n], headers, slabs, free, size);
      assert order == order[..n] + [order[n]];
    }
  }
}
