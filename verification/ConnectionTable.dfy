/** `connection.c`: handing out connection ids from a table with a wrap-around search. */
module ConnectionTable {

  const MAGIC := 0x87654321

  class Connection {
    var id: int
    var magic: int

    constructor ()
    {
      id, magic := -1, 0;
    }
  }

  type Slots = seq<Connection?>

  /** The number of empty slots. */
  function Holes(t: Slots): (n: nat)
    ensures n <= |t|
  {
    if t == [] then 0 else Holes(t[..|t| - 1]) + if t[|t| - 1] == null then 1 else 0
  }

  lemma {:induction false} HolesUpdate(t: Slots, i: int, c: Connection?)
    requires 0 <= i < |t|
    ensures Holes(t[i := c]) ==
            Holes(t) - (if t[i] == null then 1 else 0) + if c == null then 1 else 0
  {
    var n := |t| - 1;
    if i < n {
      assert t[i := c][..n] == t[..n][i := c];
      HolesUpdate(t[..n], i, c);
    } else {
      assert t[i := c][..n] == t[..n];
    }
  }

  lemma {:induction false} NoHoles(t: Slots)
    ensures Holes(t) == 0 <==> forall k :: 0 <= k < |t| ==> t[k] != null
  {
    if t != [] {
      NoHoles(t[..|t| - 1]);
    }
  }

  lemma {:induction false} AllHoles(t: Slots)
    requires forall k :: 0 <= k < |t| ==> t[k] == null
    ensures Holes(t) == |t|
  {
    if t != [] {
      AllHoles(t[..|t| - 1]);
    }
  }

  // ---------- the search ----------

  /** The slot `n` places behind `from`, for up to one round. */
  function Around(t: Slots, from: int, n: int): int {
    if from + n < |t| then from + n else from + n - |t|
  }

  /** Where a search from `freeid` begins. */
  function Start(t: Slots, freeid: int): int {
    if freeid < |t| then freeid else 0
  }

  /** `m` is the first empty slot at or behind the starting one, wrapping around. */
  predicate FirstHole(t: Slots, freeid: int, m: int) {
    exists n :: 0 <= n < |t| && m == Around(t, Start(t, freeid), n) && HoleAfter(t, Start(t, freeid), n)
  }

  predicate HoleAfter(t: Slots, from: int, n: int)
    requires 0 <= n < |t|
  {
    && 0 <= from < |t| && t[Around(t, from, n)] == null
    && forall j :: 0 <= j < n ==> 0 <= Around(t, from, j) < |t| && t[Around(t, from, j)] != null
  }

  /** Where a search stands: it has answered, or looks at `id` next. */
  datatype Search = Answer(id: int) | Look(id: int)

  /** One turn of the loop, with its test. */
  function Turn(t: Slots, freeid: int, s: Search): Search
    requires t != []
  {
    match s
    case Answer(_) => s
    case Look(at) =>
      var id := if at >= |t| then 0 else at;
      if 0 <= id && t[id] == null then Answer(id) else if id + 1 != freeid then Look(id + 1) else Answer(-1)
  }

  function Turns(t: Slots, freeid: int, n: nat): Search
    requires t != []
  {
    if n == 0 then Look(freeid) else Turn(t, freeid, Turns(t, freeid, n - 1))
  }

  /** It comes to an end. */
  ghost predicate Stops(t: Slots, freeid: int)
    requires t != []
  {
    exists n: nat :: Turns(t, freeid, n).Answer?
  }

  predicate Full(t: Slots) {
    forall k :: 0 <= k < |t| ==> t[k] != null
  }

  /** As long as it looks it has seen no empty slot, and is not back at its start. */
  lemma {:induction false} Looking(t: Slots, freeid: int, n: nat)
    requires t != [] && 0 <= freeid <= |t| && 0 < n <= |t| && Turns(t, freeid, n).Look?
    ensures var k := Around(t, Start(t, freeid), n - 1);
            0 <= k < |t| && t[k] != null && Turns(t, freeid, n) == Look(k + 1) && k + 1 != freeid
    ensures n > 1 ==> Turns(t, freeid, n - 1).Look?
  {
    if n > 1 {
      Looking(t, freeid, n - 1);
    }
  }

  lemma {:induction false} Seen(t: Slots, freeid: int, n: nat)
    requires t != [] && 0 <= freeid <= |t| && n <= |t| && Turns(t, freeid, n).Look?
    ensures forall j :: 0 <= j < n ==>
              0 <= Around(t, Start(t, freeid), j) < |t| && t[Around(t, Start(t, freeid), j)] != null
  {
    if n > 0 {
      Looking(t, freeid, n);
      if n > 1 {
        Seen(t, freeid, n - 1);
      }
    }
  }

  /** After one round it has seen every slot and can only have begun at slot 0. */
  lemma WholeRound(t: Slots, freeid: int)
    requires t != [] && 0 <= freeid <= |t| && Turns(t, freeid, |t|).Look?
    ensures Full(t) && freeid == 0
  {
    Looking(t, freeid, |t|);
    Seen(t, freeid, |t|);
    var from := Start(t, freeid);
    forall k | 0 <= k < |t| ensures t[k] != null {
      assert k == Around(t, from, if k >= from then k - from else k - from + |t|);
    }
  }

  /** The slot before the starting one is the last to be seen. */
  lemma BackAtStart(t: Slots, freeid: int, n: nat)
    requires t != [] && 0 <= freeid <= |t| && 0 < n <= |t| && Turns(t, freeid, n - 1).Look?
    requires var k := Around(t, Start(t, freeid), n - 1); 0 <= k < |t| && t[k] != null && k + 1 == freeid
    ensures Full(t)
  {
    Seen(t, freeid, n - 1);
    var from := Start(t, freeid);
    assert n == |t|;
    forall k | 0 <= k < |t| ensures t[k] != null {
      assert k == Around(t, from, if k >= from then k - from else k - from + |t|);
    }
  }

  lemma {:induction false} FullFromZero(t: Slots, n: nat)
    requires t != [] && Full(t)
    ensures Turns(t, 0, n).Look? && 0 <= Turns(t, 0, n).id <= |t|
  {
    if n > 0 {
      FullFromZero(t, n - 1);
    }
  }

  /** A search ends exactly when some slot is empty or it does not begin at slot 0. */
  lemma StopsExactlyWhen(t: Slots, freeid: int)
    requires t != [] && 0 <= freeid <= |t|
    ensures Stops(t, freeid) <==> !Full(t) || freeid != 0
  {
    if Full(t) && freeid == 0 {
      forall n: nat ensures Turns(t, freeid, n).Look? {
        FullFromZero(t, n);
      }
    } else if Turns(t, freeid, |t|).Look? {
      WholeRound(t, freeid);
    }
  }

  // ---------- the table ----------

  class Table {
    const table: array<Connection?>
    const max: int
    var nfreed: int
    var freeid: int

    ghost predicate Counted()
      reads this, table
    {
      && max == table.Length && max >= 1 && 0 <= freeid <= max
      && nfreed == Holes(table[..])
    }

    /** A connection in the table knows its slot. */
    ghost predicate Valid()
      reads this, table, table[..]
    {
      && Counted()
      && forall k :: 0 <= k < table.Length && table[k] != null ==> table[k].id == k && table[k].magic == MAGIC
    }

    constructor (n: int)
      requires n >= 1
      ensures Valid() && table[..] == seq(n, i => null) && nfreed == n && freeid == 0 && fresh(table)
    {
      table := new Connection?[n](i => null);
      max, nfreed, freeid := n, n, 0;
      new;
      assert table[..] == seq(n, i => null);
      AllHoles(table[..]);
    }

    method GetFreeId() returns (id: int)
      requires Counted() && (!Full(table[..]) || freeid != 0)
      modifies this`freeid
      ensures Full(table[..]) ==> id == -1 && freeid == old(freeid)
      ensures !Full(table[..]) ==>
                FirstHole(table[..], old(freeid), id) && 0 <= id < max && table[id] == null && freeid == id + 1
    {
      ghost var t, n := table[..], 0;
      id := freeid;
      while true
        invariant 0 <= n <= |t| && t == table[..] && freeid == old(freeid)
        invariant Turns(t, freeid, n) == Look(id) && 0 <= id <= max
        decreases |t| - n
      {
        Seen(t, freeid, n);
        if n == |t| {
          WholeRound(t, freeid);
        }
        assert n < |t|;
        if n > 0 {
          Looking(t, freeid, n);
        }
        if id >= max {
          id := 0;
        }
        if table[id] == null {
          assert id == Around(t, Start(t, freeid), n) && HoleAfter(t, Start(t, freeid), n);
          freeid := id + 1;
          return id;
        }
        id, n := id + 1, n + 1;
        if id == freeid {
          BackAtStart(t, freeid, n);
          return -1;
        }
      }
    }

    /** A connection that is not in the table yet. */
    method Add(s: Connection?) returns (ret: int)
      requires Valid() && (s != null ==> forall k :: 0 <= k < max ==> table[k] != s)
      modifies this`nfreed, this`freeid, table, if s == null then {} else {s}
      ensures Valid()
      ensures ret == 0 <==> s != null && old(nfreed) > 0
      ensures ret != 0 ==> ret == -1 && table[..] == old(table[..])
      ensures ret == 0 ==> && 0 <= s.id < max && FirstHole(old(table[..]), old(freeid), s.id)
                           && table[..] == old(table[..])[s.id := s] && nfreed == old(nfreed) - 1
      ensures ret == 0 ==>
                Possible(old(table[..]), Added(s.id, s)) && table[..] == After(old(table[..]), [Added(s.id, s)])
    {
      if s == null {
        return -1;
      }
      if nfreed < 1 {
        return -1;
      }
      NoHoles(table[..]);
      var id := GetFreeId();
      if id < 0 {
        return -1;
      }
      HolesUpdate(table[..], id, s);
      ghost var was := table[..];
      s.id, s.magic := id, MAGIC;
      table[id] := s;
      nfreed := nfreed - 1;
      assert table[..] == was[id := s];
      return 0;
    }

    method Find(id: int) returns (s: Connection?)
      requires Valid()
      ensures s == if 0 <= id < max then table[id] else null
      ensures s != null ==> s.id == id
    {
      if id < 0 || id >= max {
        return null;
      }
      s := table[id];
      if s == null {
        return null;
      }
      assert s.magic == MAGIC;
    }

    method Del(id: int) returns (ret: int)
      requires Valid()
      modifies this`nfreed, table, if 0 <= id < table.Length && table[id] != null then {table[id]} else {}
      ensures Valid()
      ensures ret == if 0 <= id < max && old(table[..])[id] != null then 0 else -1
      ensures ret != 0 ==> table[..] == old(table[..])
      ensures ret == 0 ==> table[..] == old(table[..])[id := null] && nfreed == old(nfreed) + 1
      ensures ret == 0 ==> Possible(old(table[..]), Deleted(id)) && table[..] == After(old(table[..]), [Deleted(id)])
    {
      if id < 0 || id >= max {
        return -1;
      }
      var s := table[id];
      if s == null {
        return -1;
      }
      HolesUpdate(table[..], id, null);
      ghost var was := table[..];
      assert forall k :: 0 <= k < max && k != id && table[k] != null ==> table[k] != s;
      s.magic := 0;
      table[id] := null;
      nfreed := nfreed + 1;
      assert table[..] == was[id := null];
      return 0;
    }
  }

  // ---------- runs ----------

  /** A call that changes the table, with the id it was about. */
  datatype Call = Added(id: int, s: Connection) | Deleted(id: int)

  predicate Possible(t: Slots, call: Call) {
    0 <= call.id < |t| && (t[call.id] == null <==> call.Added?)
  }

  function After(t: Slots, calls: seq<Call>): Slots {
    if calls == [] then t
    else
      var before := After(t, calls[..|calls| - 1]);
      var call := calls[|calls| - 1];
      if !Possible(before, call) then before
      else before[call.id := if call.Added? then call.s else null]
  }

  lemma AfterOne(t: Slots, calls: seq<Call>, call: Call)
    ensures After(t, calls + [call]) == After(After(t, calls), [call])
  {
    assert (calls + [call])[..|calls|] == calls;
    assert [call][..0] == [];
  }

  /** A connection is found under its id until that id is deleted, whatever else is called. */
  lemma {:induction false} StaysUntilDeleted(t: Slots, calls: seq<Call>, id: int, s: Connection)
    requires 0 <= id < |t| && t[id] == s
    requires forall k :: 0 <= k < |calls| ==> calls[k] != Deleted(id)
    ensures |After(t, calls)| == |t| && After(t, calls)[id] == s
  {
    if calls != [] {
      StaysUntilDeleted(t, calls[..|calls| - 1], id, s);
    }
  }

  /** Any calls of a table's methods, in any order and with any results: the log of those that
      changed it explains the table. */
  method AnyCalls(table: Table, rounds: nat) returns (ghost log: seq<Call>)
    requires table.Valid()
    modifies table, table.table, table.table[..]
    ensures table.Valid() && table.table[..] == After(old(table.table[..]), log)
  {
    log := [];
    for i := 0 to rounds
      invariant table.Valid() && table.table[..] == After(old(table.table[..]), log)
      invariant forall k :: 0 <= k < table.table.Length ==>
                  var c := table.table[k]; c == null || c == old(table.table[k]) || fresh(c)
    {
      var add: bool := *;
      if add {
        var s := new Connection();
        var ret := table.Add(s);
        if ret == 0 {
          AfterOne(old(table.table[..]), log, Added(s.id, s));
          log := log + [Added(s.id, s)];
        }
      } else {
        var id: int := *;
        var ret := table.Del(id);
        if ret == 0 {
          AfterOne(old(table.table[..]), log, Deleted(id));
          log := log + [Deleted(id)];
        }
      }
    }
  }

  /** A connection that was added is found under its id after any calls, unless the id was
      deleted in between. */
  method AddedIsFound(table: Table, rounds: nat) 
    returns (s: Connection, id: int, added: bool, found: Connection?, ghost log: seq<Call>)
    requires table.Valid()
    modifies table, table.table, table.table[..]
    ensures table.Valid() && (added <==> old(table.nfreed) > 0)
    ensures added && (forall k :: 0 <= k < |log| ==> log[k] != Deleted(id)) ==> found == s
  {
    s := new Connection();
    var ret := table.Add(s);
    added := ret == 0;
    id := s.id;
    ghost var before := table.table[..];
    log := AnyCalls(table, rounds);
    if added && forall k :: 0 <= k < |log| ==> log[k] != Deleted(id) {
      StaysUntilDeleted(before, log, id, s);
    }
    found := table.Find(id);
  }
}
