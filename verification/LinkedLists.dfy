/** Intrusive doubly linked lists: each cell stores a `next` pointer and a `pprev` pointer to
    whatever points to it.  Cells are named by address; the links live in one table. */
module LinkedLists {

  type Addr = int

  /** A pointer. */
  datatype Ptr = Null | To(addr: Addr)

  /** What `pprev` points to: nothing, the list head, or the `next` of another cell. */
  datatype Link = Unlinked | AtHead | NextOf(addr: Addr)

  datatype Links = Links(next: Ptr, prev: Link)

  predicate NoDuplicates(s: seq<Addr>) {
    forall i, j :: 0 <= i < j < |s| ==> s[i] != s[j]
  }

  /** The list without its `k`-th cell. */
  function Without(s: seq<Addr>, k: nat): (r: seq<Addr>)
    requires k < |s|
    ensures |r| == |s| - 1
    ensures forall j :: 0 <= j < |r| ==> r[j] == s[if j < k then j else j + 1]
  {
    s[..k] + s[k + 1..]
  }

  function PtrAt(order: seq<Addr>, k: int): Ptr {
    if 0 <= k < |order| then To(order[k]) else Null
  }

  function LinkAt(order: seq<Addr>, k: int): Link {
    if 0 < k <= |order| then NextOf(order[k - 1]) else AtHead
  }

  /** Cell number `k` of the list is linked in both directions. */
  ghost predicate CellLinked(links: map<Addr, Links>, order: seq<Addr>, k: int) {
    0 <= k < |order| ==> order[k] in links && links[order[k]] == Links(PtrAt(order, k + 1), LinkAt(order, k))
  }

  /** From `head`, `next` runs through `order` to the end, and `prev` leads back. */
  ghost predicate Linked(head: Ptr, links: map<Addr, Links>, order: seq<Addr>) {
    && head == PtrAt(order, 0)
    && (forall k {:trigger CellLinked(links, order, k)} :: CellLinked(links, order, k))
  }

  /** A list linked in both directions holds no cell twice. */
  lemma {:induction false} LinkedDistinct(head: Ptr, links: map<Addr, Links>, order: seq<Addr>, j: nat, k: nat)
    requires Linked(head, links, order) && j < k < |order|
    ensures order[j] != order[k]
  {
    assert CellLinked(links, order, j) && CellLinked(links, order, k);
    if order[j] == order[k] && j > 0 {
      LinkedDistinct(head, links, order, j - 1, k - 1);
    }
  }

  lemma LinkedNoDuplicates(head: Ptr, links: map<Addr, Links>, order: seq<Addr>)
    requires Linked(head, links, order)
    ensures NoDuplicates(order)
  {
    forall j, k | 0 <= j < k < |order|
      ensures order[j] != order[k]
    {
      LinkedDistinct(head, links, order, j, k);
    }
  }

  lemma CellAtOnlyOnce(head: Ptr, links: map<Addr, Links>, order: seq<Addr>, j: nat, k: nat)
    requires Linked(head, links, order) && j < |order| && k < |order| && j != k
    ensures order[j] != order[k]
  {
    if j < k {
      LinkedDistinct(head, links, order, j, k);
    } else {
      LinkedDistinct(head, links, order, k, j);
    }
  }

  /** The links after cell `a` is put in front. */
  function Prepend(head: Ptr, links: map<Addr, Links>, a: Addr): map<Addr, Links>
    requires head.To? ==> head.addr in links
  {
    var m := if head.To? then links[head.addr := links[head.addr].(prev := NextOf(a))] else links;
    m[a := Links(head, AtHead)]
  }

  lemma PrependLinked(head: Ptr, links: map<Addr, Links>, order: seq<Addr>, a: Addr)
    requires Linked(head, links, order) && a !in order
    ensures head.To? ==> head.addr in links
    ensures Linked(To(a), Prepend(head, links, a), [a] + order)
  {
    assert CellLinked(links, order, 0);
    var r, m := [a] + order, Prepend(head, links, a);
    forall k | 0 <= k < |r|
      ensures CellLinked(m, r, k)
    {
      if k > 0 {
        assert CellLinked(links, order, k - 1);
        assert order[k - 1] in order;
        if k > 1 {
          CellAtOnlyOnce(head, links, order, 0, k - 1);
        }
      }
    }
  }

  /** The links after the first cell is taken off and its own links are cleared. */
  function Behead(links: map<Addr, Links>, a: Addr): map<Addr, Links>
    requires a in links && (links[a].next.To? ==> links[a].next.addr in links)
  {
    var n := links[a].next;
    var m := if n.To? then links[n.addr := links[n.addr].(prev := AtHead)] else links;
    m[a := Links(Null, Unlinked)]
  }

  lemma BeheadLinked(head: Ptr, links: map<Addr, Links>, order: seq<Addr>)
    requires Linked(head, links, order) && order != []
    ensures var a := order[0];
            && head == To(a) && a in links && a !in order[1..]
            && (links[a].next.To? ==> links[a].next.addr in links && links[a].next.addr != a)
            && Linked(links[a].next, Behead(links, a), order[1..])
  {
    var a, r := order[0], order[1..];
    assert CellLinked(links, order, 0);
    assert CellLinked(links, order, 1);
    forall k | 0 <= k < |r|
      ensures r[k] != a
    {
      CellAtOnlyOnce(head, links, order, 0, k + 1);
    }
    var m := Behead(links, a);
    forall k | 0 <= k < |r|
      ensures CellLinked(m, r, k)
    {
      assert CellLinked(links, order, k + 1);
      if k > 0 {
        CellAtOnlyOnce(head, links, order, 1, k + 1);
      }
    }
  }

  /** The links after a cell with links `l` is bypassed: its neighbours point past it. */
  function Bypass(links: map<Addr, Links>, l: Links): map<Addr, Links>
    requires l.next.To? ==> l.next.addr in links
    requires l.prev.NextOf? ==> l.prev.addr in links
  {
    var m := if l.next.To? then links[l.next.addr := links[l.next.addr].(prev := l.prev)] else links;
    if l.prev.NextOf? then m[l.prev.addr := m[l.prev.addr].(next := l.next)] else m
  }

  lemma BypassLinked(head: Ptr, links: map<Addr, Links>, order: seq<Addr>, k: nat)
    requires Linked(head, links, order) && k < |order|
    ensures order[k] in links
    ensures var l := links[order[k]];
            && (l.next.To? ==> l.next.addr in links) && (l.prev.NextOf? ==> l.prev.addr in links)
            && !l.prev.Unlinked? && Bypass(links, l).Keys == links.Keys
            && order[k] !in Without(order, k)
            && Linked(if l.prev.AtHead? then l.next else head, Bypass(links, l), Without(order, k))
  {
    assert CellLinked(links, order, k);
    assert CellLinked(links, order, k - 1);
    assert CellLinked(links, order, k + 1);
    var l, r := links[order[k]], Without(order, k);
    var m := Bypass(links, l);
    forall j | 0 <= j < |r|
      ensures CellLinked(m, r, j) && r[j] != order[k]
    {
      var i := if j < k then j else j + 1;
      assert CellLinked(links, order, i);
      CellAtOnlyOnce(head, links, order, i, k);
      if k > 0 && i != k - 1 {
        CellAtOnlyOnce(head, links, order, i, k - 1);
      }
      if k < |order| - 1 && i != k + 1 {
        CellAtOnlyOnce(head, links, order, i, k + 1);
      }
      if 0 < k < |order| - 1 {
        CellAtOnlyOnce(head, links, order, k - 1, k + 1);
      }
    }
  }

  class LinkedList {
    var head: Ptr
    var links: map<Addr, Links>

    ghost var order: seq<Addr>   // the cells, from head to end

    ghost predicate Valid()
      reads this
    {
      Linked(head, links, order)
    }

    constructor ()
      ensures Valid() && order == [] && links == map[]
    {
      head, links, order := Null, map[], [];
    }

    /** Put cell `a` in front. */
    method PushFront(a: Addr)
      requires Valid() && a !in order
      modifies this
      ensures Valid() && order == [a] + old(order)
      ensures links.Keys == old(links).Keys + {a}
    {
      PrependLinked(head, links, order, a);
      if head.To? {
        links := links[head.addr := links[head.addr].(prev := NextOf(a))];
      }
      links := links[a := Links(head, AtHead)];
      head := To(a);
      order := [a] + order;
    }

    /** Take the first cell off; its own links are cleared. */
    method PopFront() returns (a: Addr)
      requires Valid() && order != []
      modifies this
      ensures Valid() && a == old(order)[0] && order == old(order)[1..] && a !in order
      ensures links.Keys == old(links).Keys && a in links && links[a] == Links(Null, Unlinked)
    {
      BeheadLinked(head, links, order);
      a := head.addr;
      var next := links[a].next;
      if next.To? {
        links := links[next.addr := links[next.addr].(prev := AtHead)];
      }
      head := next;
      links := links[a := Links(Null, Unlinked)];
      order := order[1..];
    }

    /** Take cell `a` out of the middle; its own links are left as they were. */
    method Unlink(a: Addr, ghost k: nat)
      requires Valid() && k < |order| && order[k] == a
      modifies this
      ensures Valid() && order == Without(old(order), k) && a !in order
      ensures links.Keys == old(links).Keys
    {
      BypassLinked(head, links, order, k);
      assert CellLinked(links, order, k);
      var l := links[a];
      if l.next.To? {
        links := links[l.next.addr := links[l.next.addr].(prev := l.prev)];
      }
      match l.prev {
        case AtHead => head := l.next;
        case NextOf(p) => links := links[p := links[p].(next := l.next)];
        case Unlinked => assert false;
      }
      order := Without(order, k);
    }

    /** The memory of the cells `gone` is given back. */
    method Forget(gone: set<Addr>)
      requires Valid() && forall a :: a in order ==> a !in gone
      modifies this`links
      ensures Valid()
    {
      forall k | 0 <= k < |order|
        ensures CellLinked(links - gone, order, k)
      {
        assert CellLinked(links, order, k);
        var a := order[k];
        assert a in order;
        assert a in links && a !in gone;
        assert a in (links - gone).Keys;
      }
      links := links - gone;
    }
  }
}
