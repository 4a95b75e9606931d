/** `queue.c`: a ring of slots of which one always stays empty, and what that slot is good for. */
module RingBuffer {

  // ---------- rings as values ----------

  datatype Ring<T> = Ring(slots: seq<T>, front: int, rear: int)

  predicate InRange<T>(q: Ring<T>) {
    |q.slots| >= 2 && 0 <= q.front < |q.slots| && 0 <= q.rear < |q.slots|
  }

  /** The slot `i` places behind slot `k`, for places up to once around. */
  function Slot(k: int, i: int, max: int): int {
    if k + i < max then k + i else k + i - max
  }

  function Length<T>(q: Ring<T>): (n: int)
    requires InRange(q)
    ensures 0 <= n < |q.slots| && Slot(q.front, n, |q.slots|) == q.rear
  {
    if q.rear >= q.front then q.rear - q.front else q.rear - q.front + |q.slots|
  }

  /** What has been put in and not been taken out, in order. */
  function Contents<T>(q: Ring<T>): (c: seq<T>)
    requires InRange(q)
    ensures |c| == Length(q)
  {
    seq(Length(q), i requires 0 <= i < Length(q) => q.slots[Slot(q.front, i, |q.slots|)])
  }

  /** The slot that was taken out last. */
  function Taken<T>(q: Ring<T>): (k: int)
    requires InRange(q)
    ensures 0 <= k < |q.slots|
  {
    if q.front == 0 then |q.slots| - 1 else q.front - 1
  }

  function Enqueued<T>(q: Ring<T>, v: T): (r: Ring<T>)
    requires InRange(q)
    ensures InRange(r)
  {
    if Length(q) == |q.slots| - 1 then q
    else Ring(q.slots[q.rear := v], q.front, Slot(q.rear, 1, |q.slots|))
  }

  function Dequeued<T>(q: Ring<T>): (r: Ring<T>)
    requires InRange(q)
    ensures InRange(r)
  {
    if q.front == q.rear then q else q.(front := Slot(q.front, 1, |q.slots|))
  }

  lemma EnqueueRefines<T>(q: Ring<T>, v: T)
    requires InRange(q) && Length(q) < |q.slots| - 1
    ensures Contents(Enqueued(q, v)) == Contents(q) + [v]
  {
    var r := Enqueued(q, v);
    assert Length(r) == Length(q) + 1;
    forall i | 0 <= i < Length(r) ensures Contents(r)[i] == (Contents(q) + [v])[i] {
    }
  }

  lemma DequeueRefines<T>(q: Ring<T>)
    requires InRange(q) && Contents(q) != []
    ensures Contents(Dequeued(q)) == Contents(q)[1..]
    ensures Dequeued(q).slots[Taken(Dequeued(q))] == Contents(q)[0]
  {
    var r := Dequeued(q);
    assert Length(r) == Length(q) - 1;
    forall i | 0 <= i < Length(r) ensures Contents(r)[i] == Contents(q)[i + 1] {
    }
  }

  /** A ring of `max` slots is a first-in first-out list of at most `max - 1` items. */
  lemma RefinesList<T>(q: Ring<T>, v: T)
    requires InRange(q)
    ensures Contents(Enqueued(q, v)) == if |Contents(q)| < |q.slots| - 1 then Contents(q) + [v] else Contents(q)
    ensures Contents(Dequeued(q)) == if Contents(q) == [] then [] else Contents(q)[1..]
    ensures Contents(q) != [] ==> Dequeued(q).slots[Taken(Dequeued(q))] == Contents(q)[0]
  {
    if Length(q) < |q.slots| - 1 {
      EnqueueRefines(q, v);
    }
    if Contents(q) != [] {
      DequeueRefines(q);
    }
  }

  function EnqueuedAll<T>(q: Ring<T>, vs: seq<T>): (r: Ring<T>)
    requires InRange(q)
    ensures InRange(r) && |r.slots| == |q.slots|
    decreases |vs|
  {
    if vs == [] then q else EnqueuedAll(Enqueued(q, vs[0]), vs[1..])
  }

  /** However much is put in, the slot taken out last keeps its contents. */
  lemma {:induction false} TakenIsStable<T>(q: Ring<T>, vs: seq<T>)
    requires InRange(q)
    ensures var r := EnqueuedAll(q, vs);
            Taken(r) == Taken(q) && r.slots[Taken(r)] == q.slots[Taken(q)]
    decreases |vs|
  {
    if vs != [] {
      TakenIsStable(Enqueued(q, vs[0]), vs[1..]);
    }
  }

  /** The item taken out is in the slot that was handed over until the next one is taken out. */
  lemma DequeuedStays<T>(q: Ring<T>, vs: seq<T>)
    requires InRange(q) && Contents(q) != []
    ensures EnqueuedAll(Dequeued(q), vs).slots[Taken(Dequeued(q))] == Contents(q)[0]
  {
    RefinesList(q, q.slots[0]);
    TakenIsStable(Dequeued(q), vs);
  }

  // ---------- the queue ----------

  class Queue<T(0)> {
    const slots: array<T>
    var front: int
    var rear: int
    const maxsize: int

    ghost function Value(): Ring<T>
      reads this, slots
    {
      Ring(slots[..], front, rear)
    }

    ghost predicate Valid()
      reads this, slots
    {
      maxsize == slots.Length && InRange(Value())
    }

    constructor (max: int)
      requires max >= 2
      ensures Valid() && maxsize == max && Contents(Value()) == [] && fresh(slots)
    {
      slots := new T[max];
      maxsize, front, rear := max, 0, 0;
    }

    lemma ModIsSlot(k: int)
      requires 0 <= k < maxsize
      ensures (k + 1) % maxsize == Slot(k, 1, maxsize)
    {
      if k + 1 < maxsize {
        assert (k + 1) % maxsize == k + 1;
      }
    }

    method Full() returns (full: bool)
      requires Valid()
      ensures full <==> |Contents(Value())| == maxsize - 1
    {
      ModIsSlot(rear);
      return front == (rear + 1) % maxsize;
    }

    method Empty() returns (empty: bool)
      requires Valid()
      ensures empty <==> Contents(Value()) == []
    {
      return front == rear;
    }

    method Enqueue(val: T) returns (ret: int)
      requires Valid()
      modifies this`rear, slots
      ensures Valid() && Value() == Enqueued(old(Value()), val)
      ensures ret == if |Contents(old(Value()))| == maxsize - 1 then -1 else 0
    {
      var full := Full();
      if full {
        return -1;
      }
      ghost var q := Value();
      ModIsSlot(rear);
      slots[rear] := val;
      assert slots[..] == q.slots[rear := val];
      rear := (rear + 1) % maxsize;
      return 0;
    }

    /** The pointer that the source returns is the slot's; -1 stands for NULL. */
    method Dequeue() returns (slot: int)
      requires Valid()
      modifies this`front
      ensures Valid() && Value() == Dequeued(old(Value()))
      ensures slot == if Contents(old(Value())) == [] then -1 else Taken(Value())
    {
      var empty := Empty();
      if empty {
        return -1;
      }
      ModIsSlot(front);
      slot := front;
      front := (front + 1) % maxsize;
    }
  }
}
