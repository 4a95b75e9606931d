/** The first-in first-out list of states that drives both breadth-first passes. */
module AcQueue {

  class Queue {
    var contents: seq<int>   // the linked nodes, head first
    var count: int

    ghost predicate Valid()
      reads this
    {
      count == |contents|
    }

    constructor ()
      ensures Valid() && contents == []
    {
      contents, count := [], 0;
    }

    method Add(state: int)
      requires Valid()
      modifies this
      ensures Valid() && contents == old(contents) + [state]
    {
      contents := contents + [state];
      count := count + 1;
    }

    /** Removes the head; an empty list answers 0. */
    method Remove() returns (state: int)
      requires Valid()
      modifies this
      ensures Valid()
      ensures old(contents) == [] ==> state == 0 && contents == []
      ensures old(contents) != [] ==> state == old(contents)[0] && contents == old(contents)[1..]
    {
      state := 0;
      if contents != [] {
        state := contents[0];
        contents := contents[1..];
        count := count - 1;
      }
    }
  }
}
