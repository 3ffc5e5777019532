/** list/queue.c: the locked queue, as the atomic sections of its threads. */
module Queue {
  import opened LinkedList

  // ----- the sections that run under the write lock -----

  /** Queue_push puts the item behind those that are queued. */
  function PushSection(items: seq<Pointer>, data: Pointer): seq<Pointer> {
    items + [data]
  }

  /** The return code of Queue_shift and the items left. */
  function ShiftSection(items: seq<Pointer>): (int, seq<Pointer>) {
    if items == [] then (0, []) else (if items[0] == NULL then 0 else 1, items[1..])
  }

  class LockedQueue {
    const items: List
    var active: bool

    ghost predicate Valid()
      reads this, items, items.nodes
    {
      items.Valid()
    }

    /** Queue_new. */
    constructor ()
      ensures Valid() && fresh(items) && items.nodes == [] && items.Contents() == [] && active
    {
      items := new List();
      active := true;
    }

    /** Queue_push; the signal that follows the section is an event of the transition system below. */
    method Push(data: Pointer) returns (code: int)
      requires Valid()
      modifies items, items.nodes
      ensures Valid() && fresh((set n | n in items.nodes) - old(set n | n in items.nodes))
      ensures code == if active then 0 else -1
      ensures items.Contents() == if active then PushSection(old(items.Contents()), data) else old(items.Contents())
    {
      if !active {
        return -1;
      }
      var index := items.Push(data);
      return 0;
    }

    /** Queue_shift and Queue_get: data is stored only if there was an item that is not NULL. The lock may fail. */
    method Shift(previous: Pointer, locked: bool) returns (code: int, data: Pointer)
      requires Valid()
      modifies items, items.nodes
      ensures Valid() && (set n | n in items.nodes) <= old(set n | n in items.nodes)
      ensures !active || !locked ==> code == -1 && data == previous && items.Contents() == old(items.Contents())
      ensures active && locked ==>
                && (code, items.Contents()) == ShiftSection(old(items.Contents()))
                && data == if code == 1 then old(items.Contents())[0] else previous
    {
      if !active {
        return -1, previous;
      }
      if !locked {
        return -1, previous;
      }
      var item := items.Shift();
      if item != NULL {
        return 1, item;
      } else {
        return 0, previous;
      }
    }
  }
}
