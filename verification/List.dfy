/** list/list.c: a doubly linked list refining a sequence. */
module LinkedList {

  /** A void pointer; 0 is NULL. */
  type Pointer = p: int | 0 <= p < 0x1_0000_0000_0000_0000

  const NULL: Pointer := 0
  const UINT_RANGE := 0x1_0000_0000

  /** s without its element at i. */
  function Without<T>(s: seq<T>, i: nat): (r: seq<T>)
    requires i < |s|
    ensures |r| == |s| - 1
  {
    s[..i] + s[i + 1..]
  }

  class Node {
    var next: Node?
    var previous: Node?
    var data: Pointer

    /** Node_new allocates zeroed memory. */
    constructor ()
      ensures next == null && previous == null && data == NULL
    {
      next, previous, data := null, null, NULL;
    }
  }

  class List {
    var first: Node?
    var last: Node?
    var length: int
    ghost var nodes: seq<Node>

    /** The links, in both directions, and the ends and the length describe one sequence of distinct nodes. */
    ghost predicate Valid()
      reads this, nodes
    {
      && length == |nodes|
      && (forall i, j :: 0 <= i < j < |nodes| ==> nodes[i] != nodes[j])
      && (if nodes == [] then first == null && last == null
          else && first == nodes[0] && last == nodes[|nodes| - 1]
               && nodes[0].previous == null && nodes[|nodes| - 1].next == null)
      && (forall i {:trigger nodes[i].next} :: 0 <= i < |nodes| - 1 ==> nodes[i].next == nodes[i + 1])
      && (forall i {:trigger nodes[i].previous} :: 0 < i < |nodes| ==> nodes[i].previous == nodes[i - 1])
    }

    ghost function Contents(): (s: seq<Pointer>)
      reads this, nodes
      ensures |s| == |nodes|
    {
      DataOf(nodes)
    }

    constructor ()
      ensures Valid() && nodes == [] && Contents() == []
    {
      first, last, length := null, null, 0;
      nodes := [];
    }

    /** List_push and List_append: the index of the new element. */
    method Push(data: Pointer) returns (index: int)
      requires Valid()
      modifies this, nodes
      ensures Valid() && index == |old(nodes)|
      ensures |nodes| == |old(nodes)| + 1 && nodes[..index] == old(nodes) && fresh(nodes[index])
      ensures Contents() == old(Contents()) + [data]
    {
      var node := new Node();
      node.data := data;
      var parent := last;
      if parent != null {
        parent.next := node;
        node.previous := parent;
        last := node;
      } else {
        first := node;
        last := node;
      }
      index := length;
      length := length + 1;
      nodes := nodes + [node];
    }

    /** List_prepend and List_unshift. */
    method Prepend(data: Pointer)
      requires Valid()
      modifies this, nodes
      ensures Valid() && |nodes| == |old(nodes)| + 1 && nodes[1..] == old(nodes) && fresh(nodes[0])
      ensures Contents() == [data] + old(Contents())
    {
      var node := new Node();
      node.data := data;
      var child := first;
      if child != null {
        child.previous := node;
        node.next := child;
        first := node;
      } else {
        first := node;
        last := node;
      }
      length := length + 1;
      nodes := [node] + nodes;
    }

    method Shift() returns (data: Pointer)
      requires Valid()
      modifies this, nodes
      ensures Valid()
      ensures old(nodes) == [] ==> nodes == [] && data == NULL
      ensures old(nodes) != [] ==>
                nodes == old(nodes)[1..] && data == old(Contents())[0] && Contents() == old(Contents())[1..]
    {
      if length == 0 {
        return NULL;
      }
      var node := first;
      data := NULL;
      if node != null {
        first := node.next;
        if first != null {
          first.previous := null;
        } else {
          last := null;
        }
        length := length - 1;
        data := node.data;
        nodes := nodes[1..];
      }
    }

    method Pop() returns (data: Pointer)
      requires Valid()
      modifies this, nodes
      ensures Valid()
      ensures old(nodes) == [] ==> nodes == [] && data == NULL
      ensures old(nodes) != [] ==>
                var n := |old(nodes)| - 1;
                nodes == old(nodes)[..n] && data == old(Contents())[n] && Contents() == old(Contents())[..n]
    {
      if length == 0 {
        return NULL;
      }
      var node := last;
      data := NULL;
      if node != null {
        last := node.previous;
        if last != null {
          last.next := null;
        } else {
          first := null;
        }
        length := length - 1;
        data := node.data;
        nodes := nodes[..|nodes| - 1];
      }
    }

    method At(index: nat) returns (node: Node?)
      requires Valid()
      ensures node == if index < |nodes| then nodes[index] else null
    {
      if index >= length {
        return null;
      }
      node := first;
      var i := 0;
      while i < index
        invariant i <= index && node == nodes[i]
      {
        node := node.next;
        i := i + 1;
      }
    }

    /** List_get. */
    method Get(index: nat) returns (data: Pointer)
      requires Valid()
      ensures data == if index < |nodes| then Contents()[index] else NULL
    {
      var node := At(index);
      data := if node != null then node.data else NULL;
    }

    /** The node leaves the list; its own links are not touched. */
    method Detach(index: nat) returns (node: Node?)
      requires Valid()
      modifies this, nodes
      ensures Valid()
      ensures index >= |old(nodes)| ==> node == null && nodes == old(nodes) && Contents() == old(Contents())
      ensures index < |old(nodes)| ==>
                && node == old(nodes)[index] && nodes == Without(old(nodes), index)
                && Contents() == Without(old(Contents()), index)
    {
      node := At(index);
      if node != null {
        ghost var before := Contents();
        Unlink(node, index);
        forall i | 0 <= i < |nodes| ensures Contents()[i] == Without(before, index)[i] {
        }
      }
    }

    method Delete(index: nat)
      requires Valid()
      modifies this, nodes
      ensures Valid()
      ensures index >= |old(nodes)| ==> nodes == old(nodes) && Contents() == old(Contents())
      ensures index < |old(nodes)| ==>
                nodes == Without(old(nodes), index) && Contents() == Without(old(Contents()), index)
    {
      var node := Detach(index);
    }

    /** Looks for the first element that is data and deletes the element at its index, which is an unsigned int. */
    method Remove(data: Pointer) returns (removed: int)
      requires Valid()
      modifies this, nodes
      ensures Valid()
      ensures data !in old(Contents()) ==> removed == 0 && nodes == old(nodes) && Contents() == old(Contents())
      ensures data in old(Contents()) ==>
                var k := FirstIndex(old(Contents()), data) % UINT_RANGE;
                removed == 1 && nodes == Without(old(nodes), k) && Contents() == Without(old(Contents()), k)
    {
      hide FirstIndex, Without;
      ghost var all := Contents();
      var iter := first;
      var index: nat := 0;
      ghost var at: nat := 0;
      while iter != null
        invariant at <= |nodes| && index == at % UINT_RANGE && iter == if at < |nodes| then nodes[at] else null
        invariant data !in all[..at]
        decreases |nodes| - at
      {
        if iter.data == data {
          FirstIndexIs(all, data, at);
          Delete(index);
          return 1;
        }
        iter := iter.next;
        index := (index + 1) % UINT_RANGE;
        at := at + 1;
      }
      assert all[..at] == all;
      return 0;
    }

    /** List_match_get_node: the index and the node of the first element that compares equal, or -1. */
    method MatchNode(compare: (Pointer, Pointer) -> int, key: Pointer) returns (index: int, node: Node?)
      requires Valid()
      ensures index == -1 ==> node == null && forall i :: 0 <= i < |nodes| ==> compare(Contents()[i], key) != 0
      ensures index != -1 ==>
                && 0 <= index < |nodes| && node == nodes[index] && compare(Contents()[index], key) == 0
                && forall i :: 0 <= i < index ==> compare(Contents()[i], key) != 0
    {
      if length == 0 {
        return -1, null;
      }
      index, node := 0, first;
      while node != null
        invariant 0 <= index <= |nodes| && node == if index < |nodes| then nodes[index] else null
        invariant forall i :: 0 <= i < index ==> compare(Contents()[i], key) != 0
        decreases |nodes| - index
      {
        if compare(node.data, key) == 0 {
          return;
        }
        node := node.next;
        index := index + 1;
      }
      return -1, null;
    }

    /** The pointer surgery of List_detach. */
    method Unlink(node: Node, ghost index: nat)
      requires Valid() && index < |nodes| && node == nodes[index]
      modifies this, nodes`next, nodes`previous
      ensures Valid() && nodes == Without(old(nodes), index)
    {
      ghost var before, n := nodes, |nodes|;
      if node.previous != null {
        assert index > 0 && node.previous == before[index - 1];
        node.previous.next := node.next;
      } else {
        first := node.next;
      }
      assert index < n - 1 ==> node.next == before[index + 1];
      if node.next != null {
        assert index < n - 1;
        node.next.previous := node.previous;
      } else {
        last := node.previous;
      }
      length := length - 1;
      nodes := Without(nodes, index);
      forall i | 0 <= i < n - 1 ensures nodes[i] == if i < index then before[i] else before[i + 1] {
      }
    }
  }

  ghost function DataOf(nodes: seq<Node>): (s: seq<Pointer>)
    reads nodes
    ensures |s| == |nodes|
  {
    seq(|nodes|, i requires 0 <= i < |nodes| reads nodes => nodes[i].data)
  }

  /** The index of the first occurrence. */
  function FirstIndex<T(==)>(s: seq<T>, x: T): (k: nat)
    requires x in s
    ensures k < |s| && s[k] == x && x !in s[..k]
  {
    if s[0] == x then 0
    else
      var k := FirstIndex(s[1..], x);
      assert s[..k + 1] == [s[0]] + s[1..][..k];
      k + 1
  }

  lemma FirstIsLeast<T>(s: seq<T>, x: T, k: nat, j: nat)
    requires k <= |s| && x !in s[..k] && j < |s| && s[j] == x
    ensures k <= j
  {
  }

  lemma FirstIndexIs<T>(s: seq<T>, x: T, k: nat)
    requires k < |s| && s[k] == x && x !in s[..k]
    ensures x in s && FirstIndex(s, x) == k
  {
    FirstIsLeast(s, x, k, FirstIndex(s, x));
    FirstIsLeast(s, x, FirstIndex(s, x), k);
  }

  /** Removing the first occurrence takes one occurrence out and leaves the order of the others. */
  lemma RemovedOnce<T>(s: seq<T>, x: T)
    requires x in s
    ensures multiset(Without(s, FirstIndex(s, x))) == multiset(s) - multiset{x}
  {
    hide FirstIndex;
    var k := FirstIndex(s, x);
    TakenOut(s, k);
  }

  lemma TakenOut<T>(s: seq<T>, k: nat)
    requires k < |s|
    ensures multiset(Without(s, k)) == multiset(s) - multiset{s[k]}
  {
    assert s == s[..k] + ([s[k]] + s[k + 1..]);
  }

  /** The node deleted is the one found if and only if its index is an unsigned int. */
  lemma RemovesTheFirst<T>(nodes: seq<T>, k: nat)
    requires k < |nodes| && forall i, j :: 0 <= i < j < |nodes| ==> nodes[i] != nodes[j]
    ensures Without(nodes, k % UINT_RANGE) == Without(nodes, k) <==> k < UINT_RANGE
  {
    var i := k % UINT_RANGE;
    if i < k {
      assert Without(nodes, i)[i] == nodes[i + 1];
      assert Without(nodes, k)[i] == nodes[i];
    }
  }

  // ----- the default comparison -----

  /** Node_data_compare_address: the difference of two addresses, cut to an int. */
  function CompareAddress(data: Pointer, key: Pointer): int {
    var low := (key - data) % UINT_RANGE;
    if low < UINT_RANGE / 2 then low else low - UINT_RANGE
  }

  /** Addresses that are a multiple of 2^32 apart compare equal, so a match by address finds the first occurrence of
      the key if and only if no such neighbour stands before it. */
  lemma MatchByAddress(s: seq<Pointer>, key: Pointer, found: nat)
    requires key in s && found < |s| && CompareAddress(s[found], key) == 0
    requires forall i :: 0 <= i < found ==> CompareAddress(s[i], key) != 0
    ensures found == FirstIndex(s, key)
            <==> forall i :: 0 <= i < FirstIndex(s, key) ==> (key - s[i]) % UINT_RANGE != 0
  {
    var k := FirstIndex(s, key);
    assert CompareAddress(s[k], key) == 0;
    if forall i :: 0 <= i < k ==> (key - s[i]) % UINT_RANGE != 0 {
      assert found >= k;
    }
    if found == k {
      forall i | 0 <= i < k ensures (key - s[i]) % UINT_RANGE != 0 {
        assert CompareAddress(s[i], key) != 0;
      }
    }
  }
}
