/** The cyclic doubly linked list of src/list.c, refined to a sequence of nodes.

    A node is an object that carries its payload (the source finds the payload by pointer arithmetic).
    Every operation states which nodes it writes, so nodes of other lists are known to be unchanged. */
module IntrusiveList {
  import opened Basics

  class Node<T> {
    const item: Option<T>   // the object this node is embedded in; the sentinel of a list has none
    var prev: Node?<T>
    var next: Node?<T>
    ghost var owner: object?   // the list this node was last put into

    constructor (item: Option<T>)
      ensures this.item == item && prev == null && next == null && owner == null
    {
      this.item := item;
      prev, next, owner := null, null, null;
    }
  }

  /** Consecutive nodes of `ring` point at each other. */
  ghost predicate Linked<T>(ring: seq<Node<T>>)
    reads ring
  {
    (forall i {:trigger ring[i].next} :: 0 <= i < |ring| - 1 ==> ring[i].next == ring[i + 1]) &&
    (forall i {:trigger ring[i].prev} :: 0 < i < |ring| ==> ring[i].prev == ring[i - 1])
  }

  /** The payloads of a run of nodes. */
  function Items<T>(ns: seq<Node<T>>): (items: seq<T>)
    requires forall n <- ns :: n.item.Some?
    ensures |items| == |ns| && forall i :: 0 <= i < |ns| ==> items[i] == ns[i].item.value
  {
    seq(|ns|, i requires 0 <= i < |ns| => ns[i].item.value)
  }

  ghost function IndexOf<T>(xs: seq<T>, x: T): (k: nat)
    requires x in xs
    ensures k < |xs| && xs[k] == x
  {
    var k :| 0 <= k < |xs| && xs[k] == x; k
  }

  /** No node occurs twice on the way around, except the sentinel at both ends. */
  lemma Apart<T>(head: T, nodes: seq<T>, ring: seq<T>)
    requires head !in nodes && Distinct(nodes) && ring == [head] + nodes + [head]
    ensures RingDistinct(ring)
  {
  }

  /** Linked except between `ring[k]` and `ring[m]`. */
  ghost predicate LinkedBut<T>(ring: seq<Node<T>>, k: nat, m: nat)
    reads ring
  {
    (forall i {:trigger ring[i].next} :: 0 <= i < |ring| - 1 && !(k <= i < m) ==> ring[i].next == ring[i + 1]) &&
    (forall i {:trigger ring[i].prev} :: 0 < i < |ring| && !(k < i <= m) ==> ring[i].prev == ring[i - 1])
  }

  lemma Spliced<T>(ring: seq<Node<T>>, obj: Node<T>, k: nat)
    requires k + 1 < |ring| && LinkedBut(ring, k, k + 1)
    requires ring[k].next == obj && obj.prev == ring[k] && obj.next == ring[k + 1] && ring[k + 1].prev == obj
    ensures Linked(ring[..k + 1] + [obj] + ring[k + 1..])
  {
  }

  lemma Closed<T>(ring: seq<Node<T>>, k: nat, m: nat)
    requires k < m < |ring| && LinkedBut(ring, k, m)
    requires ring[k].next == ring[m] && ring[m].prev == ring[k]
    ensures Linked(ring[..k + 1] + ring[m..])
  {
  }

  lemma DistinctInsert<T>(xs: seq<T>, x: T, k: nat)
    requires Distinct(xs) && x !in xs && k <= |xs|
    ensures Distinct(xs[..k] + [x] + xs[k..])
    ensures forall y :: y in xs[..k] + [x] + xs[k..] <==> y == x || y in xs
  {
    assert xs == xs[..k] + xs[k..];
  }

  function Min(a: nat, b: nat): nat { if a < b then a else b }

  lemma DistinctRemove<T>(xs: seq<T>, k: nat)
    requires Distinct(xs) && k < |xs|
    ensures Distinct(xs[..k] + xs[k + 1..])
    ensures forall y :: y in xs[..k] + xs[k + 1..] ==> y in xs
  {
  }

  // ---- the link updates, on a ring of nodes without any list around it -----------------------------------

  /** The nodes of the ring differ, except that its ends may be the same sentinel. */
  ghost predicate RingDistinct<T>(ring: seq<T>) {
    forall i, j :: 0 <= i < j < |ring| && (i > 0 || j + 1 < |ring|) ==> ring[i] != ring[j]
  }

  /** Lines 61-64. */
  method LinkBefore<T>(obj: Node<T>, node: Node<T>, ghost ring: seq<Node<T>>, ghost k: nat, ghost before: Node<T>)
    requires Linked(ring) && RingDistinct(ring) && obj !in ring
    requires k + 1 < |ring| && ring[k] == before && ring[k + 1] == node
    modifies obj`prev, obj`next, node`prev, before`next
    ensures Linked(ring[..k + 1] + [obj] + ring[k + 1..])
  {
    assert before.next == node && node.prev == before;
    obj.next := node;
    obj.prev := node.prev;
    node.prev.next := obj;
    node.prev := obj;
    assert LinkedBut(ring, k, k + 1);
    Spliced(ring, obj, k);
  }

  /** Lines 51-54. */
  method LinkAfter<T>(obj: Node<T>, node: Node<T>, ghost ring: seq<Node<T>>, ghost k: nat, ghost after: Node<T>)
    requires Linked(ring) && RingDistinct(ring) && obj !in ring
    requires k + 1 < |ring| && ring[k] == node && ring[k + 1] == after
    modifies obj`prev, obj`next, node`next, after`prev
    ensures Linked(ring[..k + 1] + [obj] + ring[k + 1..])
  {
    assert node.next == after && after.prev == node;
    obj.prev := node;
    obj.next := node.next;
    node.next.prev := obj;
    node.next := obj;
    assert LinkedBut(ring, k, k + 1);
    Spliced(ring, obj, k);
  }

  /** Lines 103-105. */
  method LinkAround<T>(obj: Node<T>, ghost ring: seq<Node<T>>, ghost k: nat, ghost before: Node<T>, ghost after: Node<T>)
    requires Linked(ring) && RingDistinct(ring)
    requires k + 2 < |ring| && ring[k] == before && ring[k + 1] == obj && ring[k + 2] == after
    modifies obj`prev, obj`next, before`next, after`prev
    ensures Linked(ring[..k + 1] + ring[k + 2..]) && obj.prev == null && obj.next == null
  {
    assert obj.prev == before && obj.next == after;
    obj.prev.next := obj.next;
    obj.next.prev := obj.prev;
    obj.prev, obj.next := null, null;
    assert LinkedBut(ring, k, k + 2);
    Closed(ring, k, k + 2);
  }

  class List<T> {
    var size: nat
    const head: Node<T>
    ghost var nodes: seq<Node<T>>   // what the cycle holds between two visits of the sentinel
    ghost var holder: object?       // the object this list is embedded in, if any

    ghost function Ring(): seq<Node<T>>
      reads this
    {
      [head] + nodes + [head]
    }

    ghost function At(k: nat): Node<T>
      requires k < |Ring()|
      reads this
    {
      Ring()[k]
    }

    ghost predicate Valid()
      reads this, head, nodes
    {
      size == |nodes| && head !in nodes && Distinct(nodes) && Linked(Ring()) &&
      head.owner == this && forall n <- nodes :: n.item.Some? && n.owner == this
    }

    /** cclist_init on fresh memory. */
    constructor ()
      ensures Valid() && nodes == [] && fresh(head)
    {
      var sentinel := new Node<T>(None);
      head := sentinel;
      size, nodes, holder := 0, [], null;
      new;
      head.next, head.prev, head.owner := head, head, this;
    }

    // ---- surgery --------------------------------------------------------------------------------

    method DoInsertBefore(obj: Node<T>, node: Node<T>, ghost k: nat)
      requires Valid() && k <= |nodes| && node == Ring()[k + 1]
      requires obj != head && obj !in nodes && obj.item.Some?
      modifies this`size, this`nodes, obj, node`prev, At(k)`next
      ensures Valid() && nodes == old(nodes)[..k] + [obj] + old(nodes)[k..]
    {
      Apart(head, nodes, Ring());
      LinkBefore(obj, node, Ring(), k, At(k));
      Adopt(obj, k);
    }

    method DoInsertAfter(obj: Node<T>, node: Node<T>, ghost k: nat)
      requires Valid() && k <= |nodes| && node == Ring()[k]
      requires obj != head && obj !in nodes && obj.item.Some?
      modifies this`size, this`nodes, obj, node`next, At(k + 1)`prev
      ensures Valid() && nodes == old(nodes)[..k] + [obj] + old(nodes)[k..]
    {
      Apart(head, nodes, Ring());
      LinkAfter(obj, node, Ring(), k, At(k + 1));
      Adopt(obj, k);
    }

    /** Line 55 and line 65: the new node is counted. */
    method Adopt(obj: Node<T>, ghost k: nat)
      requires size == |nodes| && head !in nodes && Distinct(nodes) && k <= |nodes|
      requires head.owner == this && forall n <- nodes :: n.item.Some? && n.owner == this
      requires obj != head && obj !in nodes && obj.item.Some?
      requires Linked(Ring()[..k + 1] + [obj] + Ring()[k + 1..])
      modifies this`size, this`nodes, obj`owner
      ensures Valid() && nodes == old(nodes)[..k] + [obj] + old(nodes)[k..]
    {
      ghost var ring := Ring();
      DistinctInsert(nodes, obj, k);
      obj.owner := this;
      size := size + 1;
      nodes := nodes[..k] + [obj] + nodes[k..];
      assert Ring() == ring[..k + 1] + [obj] + ring[k + 1..];
    }

    /** Lines 103-106. */
    method Unlink(obj: Node<T>, ghost k: nat)
      requires Valid() && k < |nodes| && obj == nodes[k]
      modifies this`size, this`nodes, obj, At(k)`next, At(k + 2)`prev
      ensures Valid() && nodes == old(nodes)[..k] + old(nodes)[k + 1..]
      ensures obj.prev == null && obj.next == null
    {
      ghost var ring := Ring();
      Apart(head, nodes, ring);
      LinkAround(obj, ring, k, At(k), At(k + 2));
      size := size - 1;
      DistinctRemove(nodes, k);
      nodes := nodes[..k] + nodes[k + 1..];
      assert Ring() == ring[..k + 1] + ring[k + 2..];
    }

    // ---- the public operations ------------------------------------------------------------------

    /** The node at position `n`, or the sentinel past the end, and what the counter was left at:
        it is a size_t and wraps when the loop stops on a counter of zero. */
    method NthItem(n: nat) returns (item: Node<T>, left: nat)
      requires Valid() && n < WORD
      ensures item == Ring()[Min(n, |nodes|) + 1]
      ensures left == if n < |nodes| then WORD - 1 else n - |nodes|
    {
      assert Ring()[0] == head;
      item, left := head.next, n;
      ghost var i := 0;
      while item != head
        invariant i <= |nodes| && i <= n && item == Ring()[i + 1] && left == n - i
        decreases |nodes| - i
      {
        var more := left != 0;
        left := if left == 0 then WORD - 1 else left - 1;
        if !more {
          return;
        }
        item := item.next;
        i := i + 1;
      }
    }

    /** Inserts at position min(n, size) when assertions are compiled out. With assertions, the one in
        the search aborts the program unless `n` is exactly the size of the list. */
    method InsertAt(obj: Node<T>, n: nat, assertions: bool) returns (aborted: bool)
      requires Valid() && n < WORD
      requires obj != head && obj !in nodes && obj.item.Some?
      modifies this`size, this`nodes, obj, At(Min(n, |nodes|))`next, At(Min(n, |nodes|) + 1)`prev
      ensures Valid()
      ensures aborted <==> assertions && n != |old(nodes)|
      ensures aborted ==> nodes == old(nodes)
      ensures !aborted ==>
        var k := Min(n, |old(nodes)|); nodes == old(nodes)[..k] + [obj] + old(nodes)[k..]
    {
      var nth, left := NthItem(n);
      if assertions && left != 0 {
        return true;
      }
      DoInsertBefore(obj, nth, Min(n, |nodes|));
      return false;
    }

    method InsertFirst(obj: Node<T>)
      requires Valid() && obj != head && obj !in nodes && obj.item.Some?
      modifies this`size, this`nodes, obj, head`next, At(1)`prev
      ensures Valid() && nodes == [obj] + old(nodes)
    {
      DoInsertAfter(obj, head, 0);
    }

    method InsertLast(obj: Node<T>)
      requires Valid() && obj != head && obj !in nodes && obj.item.Some?
      modifies this`size, this`nodes, obj, head`prev, At(|nodes|)`next
      ensures Valid() && nodes == old(nodes) + [obj]
    {
      DoInsertBefore(obj, head, |nodes|);
    }

    method InsertAfter(obj: Node<T>, item: Node<T>)
      requires Valid() && obj != head && obj !in nodes && obj.item.Some? && item in nodes
      modifies this`size, this`nodes, obj, item`next, At(IndexOf(nodes, item) + 2)`prev
      ensures Valid()
      ensures var k := IndexOf(old(nodes), item) + 1; nodes == old(nodes)[..k] + [obj] + old(nodes)[k..]
    {
      ghost var k := IndexOf(nodes, item);
      assert Ring()[k + 1] == item;
      DoInsertAfter(obj, item, k + 1);
    }

    method InsertBefore(obj: Node<T>, item: Node<T>)
      requires Valid() && obj != head && obj !in nodes && obj.item.Some? && item in nodes
      modifies this`size, this`nodes, obj, item`prev, At(IndexOf(nodes, item))`next
      ensures Valid()
      ensures var k := IndexOf(old(nodes), item); nodes == old(nodes)[..k] + [obj] + old(nodes)[k..]
    {
      ghost var k := IndexOf(nodes, item);
      assert Ring()[k + 1] == item;
      DoInsertBefore(obj, item, k);
    }

    method Remove(obj: Node<T>)
      requires Valid() && obj in nodes
      modifies this`size, this`nodes, obj, At(IndexOf(nodes, obj))`next, At(IndexOf(nodes, obj) + 2)`prev
      ensures Valid() && obj.prev == null && obj.next == null
      ensures var k := IndexOf(old(nodes), obj); nodes == old(nodes)[..k] + old(nodes)[k + 1..]
    {
      ghost var k := IndexOf(nodes, obj);
      assert Ring()[k + 1] == obj;
      Unlink(obj, k);
    }

    /** The removed node keeps its own links. */
    method RemoveFirst()
      requires Valid()
      modifies this`size, this`nodes, head`next, At(Min(2, |nodes| + 1))`prev
      ensures Valid() && nodes == if old(nodes) == [] then [] else old(nodes)[1..]
    {
      if size == 0 {
        return;
      }
      ghost var ring := Ring();
      Apart(head, nodes, ring);
      assert head.next == ring[1] && ring[1].next == At(2) by { assert ring[0] == head; }
      head.next := head.next.next;
      head.next.prev := head;
      size := size - 1;
      nodes := nodes[1..];
      Closed(ring, 0, 2);
      assert Ring() == ring[..1] + ring[2..];
    }

    method RemoveLast()
      requires Valid()
      modifies this`size, this`nodes, head`prev, At(if |nodes| == 0 then 0 else |nodes| - 1)`next
      ensures Valid() && nodes == if old(nodes) == [] then [] else old(nodes)[..|old(nodes)| - 1]
    {
      if size == 0 {
        return;
      }
      ghost var ring := Ring();
      ghost var k := |nodes| - 1;
      Apart(head, nodes, ring);
      assert head.prev == ring[k + 1] && ring[k + 1].prev == At(k) by { assert ring[k + 2] == head; }
      head.prev := head.prev.prev;
      head.prev.next := head;
      size := size - 1;
      nodes := nodes[..k];
      Closed(ring, k, k + 2);
      assert Ring() == ring[..k + 1] + ring[k + 2..];
    }

    /** Empties the list, handing each object to the destructor, first to last. The successor is read
        before the destructor runs, which may release the node and overwrite its links. */
    method Clear(destroy: bool) returns (destroyed: seq<T>, ghost freed: seq<Node<T>>)
      requires Valid()
      modifies this`size, this`nodes, head, nodes
      ensures Valid() && nodes == []
      ensures destroyed == if destroy then Items(old(nodes)) else []
      ensures freed == if destroy then old(nodes) else []
    {
      ghost var ring, all := Ring(), nodes;
      assert ring[0] == head;
      Apart(head, nodes, ring);
      var item := head.next;
      destroyed, freed := [], [];
      ghost var i := 0;
      while item != head
        invariant i <= |all| && item == ring[i + 1] && nodes == all && head.owner == this
        invariant forall j {:trigger ring[j].next} :: i < j < |ring| - 1 ==> ring[j].next == ring[j + 1]
        invariant destroyed == if destroy then Items(all[..i]) else []
        invariant freed == if destroy then all[..i] else []
        decreases |all| - i
      {
        var obj := item;
        item := item.next;
        assert all[..i + 1] == all[..i] + [obj];
        if destroy {
          destroyed, freed := destroyed + [obj.item.value], freed + [obj];
          obj.prev, obj.next := null, null;
        }
        i := i + 1;
      }
      assert all[..i] == all;
      Reinit();
    }

    /** cclist_init on a list that was used. */
    method Reinit()
      requires head.owner == this
      modifies this`size, this`nodes, head`next, head`prev
      ensures Valid() && nodes == []
    {
      size, nodes := 0, [];
      head.next, head.prev := head, head;
    }

    // ---- traversal ------------------------------------------------------------------------------

    function First(): (r: Node?<T>)
      requires Valid()
      reads this, head, nodes
      ensures r == if nodes == [] then null else nodes[0]
    {
      assert Ring()[1] == head.next by { assert Ring()[0] == head; }
      if head.next == head then null else head.next
    }

    function Last(): (r: Node?<T>)
      requires Valid()
      reads this, head, nodes
      ensures r == if nodes == [] then null else nodes[|nodes| - 1]
    {
      assert Ring()[|nodes|] == head.prev by { assert Ring()[|nodes| + 1] == head; }
      if head.prev == head then null else head.prev
    }

    function Next(current: Node<T>): (r: Node?<T>)
      requires Valid() && current in nodes
      reads this, head, nodes
      ensures var k := IndexOf(nodes, current); r == if k + 1 == |nodes| then null else nodes[k + 1]
    {
      assert Ring()[IndexOf(nodes, current) + 1] == current;
      if current.next == head then null else current.next
    }

    function Prev(current: Node<T>): (r: Node?<T>)
      requires Valid() && current in nodes
      reads this, head, nodes
      ensures var k := IndexOf(nodes, current); r == if k == 0 then null else nodes[k - 1]
    {
      assert Ring()[IndexOf(nodes, current) + 1] == current;
      if current.prev == head then null else current.prev
    }
  }
}
