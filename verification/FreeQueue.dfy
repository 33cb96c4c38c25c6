/**
 The list of slots of an archetype that may be used again: singly linked nodes with a pointer to
 the first and one to the last, which is left dangling when the list runs empty.
*/
module FreeQueue {

  class Node {
    var index: nat
    var next: Node?

    constructor (index: nat)
      ensures this.index == index && next == null
    {
      this.index, next := index, null;
    }
  }

  class Queue {
    var initial: Node?
    var freeList: Node?
    ghost var nodes: seq<Node>

    constructor ()
      ensures Valid() && nodes == []
    {
      initial, freeList, nodes := null, null, [];
    }

    ghost predicate LinkedAt(i: nat)
      requires i < |nodes|
      reads this, nodes
    {
      nodes[i].next == if i + 1 < |nodes| then nodes[i + 1] else null
    }

    /** The nodes are reached one after the other from `initial`; `freeList` matters only if there are some. */
    ghost predicate Valid()
      reads this, nodes
    {
      && (forall i, j | 0 <= i < j < |nodes| :: nodes[i] != nodes[j])
      && (initial == if nodes == [] then null else nodes[0])
      && (nodes != [] ==> freeList == nodes[|nodes| - 1])
      && forall i | 0 <= i < |nodes| :: LinkedAt(i)
    }

    /** The slots in the order in which they will be used again. */
    ghost function Slots(): (s: seq<nat>)
      reads this, nodes
      ensures |s| == |nodes| && forall i | 0 <= i < |s| :: s[i] == nodes[i].index
    {
      seq(|nodes|, i requires 0 <= i < |nodes| reads this, nodes => nodes[i].index)
    }

    method Append(index: nat)
      requires Valid()
      modifies this, nodes
      ensures Valid() && Slots() == old(Slots()) + [index]
      ensures fresh(nodes[|nodes| - 1]) && nodes[..|nodes| - 1] == old(nodes)
    {
      var node := new Node(index);
      if initial == null {
        initial := node;
        freeList := node;
      } else {
        freeList.next := node;
        freeList := freeList.next;
      }
      nodes := nodes + [node];
      forall i | 0 <= i < |nodes| ensures LinkedAt(i) {
        if i < |nodes| - 2 { assert old(LinkedAt(i)); }
      }
    }

    /** Takes the first slot, which was freed before all the others. */
    method TakeFirst() returns (index: nat)
      requires Valid() && initial != null
      modifies this
      ensures Valid() && [index] + Slots() == old(Slots())
      ensures nodes == old(nodes[1..])
    {
      var node := initial;
      assert LinkedAt(0);
      initial := initial.next;
      index := node.index;
      nodes := nodes[1..];
      forall i | 0 <= i < |nodes| ensures LinkedAt(i) {
        assert old(LinkedAt(i + 1));
      }
    }
  }
}
