/**
 The intrusive doubly linked list of utlist.h: the head's prev is the tail, the tail's
 next is null.  The ghost sequence `nodes` is the list from head to tail.
 */
module UtList {

  /** struct kvcacheentry without its hash handle. */
  class Node {
    const key: string
    var value: string
    var refbit: bool
    var prev: Node?
    var next: Node?

    constructor (key: string, value: string)
      ensures this.key == key && this.value == value && !refbit
    {
      this.key := key;
      this.value := value;
      refbit := false;
      prev, next := null, null;
    }
  }

  ghost predicate Distinct(nodes: seq<Node>) {
    forall i, j :: 0 <= i < j < |nodes| ==> nodes[i] != nodes[j]
  }

  ghost predicate Linked(head: Node?, nodes: seq<Node>)
    reads (set n | n in nodes)`prev, (set n | n in nodes)`next
  {
    if nodes == [] then head == null
    else
      && head == nodes[0] && nodes[0].prev == nodes[|nodes| - 1] && nodes[|nodes| - 1].next == null
      && (forall i {:trigger nodes[i].next} :: 0 <= i < |nodes| - 1 ==> nodes[i].next == nodes[i + 1])
      && (forall i {:trigger nodes[i].prev} :: 1 <= i < |nodes| ==> nodes[i].prev == nodes[i - 1])
  }

  ghost function Without(nodes: seq<Node>, i: nat): seq<Node>
    requires i < |nodes|
  {
    nodes[..i] + nodes[i + 1..]
  }

  class List {
    var head: Node?
    ghost var nodes: seq<Node>

    ghost predicate Valid()
      reads this, (set n | n in nodes)`prev, (set n | n in nodes)`next
    {
      Distinct(nodes) && Linked(head, nodes)
    }

    constructor ()
      ensures Valid() && nodes == []
    {
      head := null;
      nodes := [];
    }

    /** What the pointers say at the front of the list. */
    lemma Front()
      requires Valid()
      ensures head == null <==> nodes == []
      ensures nodes != [] ==> head == nodes[0]
      ensures |nodes| == 1 ==> nodes[0].next == null
      ensures |nodes| > 1 ==> nodes[0].next == nodes[1]
    {
    }

    /** DL_APPEND. */
    method Append(add: Node)
      requires Valid() && add !in nodes
      modifies this, add`prev, add`next, (set n | n in nodes)`prev, (set n | n in nodes)`next
      ensures Valid() && nodes == old(nodes) + [add]
    {
      if head != null {
        add.prev := head.prev;
        head.prev.next := add;
        head.prev := add;
        add.next := null;
      } else {
        head := add;
        head.prev := head;
        head.next := null;
      }
      nodes := nodes + [add];
    }

    /** DL_DELETE. */
    method Delete(del: Node, ghost i: nat)
      requires Valid() && i < |nodes| && nodes[i] == del
      modifies this, (set n | n in nodes)`prev, (set n | n in nodes)`next
      ensures Valid() && nodes == Without(old(nodes), i)
    {
      assert i == 0 || nodes[0] != nodes[i];
      if del.prev == del {
        SelfLinked(head, nodes, i);
        head := null;
      } else if del == head {
        assert nodes[0] == del;
        del.next.prev := del.prev;
        head := del.next;
      } else {
        del.prev.next := del.next;
        if del.next != null {
          del.next.prev := del.prev;
        } else {
          head.prev := del.prev;
        }
      }
      nodes := Without(nodes, i);
    }
  }

  /** Only the single node of a list is its own predecessor. */
  lemma SelfLinked(head: Node?, nodes: seq<Node>, i: nat)
    requires Distinct(nodes) && Linked(head, nodes) && i < |nodes|
    ensures nodes[i].prev == nodes[i] <==> |nodes| == 1
  {
  }
}
