/** The intrusive doubly linked list: the links live in the nodes, the list holds both ends. */
module LinkedLists {

  class ListNode {
    var prev: ListNode?
    var next: ListNode?

    constructor ()
      ensures prev == null && next == null
    {
      prev, next := null, null;
    }
  }

  class List {
    var head: ListNode?
    var tail: ListNode?
    ghost var nodes: seq<ListNode>

    ghost predicate Valid()
      reads this, nodes
    {
      && (forall i, j :: 0 <= i < j < |nodes| ==> nodes[i] != nodes[j])
      && (if nodes == [] then head == null && tail == null
          else head == nodes[0] && head.prev == null && tail == nodes[|nodes| - 1] && tail.next == null)
      && (forall i :: 0 <= i < |nodes| - 1 ==> nodes[i].next == nodes[i + 1] && nodes[i + 1].prev == nodes[i])
    }

    constructor ()
      ensures Valid() && nodes == []
    {
      head, tail, nodes := null, null, [];
    }

    method PushFront(node: ListNode)
      requires Valid() && node !in nodes
      modifies this, nodes, node
      ensures Valid() && nodes == [node] + old(nodes)
    {
      ghost var was := nodes;
      node.prev := null;
      node.next := head;
      if head != null {
        head.prev := node;
      } else {
        tail := node;
      }
      head := node;
      nodes := [node] + nodes;
      assert forall i :: 0 < i < |nodes| ==> nodes[i] == was[i - 1] && was[i - 1] != node;
    }

    method PushBack(node: ListNode)
      requires Valid() && node !in nodes
      modifies this, nodes, node
      ensures Valid() && nodes == old(nodes) + [node]
    {
      ghost var was := nodes;
      node.next := null;
      node.prev := tail;
      if tail != null {
        tail.next := node;
      } else {
        head := node;
      }
      tail := node;
      nodes := nodes + [node];
      assert forall i :: 0 <= i < |was| ==> nodes[i] == was[i] && was[i] != node;
    }

    method Remove(node: ListNode, ghost i: nat)
      requires Valid() && i < |nodes| && nodes[i] == node
      modifies this, nodes
      ensures Valid() && nodes == old(nodes)[..i] + old(nodes)[i + 1..]
      ensures node.prev == null && node.next == null
    {
      ghost var was := nodes;
      assert i > 0 ==> node.prev == was[i - 1];
      assert i < |was| - 1 ==> node.next == was[i + 1];
      if node.prev != null {
        node.prev.next := node.next;
      } else {
        head := node.next;
      }
      if node.next != null {
        node.next.prev := node.prev;
      } else {
        tail := node.prev;
      }
      node.prev := null;
      node.next := null;
      nodes := nodes[..i] + nodes[i + 1..];
      assert forall j :: 0 <= j < |nodes| ==> nodes[j] == was[if j < i then j else j + 1] && nodes[j] != node;
    }

    method PopFront() returns (node: ListNode?)
      requires Valid()
      modifies this, nodes
      ensures Valid()
      ensures if old(nodes) == [] then node == null && nodes == [] else node == old(nodes)[0] && nodes == old(nodes)[1..]
    {
      if head == null {
        return null;
      }
      node := head;
      Remove(node, 0);
    }

    method PopBack() returns (node: ListNode?)
      requires Valid()
      modifies this, nodes
      ensures Valid()
      ensures if old(nodes) == [] then node == null && nodes == [] else
        node == old(nodes)[|old(nodes)| - 1] && nodes == old(nodes)[..|old(nodes)| - 1]
    {
      if tail == null {
        return null;
      }
      node := tail;
      Remove(node, |nodes| - 1);
    }
  }
}
