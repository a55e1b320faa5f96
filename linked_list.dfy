// A singly linked list of integers. A list is described by the ghost
// sequence of its nodes in link order: `Chain(nodes)` says that each node
// links to the next one, the last one links to nothing, and no node occurs
// twice. The stack and the queue are built on the same nodes.
module LinkedList {

  class LinkedListNode {
    var value: int
    var next: LinkedListNode?

    /** `NewLinkedList(value)`: the single-node list [value]. */
    constructor (value: int)
      ensures this.value == value && next == null
      ensures Chain([this]) && Values([this]) == [value]
    {
      this.value := value;
      next := null;
    }

    /**
     * Walks to the tail and links a new node holding `value` after it.
     * Returns the original head; only the old tail's `next` changes.
     */
    method Append(value: int, ghost nodes: seq<LinkedListNode>)
      returns (head: LinkedListNode, ghost nodes': seq<LinkedListNode>)
      requires Chain(nodes) && nodes != [] && nodes[0] == this
      modifies nodes[|nodes| - 1]
      ensures head == this
      ensures Chain(nodes') && |nodes'| == |nodes| + 1
      ensures nodes'[..|nodes|] == nodes && fresh(nodes'[|nodes|])
      ensures Values(nodes') == old(Values(nodes)) + [value]
    {
      var curr := this;
      ghost var i := 0;
      while curr.next != null
        invariant 0 <= i < |nodes| && curr == nodes[i]
        invariant curr.next == if i < |nodes| - 1 then nodes[i + 1] else null
        decreases |nodes| - i
      {
        curr := curr.next;
        i := i + 1;
      }
      var newNode := new LinkedListNode(value);
      curr.next := newNode;
      nodes' := nodes + [newNode];
      head := this;
    }
  }

  /** The nodes form a null-terminated, acyclic chain in this order. */
  ghost predicate Chain(nodes: seq<LinkedListNode>)
    reads nodes
  {
    && (forall i :: 0 <= i < |nodes| - 1 ==> nodes[i].next == nodes[i + 1])
    && (nodes != [] ==> nodes[|nodes| - 1].next == null)
    && (forall i, j :: 0 <= i < j < |nodes| ==> nodes[i] != nodes[j])
  }

  /** The values stored in the chain, head first. */
  ghost function Values(nodes: seq<LinkedListNode>): seq<int>
    reads nodes
  {
    seq(|nodes|, i reads nodes requires 0 <= i < |nodes| => nodes[i].value)
  }

  /** The first node of a chain, or null for the empty chain. */
  ghost function Head(nodes: seq<LinkedListNode>): LinkedListNode?
  {
    if nodes == [] then null else nodes[0]
  }
}
