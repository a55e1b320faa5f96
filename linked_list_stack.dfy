// A LIFO stack of integers over linked-list nodes: `head` is the top.
module ListStack {
  import opened LinkedList

  class LinkedListStack {
    var head: LinkedListNode?
    // The nodes from top to bottom, in link order.
    ghost var nodes: seq<LinkedListNode>

    ghost predicate Valid()
      reads this, nodes
    {
      Chain(nodes) && head == Head(nodes)
    }

    /** The stacked values, top first. */
    ghost function Contents(): seq<int>
      reads this, nodes
    {
      Values(nodes)
    }

    /** `NewLinkedListStack(value)`: a stack holding only `value`. */
    constructor (value: int)
      ensures Valid() && Contents() == [value]
    {
      var node := new LinkedListNode(value);
      head := node;
      nodes := [node];
    }

    /** The zero value `LinkedListStack{}`: an empty, usable stack. */
    constructor Empty()
      ensures Valid() && Contents() == [] && head == null
    {
      head := null;
      nodes := [];
    }

    /** Puts `value` on top and returns the receiver. */
    method Push(value: int) returns (s: LinkedListStack)
      requires Valid()
      modifies this
      ensures s == this && Valid()
      ensures Contents() == [value] + old(Contents())
      ensures fresh(head) && nodes == [head] + old(nodes)
    {
      var newNode := new LinkedListNode(value);
      newNode.next := head;
      head := newNode;
      nodes := [newNode] + nodes;
      s := this;
    }

    /** Removes and returns the top value; an empty stack yields -1 and is left as it is. */
    method Pop() returns (value: int)
      requires Valid()
      modifies this
      ensures Valid()
      ensures old(Contents()) == [] ==> value == -1 && nodes == old(nodes)
      ensures old(Contents()) != [] ==>
                value == old(Contents())[0] && Contents() == old(Contents())[1..] && nodes == old(nodes)[1..]
    {
      if head == null {
        return -1;
      }
      value := head.value;
      head := head.next;
      nodes := nodes[1..];
    }
  }
}
