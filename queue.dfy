// A FIFO queue of integers over linked-list nodes: `front` is the oldest
// node, `back` the newest, and both are null when the queue is empty.
module LinkedQueue {
  import opened LinkedList

  class Queue {
    var front: LinkedListNode?
    var back: LinkedListNode?
    // The nodes from front to back, in link order.
    ghost var nodes: seq<LinkedListNode>

    ghost predicate Valid()
      reads this, nodes
    {
      && Chain(nodes)
      && front == Head(nodes)
      && back == (if nodes == [] then null else nodes[|nodes| - 1])
    }

    /** The queued values, oldest first. */
    ghost function Contents(): seq<int>
      reads this, nodes
    {
      Values(nodes)
    }

    /** `NewQueue(value)`: a queue holding only `value`; front and back are the same node. */
    constructor (value: int)
      ensures Valid() && nodes == [front] && fresh(front)
      ensures Contents() == [value] && front == back
    {
      var node := new LinkedListNode(value);
      front, back := node, node;
      nodes := [node];
    }

    /** The zero value `Queue{}`: an empty queue. */
    constructor Empty()
      ensures Valid() && Contents() == [] && front == null && back == null
    {
      front, back := null, null;
      nodes := [];
    }

    /** Adds `value` at the back and returns the receiver. */
    method Enqueue(value: int) returns (q: Queue)
      requires Valid()
      modifies this, back
      ensures q == this && Valid()
      ensures Contents() == old(Contents()) + [value]
      ensures |nodes| == |old(nodes)| + 1 && nodes[..|old(nodes)|] == old(nodes)
      ensures fresh(back)
    {
      var node := new LinkedListNode(value);
      if back == null {
        front := node;
        back := node;
        nodes := [node];
        return this;
      }
      back.next := node;
      back := node;
      nodes := nodes + [node];
      q := this;
    }

    /** Removes and returns the front value; an empty queue yields -1 and is left as it is. */
    method Dequeue() returns (value: int)
      requires Valid()
      modifies this
      ensures Valid()
      ensures old(Contents()) == [] ==> value == -1 && nodes == old(nodes)
      ensures old(Contents()) != [] ==>
                value == old(Contents())[0] && Contents() == old(Contents())[1..] && nodes == old(nodes)[1..]
    {
      if front == null {
        return -1;
      }
      value := front.value;
      front := front.next;
      nodes := nodes[1..];
      if front == null {
        back := null;
      }
    }
  }
}
