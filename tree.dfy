// A binary search tree of integers over pointer nodes with parent links.
// Values smaller than a node go to its left subtree, all others (duplicates
// included) to its right subtree.
//
// The heap of nodes is described by a ghost `Shape`: a tree value that
// names, for every position, the node object sitting there and its value.
// `Linked(t, p)` ties the objects' fields to the shape, so that facts about
// order, contents and removal are proved on pure shapes and carried over to
// the nodes.
module SearchTree {

  class TreeNode {
    const value: int
    var left: TreeNode?
    var right: TreeNode?
    var parent: TreeNode?

    /** `&TreeNode{value: value, parent: parent}`: a node without children. */
    constructor (value: int, parent: TreeNode?)
      ensures this.value == value && this.parent == parent && left == null && right == null
    {
      this.value := value;
      this.parent := parent;
      left := null;
      right := null;
    }

    /**
     * Inserts `value` below this node: smaller values go left, others right,
     * and a new leaf is hung on the first missing child on the way down.
     * `t` is the shape of the subtree rooted here and `p` its parent.
     */
    method InsertNode(value: int, ghost t: Shape, ghost p: TreeNode?) returns (ghost n: TreeNode)
      requires t.Node? && t.ref == this && Wf(t) && Linked(t, p)
      modifies Refs(t)
      ensures fresh(n) && n !in Refs(t) && Linked(InsertShape(t, value, n), p)
      decreases t
    {
      if value < this.value {
        if left == null {
          var leaf := new TreeNode(value, this);
          left := leaf;
          n := leaf;
        } else {
          n := left.InsertNode(value, t.left, this);
        }
        OldAllocated(t.right);
        LinkedFrame(t.right, this);
      } else {
        if right == null {
          var leaf := new TreeNode(value, this);
          right := leaf;
          n := leaf;
        } else {
          n := right.InsertNode(value, t.right, this);
        }
        OldAllocated(t.left);
        LinkedFrame(t.left, this);
      }
    }

    /**
     * Walks down from this node towards `target`; yields (target, true) when
     * a node holding it is met and (0, false) when the walk falls off the tree.
     */
    method FindValue(target: int, ghost t: Shape, ghost p: TreeNode?) returns (r: int, found: bool)
      requires t.Node? && t.ref == this && Ordered(t) && Linked(t, p)
      ensures found <==> target in Elems(t)
      ensures r == if found then target else 0
    {
      var curr: TreeNode? := this;
      ghost var s, par := t, p;
      while curr != null && curr.value != target
        invariant curr == Root(s) && Ordered(s) && Linked(s, par)
        invariant Contains(t, target) <==> Contains(s, target)
        decreases s
      {
        ghost var c := if target > curr.value then s.right else s.left;
        assert Ordered(c) && Linked(c, curr) && (Contains(t, target) <==> Contains(c, target))
               && Root(c) == if target > curr.value then curr.right else curr.left by {
          Descend(s, par, target);
        }
        if target > curr.value {
          curr, s, par := curr.right, s.right, curr;
        } else {
          curr, s, par := curr.left, s.left, curr;
        }
      }
      if curr == null {
        r, found := 0, false;
      } else {
        r, found := curr.value, true;
      }
      ContainsIsElem(t, target);
    }
  }

  class BinarySearchTree {
    var root: TreeNode?
    // The shape of the whole tree; its root's parent is nil.
    ghost var shape: Shape

    ghost predicate Valid()
      reads this, Refs(shape)
    {
      root == Root(shape) && Wf(shape) && Ordered(shape) && Linked(shape, null)
    }

    /** The zero value `BinarySearchTree{}`: an empty tree. */
    constructor ()
      ensures Valid() && shape == Nil
    {
      root := null;
      shape := Nil;
    }

    /** Looks `target` up: (target, true) when it is stored, (0, false) otherwise. */
    method FindTreeNode(target: int) returns (r: int, found: bool)
      requires Valid()
      ensures Valid()
      ensures found <==> target in Elems(shape)
      ensures r == if found then target else 0
    {
      if root == null {
        return 0, false;
      }
      r, found := root.FindValue(target, shape, null);
      OldAllocated(shape);
      LinkedFrame(shape, null);
    }

    /** Inserts `value` (an empty tree gets it as its root) and returns the receiver. */
    method InsertTreeNode(value: int) returns (b: BinarySearchTree, ghost n: TreeNode)
      requires Valid()
      modifies this, Refs(shape)
      ensures b == this && Valid()
      ensures n !in old(Refs(shape)) && fresh(n) && shape == InsertShape(old(shape), value, n)
    {
      ghost var t0 := shape;
      if root == null {
        var leaf := new TreeNode(value, null);
        root := leaf;
        n := leaf;
        shape := Node(leaf, value, Nil, Nil);
        return this, n;
      }
      n := root.InsertNode(value, t0, null);
      ghost var t1 := InsertShape(t0, value, n);
      assert root == Root(t1) && Wf(t1) && Ordered(t1) by {
        InsertKeepsShape(t0, value, n);
        InsertKeepsOrder(t0, value, n);
      }
      shape := t1;
      b := this;
    }

    /**
     * Unlinks `node`, which must be nil or a node of this tree. A leaf is
     * dropped, a node with one child is replaced by that child, and a node
     * with two children is replaced by its in-order successor (the leftmost
     * node of its right subtree), which is first unlinked from its own place.
     */
    method RemoveTreeNode(node: TreeNode?)
      requires Valid() && (node == null || node in Refs(shape))
      modifies this, Refs(shape)
      ensures Valid()
      ensures shape == if node == null || old(root) == null then old(shape) else RemoveShape(old(shape), node)
      decreases if node != null && node.left != null && node.right != null then 2 else 0
    {
      if root == null || node == null {
        return;
      }
      if node.left == null && node.right == null {
        RemoveLeaf(node);
        return;
      }
      if node.left == null || node.right == null {
        RemoveWithChild(node);
        return;
      }
      RemoveWithSuccessor(node);
    }

    /** The leaf case of `RemoveTreeNode`: `node` is dropped from below its parent. */
    method RemoveLeaf(node: TreeNode)
      requires Valid() && node in Refs(shape) && node.left == null && node.right == null
      modifies this, Refs(shape)
      ensures Valid() && shape == RemoveShape(old(shape), node)
    {
      ghost var t0 := shape;
      ghost var sub := Sub(t0, node);
      ghost var q := ParentIn(t0, null, node);
      ghost var t2 := RemoveShape(t0, node);
      assert && Wf(sub) && Linked(sub, q) && (node != root ==> q !in Refs(sub) && (q.left == node || q.right == node))
             && Wf(t2) && Ordered(t2) && t2 == Replace(t0, node, RemoveShape(sub, node)) by {
        RemoveFacts(t0, node);
      }
      OldAllocated(t0);
      shape := t2;
      DetachLeaf(node);
      LinkedAfterReplace(t0, null, node, Nil);
    }

    /** The one-child case of `RemoveTreeNode`: the child takes `node`'s place. */
    method RemoveWithChild(node: TreeNode)
      requires Valid() && node in Refs(shape) && (node.left == null) != (node.right == null)
      modifies this, Refs(shape)
      ensures Valid() && shape == RemoveShape(old(shape), node)
    {
      ghost var t0 := shape;
      ghost var sub := Sub(t0, node);
      ghost var q := ParentIn(t0, null, node);
      ghost var t2 := RemoveShape(t0, node);
      assert && Wf(sub) && Linked(sub, q) && (node != root ==> q !in Refs(sub) && (q.left == node || q.right == node))
             && Wf(t2) && Ordered(t2) && t2 == Replace(t0, node, RemoveShape(sub, node)) by {
        RemoveFacts(t0, node);
      }
      OldAllocated(t0);
      shape := t2;
      Splice(node);
      Reparent(RemoveShape(sub, node), node, q);
      LinkedAfterReplace(t0, null, node, RemoveShape(sub, node));
    }

    /**
     * The two-child case of `RemoveTreeNode`: the in-order successor is
     * unlinked from its own place and then takes `node`'s place.
     */
    method RemoveWithSuccessor(node: TreeNode)
      requires Valid() && node in Refs(shape) && node.left != null && node.right != null
      modifies this, Refs(shape)
      ensures Valid() && shape == RemoveShape(old(shape), node)
      decreases 1
    {
      ghost var t0 := shape;
      ghost var sub := Sub(t0, node);
      ghost var q := ParentIn(t0, null, node);
      ghost var t2 := RemoveShape(t0, node);
      assert && Wf(sub) && Linked(sub, q) && (node != root ==> q !in Refs(sub) && (q.left == node || q.right == node))
             && Wf(t2) && Ordered(t2) && t2 == Replace(t0, node, RemoveShape(sub, node)) by {
        RemoveFacts(t0, node);
      }
      label Search:
      var successor := Successor(node, sub, q);
      assert Valid() by {
        OldAllocated@Search(t0);
        LinkedFrame@Search(t0, null);
      }
      ghost var m := Leftmost(sub.right);
      ghost var l, r1 := sub.left, RemoveShape(sub.right, successor);
      ghost var t1 := Replace(t0, node, Node(node, sub.value, l, r1));
      assert && successor.value == m.value
             && RemoveShape(t0, successor) == t1 && successor !in Refs(t1)
             && node in Refs(t1) && Sub(t1, node) == Node(node, sub.value, l, r1)
             && ParentIn(t1, null, node) == q
             && Refs(t1) <= Refs(t0) && successor in Refs(t0)
             && Replace(t1, node, Node(successor, m.value, l, r1)) == t2 by {
        LeftmostFacts(sub.right);
        RemoveInside(t0, node, successor);
        RemoveKeepsShape(t0, successor);
        ReplaceTwice(t0, node, Node(node, sub.value, l, r1));
      }

      RemoveTreeNode(successor);
      Transplant(node, successor, t1, sub.value, l, r1, t2);
      Commit(t2);
    }

    /** Records `t` as the tree's shape once the nodes are linked as `t` says. */
    ghost method Commit(t: Shape)
      requires root == Root(t) && Wf(t) && Ordered(t) && Linked(t, null)
      modifies this`shape
      ensures Valid() && shape == t
    {
      label Linked:
      shape := t;
      OldAllocated@Linked(t);
      LinkedFrame@Linked(t, null);
    }

    /**
     * The in-order successor of `node`, which has two children: the leftmost
     * node of its right subtree, reached by following left links.
     */
    method Successor(node: TreeNode, ghost sub: Shape, ghost q: TreeNode?) returns (successor: TreeNode)
      requires sub.Node? && sub.ref == node && sub.right.Node? && Linked(sub, q)
      ensures successor == Leftmost(sub.right).ref && successor.value == Leftmost(sub.right).value
      ensures successor.left == null
    {
      successor := node.right;
      ghost var st, par := sub.right, node;
      while successor.left != null
        invariant st.Node? && successor == st.ref && Linked(st, par)
        invariant Leftmost(st) == Leftmost(sub.right)
        decreases st
      {
        successor, st, par := successor.left, st.left, successor;
      }
    }

    /** The pointer update that drops the leaf `node` from below its parent (or as the root). */
    method DetachLeaf(node: TreeNode)
      requires node.parent != node
      modifies this`root, node.parent
      ensures var q := old(node.parent);
        && (q == null ==> root == null)
        && (q != null ==> && root == old(root) && q.parent == old(q.parent)
                          && (old(q.left) == node ==> q.left == null && q.right == old(q.right))
                          && (old(q.left) != node ==>
                                && q.left == old(q.left)
                                && q.right == if old(q.right) == node then null else old(q.right)))
    {
      if node.parent == null {
        root := null;
      } else if node.parent.left == node {
        node.parent.left := null;
      } else if node.parent.right == node {
        node.parent.right := null;
      }
    }

    /**
     * The pointer updates that replace `node`, which has exactly one child,
     * by that child below `node`'s parent (or as the root).
     */
    method Splice(node: TreeNode)
      requires (node.left == null) != (node.right == null)
      requires node.parent != null ==> node.parent !in {node, node.left, node.right}
      modifies this`root, node.parent, node.left, node.right
      ensures var q, c := old(node.parent), if old(node.left) == null then old(node.right) else old(node.left);
        && c != null && c.parent == q && c.left == old(c.left) && c.right == old(c.right)
        && (q == null ==> root == c)
        && (q != null ==> && root == old(root) && q.parent == old(q.parent)
                          && if old(q.left) == node then q.left == c && q.right == old(q.right)
                             else q.right == c && q.left == old(q.left))
    {
      var child := node.left;
      if node.left == null {
        child := node.right;
      }
      child.parent := node.parent;
      if node.parent == null {
        root := child;
      } else if node.parent.left == node {
        node.parent.left := child;
      } else {
        node.parent.right := child;
      }
    }

    /**
     * The pointer updates that end a two-child removal: `successor` takes
     * `node`'s place below `node`'s parent (or as the root) and adopts
     * `node`'s children; no other field of any node changes.
     */
    method Relink(node: TreeNode, successor: TreeNode)
      requires node.left != null && node.left != node.right
      requires successor !in {node, node.parent, node.left, node.right}
      requires node.parent !in {node, node.left} && (node.right != null ==> node.parent != node.right)
      modifies this`root, node.parent, successor, node.left, node.right
      ensures var q, nl, nr := old(node.parent), old(node.left), old(node.right);
        && (q == null ==> root == successor)
        && (q != null ==> && root == old(root) && q.parent == old(q.parent)
                          && if old(q.left) == node then q.left == successor && q.right == old(q.right)
                             else q.right == successor && q.left == old(q.left))
        && successor.parent == q && successor.left == nl && successor.right == nr
        && nl.parent == successor && nl.left == old(nl.left) && nl.right == old(nl.right)
        && (nr != null ==> nr.parent == successor && nr.left == old(nr.left) && nr.right == old(nr.right))
    {
      if node.parent == null {
        root := successor;
      } else if node.parent.left == node {
        node.parent.left := successor;
      } else {
        node.parent.right := successor;
      }
      successor.parent := node.parent;
      successor.left := node.left;
      if node.left != null {
        node.left.parent := successor;
      }
      successor.right := node.right;
      if node.right != null {
        node.right.parent := successor;
      }
    }

    /**
     * The relinking that ends a two-child removal, once `successor` has been
     * unlinked: `successor` takes `node`'s place below `node`'s parent (or as
     * the root) and adopts `node`'s children. `t1` is the tree at this point
     * and `Node(node, v, l, r1)` the subtree at `node`.
     */
    method Transplant(node: TreeNode, successor: TreeNode, ghost t1: Shape, ghost v: int, ghost l: Shape, ghost r1: Shape,
                      ghost t2: Shape)
      requires Wf(t1) && Linked(t1, null) && root == Root(t1)
      requires node in Refs(t1) && Sub(t1, node) == Node(node, v, l, r1) && l.Node?
      requires successor !in Refs(t1)
      requires t2 == Replace(t1, node, Node(successor, successor.value, l, r1))
      modifies this`root, Refs(t1), successor
      ensures root == Root(t2) && Linked(t2, null)
    {
      ghost var q := ParentIn(t1, null, node);
      ghost var out, inL, inR := Refs(t1) - Refs(Sub(t1, node)) - {q}, Refs(l) - {Root(l)}, Refs(r1) - {Root(r1)};
      assert && Linked(Node(node, v, l, r1), q) && Wf(l) && Wf(r1)
             && (node != Root(t1) ==> q in Refs(t1) && q !in Refs(Sub(t1, node)))
             && (node == Root(t1) ==> q == null)
             && q !in inL && q !in inR && successor !in out && successor !in inL && successor !in inR
             && Root(l) !in out && Root(l) !in inR && Root(l) != q && Root(l) != successor
             && Root(r1) !in out && Root(r1) !in inL && (r1.Node? ==> Root(r1) != q && Root(r1) != successor && Root(r1) != Root(l)) by {
        NodeFacts(t1, null, node);
        SubWf(t1, node);
      }
      OldAllocated(t1);
      Relink(node, successor);
      Reparent(l, node, successor);
      Reparent(r1, node, successor);
      LinkedAfterReplace(t1, null, node, Node(successor, successor.value, l, r1));
    }

  }

  /** A tree holding only 42 finds 42 and does not find 100. */
  method SingleNode() returns (value: int, found: bool, notFound: bool)
    ensures value == 42 && found && !notFound
  {
    var bst := new BinarySearchTree();
    var _, n := bst.InsertTreeNode(42);
    InsertAddsValue(Nil, 42, n);
    value, found := bst.FindTreeNode(42);
    var _, missing := bst.FindTreeNode(100);
    notFound := missing;
  }

  /** After 10 and then 5 are inserted, removing the left child of the root leaves 10 and loses 5. */
  method RemoveLeftLeaf() returns (gone: bool, kept: bool)
    ensures !gone && kept
  {
    var bst := new BinarySearchTree();
    var _, m := bst.InsertTreeNode(10);
    var _, n := bst.InsertTreeNode(5);
    assert bst.shape == Node(m, 10, Node(n, 5, Nil, Nil), Nil);
    bst.RemoveTreeNode(bst.root.left);
    assert bst.shape == Node(m, 10, Nil, Nil);
    var _, g := bst.FindTreeNode(5);
    gone := g;
    var _, k := bst.FindTreeNode(10);
    kept := k;
  }

  /** A tree of node objects, each position carrying the node and its value. */
  datatype Shape = Nil | Node(ref: TreeNode, value: int, left: Shape, right: Shape)

  /** The node at the top of `t`, or nil for the empty tree. */
  function Root(t: Shape): TreeNode?
  {
    if t.Nil? then null else t.ref
  }

  /** The node objects of `t`. */
  ghost function Refs(t: Shape): set<TreeNode>
  {
    match t
    case Nil => {}
    case Node(n, _, l, r) => {n} + Refs(l) + Refs(r)
  }

  /** No node object occurs twice in `t`. */
  ghost predicate Wf(t: Shape)
  {
    match t
    case Nil => true
    case Node(n, _, l, r) => Wf(l) && Wf(r) && n !in Refs(l) && n !in Refs(r) && Refs(l) !! Refs(r)
  }

  /** The stored values of `t`, with multiplicity. */
  ghost function Elems(t: Shape): multiset<int>
  {
    match t
    case Nil => multiset{}
    case Node(_, v, l, r) => Elems(l) + multiset{v} + Elems(r)
  }

  /** The search-tree order: left values are smaller than the node, right values are not. */
  ghost predicate Ordered(t: Shape)
  {
    match t
    case Nil => true
    case Node(_, v, l, r) =>
      && (forall x :: x in Elems(l) ==> x < v)
      && (forall x :: x in Elems(r) ==> v <= x)
      && Ordered(l) && Ordered(r)
  }

  /**
   * The node objects' fields agree with `t`: each node holds its value,
   * points to the roots of its subtrees, and points back to its parent
   * (`p` for the root of `t`).
   */
  ghost predicate Linked(t: Shape, p: TreeNode?)
    reads Refs(t)
  {
    match t
    case Nil => true
    case Node(n, v, l, r) =>
      && n.value == v && n.parent == p && n.left == Root(l) && n.right == Root(r)
      && Linked(l, n) && Linked(r, n)
  }

  /** `t` after `InsertNode(v)` hangs the new leaf `n`. */
  ghost function InsertShape(t: Shape, v: int, n: TreeNode): Shape
  {
    match t
    case Nil => Node(n, v, Nil, Nil)
    case Node(m, w, l, r) =>
      if v < w then Node(m, w, InsertShape(l, v, n), r) else Node(m, w, l, InsertShape(r, v, n))
  }

  /** The subtree of `t` whose root is `n`. */
  ghost function Sub(t: Shape, n: TreeNode): (s: Shape)
    requires n in Refs(t)
    ensures s.Node? && s.ref == n && Refs(s) <= Refs(t)
  {
    if t.ref == n then t else if n in Refs(t.left) then Sub(t.left, n) else Sub(t.right, n)
  }

  /** The parent of node `n` within `t`, where `p` is the parent of `t`'s root. */
  ghost function ParentIn(t: Shape, p: TreeNode?, n: TreeNode): (q: TreeNode?)
    requires n in Refs(t)
    ensures n == Root(t) ==> q == p
    ensures n != Root(t) ==> q in Refs(t)
  {
    if t.ref == n then p
    else if n in Refs(t.left) then ParentIn(t.left, t.ref, n)
    else ParentIn(t.right, t.ref, n)
  }

  /** `t` with the subtree rooted at `n` replaced by `u`. */
  ghost function Replace(t: Shape, n: TreeNode, u: Shape): Shape
    requires n in Refs(t)
  {
    if t.ref == n then u
    else if n in Refs(t.left) then Node(t.ref, t.value, Replace(t.left, n, u), t.right)
    else Node(t.ref, t.value, t.left, Replace(t.right, n, u))
  }

  /** The leftmost position of a non-empty tree: the in-order first node. */
  ghost function Leftmost(t: Shape): (m: Shape)
    requires t.Node?
    ensures m.Node? && m.left.Nil? && m.ref in Refs(t)
  {
    if t.left.Nil? then t else Leftmost(t.left)
  }

  /**
   * `t` after `RemoveTreeNode(n)`: the position of `n` gets its only
   * subtree (or nothing), or, when it has two, the leftmost node of its
   * right subtree, removed from there first.
   */
  ghost function RemoveShape(t: Shape, n: TreeNode): Shape
    requires n in Refs(t)
  {
    if t.ref == n then
      if t.left.Nil? then t.right
      else if t.right.Nil? then t.left
      else
        var m := Leftmost(t.right);
        Node(m.ref, m.value, t.left, RemoveShape(t.right, m.ref))
    else if n in Refs(t.left) then Node(t.ref, t.value, RemoveShape(t.left, n), t.right)
    else Node(t.ref, t.value, t.left, RemoveShape(t.right, n))
  }

  // ---- Facts about shapes -------------------------------------------------

  /** Inserting a fresh node keeps the tree well formed, adds that node and keeps the root. */
  lemma {:induction false} InsertKeepsShape(t: Shape, v: int, n: TreeNode)
    requires Wf(t) && n !in Refs(t)
    ensures Wf(InsertShape(t, v, n)) && Refs(InsertShape(t, v, n)) == Refs(t) + {n}
    ensures t.Node? ==> Root(InsertShape(t, v, n)) == Root(t)
  {
    match t
    case Nil =>
    case Node(m, w, l, r) =>
      if v < w {
        InsertKeepsShape(l, v, n);
      } else {
        InsertKeepsShape(r, v, n);
      }
  }

  /** Inserting adds exactly one occurrence of the value. */
  lemma {:induction false} InsertAddsValue(t: Shape, v: int, n: TreeNode)
    ensures Elems(InsertShape(t, v, n)) == Elems(t) + multiset{v}
  {
    match t
    case Nil =>
    case Node(m, w, l, r) =>
      var el, er := Elems(l), Elems(r);
      if v < w {
        var l2 := InsertShape(l, v, n);
        InsertAddsValue(l, v, n);
        assert InsertShape(t, v, n) == Node(m, w, l2, r);
        assert Elems(l2) == el + multiset{v};
        assert (el + multiset{v}) + multiset{w} + er == el + multiset{w} + er + multiset{v};
      } else {
        var r2 := InsertShape(r, v, n);
        InsertAddsValue(r, v, n);
        assert InsertShape(t, v, n) == Node(m, w, l, r2);
        assert Elems(r2) == er + multiset{v};
        assert el + multiset{w} + (er + multiset{v}) == el + multiset{w} + er + multiset{v};
      }
  }

  /** Inserting keeps the search-tree order. */
  lemma {:induction false} InsertKeepsOrder(t: Shape, v: int, n: TreeNode)
    requires Ordered(t)
    ensures Ordered(InsertShape(t, v, n))
  {
    match t
    case Nil =>
    case Node(m, w, l, r) =>
      if v < w {
        InsertKeepsOrder(l, v, n);
        InsertKeepsBound(l, v, n, w);
      } else {
        InsertKeepsOrder(r, v, n);
        InsertKeepsBound(r, v, n, w);
      }
  }

  /** Inserting a value on the correct side of a bound keeps every value on that side. */
  lemma InsertKeepsBound(t: Shape, v: int, n: TreeNode, w: int)
    ensures (v < w && forall x :: x in Elems(t) ==> x < w) ==> forall x :: x in Elems(InsertShape(t, v, n)) ==> x < w
    ensures (w <= v && forall x :: x in Elems(t) ==> w <= x) ==> forall x :: x in Elems(InsertShape(t, v, n)) ==> w <= x
  {
    InsertAddsValue(t, v, n);
  }

  /** In an ordered tree the leftmost value is the minimum. */
  lemma {:induction false} LeftmostFacts(t: Shape)
    requires t.Node? && Wf(t)
    ensures Sub(t, Leftmost(t).ref) == Leftmost(t)
    ensures Leftmost(t).value in Elems(t)
    ensures Ordered(t) ==> forall x :: x in Elems(t) ==> Leftmost(t).value <= x
    decreases t
  {
    if t.left.Node? {
      LeftmostFacts(t.left);
    }
  }

  /** The value at a node is one of the tree's values. */
  lemma {:induction false} SubValueIn(t: Shape, n: TreeNode)
    requires n in Refs(t)
    ensures Sub(t, n).value in Elems(t)
  {
    if t.ref != n {
      if n in Refs(t.left) {
        SubValueIn(t.left, n);
      } else {
        SubValueIn(t.right, n);
      }
    }
  }

  /** Removing a node keeps the tree well formed and drops exactly that node object. */
  lemma {:induction false} RemoveKeepsShape(t: Shape, n: TreeNode)
    requires Wf(t) && n in Refs(t)
    ensures Wf(RemoveShape(t, n)) && Refs(RemoveShape(t, n)) == Refs(t) - {n}
    decreases t
  {
    if t.ref == n {
      if t.left.Node? && t.right.Node? {
        RemoveKeepsShape(t.right, Leftmost(t.right).ref);
      }
    } else if n in Refs(t.left) {
      RemoveKeepsShape(t.left, n);
    } else {
      RemoveKeepsShape(t.right, n);
    }
  }

  /** Removing a node removes exactly one occurrence of its value. */
  lemma {:induction false} RemoveTakesValue(t: Shape, n: TreeNode)
    requires Wf(t) && n in Refs(t)
    ensures Elems(RemoveShape(t, n)) == Elems(t) - multiset{Sub(t, n).value}
    decreases t
  {
    if t.ref == n {
      if t.left.Node? && t.right.Node? {
        var m := Leftmost(t.right);
        LeftmostFacts(t.right);
        RemoveTakesValue(t.right, m.ref);
        TakeOne(Elems(t.left), t.value, Elems(t.right), m.value);
      }
    } else if n in Refs(t.left) {
      RemoveTakesValue(t.left, n);
      SubValueIn(t.left, n);
      TakeOne(Elems(t.right), t.value, Elems(t.left), Sub(t.left, n).value);
    } else {
      RemoveTakesValue(t.right, n);
      SubValueIn(t.right, n);
      TakeOne(Elems(t.left), t.value, Elems(t.right), Sub(t.right, n).value);
    }
  }

  /** Taking one occurrence of `x` out of the part `b` of a union that holds it. */
  lemma TakeOne(a: multiset<int>, v: int, b: multiset<int>, x: int)
    requires x in b
    ensures a + multiset{x} + (b - multiset{x}) == a + multiset{v} + b - multiset{v}
    ensures a + multiset{v} + (b - multiset{x}) == a + multiset{v} + b - multiset{x}
    ensures (b - multiset{x}) + multiset{v} + a == b + multiset{v} + a - multiset{x}
  {
  }

  /** Removing a node keeps the search-tree order. */
  lemma {:induction false} RemoveKeepsOrder(t: Shape, n: TreeNode)
    requires Wf(t) && Ordered(t) && n in Refs(t)
    ensures Ordered(RemoveShape(t, n))
    decreases t
  {
    if t.ref == n {
      if t.left.Node? && t.right.Node? {
        var m := Leftmost(t.right);
        var r' := RemoveShape(t.right, m.ref);
        assert Ordered(r') && (forall x :: x in Elems(r') ==> m.value <= x)
               && forall x :: x in Elems(t.left) ==> x < m.value by {
          LeftmostFacts(t.right);
          RemoveKeepsOrder(t.right, m.ref);
          RemoveKeepsBound(t.right, m.ref, m.value);
        }
      }
    } else if n in Refs(t.left) {
      RemoveKeepsOrder(t.left, n);
      RemoveKeepsBound(t.left, n, t.value);
    } else {
      RemoveKeepsOrder(t.right, n);
      RemoveKeepsBound(t.right, n, t.value);
    }
  }

  /** Removing a node keeps every value on the side of a bound where all of them were. */
  lemma RemoveKeepsBound(t: Shape, n: TreeNode, w: int)
    requires Wf(t) && n in Refs(t)
    ensures (forall x :: x in Elems(t) ==> x < w) ==> forall x :: x in Elems(RemoveShape(t, n)) ==> x < w
    ensures (forall x :: x in Elems(t) ==> w <= x) ==> forall x :: x in Elems(RemoveShape(t, n)) ==> w <= x
  {
    RemoveTakesValue(t, n);
    assert Elems(RemoveShape(t, n)) <= Elems(t);
  }

  /** Removal happens at the position of the removed node. */
  lemma {:induction false} RemoveIsReplace(t: Shape, n: TreeNode)
    requires Wf(t) && n in Refs(t)
    ensures RemoveShape(t, n) == Replace(t, n, RemoveShape(Sub(t, n), n))
    decreases t
  {
    if t.ref != n {
      if n in Refs(t.left) {
        RemoveIsReplace(t.left, n);
      } else {
        RemoveIsReplace(t.right, n);
      }
    }
  }

  /** Removing a node `x` below `n` only changes the subtree at `n`. */
  lemma {:induction false} RemoveInside(t: Shape, n: TreeNode, x: TreeNode)
    requires Wf(t) && n in Refs(t) && x in Refs(Sub(t, n)) && x != n
    ensures RemoveShape(t, x) == Replace(t, n, RemoveShape(Sub(t, n), x))
    decreases t
  {
    if t.ref != n {
      if n in Refs(t.left) {
        RemoveInside(t.left, n, x);
      } else {
        RemoveInside(t.right, n, x);
      }
    }
  }

  /**
   * Replacing the subtree at `n` by one still rooted at `n` keeps `n`'s
   * parent, and a second replacement at `n` overrides the first.
   */
  lemma {:induction false} ReplaceTwice(t: Shape, n: TreeNode, x: Shape)
    requires Wf(t) && n in Refs(t) && x.Node? && x.ref == n
    ensures n in Refs(Replace(t, n, x)) && Sub(Replace(t, n, x), n) == x
    ensures forall p :: ParentIn(Replace(t, n, x), p, n) == ParentIn(t, p, n)
    ensures forall u :: Replace(Replace(t, n, x), n, u) == Replace(t, n, u)
    decreases t
  {
    if t.ref != n {
      if n in Refs(t.left) {
        ReplaceTwice(t.left, n, x);
      } else {
        ReplaceTwice(t.right, n, x);
      }
    }
  }

  // ---- Facts linking shapes and node objects -----------------------------

  /**
   * The subtree at a node is linked below that node's parent, the parent
   * is outside that subtree, and the parent points to the node.
   */
  lemma {:induction false} NodeFacts(t: Shape, p: TreeNode?, n: TreeNode)
    requires Wf(t) && Linked(t, p) && n in Refs(t)
    ensures Linked(Sub(t, n), ParentIn(t, p, n))
    ensures n != Root(t) ==> ParentIn(t, p, n) !in Refs(Sub(t, n))
    ensures n != Root(t) ==> ParentIn(t, p, n).left == n || ParentIn(t, p, n).right == n
    decreases t
  {
    if t.ref != n {
      if n in Refs(t.left) {
        NodeFacts(t.left, t.ref, n);
      } else {
        NodeFacts(t.right, t.ref, n);
      }
    }
  }

  /**
   * One step of a search for `target` from a linked, ordered position not
   * holding it: the side it takes is linked below the node, ordered, and
   * holds `target` exactly when the whole position does.
   */
  lemma Descend(s: Shape, par: TreeNode?, target: int)
    requires s.Node? && Ordered(s) && Linked(s, par) && s.ref.value != target
    ensures var c := if target > s.ref.value then s.right else s.left;
      && Ordered(c) && Linked(c, s.ref) && Root(c) == (if target > s.ref.value then s.ref.right else s.ref.left)
      && (Contains(s, target) <==> Contains(c, target))
  {
    ContainsIsElem(s, target);
    ContainsIsElem(s.left, target);
    ContainsIsElem(s.right, target);
  }

  /** Whether some position of `t` holds `x`. */
  ghost predicate Contains(t: Shape, x: int)
  {
    t.Node? && (x == t.value || Contains(t.left, x) || Contains(t.right, x))
  }

  /** `Contains` agrees with membership in the tree's values. */
  lemma {:induction false} ContainsIsElem(t: Shape, x: int)
    ensures Contains(t, x) <==> x in Elems(t)
  {
    if t.Node? {
      ContainsIsElem(t.left, x);
      ContainsIsElem(t.right, x);
    }
  }

  /**
   * What removing `n` from a valid tree relies on: the subtree at `n` is
   * linked below `n`'s parent, which points to `n`, and the resulting tree
   * is well formed, ordered and equal to the tree with `n`'s subtree replaced.
   */
  lemma RemoveFacts(t: Shape, n: TreeNode)
    requires Wf(t) && Ordered(t) && Linked(t, null) && n in Refs(t)
    ensures var sub, q, t2 := Sub(t, n), ParentIn(t, null, n), RemoveShape(t, n);
      && Wf(sub) && Linked(sub, q) && (n != Root(t) ==> q !in Refs(sub) && (q.left == n || q.right == n))
      && (n == Root(t) ==> q == null)
      && Wf(t2) && Ordered(t2) && t2 == Replace(t, n, RemoveShape(sub, n))
  {
    SubWf(t, n);
    NodeFacts(t, null, n);
    RemoveKeepsShape(t, n);
    RemoveKeepsOrder(t, n);
    RemoveIsReplace(t, n);
  }

  /** The nodes of a shape that existed before existed then. */
  twostate lemma {:induction false} OldAllocated(t: Shape)
    ensures old(allocated(Refs(t)))
  {
    if t.Node? {
      OldAllocated(t.left);
      OldAllocated(t.right);
    }
  }

  /** Every subtree of a well-formed tree is well formed. */
  lemma {:induction false} SubWf(t: Shape, n: TreeNode)
    requires Wf(t) && n in Refs(t)
    ensures Wf(Sub(t, n))
  {
    if t.ref != n {
      if n in Refs(t.left) {
        SubWf(t.left, n);
      } else {
        SubWf(t.right, n);
      }
    }
  }

  /** Links of nodes that did not change still hold. */
  twostate lemma {:induction false} LinkedFrame(t: Shape, new p: TreeNode?)
    requires old(allocated(p)) && old(Linked(t, p)) && old(allocated(Refs(t))) && unchanged(Refs(t))
    ensures Linked(t, p)
    decreases t
  {
    if t.Node? {
      LinkedFrame(t.left, t.ref);
      LinkedFrame(t.right, t.ref);
    }
  }

  /** A subtree whose root only got a new parent pointer is linked below the new parent. */
  twostate lemma Reparent(t: Shape, new p0: TreeNode?, new p1: TreeNode?)
    requires Wf(t) && old(allocated(p0)) && old(Linked(t, p0))
    requires old(allocated(Refs(t))) && unchanged(Refs(t) - {Root(t)})
    requires t.Node? ==> && t.ref.left == old(t.ref.left)
                         && t.ref.right == old(t.ref.right) && t.ref.parent == p1
    ensures Linked(t, p1)
  {
    if t.Node? {
      LinkedFrame(t.left, t.ref);
      LinkedFrame(t.right, t.ref);
    }
  }

  /**
   * Relinking one position: if the subtree at `n` was replaced by a linked
   * `u`, the parent of `n` now points to `u`'s root instead of `n`, and
   * nothing else outside the subtree changed, the whole tree is linked.
   */
  twostate lemma {:induction false} LinkedAfterReplace(t: Shape, new p: TreeNode?, new n: TreeNode, new u: Shape)
    requires Wf(t) && n in Refs(t) && old(allocated(p)) && old(Linked(t, p))
    requires Refs(u) !! Refs(t) - Refs(Sub(t, n))
    requires Linked(u, ParentIn(t, p, n))
    requires old(allocated(Refs(t))) && unchanged(Refs(t) - Refs(Sub(t, n)) - {ParentIn(t, p, n)})
    requires n != Root(t) ==>
               var q := ParentIn(t, p, n);
               && q.parent == old(q.parent)
               && (if old(q.left) == n then q.left == Root(u) && q.right == old(q.right)
                   else q.right == Root(u) && q.left == old(q.left))
    ensures Linked(Replace(t, n, u), p)
    decreases t
  {
    if t.ref != n {
      if n in Refs(t.left) {
        var l' := Replace(t.left, n, u);
        assert Linked(l', t.ref) && t.ref.left == Root(l') by {
          if n != Root(t.left) {
            assert t.ref !in Refs(Sub(t.left, n)) && t.ref != ParentIn(t.left, t.ref, n);
            LinkedAfterReplace(t.left, t.ref, n, u);
          }
        }
        assert Linked(t.right, t.ref) && t.ref.parent == p && t.ref.right == Root(t.right) by {
          LinkedFrame(t.right, t.ref);
        }
      } else {
        var r' := Replace(t.right, n, u);
        assert Linked(r', t.ref) && t.ref.right == Root(r') by {
          if n != Root(t.right) {
            assert t.ref !in Refs(Sub(t.right, n)) && t.ref != ParentIn(t.right, t.ref, n);
            LinkedAfterReplace(t.right, t.ref, n, u);
          }
        }
        assert Linked(t.left, t.ref) && t.ref.parent == p && t.ref.left == Root(t.left) by {
          LinkedFrame(t.left, t.ref);
        }
      }
    }
  }
}
