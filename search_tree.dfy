/**
 * The binary search tree object: a root pointer into a linked structure of `Node`s, each with a
 * parent pointer. The ghost `shape` records the tree the nodes form; `Valid` says the heap is
 * exactly that tree and that the tree is a search tree with no node shared or repeated.
 */
module SearchTree {
  import opened Sequences
  import opened TreeShape
  import opened TreeSearch
  import opened TreeInsert
  import opened TreeDelete

  class BinarySearchTree {
    var root: Node?
    ghost var shape: Tree
    ghost var Repr: set<Node>

    ghost predicate Valid()
      reads this, Repr
    {
      Nodes(shape) <= Repr && root == RootOf(shape) && Distinct(shape) && Ordered(shape) && Linked(shape) && ParentLinked(shape, null)
    }

    /** An empty tree. */
    constructor ()
      ensures Valid() && shape == Nil
    {
      root := null;
      shape := Nil;
      Repr := {};
    }

    /**
     * Walks down from the root and returns the node holding `key`, or, when no node holds it,
     * the last node visited, under whose empty slot `key` belongs; null only for an empty tree.
     */
    method Find(key: int) returns (found: Node?)
      requires Valid()
      ensures found == RootOf(Locate(shape, key))
      ensures found == null <==> root == null
      ensures found != null ==>
        found in Nodes(shape) && (found.data == key <==> key in Keys(shape)) &&
        (found.data == key || (key < found.data && found.left == null) || (key > found.data && found.right == null))
    {
      LocateResult(shape, key);
      if shape != Nil {
        LocateFinds(shape, key);
      }
      var current := root;
      ghost var sub := shape;
      while current != null
        invariant current == RootOf(sub)
        invariant Distinct(shape) && Linked(shape)
        invariant sub == Nil ==> shape == Nil
        invariant sub != Nil ==> At(shape, sub.node) == sub && Locate(shape, key) == Locate(sub, key)
        decreases sub
      {
        LinkedAt(shape, current);
        if key < current.data {
          if current.left == null {
            return current;
          }
          current := current.left;
          sub := sub.left;
        } else if key > current.data {
          if current.right == null {
            return current;
          }
          current := current.right;
          sub := sub.right;
        } else {
          return current;
        }
      }
      return null;
    }
  
    /**
     * Adds `value` as a new leaf below the node the search for it stops at: on the left when
     * `value` is smaller than that node's key, otherwise on the right, replacing whatever right
     * subtree a node with an equal key had.
     */
    method Put(value: int) returns (ghost added: Node)
      requires Valid()
      modifies this, Repr
      ensures Valid() && fresh(added) && Repr == old(Repr) + {added}
      ensures shape == Insert(old(shape), value, added)
      ensures multiset(Keys(shape)) + multiset(Keys(Displaced(old(shape), value)))
           == multiset(Keys(old(shape))) + multiset{value}
    {
      var newNode := new Node(value);
      added := newNode;
      if root == null {
        root := newNode;
        shape := Leaf(newNode, value);
        Repr := Repr + {newNode};
        assert Nodes(shape) == {newNode} && Keys(shape) == [value];
        return;
      }
      var parent := Find(value);
      InsertKeys(shape, value, newNode);
      Attach(parent, newNode);
    }

    /**
     * The second half of `Put` on a non-empty tree: hangs the fresh leaf `leaf` below `parent`, the
     * node the search for its key stopped at, as its left child when the key is smaller than the
     * parent's and as its right child otherwise, and points the leaf back at its parent.
     */
    method Attach(parent: Node, leaf: Node)
      requires Valid() && leaf !in Repr
      requires leaf.left == null && leaf.right == null && leaf.parent == null
      requires parent == RootOf(Locate(shape, leaf.data))
      modifies this, parent, leaf
      ensures Valid() && Repr == old(Repr) + {leaf}
      ensures shape == Insert(old(shape), old(leaf.data), leaf)
    {
      ghost var t, key := shape, leaf.data;
      ghost var a := Locate(t, key);
      LocateReady(t, key);
      shape := Insert(t, key, leaf);
      Repr := Repr + {leaf};
      if leaf.data < parent.data {
        parent.left := leaf;
        parent.left.parent := parent;
      } else {
        parent.right := leaf;
        parent.right.parent := parent;
      }
      InsertRelinked(t, key, leaf, a);
      assert Distinct(shape) && Ordered(shape) && Nodes(shape) <= Repr by {
        InsertDistinct(t, key, leaf);
        InsertOrdered(t, key, leaf);
      }
    }

    /**
     * Removes one occurrence of `value`: reports false and changes nothing when the search does not
     * find it; otherwise a node with two children takes over its successor's key and the successor
     * is unlinked in its place, and a node with at most one child is unlinked itself.
     */
    method Remove(value: int) returns (removed: bool)
      requires Valid() && root != null
      modifies this, Repr
      ensures Valid() && Repr == old(Repr)
      ensures removed <==> value in Keys(old(shape))
      ensures shape == Delete(old(shape), value)
    {
      var temp := Find(value);
      if temp.data != value {
        DeleteAbsent(shape, value);
        return false;
      }
      ghost var t := shape;
      assert At(t, temp) == Locate(t, value) && At(t, temp).key == value &&
        temp.left == RootOf(At(t, temp).left) && temp.right == RootOf(At(t, temp).right) by {
        LocateResult(t, value);
        LinkedAt(t, temp);
      }
      if temp.left != null && temp.right != null {
        var successor := FindSuccessor(temp);
        TakeSuccessorKey(temp, successor);
        temp := successor;
      }
      Unlink(temp);
      return true;
    }

    /** Copies the key of `successor`, the leftmost node right of `node`, into `node`. */
    method TakeSuccessorKey(node: Node, successor: Node?)
      requires Valid() && node in Nodes(shape) && At(shape, node).right != Nil
      requires successor == Leftmost(At(shape, node).right).node
      modifies this, node
      ensures Valid() && Repr == old(Repr)
      ensures shape == SetKey(old(shape), node, Leftmost(At(old(shape), node).right).key)
      ensures successor != null && successor in Nodes(shape) && At(shape, successor) == Leftmost(At(old(shape), node).right)
    {
      ghost var t := shape;
      ghost var q := Leftmost(At(t, node).right);
      SuccessorReady(t, node);
      node.data := successor.data;
      shape := SetKey(t, node, q.key);
      SetKeyRelinked(t, node, q.key);
      CopySuccessorKey(t, node);
    }

    /**
     * Takes `x`, which has at most one child, out of the tree: its child, if any, is pointed up
     * to `x`'s parent, and the parent's slot that held `x` (or the root, for a node without a
     * parent) is pointed down to that child.
     */
    method Unlink(x: Node)
      requires Valid() && x in Nodes(shape) && (At(shape, x).left == Nil || At(shape, x).right == Nil)
      modifies this, Repr
      ensures Valid() && Repr == old(Repr)
      ensures shape == Splice(old(shape), x)
    {
      ghost var t := shape;
      ghost var p := x.parent;
      UnlinkReady(t, x);
      var child := if x.left != null then x.left else x.right;
      LiftChild(x, child);
      Bypass(x, child);
      shape := Splice(t, x);
      SpliceRelinked(t, x, p, child);
      assert Distinct(shape) && Ordered(shape) && Nodes(shape) <= Repr by {
        SpliceNodes(t, x);
        SpliceOrdered(t, x);
      }
    }

    /** Points the child `child` of `x`, if there is one, up to the parent of `x`. */
    method LiftChild(x: Node, child: Node?)
      requires child != x
      modifies child
      ensures child != null ==>
        child.parent == old(x.parent) && child.data == old(child.data) &&
        child.left == old(child.left) && child.right == old(child.right)
    {
      if child != null {
        child.parent := x.parent;
      }
    }

    /**
     * Points whatever pointed down to `x` at `child` instead: the root when `x` has no parent,
     * otherwise the parent's left or right slot, whichever holds `x`.
     */
    method Bypass(x: Node, child: Node?)
      requires x.parent != x && (x.parent != null ==> x == x.parent.left || x == x.parent.right)
      modifies this, x.parent
      ensures unchanged(x) && shape == old(shape) && Repr == old(Repr)
      ensures root == if x.parent == null then child else old(root)
      ensures x.parent != null ==>
        x.parent.data == old(x.parent.data) && x.parent.parent == old(x.parent.parent) &&
        if old(x.parent.left) == x then x.parent.left == child && x.parent.right == old(x.parent.right)
        else x.parent.right == child && x.parent.left == old(x.parent.left)
    {
      if x.parent == null {
        root := child;
      } else if x == x.parent.left {
        x.parent.left := child;
      } else if x == x.parent.right {
        x.parent.right := child;
      }
    }

    /**
     * Returns the successor the removal uses: for a node with a right child, the leftmost node of
     * its right subtree; for a node without one, its parent.
     */
    method FindSuccessor(node: Node) returns (successor: Node?)
      requires Valid() && node in Nodes(shape)
      ensures var s := At(shape, node);
        successor == if s.right == Nil then ParentOf(shape, node) else Leftmost(s.right).node
    {
      LinkedAt(shape, node);
      ParentAt(shape, node);
      if node.right == null {
        return node.parent;
      }
      ghost var goal := Leftmost(At(shape, node).right);
      var current := node.right;
      var parent := node.right;
      ghost var sub := At(shape, node).right;
      while current != null
        invariant Distinct(shape) && Linked(shape)
        invariant current == RootOf(sub)
        invariant sub != Nil ==> At(shape, sub.node) == sub && Leftmost(sub) == goal
        invariant sub == Nil ==> parent == goal.node
        decreases sub
      {
        LinkedAt(shape, current);
        parent := current;
        current := current.left;
        sub := sub.left;
      }
      return parent;
    }

    /** The keys below `node` in in-order: left subtree, node, right subtree. */
    function InOrder(node: Node?, ghost t: Tree): (keys: seq<int>)
      reads Nodes(t)
      requires node == RootOf(t) && Distinct(t) && Linked(t)
      ensures keys == Keys(t)
      decreases t
    {
      if node == null then []
      else
        InOrder(node.left, t.left) + [node.data] + InOrder(node.right, t.right)
    }

    /** The keys below `node` in pre-order: node, left subtree, right subtree. */
    function PreOrder(node: Node?, ghost t: Tree): (keys: seq<int>)
      reads Nodes(t)
      requires node == RootOf(t) && Distinct(t) && Linked(t)
      ensures keys == PreKeys(t)
      decreases t
    {
      if node == null then []
      else
        [node.data] + PreOrder(node.left, t.left) + PreOrder(node.right, t.right)
    }

    /** The keys below `node` in post-order: left subtree, right subtree, node. */
    function PostOrder(node: Node?, ghost t: Tree): (keys: seq<int>)
      reads Nodes(t)
      requires node == RootOf(t) && Distinct(t) && Linked(t)
      ensures keys == PostKeys(t)
      decreases t
    {
      if node == null then []
      else
        PostOrder(node.left, t.left) + PostOrder(node.right, t.right) + [node.data]
    }

    /** The in-order walk of a valid tree from its root lists every key once, in sorted order. */
    lemma InOrderSorted()
      requires Valid()
      ensures Sorted(InOrder(root, shape)) && |InOrder(root, shape)| == |Nodes(shape)|
    {
      OrderedKeysSorted(shape);
      KeysCount(shape);
    }
  }
}
