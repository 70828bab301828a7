/**
 * The nodes of the binary search tree and the ghost shape that says how they are linked.
 *
 * A `Tree` value records, for a set of `Node` objects, which node sits where and which key it
 * holds. The heap agrees with a shape when every node's `data`, `left`, `right` and `parent`
 * fields are the ones the shape gives it (`Linked`, `ParentLinked`); a shape in which no node
 * occurs twice (`Distinct`) is a finite tree, so the heap it describes is acyclic and no child
 * is shared.
 */
module TreeShape {
  import opened Sequences

  /** A tree node: its key, its two children and a non-owning reference to its parent. */
  class Node {
    var data: int
    var left: Node?
    var right: Node?
    var parent: Node?

    constructor (value: int)
      ensures data == value && left == null && right == null && parent == null
    {
      data := value;
      left := null;
      right := null;
      parent := null;
    }
  }

  datatype Tree = Nil | Branch(left: Tree, node: Node, key: int, right: Tree)

  function Nodes(t: Tree): set<Node>
  {
    match t
    case Nil => {}
    case Branch(l, n, _, r) => Nodes(l) + {n} + Nodes(r)
  }

  /** The node a pointer to this subtree holds: null for the empty tree. */
  function RootOf(t: Tree): Node?
  {
    if t == Nil then null else t.node
  }

  /** No node occurs twice in the shape. */
  ghost predicate Distinct(t: Tree)
  {
    match t
    case Nil => true
    case Branch(l, n, _, r) =>
      n !in Nodes(l) && n !in Nodes(r) && Nodes(l) !! Nodes(r) && Distinct(l) && Distinct(r)
  }

  /** The keys in in-order: left subtree, node, right subtree. */
  function Keys(t: Tree): seq<int>
  {
    match t
    case Nil => []
    case Branch(l, _, k, r) => Keys(l) + [k] + Keys(r)
  }

  /** The keys in pre-order: node, left subtree, right subtree. */
  function PreKeys(t: Tree): seq<int>
  {
    match t
    case Nil => []
    case Branch(l, _, k, r) => [k] + PreKeys(l) + PreKeys(r)
  }

  /** The keys in post-order: left subtree, right subtree, node. */
  function PostKeys(t: Tree): seq<int>
  {
    match t
    case Nil => []
    case Branch(l, _, k, r) => PostKeys(l) + PostKeys(r) + [k]
  }

  /**
   * Search-tree ordering: every key in a node's left subtree is smaller than the node's key,
   * every key in its right subtree is greater than or equal to it.
   */
  ghost predicate Ordered(t: Tree)
  {
    match t
    case Nil => true
    case Branch(l, _, k, r) =>
      (forall x :: x in Keys(l) ==> x < k) &&
      (forall x :: x in Keys(r) ==> k <= x) &&
      Ordered(l) && Ordered(r)
  }

  /** The subtree whose root is `m`, or Nil when `m` is not in the tree. */
  function At(t: Tree, m: Node): (s: Tree)
    ensures s != Nil <==> m in Nodes(t)
    ensures s != Nil ==> s.node == m
  {
    match t
    case Nil => Nil
    case Branch(l, n, _, r) =>
      if n == m then t else if m in Nodes(l) then At(l, m) else At(r, m)
  }

  /** The node whose child `m` is: null for the root and for nodes not in the tree. */
  function ParentOf(t: Tree, m: Node): (p: Node?)
    ensures p != null ==> p in Nodes(t) && m in Nodes(t)
  {
    match t
    case Nil => null
    case Branch(l, n, _, r) =>
      if m in Nodes(l) then (if m == RootOf(l) then n else ParentOf(l, m))
      else if m in Nodes(r) then (if m == RootOf(r) then n else ParentOf(r, m))
      else null
  }

  /** Going down from the root of `t`, every node's key and child pointers are the ones the shape gives it. */
  ghost predicate Linked(t: Tree)
    reads Nodes(t)
  {
    match t
    case Nil => true
    case Branch(l, n, k, r) =>
      n.data == k && n.left == RootOf(l) && n.right == RootOf(r) && Linked(l) && Linked(r)
  }

  /** Going down from the root of `t`, whose parent is `p`, every node points up to the node above it. */
  ghost predicate ParentLinked(t: Tree, p: Node?)
    reads Nodes(t)
  {
    match t
    case Nil => true
    case Branch(l, n, _, r) => n.parent == p && ParentLinked(l, n) && ParentLinked(r, n)
  }

  /** `Linked` stated node by node: each node agrees with the subtree the shape has at it. */
  ghost predicate LinkedPointwise(t: Tree)
    reads Nodes(t)
  {
    forall m :: m in Nodes(t) ==>
      m.data == At(t, m).key && m.left == RootOf(At(t, m).left) && m.right == RootOf(At(t, m).right)
  }

  /** `ParentLinked` of a whole tree stated node by node: the root's parent is null. */
  ghost predicate ParentLinkedPointwise(t: Tree)
    reads Nodes(t)
  {
    forall m :: m in Nodes(t) ==> m.parent == ParentOf(t, m)
  }

  /**
   * The nodes of `t` outside `X` hold the fields and parent pointers the shape gives them. Reading
   * only those nodes, it survives any update to the nodes in `X` or to nodes outside the tree.
   */
  ghost predicate LinkedOutside(t: Tree, X: set<Node?>)
    reads Nodes(t) - X
  {
    forall m :: m in Nodes(t) && m !in X ==>
      m.data == At(t, m).key && m.left == RootOf(At(t, m).left) && m.right == RootOf(At(t, m).right) &&
      m.parent == ParentOf(t, m)
  }

  lemma {:induction false} LinkedPointwiseIff(t: Tree)
    requires Distinct(t)
    ensures Linked(t) <==> LinkedPointwise(t)
  {
    match t
    case Nil =>
    case Branch(l, n, k, r) =>
      LinkedPointwiseIff(l);
      LinkedPointwiseIff(r);
      AtRoot(t);
      forall m | m in Nodes(t) && m != n
        ensures At(t, m) == (if m in Nodes(l) then At(l, m) else At(r, m))
      {
        Descend(t, m);
      }
  }

  lemma {:induction false} ParentLinkedBelow(t: Tree, p: Node?)
    requires Distinct(t)
    ensures ParentLinked(t, p) <==>
      (t != Nil ==> t.node.parent == p) && forall m :: m in Nodes(t) && m != t.node ==> m.parent == ParentOf(t, m)
  {
    match t
    case Nil =>
    case Branch(l, n, k, r) =>
      ParentLinkedBelow(l, n);
      ParentLinkedBelow(r, n);
      forall m | m in Nodes(t) && m != n
        ensures ParentOf(t, m) == if m in Nodes(l) then (if m == l.node then n else ParentOf(l, m))
          else (if m == r.node then n else ParentOf(r, m))
      {
        Descend(t, m);
      }
  }

  lemma ParentLinkedPointwiseIff(t: Tree)
    requires Distinct(t)
    ensures ParentLinked(t, null) <==> ParentLinkedPointwise(t)
  {
    ParentLinkedBelow(t, null);
    if t != Nil {
      AtRoot(t);
    }
  }

  /** A heap linked as a whole tree says is linked as it says outside any set of nodes. */
  lemma LinkedOutsideOf(t: Tree, X: set<Node?>)
    requires Distinct(t) && Linked(t) && ParentLinked(t, null)
    ensures LinkedOutside(t, X)
  {
    LinkedPointwiseIff(t);
    ParentLinkedPointwiseIff(t);
  }

  /** What a well-linked heap says about one node: its fields, and the subtrees at its children. */
  lemma LinkedAt(t: Tree, m: Node)
    requires Distinct(t) && Linked(t) && m in Nodes(t)
    ensures var s := At(t, m);
      m.data == s.key && m.left == RootOf(s.left) && m.right == RootOf(s.right) &&
      (s.left != Nil ==> At(t, s.left.node) == s.left) &&
      (s.right != Nil ==> At(t, s.right.node) == s.right)
  {
    LinkedPointwiseIff(t);
    AtChild(t, m);
  }

  /** What a heap whose parent pointers are linked says about one node's parent pointer. */
  lemma ParentAt(t: Tree, m: Node)
    requires Distinct(t) && ParentLinked(t, null) && m in Nodes(t)
    ensures m.parent == ParentOf(t, m)
  {
    ParentLinkedPointwiseIff(t);
  }

  /** Where a node below the root sits: in exactly one child subtree, which also gives its parent. */
  lemma Descend(t: Tree, m: Node)
    requires t != Nil && Distinct(t) && m in Nodes(t) && m != t.node
    ensures m in Nodes(t.left) ==>
      m !in Nodes(t.right) && At(t, m) == At(t.left, m) &&
      ParentOf(t, m) == (if m == RootOf(t.left) then t.node else ParentOf(t.left, m))
    ensures m in Nodes(t.right) ==>
      m !in Nodes(t.left) && At(t, m) == At(t.right, m) &&
      ParentOf(t, m) == (if m == RootOf(t.right) then t.node else ParentOf(t.right, m))
  {
  }

  /** The root of a distinct tree is found at the top and has no parent. */
  lemma AtRoot(t: Tree)
    requires t != Nil && Distinct(t)
    ensures At(t, t.node) == t && ParentOf(t, t.node) == null
  {
  }

  /** The subtree at a node holds only nodes of the tree. */
  lemma {:induction false} AtNodes(t: Tree, m: Node)
    ensures Nodes(At(t, m)) <= Nodes(t)
  {
    match t
    case Nil =>
    case Branch(l, n, _, r) =>
      if n != m {
        AtNodes(l, m);
        AtNodes(r, m);
      }
  }

  /** Looking up a node inside a subtree gives the same subtree as looking it up in the whole. */
  lemma {:induction false} AtWithin(t: Tree, m: Node, y: Node)
    requires Distinct(t) && m in Nodes(t) && y in Nodes(At(t, m))
    ensures At(t, y) == At(At(t, m), y)
    ensures Distinct(At(t, m))
  {
    match t
    case Branch(l, n, _, r) =>
      if n == m {
      } else if m in Nodes(l) {
        AtWithin(l, m, y);
      } else {
        AtWithin(r, m, y);
      }
  }

  /** A node is the parent of its children, and nothing else is. */
  lemma {:induction false} ChildParent(t: Tree, m: Node, x: Node)
    requires Distinct(t) && m in Nodes(t)
    requires x == RootOf(At(t, m).left) || x == RootOf(At(t, m).right)
    ensures ParentOf(t, x) == m
  {
    match t
    case Branch(l, n, _, r) =>
      if n == m {
      } else if m in Nodes(l) {
        AtWithin(l, m, x);
        assert x != RootOf(l);
        ChildParent(l, m, x);
      } else {
        AtWithin(r, m, x);
        assert x != RootOf(r);
        ChildParent(r, m, x);
      }
  }

  /** The subtree below a node's child is the subtree at that child. */
  lemma AtChild(t: Tree, p: Node)
    requires Distinct(t) && p in Nodes(t)
    ensures At(t, p).left != Nil ==> At(t, At(t, p).left.node) == At(t, p).left
    ensures At(t, p).right != Nil ==> At(t, At(t, p).right.node) == At(t, p).right
  {
    var s := At(t, p);
    if s.left != Nil {
      AtWithin(t, p, s.left.node);
      AtRoot(s.left);
    }
    if s.right != Nil {
      AtWithin(t, p, s.right.node);
      AtRoot(s.right);
    }
  }

  /** A child of a node is not also that node's parent. */
  lemma ChildNotParent(t: Tree, x: Node, c: Node)
    requires Distinct(t) && x in Nodes(t)
    requires c == RootOf(At(t, x).left) || c == RootOf(At(t, x).right)
    ensures ParentOf(t, x) != c
  {
    AtChild(t, x);
    if ParentOf(t, x) == c {
      AtRoot(t);
      ParentChild(t, x);
      AtChild(t, c);
    }
  }

  /** Every node below the root is a child of its parent. */
  lemma {:induction false} ParentChild(t: Tree, m: Node)
    requires Distinct(t) && m in Nodes(t) && m != t.node
    ensures var p := ParentOf(t, m);
      p != null && (m == RootOf(At(t, p).left) || m == RootOf(At(t, p).right))
  {
    match t
    case Branch(l, n, _, r) =>
      AtRoot(t);
      if m in Nodes(l) && m != RootOf(l) {
        ParentChild(l, m);
        Descend(t, ParentOf(l, m));
      } else if m in Nodes(r) && m != RootOf(r) {
        ParentChild(r, m);
        Descend(t, ParentOf(r, m));
      }
  }

  /** The keys of a subtree are keys of the whole tree. */
  lemma {:induction false} AtKeys(t: Tree, m: Node, y: int)
    requires y in Keys(At(t, m))
    ensures y in Keys(t)
  {
    match t
    case Branch(l, n, _, r) =>
      if n != m && m in Nodes(l) {
        AtKeys(l, m, y);
      } else if n != m {
        AtKeys(r, m, y);
      }
  }

  /** Every subtree of an ordered tree is ordered. */
  lemma {:induction false} OrderedAt(t: Tree, m: Node)
    requires Ordered(t) && m in Nodes(t)
    ensures Ordered(At(t, m))
  {
    match t
    case Branch(l, n, _, r) =>
      if n != m && m in Nodes(l) {
        OrderedAt(l, m);
      } else if n != m {
        OrderedAt(r, m);
      }
  }

  /** Every node of a distinct tree contributes exactly one key to a traversal. */
  lemma {:induction false} KeysCount(t: Tree)
    requires Distinct(t)
    ensures |Keys(t)| == |Nodes(t)|
  {
    match t
    case Nil =>
    case Branch(l, n, _, r) =>
      KeysCount(l);
      KeysCount(r);
      DisjointUnionSize(Nodes(l), n, Nodes(r));
  }

  lemma DisjointUnionSize(a: set<Node>, x: Node, b: set<Node>)
    requires a !! b && x !in a && x !in b
    ensures |a + {x} + b| == |a| + 1 + |b|
  {
    assert a + {x} + b == (a + b) + {x};
  }

  /** Under the ordering the in-order traversal is non-decreasing. */
  lemma {:induction false} OrderedKeysSorted(t: Tree)
    requires Ordered(t)
    ensures Sorted(Keys(t))
  {
    match t
    case Nil =>
    case Branch(l, _, k, r) =>
      OrderedKeysSorted(l);
      OrderedKeysSorted(r);
      var s := Keys(t);
      forall i, j | 0 <= i < j < |s| ensures s[i] <= s[j] {
        if j < |Keys(l)| {
          assert s[i] == Keys(l)[i] && s[j] == Keys(l)[j];
        } else if i > |Keys(l)| {
          assert s[i] == Keys(r)[i - |Keys(l)| - 1] && s[j] == Keys(r)[j - |Keys(l)| - 1];
        } else {
          assert s[i] == k || s[i] in Keys(l);
          assert s[j] == k || s[j] in Keys(r);
        }
      }
  }

  /** The three traversals emit the same keys, each as often as the others. */
  lemma {:induction false} TraversalsPermute(t: Tree)
    ensures multiset(PreKeys(t)) == multiset(Keys(t)) == multiset(PostKeys(t))
  {
    match t
    case Nil =>
    case Branch(l, _, k, r) =>
      TraversalsPermute(l);
      TraversalsPermute(r);
  }

  /** The tree with every left and right subtree exchanged. */
  function Mirror(t: Tree): (m: Tree)
    ensures Nodes(m) == Nodes(t)
  {
    match t
    case Nil => Nil
    case Branch(l, n, k, r) => Branch(Mirror(r), n, k, Mirror(l))
  }

  /** Post-order is pre-order of the mirror image, read backwards. */
  lemma {:induction false} PostOrderMirrorsPreOrder(t: Tree)
    ensures PostKeys(t) == Reverse(PreKeys(Mirror(t)))
  {
    match t
    case Nil =>
    case Branch(l, _, k, r) =>
      PostOrderMirrorsPreOrder(l);
      PostOrderMirrorsPreOrder(r);
      var ml, mr := PreKeys(Mirror(l)), PreKeys(Mirror(r));
      calc {
        Reverse(PreKeys(Mirror(t)));
        Reverse([k] + mr + ml);
        { ReverseConcat([k] + mr, ml); ReverseConcat([k], mr); }
        Reverse(ml) + (Reverse(mr) + Reverse([k]));
        PostKeys(l) + PostKeys(r) + [k];
      }
  }
}
