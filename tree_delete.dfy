/**
 * Removal as the source performs it, in two steps on the shape: a node with two children first
 * takes over the key of its successor (the leftmost node of its right subtree), and then the one
 * node that has at most one child is spliced out, its child taking its place under its parent.
 */
module TreeDelete {
  import opened Sequences
  import opened TreeShape
  import opened TreeSearch

  /** The shape in which node `x` holds `k` instead of its own key. */
  function SetKey(t: Tree, x: Node, k: int): (u: Tree)
    ensures Nodes(u) == Nodes(t) && RootOf(u) == RootOf(t)
  {
    match t
    case Nil => Nil
    case Branch(l, n, kk, r) =>
      if n == x then Branch(l, n, k, r) else Branch(SetKey(l, x, k), n, kk, SetKey(r, x, k))
  }

  lemma {:induction false} SetKeyAbsent(t: Tree, x: Node, k: int)
    requires x !in Nodes(t)
    ensures SetKey(t, x, k) == t
  {
    match t
    case Nil =>
    case Branch(l, n, _, r) =>
      SetKeyAbsent(l, x, k);
      SetKeyAbsent(r, x, k);
  }

  lemma {:induction false} SetKeyDistinct(t: Tree, x: Node, k: int)
    requires Distinct(t)
    ensures Distinct(SetKey(t, x, k))
  {
    match t
    case Nil =>
    case Branch(l, n, _, r) =>
      SetKeyDistinct(l, x, k);
      SetKeyDistinct(r, x, k);
  }

  /** Re-keying a node trades its old key for the new one and leaves every other key in place. */
  lemma {:induction false} SetKeyKeys(t: Tree, x: Node, k: int)
    requires Distinct(t) && x in Nodes(t)
    ensures multiset(Keys(SetKey(t, x, k))) + multiset{At(t, x).key} == multiset(Keys(t)) + multiset{k}
  {
    match t
    case Branch(l, n, kk, r) =>
      if n == x {
        SetKeyKeysRoot(t, k);
      } else if x in Nodes(l) {
        SetKeyKeys(l, x, k);
        SetKeyKeysStep(t, x, k, true);
      } else {
        SetKeyKeys(r, x, k);
        SetKeyKeysStep(t, x, k, false);
      }
  }

  lemma SetKeyKeysRoot(t: Tree, k: int)
    requires t != Nil
    ensures multiset(Keys(SetKey(t, t.node, k))) + multiset{At(t, t.node).key} == multiset(Keys(t)) + multiset{k}
  {
    var a, c := Keys(t.left), Keys(t.right);
    assert Keys(SetKey(t, t.node, k)) == a + [k] + c;
    forall y ensures (multiset(a + [k] + c) + multiset{t.key})[y] == (multiset(a + [t.key] + c) + multiset{k})[y] { }
  }

  /** The induction step of `SetKeyKeys` for a node below the root, on the side `onLeft` says. */
  lemma SetKeyKeysStep(t: Tree, x: Node, k: int, onLeft: bool)
    requires t != Nil && Distinct(t) && x in Nodes(if onLeft then t.left else t.right)
    requires var c := if onLeft then t.left else t.right;
      multiset(Keys(SetKey(c, x, k))) + multiset{At(c, x).key} == multiset(Keys(c)) + multiset{k}
    ensures multiset(Keys(SetKey(t, x, k))) + multiset{At(t, x).key} == multiset(Keys(t)) + multiset{k}
  {
    Descend(t, x);
    if onLeft {
      SetKeyAbsent(t.right, x, k);
      BagStep(Keys(SetKey(t.left, x, k)), Keys(t.left), Keys(t.right), t.key, multiset{At(t.left, x).key}, multiset{k});
    } else {
      SetKeyAbsent(t.left, x, k);
      BagStep(Keys(SetKey(t.right, x, k)), Keys(t.right), Keys(t.left), t.key, multiset{At(t.right, x).key}, multiset{k});
    }
  }

  lemma {:induction false} SetKeyWithin(t: Tree, x: Node, k: int, y: int)
    requires y in Keys(SetKey(t, x, k))
    ensures y in Keys(t) || y == k
  {
    match t
    case Branch(l, n, kk, r) =>
      if n != x && y in Keys(SetKey(l, x, k)) {
        SetKeyWithin(l, x, k, y);
      } else if n != x && y in Keys(SetKey(r, x, k)) {
        SetKeyWithin(r, x, k, y);
      }
  }

  /**
   * Giving a node the smallest key of its right subtree keeps the search-tree ordering: that key
   * is at least the node's own key and lies on the same side of every ancestor.
   */
  lemma {:induction false} SetKeyOrdered(t: Tree, x: Node, k: int)
    requires Distinct(t) && Ordered(t) && x in Nodes(t)
    requires k in Keys(At(t, x).right) && forall y :: y in Keys(At(t, x).right) ==> k <= y
    ensures Ordered(SetKey(t, x, k))
  {
    match t
    case Branch(l, n, kk, r) =>
      if n == x {
        assert kk <= k;
      } else if x in Nodes(l) {
        Descend(t, x);
        SetKeyOrdered(l, x, k);
        SetKeyAbsent(r, x, k);
        AtKeys(l, x, k);
        forall y | y in Keys(SetKey(l, x, k)) ensures y < kk {
          SetKeyWithin(l, x, k, y);
        }
      } else {
        Descend(t, x);
        SetKeyOrdered(r, x, k);
        SetKeyAbsent(l, x, k);
        AtKeys(r, x, k);
        forall y | y in Keys(SetKey(r, x, k)) ensures kk <= y {
          SetKeyWithin(r, x, k, y);
        }
      }
  }

  /** Re-keying is local: the subtree at any node is that subtree re-keyed. */
  lemma {:induction false} SetKeyAt(t: Tree, x: Node, k: int, m: Node)
    requires Distinct(t) && m in Nodes(t)
    ensures At(SetKey(t, x, k), m) == SetKey(At(t, m), x, k)
  {
    match t
    case Branch(l, n, kk, r) =>
      if n == x {
        if m != n {
          AtNodes(l, m);
          AtNodes(r, m);
          SetKeyAbsent(At(t, m), x, k);
        }
      } else if m != n && m in Nodes(l) {
        SetKeyAt(l, x, k, m);
      } else if m != n {
        SetKeyAt(r, x, k, m);
      }
  }

  lemma {:induction false} SetKeyParent(t: Tree, x: Node, k: int, m: Node)
    ensures ParentOf(SetKey(t, x, k), m) == ParentOf(t, m)
  {
    match t
    case Nil =>
    case Branch(l, n, kk, r) =>
      if n != x {
        SetKeyParent(l, x, k, m);
        SetKeyParent(r, x, k, m);
      }
  }

  /** Re-keying changes the key of `x` alone: every child and parent link stays. */
  lemma SetKeyLinks(t: Tree, x: Node, k: int, m: Node)
    requires Distinct(t) && m in Nodes(t)
    ensures var u := SetKey(t, x, k);
      At(u, m).key == (if m == x then k else At(t, m).key) &&
      RootOf(At(u, m).left) == RootOf(At(t, m).left) && RootOf(At(u, m).right) == RootOf(At(t, m).right) &&
      ParentOf(u, m) == ParentOf(t, m)
  {
    SetKeyAt(t, x, k, m);
    SetKeyParent(t, x, k, m);
  }

  /** The one child of a node with at most one: its left subtree if it has one, else its right. */
  function SoleChild(s: Tree): (c: Tree)
    requires s != Nil
    ensures s.left == Nil || s.right == Nil ==> Keys(c) == Keys(s.left) + Keys(s.right)
  {
    if s.left != Nil then s.left else s.right
  }

  /** The shape with node `x` replaced by its sole child. */
  function Splice(t: Tree, x: Node): (u: Tree)
    ensures RootOf(u) == if t != Nil && t.node == x then RootOf(SoleChild(t)) else RootOf(t)
  {
    match t
    case Nil => Nil
    case Branch(l, n, k, r) =>
      if n == x then SoleChild(t) else Branch(Splice(l, x), n, k, Splice(r, x))
  }

  /** The node a splice of `x` lifts into its place: the root of its sole child, or null. */
  function Lifted(t: Tree, x: Node): Node?
  {
    var s := At(t, x);
    if s == Nil then null else RootOf(SoleChild(s))
  }

  lemma {:induction false} SpliceAbsent(t: Tree, x: Node)
    requires x !in Nodes(t)
    ensures Splice(t, x) == t
  {
    match t
    case Nil =>
    case Branch(l, n, _, r) =>
      SpliceAbsent(l, x);
      SpliceAbsent(r, x);
  }

  /** Splicing out a node with at most one child removes exactly that node. */
  lemma {:induction false} SpliceNodes(t: Tree, x: Node)
    requires Distinct(t) && x in Nodes(t) && (At(t, x).left == Nil || At(t, x).right == Nil)
    ensures Distinct(Splice(t, x)) && Nodes(Splice(t, x)) == Nodes(t) - {x}
  {
    match t
    case Branch(l, n, _, r) =>
      if n == x {
        assert Nodes(SoleChild(t)) == Nodes(l) + Nodes(r);
      } else if x in Nodes(l) {
        Descend(t, x);
        SpliceNodes(l, x);
        SpliceAbsent(r, x);
      } else {
        Descend(t, x);
        SpliceNodes(r, x);
        SpliceAbsent(l, x);
      }
  }

  /** Splicing out a node with at most one child removes exactly its key, once. */
  lemma {:induction false} SpliceKeys(t: Tree, x: Node)
    requires Distinct(t) && x in Nodes(t) && (At(t, x).left == Nil || At(t, x).right == Nil)
    ensures multiset(Keys(Splice(t, x))) + multiset{At(t, x).key} == multiset(Keys(t))
  {
    match t
    case Branch(l, n, k, r) =>
      if n == x {
      } else if x in Nodes(l) {
        Descend(t, x);
        SpliceKeys(l, x);
        SpliceKeysStep(t, x, true);
      } else {
        Descend(t, x);
        SpliceKeys(r, x);
        SpliceKeysStep(t, x, false);
      }
  }

  /** The induction step of `SpliceKeys` for a node below the root, on the side `onLeft` says. */
  lemma SpliceKeysStep(t: Tree, x: Node, onLeft: bool)
    requires t != Nil && Distinct(t) && x in Nodes(if onLeft then t.left else t.right)
    requires var c := if onLeft then t.left else t.right;
      multiset(Keys(Splice(c, x))) + multiset{At(c, x).key} == multiset(Keys(c))
    ensures multiset(Keys(Splice(t, x))) + multiset{At(t, x).key} == multiset(Keys(t))
  {
    Descend(t, x);
    if onLeft {
      SpliceAbsent(t.right, x);
      BagStep(Keys(Splice(t.left, x)), Keys(t.left), Keys(t.right), t.key, multiset{At(t.left, x).key}, multiset{});
    } else {
      SpliceAbsent(t.left, x);
      BagStep(Keys(Splice(t.right, x)), Keys(t.right), Keys(t.left), t.key, multiset{At(t.right, x).key}, multiset{});
    }
  }

  lemma {:induction false} SpliceWithin(t: Tree, x: Node, y: int)
    requires y in Keys(Splice(t, x))
    ensures y in Keys(t)
  {
    match t
    case Branch(l, n, _, r) =>
      if n != x && y in Keys(Splice(l, x)) {
        SpliceWithin(l, x, y);
      } else if n != x && y in Keys(Splice(r, x)) {
        SpliceWithin(r, x, y);
      }
  }

  /** Splicing keeps the search-tree ordering. */
  lemma {:induction false} SpliceOrdered(t: Tree, x: Node)
    requires Ordered(t)
    ensures Ordered(Splice(t, x))
  {
    match t
    case Nil =>
    case Branch(l, n, k, r) =>
      if n != x {
        SpliceOrdered(l, x);
        SpliceOrdered(r, x);
        forall y | y in Keys(Splice(l, x)) ensures y < k {
          SpliceWithin(l, x, y);
        }
        forall y | y in Keys(Splice(r, x)) ensures k <= y {
          SpliceWithin(r, x, y);
        }
      }
  }

  /** Splicing is local: the subtree at any other node is that subtree with `x` spliced out. */
  lemma {:induction false} SpliceAt(t: Tree, x: Node, m: Node)
    requires Distinct(t) && x in Nodes(t) && (At(t, x).left == Nil || At(t, x).right == Nil)
    requires m in Nodes(t) && m != x
    ensures At(Splice(t, x), m) == Splice(At(t, m), x)
  {
    SpliceNodes(t, x);
    match t
    case Branch(l, n, _, r) =>
      if n == x {
        AtNodes(l, m);
        AtNodes(r, m);
        SpliceAbsent(At(t, m), x);
      } else if m != n {
        Descend(t, m);
        Descend(t, x);
        if m in Nodes(l) && x in Nodes(l) {
          SpliceAt(l, x, m);
        } else if m in Nodes(r) && x in Nodes(r) {
          SpliceAt(r, x, m);
        } else if m in Nodes(l) {
          SpliceAbsent(l, x);
          AtNodes(l, m);
          SpliceAbsent(At(l, m), x);
        } else {
          SpliceAbsent(r, x);
          AtNodes(r, m);
          SpliceAbsent(At(r, m), x);
        }
      }
  }

  /** After a splice, the lifted child hangs under the removed node's parent; other parents stay. */
  lemma SpliceParent(t: Tree, x: Node, m: Node)
    requires Distinct(t) && x in Nodes(t) && (At(t, x).left == Nil || At(t, x).right == Nil)
    requires m in Nodes(t) && m != x
    ensures ParentOf(Splice(t, x), m) == if m == Lifted(t, x) then ParentOf(t, x) else ParentOf(t, m)
  {
    var u, c := Splice(t, x), Lifted(t, x);
    SpliceNodes(t, x);
    AtRoot(t);
    if c != null {
      ChildParent(t, x, c);
    }
    if m == RootOf(u) {
      AtRoot(u);
    } else if m == c {
      SpliceParentLifted(t, x);
    } else {
      var p := ParentOf(t, m);
      ParentChild(t, m);
      AtChild(t, p);
      SpliceAt(t, x, p);
      ChildParent(u, p, m);
    }
  }

  /** The lifted child of a removed non-root node becomes a child of the removed node's parent. */
  lemma SpliceParentLifted(t: Tree, x: Node)
    requires Distinct(t) && x in Nodes(t) && (At(t, x).left == Nil || At(t, x).right == Nil)
    requires Lifted(t, x) != null && x != t.node
    ensures ParentOf(Splice(t, x), Lifted(t, x)) == ParentOf(t, x)
  {
    var u, c, p := Splice(t, x), Lifted(t, x), ParentOf(t, x);
    SpliceNodes(t, x);
    ParentChild(t, x);
    AtChild(t, p);
    SpliceAt(t, x, p);
    assert c in Nodes(At(t, x));
    ChildParent(u, p, c);
  }

  /**
   * Splicing out `x` changes only the pointers that led to it: the child pointer of its parent and
   * the parent pointer of its lifted child now point past it.
   */
  lemma SpliceLinks(t: Tree, x: Node, m: Node)
    requires Distinct(t) && x in Nodes(t) && (At(t, x).left == Nil || At(t, x).right == Nil)
    requires m in Nodes(t) && m != x
    ensures m in Nodes(Splice(t, x))
    ensures var u := Splice(t, x);
      At(u, m).key == At(t, m).key &&
      RootOf(At(u, m).left) == (if RootOf(At(t, m).left) == x then Lifted(t, x) else RootOf(At(t, m).left)) &&
      RootOf(At(u, m).right) == (if RootOf(At(t, m).right) == x then Lifted(t, x) else RootOf(At(t, m).right)) &&
      ParentOf(u, m) == (if m == Lifted(t, x) then ParentOf(t, x) else ParentOf(t, m))
  {
    SpliceNodes(t, x);
    SpliceAt(t, x, m);
    AtChild(t, m);
    SpliceParent(t, x, m);
  }

  /** With the key of `x` overwritten by `k` and every other node as it was, the heap is linked as the re-keyed shape says. */
  lemma SetKeyRelinked(t: Tree, x: Node, k: int)
    requires Distinct(t) && x in Nodes(t) && LinkedOutside(t, {x})
    requires x.data == k && x.left == RootOf(At(t, x).left) && x.right == RootOf(At(t, x).right)
    requires x.parent == ParentOf(t, x)
    ensures Linked(SetKey(t, x, k)) && ParentLinked(SetKey(t, x, k), null)
  {
    SetKeyDistinct(t, x, k);
    forall m | m in Nodes(SetKey(t, x, k))
      ensures m.data == At(SetKey(t, x, k), m).key
      ensures m.left == RootOf(At(SetKey(t, x, k), m).left)
      ensures m.right == RootOf(At(SetKey(t, x, k), m).right)
      ensures m.parent == ParentOf(SetKey(t, x, k), m)
    {
      SetKeyLinks(t, x, k, m);
    }
    LinkedPointwiseIff(SetKey(t, x, k));
    ParentLinkedPointwiseIff(SetKey(t, x, k));
  }

  /**
   * With the lifted child `c` pointing up to `x`'s parent `p`, and `p`'s slot that held `x`
   * pointing down to `c`, and every other node of the tree as it was, the heap is linked as the
   * spliced shape says.
   */
  lemma SpliceRelinked(t: Tree, x: Node, p: Node?, c: Node?)
    requires Distinct(t) && x in Nodes(t) && (At(t, x).left == Nil || At(t, x).right == Nil)
    requires p == ParentOf(t, x) && c == Lifted(t, x)
    requires LinkedOutside(t, {x, p, c})
    requires c != null ==>
      c in Nodes(t) && c.data == At(t, c).key && c.parent == p &&
      c.left == RootOf(At(t, c).left) && c.right == RootOf(At(t, c).right)
    requires p != null ==>
      p.data == At(t, p).key && p.parent == ParentOf(t, p) &&
      if x == RootOf(At(t, p).left) then p.left == c && p.right == RootOf(At(t, p).right)
      else p.left == RootOf(At(t, p).left) && p.right == c
    ensures Linked(Splice(t, x)) && ParentLinked(Splice(t, x), null)
  {
    SpliceNodes(t, x);
    var s := At(t, x);
    AtChild(t, x);
    if c != null {
      ChildParent(t, x, c);
      AtChild(t, c);
    }
    if p != null {
      AtChild(t, p);
      AtWithin(t, p, p);
      if x != RootOf(At(t, p).left) {
        AtRoot(t);
        ParentChild(t, x);
      }
    }
    forall m | m in Nodes(Splice(t, x))
      ensures m.data == At(Splice(t, x), m).key
      ensures m.left == RootOf(At(Splice(t, x), m).left)
      ensures m.right == RootOf(At(Splice(t, x), m).right)
      ensures m.parent == ParentOf(Splice(t, x), m)
    {
      SpliceLinks(t, x, m);
      if m != p {
        if RootOf(At(t, m).left) == x {
          ChildParent(t, m, x);
        }
        if RootOf(At(t, m).right) == x {
          ChildParent(t, m, x);
        }
      }
    }
    LinkedPointwiseIff(Splice(t, x));
    ParentLinkedPointwiseIff(Splice(t, x));
  }

  /** What the removal reads from a well-linked heap before it copies the successor's key into `x`. */
  lemma SuccessorReady(t: Tree, x: Node)
    requires Distinct(t) && Ordered(t) && Linked(t) && ParentLinked(t, null)
    requires x in Nodes(t) && At(t, x).right != Nil
    ensures var q := Leftmost(At(t, x).right);
      q.node.data == q.key && x.parent == ParentOf(t, x) && LinkedOutside(t, {x}) &&
      x.left == RootOf(At(t, x).left) && x.right == RootOf(At(t, x).right)
  {
    SuccessorAt(t, x);
    LinkedAt(t, Leftmost(At(t, x).right).node);
    LinkedAt(t, x);
    ParentAt(t, x);
    LinkedOutsideOf(t, {x});
  }

  /**
   * What the removal reads from a well-linked heap before it unlinks `x`: the parent and the
   * lifted child as the shape gives them, and their fields.
   */
  lemma UnlinkReady(t: Tree, x: Node)
    requires Distinct(t) && Linked(t) && ParentLinked(t, null)
    requires x in Nodes(t) && (At(t, x).left == Nil || At(t, x).right == Nil)
    ensures x.parent == ParentOf(t, x) && Lifted(t, x) == (if x.left != null then x.left else x.right)
    ensures LinkedOutside(t, {x, x.parent, Lifted(t, x)})
    ensures x.parent == null <==> x == t.node
    ensures Lifted(t, x) != null ==>
      var c := Lifted(t, x);
      c in Nodes(t) && c != x && c.data == At(t, c).key &&
      c.left == RootOf(At(t, c).left) && c.right == RootOf(At(t, c).right)
    ensures x.parent != null ==>
      var p := x.parent;
      p in Nodes(t) && p != x && p != Lifted(t, x) && p.data == At(t, p).key && p.parent == ParentOf(t, p) &&
      p.left == RootOf(At(t, p).left) && p.right == RootOf(At(t, p).right) && (x == p.left || x == p.right)
  {
    LinkedAt(t, x);
    ParentAt(t, x);
    LinkedOutsideOf(t, {x, x.parent, Lifted(t, x)});
    AtRoot(t);
    if Lifted(t, x) != null {
      LiftedReady(t, x);
    }
    if x != t.node {
      ParentReady(t, x);
    }
  }

  lemma LiftedReady(t: Tree, x: Node)
    requires Distinct(t) && Linked(t) && x in Nodes(t) && Lifted(t, x) != null
    ensures var c := Lifted(t, x);
      c in Nodes(t) && c != x && c.data == At(t, c).key &&
      c.left == RootOf(At(t, c).left) && c.right == RootOf(At(t, c).right)
  {
    AtChild(t, x);
    LinkedAt(t, Lifted(t, x));
  }

  lemma ParentReady(t: Tree, x: Node)
    requires Distinct(t) && Linked(t) && ParentLinked(t, null) && x in Nodes(t) && x != t.node
    ensures var p := x.parent;
      p != null && p in Nodes(t) && p != x && p != Lifted(t, x) && p.data == At(t, p).key &&
      p.parent == ParentOf(t, p) && p.left == RootOf(At(t, p).left) && p.right == RootOf(At(t, p).right) &&
      (x == p.left || x == p.right)
  {
    ParentAt(t, x);
    ParentChild(t, x);
    var p := x.parent;
    LinkedAt(t, p);
    ParentAt(t, p);
    AtChild(t, p);
    if Lifted(t, x) != null {
      ChildNotParent(t, x, Lifted(t, x));
    }
  }

  /**
   * The shape after removing `key`: unchanged when the search does not find it; otherwise a node
   * with two children takes its successor's key and the successor is spliced out, and any other
   * node holding `key` is spliced out itself.
   */
  function Delete(t: Tree, key: int): Tree
  {
    var s := Locate(t, key);
    if s == Nil || s.key != key then t
    else if s.left != Nil && s.right != Nil then
      var q := Leftmost(s.right);
      Splice(SetKey(t, s.node, q.key), q.node)
    else Splice(t, s.node)
  }

  /** The node a removal of `key` takes out of the tree: the successor when the match has two children. */
  function Unlinked(t: Tree, key: int): Node?
  {
    var s := Locate(t, key);
    if s == Nil || s.key != key then null
    else if s.left != Nil && s.right != Nil then Leftmost(s.right).node
    else s.node
  }

  /** Removing a key the tree does not hold changes nothing. */
  lemma DeleteAbsent(t: Tree, key: int)
    requires Distinct(t) && key !in Keys(t)
    ensures Delete(t, key) == t && Unlinked(t, key) == null
  {
    LocateResult(t, key);
  }

  /**
   * Removing a key the tree holds takes out exactly one occurrence of it and exactly one node,
   * and keeps the shape a well-formed search tree.
   */
  lemma DeleteKeys(t: Tree, key: int)
    requires Distinct(t) && Ordered(t) && key in Keys(t)
    ensures var d, x := Delete(t, key), Unlinked(t, key);
      Distinct(d) && Ordered(d) &&
      multiset(Keys(d)) + multiset{key} == multiset(Keys(t)) &&
      x != null && x in Nodes(t) && Nodes(d) == Nodes(t) - {x}
  {
    var s := Locate(t, key);
    LocateResult(t, key);
    LocateFinds(t, key);
    if s.left != Nil && s.right != Nil {
      DeleteTwoChildren(t, s.node);
    } else {
      SpliceNodes(t, s.node);
      SpliceKeys(t, s.node);
      SpliceOrdered(t, s.node);
    }
  }

  /**
   * Removing the key of a node `x` with two children: the successor, whose left slot is empty, is
   * spliced out after its key has been copied into `x`.
   */
  lemma DeleteTwoChildren(t: Tree, x: Node)
    requires Distinct(t) && Ordered(t) && x in Nodes(t)
    requires At(t, x).left != Nil && At(t, x).right != Nil
    ensures var s := At(t, x); var q := Leftmost(s.right);
      var d := Splice(SetKey(t, x, q.key), q.node);
      Distinct(d) && Ordered(d) &&
      multiset(Keys(d)) + multiset{s.key} == multiset(Keys(t)) &&
      q.node in Nodes(t) && Nodes(d) == Nodes(t) - {q.node}
  {
    var s := At(t, x);
    var q := Leftmost(s.right);
    var t1 := SetKey(t, x, q.key);
    CopySuccessorKey(t, x);
    SpliceNodes(t1, q.node);
    SpliceKeys(t1, q.node);
    SpliceOrdered(t1, q.node);
    BagCancel(multiset(Keys(Splice(t1, q.node))), multiset(Keys(t1)), multiset(Keys(t)), q.key, s.key);
  }

  /** The first step of removing from a node with two children: it takes its successor's key. */
  lemma CopySuccessorKey(t: Tree, x: Node)
    requires Distinct(t) && Ordered(t) && x in Nodes(t) && At(t, x).right != Nil
    ensures var s := At(t, x); var q := Leftmost(s.right); var t1 := SetKey(t, x, q.key);
      Distinct(t1) && Ordered(t1) &&
      multiset(Keys(t1)) + multiset{s.key} == multiset(Keys(t)) + multiset{q.key} &&
      q.node in Nodes(t1) && At(t1, q.node) == q
  {
    var s := At(t, x);
    var q := Leftmost(s.right);
    SuccessorAt(t, x);
    SetKeyDistinct(t, x, q.key);
    SetKeyKeys(t, x, q.key);
    SetKeyOrdered(t, x, q.key);
    SetKeyAt(t, x, q.key, q.node);
    SetKeyAbsent(q, x, q.key);
  }

  /** The successor of a node with two children lies in its right subtree and holds that subtree's smallest key. */
  lemma SuccessorAt(t: Tree, x: Node)
    requires Distinct(t) && Ordered(t) && x in Nodes(t) && At(t, x).right != Nil
    ensures var s := At(t, x); var q := Leftmost(s.right);
      q.node in Nodes(t) && At(t, q.node) == q && x !in Nodes(q) &&
      q.key in Keys(s.right) && forall y :: y in Keys(s.right) ==> q.key <= y
  {
    var s := At(t, x);
    AtWithin(t, x, x);
    OrderedAt(t, x);
    var q := Leftmost(s.right);
    LeftmostMin(s.right);
    AtNodes(s.right, q.node);
    Descend(s, q.node);
    AtWithin(t, x, q.node);
  }
}
