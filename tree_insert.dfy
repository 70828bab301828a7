/**
 * Insertion as the source writes it: a new leaf is attached where the search for its key stops.
 * When the search stops at a node that already holds the key, the leaf becomes that node's
 * right child and the node's previous right subtree is dropped.
 */
module TreeInsert {
  import opened Sequences
  import opened TreeShape
  import opened TreeSearch

  function Leaf(n: Node, key: int): Tree
  {
    Branch(Nil, n, key, Nil)
  }

  /** The shape after inserting `key` as the new leaf `n`. */
  function Insert(t: Tree, key: int, n: Node): Tree
  {
    match t
    case Nil => Leaf(n, key)
    case Branch(l, m, k, r) =>
      if key < k then Branch(Insert(l, key, n), m, k, r)
      else if key > k then Branch(l, m, k, Insert(r, key, n))
      else Branch(l, m, k, Leaf(n, key))
  }

  /** The right subtree an insertion of `key` throws away: non-empty only for a duplicate key. */
  function Displaced(t: Tree, key: int): Tree
  {
    var s := Locate(t, key);
    if s != Nil && s.key == key then s.right else Nil
  }

  /** Only a key the tree already holds can displace anything. */
  lemma DisplacedOnlyDuplicates(t: Tree, key: int)
    requires Distinct(t) && key !in Keys(t)
    ensures Displaced(t, key) == Nil
  {
    LocateResult(t, key);
  }

  /**
   * Insertion adds exactly one occurrence of `key` and loses exactly the keys of the displaced
   * subtree.
   */
  lemma {:induction false} InsertKeys(t: Tree, key: int, n: Node)
    ensures multiset(Keys(Insert(t, key, n))) + multiset(Keys(Displaced(t, key)))
         == multiset(Keys(t)) + multiset{key}
  {
    match t
    case Nil =>
      assert Locate(t, key) == Nil;
      assert multiset(Keys(Leaf(n, key))) == multiset{key};
      assert multiset(Keys(Displaced(t, key))) == multiset(Keys(t)) == multiset{};
    case Branch(l, m, k, r) =>
      if key < k {
        InsertKeys(l, key, n);
        InsertKeysLeft(t, key, n);
      } else if key > k {
        InsertKeys(r, key, n);
        InsertKeysRight(t, key, n);
      } else {
        InsertDuplicateKeys(t, n);
      }
  }

  lemma InsertKeysLeft(t: Tree, key: int, n: Node)
    requires t != Nil && key < t.key
    requires multiset(Keys(Insert(t.left, key, n))) + multiset(Keys(Displaced(t.left, key)))
          == multiset(Keys(t.left)) + multiset{key}
    ensures multiset(Keys(Insert(t, key, n))) + multiset(Keys(Displaced(t, key)))
         == multiset(Keys(t)) + multiset{key}
  {
    var l := t.left;
    assert Displaced(t, key) == Displaced(l, key);
    BagStep(Keys(Insert(l, key, n)), Keys(l), Keys(t.right), t.key, multiset(Keys(Displaced(l, key))), multiset{key});
  }

  lemma InsertKeysRight(t: Tree, key: int, n: Node)
    requires t != Nil && key > t.key
    requires multiset(Keys(Insert(t.right, key, n))) + multiset(Keys(Displaced(t.right, key)))
          == multiset(Keys(t.right)) + multiset{key}
    ensures multiset(Keys(Insert(t, key, n))) + multiset(Keys(Displaced(t, key)))
         == multiset(Keys(t)) + multiset{key}
  {
    var r := t.right;
    assert Displaced(t, key) == Displaced(r, key);
    BagStep(Keys(Insert(r, key, n)), Keys(r), Keys(t.left), t.key, multiset(Keys(Displaced(r, key))), multiset{key});
  }

  /** A duplicate key met at the root replaces the root's right subtree by the new leaf. */
  lemma InsertDuplicateKeys(t: Tree, n: Node)
    requires t != Nil
    ensures multiset(Keys(Insert(t, t.key, n))) + multiset(Keys(t.right))
         == multiset(Keys(t)) + multiset{t.key}
  {
    var a, k, c := Keys(t.left), t.key, Keys(t.right);
    assert Keys(Leaf(n, k)) == [k];
    assert Keys(Insert(t, k, n)) == a + [k] + [k];
    forall y ensures (multiset(a + [k] + [k]) + multiset(c))[y] == (multiset(a + [k] + c) + multiset{k})[y] { }
  }

  /** Every key of the tree after an insertion was already there or is the inserted one. */
  lemma {:induction false} InsertKeysWithin(t: Tree, key: int, n: Node, y: int)
    requires y in Keys(Insert(t, key, n))
    ensures y in Keys(t) || y == key
  {
    match t
    case Nil =>
    case Branch(l, m, k, r) =>
      assert Keys(Leaf(n, key)) == [key];
      if key < k && y in Keys(Insert(l, key, n)) {
        InsertKeysWithin(l, key, n, y);
      } else if key > k && y in Keys(Insert(r, key, n)) {
        InsertKeysWithin(r, key, n, y);
      }
  }

  /** Insertion keeps the search-tree ordering, duplicate keys included. */
  lemma {:induction false} InsertOrdered(t: Tree, key: int, n: Node)
    requires Ordered(t)
    ensures Ordered(Insert(t, key, n))
  {
    match t
    case Nil =>
    case Branch(l, m, k, r) =>
      if key < k {
        InsertOrdered(l, key, n);
        forall y | y in Keys(Insert(l, key, n)) ensures y < k {
          InsertKeysWithin(l, key, n, y);
        }
      } else if key > k {
        InsertOrdered(r, key, n);
        forall y | y in Keys(Insert(r, key, n)) ensures k <= y {
          InsertKeysWithin(r, key, n, y);
        }
      } else {
        assert Keys(Leaf(n, key)) == [key];
      }
  }

  /** The new leaf is the only node an insertion adds, and the root stays where it was. */
  lemma {:induction false} InsertDistinct(t: Tree, key: int, n: Node)
    requires Distinct(t) && n !in Nodes(t)
    ensures Distinct(Insert(t, key, n))
    ensures n in Nodes(Insert(t, key, n)) && Nodes(Insert(t, key, n)) <= Nodes(t) + {n}
    ensures RootOf(Insert(t, key, n)) == if t == Nil then n else RootOf(t)
  {
    match t
    case Nil =>
    case Branch(l, m, k, r) =>
      assert Nodes(Leaf(n, key)) == {n};
      if key < k {
        InsertDistinct(l, key, n);
      } else if key > k {
        InsertDistinct(r, key, n);
      }
  }

  /**
   * After an insertion into a non-empty tree the new leaf hangs below the node the search
   * stopped at, on the left when `key` is smaller than that node's key and on the right
   * otherwise; every other node keeps its key, its children and its parent.
   */
  lemma {:induction false} InsertLinks(t: Tree, key: int, n: Node, m: Node)
    requires Distinct(t) && t != Nil && n !in Nodes(t) && m in Nodes(Insert(t, key, n))
    ensures var a, i := Locate(t, key), Insert(t, key, n);
      a != Nil &&
      if m == n then
        At(i, m) == Leaf(n, key) && ParentOf(i, m) == a.node
      else
        m in Nodes(t) && At(i, m).key == At(t, m).key &&
        RootOf(At(i, m).left) == (if m == a.node && key < a.key then n else RootOf(At(t, m).left)) &&
        RootOf(At(i, m).right) == (if m == a.node && key >= a.key then n else RootOf(At(t, m).right)) &&
        ParentOf(i, m) == ParentOf(t, m)
  {
    LocateResult(t, key);
    InsertDistinct(t, key, n);
    match t
    case Branch(l, x, k, r) =>
      var i := Insert(t, key, n);
      if m == x {
        AtRoot(t);
        AtRoot(i);
        if key < k && l != Nil {
          InsertDistinct(l, key, n);
          LocateResult(l, key);
        } else if key > k && r != Nil {
          InsertDistinct(r, key, n);
          LocateResult(r, key);
        }
      } else if key < k && l != Nil {
        InsertDistinct(l, key, n);
        LocateResult(l, key);
        Descend(i, m);
        if m in Nodes(Insert(l, key, n)) {
          InsertLinks(l, key, n, m);
          if m != n { Descend(t, m); }
        } else {
          Descend(t, m);
        }
      } else if key > k && r != Nil {
        InsertDistinct(r, key, n);
        LocateResult(r, key);
        Descend(i, m);
        if m in Nodes(Insert(r, key, n)) {
          InsertLinks(r, key, n, m);
          if m != n { Descend(t, m); }
        } else {
          Descend(t, m);
        }
      } else {
        InsertLinksAtAnchor(t, key, n, m);
      }
  }

  /** What `put` reads from a well-linked heap about the node the search for `key` stops at. */
  lemma LocateReady(t: Tree, key: int)
    requires Distinct(t) && Linked(t) && ParentLinked(t, null) && t != Nil
    ensures var a := Locate(t, key);
      a != Nil && a.node in Nodes(t) && a.node.data == a.key && a.node.parent == ParentOf(t, a.node) &&
      a.node.left == RootOf(a.left) && a.node.right == RootOf(a.right) && LinkedOutside(t, {a.node})
  {
    var a := Locate(t, key);
    LocateResult(t, key);
    LinkedAt(t, a.node);
    ParentAt(t, a.node);
    LinkedOutsideOf(t, {a.node});
  }

  /**
   * Hanging the leaf `n` below the node `a` the search stopped at, with every other node left as it
   * was, gives a heap linked as the inserted shape says.
   */
  lemma InsertRelinked(t: Tree, key: int, n: Node, a: Tree)
    requires Distinct(t) && t != Nil && n !in Nodes(t)
    requires a == Locate(t, key) && a != Nil
    requires LinkedOutside(t, {a.node})
    requires a.node.data == a.key && a.node.parent == ParentOf(t, a.node)
    requires key < a.key ==> a.node.left == n && a.node.right == RootOf(a.right)
    requires key >= a.key ==> a.node.right == n && a.node.left == RootOf(a.left)
    requires n.data == key && n.left == null && n.right == null && n.parent == a.node
    ensures Linked(Insert(t, key, n)) && ParentLinked(Insert(t, key, n), null)
  {
    LocateResult(t, key);
    forall m | m in Nodes(Insert(t, key, n))
      ensures m.data == At(Insert(t, key, n), m).key
      ensures m.left == RootOf(At(Insert(t, key, n), m).left)
      ensures m.right == RootOf(At(Insert(t, key, n), m).right)
      ensures m.parent == ParentOf(Insert(t, key, n), m)
    {
      InsertLinks(t, key, n, m);
    }
    InsertDistinct(t, key, n);
    LinkedPointwiseIff(Insert(t, key, n));
    ParentLinkedPointwiseIff(Insert(t, key, n));
  }

  /** The case where the search stops at the root: the leaf becomes one of the root's children. */
  lemma InsertLinksAtAnchor(t: Tree, key: int, n: Node, m: Node)
    requires Distinct(t) && t != Nil && n !in Nodes(t) && m in Nodes(Insert(t, key, n)) && m != t.node
    requires key == t.key || (key < t.key && t.left == Nil) || (key > t.key && t.right == Nil)
    ensures var i := Insert(t, key, n);
      if m == n then
        At(i, m) == Leaf(n, key) && ParentOf(i, m) == t.node
      else
        m in Nodes(t) && At(i, m) == At(t, m) && ParentOf(i, m) == ParentOf(t, m)
  {
    InsertDistinct(t, key, n);
    assert Nodes(Leaf(n, key)) == {n};
    match t
    case Branch(l, x, k, r) =>
      var i := Insert(t, key, n);
      if key < k {
        assert i == Branch(Leaf(n, key), x, k, r);
      } else {
        assert i == Branch(l, x, k, Leaf(n, key));
      }
      Descend(i, m);
      if m != n {
        Descend(t, m);
      }
  }
}

/**
 * Insertion as it was evidently meant: a duplicate key goes down the right-hand side like any
 * greater key, so the new leaf is attached below an empty slot and nothing is lost.
 */
module TreeInsertChained {
  import opened Sequences
  import opened TreeShape
  import opened TreeInsert

  /** A tree with keys 5 and 7 loses its 7 when a second 5 is put into it. */
  lemma DuplicatePutLosesKey(a: Node, b: Node, c: Node)
    ensures var t := Branch(Nil, a, 5, Branch(Nil, b, 7, Nil));
      Keys(t) == [5, 7] && Keys(Insert(t, 5, c)) == [5, 5] && Displaced(t, 5) == Branch(Nil, b, 7, Nil)
  {
  }

  /** The shape after inserting `key` as the leaf `n`, equal keys going right. */
  function InsertChained(t: Tree, key: int, n: Node): Tree
  {
    match t
    case Nil => Leaf(n, key)
    case Branch(l, m, k, r) =>
      if key < k then Branch(InsertChained(l, key, n), m, k, r)
      else Branch(l, m, k, InsertChained(r, key, n))
  }

  /** The corrected insertion adds exactly one occurrence of `key` and keeps every other key. */
  lemma {:induction false} InsertChainedKeys(t: Tree, key: int, n: Node)
    ensures multiset(Keys(InsertChained(t, key, n))) == multiset(Keys(t)) + multiset{key}
  {
    match t
    case Nil =>
      assert Keys(Leaf(n, key)) == [key];
    case Branch(l, m, k, r) =>
      var i := Keys(InsertChained(t, key, n));
      if key < k {
        var a := Keys(InsertChained(l, key, n));
        assert i == a + [k] + Keys(r);
        InsertChainedKeys(l, key, n);
        BagAround(a, Keys(l), Keys(r), k, key);
      } else {
        var c := Keys(InsertChained(r, key, n));
        assert i == Keys(l) + [k] + c;
        InsertChainedKeys(r, key, n);
        BagAround(c, Keys(r), Keys(l), k, key);
      }
  }

  /** One more element in a part of a sequence is one more element in the whole. */
  lemma BagAround(a: seq<int>, b: seq<int>, c: seq<int>, k: int, key: int)
    requires multiset(a) == multiset(b) + multiset{key}
    ensures multiset(a + [k] + c) == multiset(b + [k] + c) + multiset{key}
    ensures multiset(c + [k] + a) == multiset(c + [k] + b) + multiset{key}
  {
    assert multiset(a + [k] + c) == multiset(a) + multiset{k} + multiset(c);
    assert multiset(c + [k] + a) == multiset(c) + multiset{k} + multiset(a);
  }

  lemma {:induction false} InsertChainedWithin(t: Tree, key: int, n: Node, y: int)
    requires y in Keys(InsertChained(t, key, n))
    ensures y in Keys(t) || y == key
  {
    match t
    case Nil =>
      assert Keys(Leaf(n, key)) == [key];
    case Branch(l, m, k, r) =>
      if key < k && y in Keys(InsertChained(l, key, n)) {
        InsertChainedWithin(l, key, n, y);
      } else if key >= k && y in Keys(InsertChained(r, key, n)) {
        InsertChainedWithin(r, key, n, y);
      }
  }

  /** The corrected insertion keeps the search-tree ordering. */
  lemma {:induction false} InsertChainedOrdered(t: Tree, key: int, n: Node)
    requires Ordered(t)
    ensures Ordered(InsertChained(t, key, n))
  {
    match t
    case Nil =>
    case Branch(l, m, k, r) =>
      if key < k {
        InsertChainedOrdered(l, key, n);
        forall y | y in Keys(InsertChained(l, key, n)) ensures y < k {
          InsertChainedWithin(l, key, n, y);
        }
      } else {
        InsertChainedOrdered(r, key, n);
        forall y | y in Keys(InsertChained(r, key, n)) ensures k <= y {
          InsertChainedWithin(r, key, n, y);
        }
      }
  }

  /** The corrected insertion adds the new leaf and keeps every node it had. */
  lemma {:induction false} InsertChainedNodes(t: Tree, key: int, n: Node)
    requires Distinct(t) && n !in Nodes(t)
    ensures Distinct(InsertChained(t, key, n))
    ensures Nodes(InsertChained(t, key, n)) == Nodes(t) + {n}
  {
    match t
    case Nil =>
    case Branch(l, m, k, r) =>
      if key < k {
        InsertChainedNodes(l, key, n);
      } else {
        InsertChainedNodes(r, key, n);
      }
  }
}
