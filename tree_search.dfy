/**
 * The two descents the tree performs: the search for a key, which stops at a matching node or
 * at the node under which the key belongs, and the walk down left children to the leftmost node.
 */
module TreeSearch {
  import opened TreeShape

  /**
   * The subtree at which the search for `key` stops: the first node holding `key`, or else the
   * node whose empty left (key smaller) or right (key greater) slot is where `key` belongs.
   */
  function Locate(t: Tree, key: int): Tree
  {
    match t
    case Nil => Nil
    case Branch(l, _, k, r) =>
      if key < k then (if l == Nil then t else Locate(l, key))
      else if key > k then (if r == Nil then t else Locate(r, key))
      else t
  }

  /** The search stops at a node of the tree, which matches the key or has the empty slot for it. */
  lemma {:induction false} LocateResult(t: Tree, key: int)
    requires Distinct(t)
    ensures Locate(t, key) == Nil <==> t == Nil
    ensures t != Nil ==> var s := Locate(t, key);
      s != Nil && s.node in Nodes(t) && At(t, s.node) == s && s.key in Keys(t) &&
      (s.key == key || (key < s.key && s.left == Nil) || (key > s.key && s.right == Nil))
  {
    match t
    case Nil =>
    case Branch(l, _, k, r) =>
      if key < k && l != Nil {
        LocateResult(l, key);
        Descend(t, Locate(l, key).node);
      } else if key > k && r != Nil {
        LocateResult(r, key);
        Descend(t, Locate(r, key).node);
      } else {
        AtRoot(t);
      }
  }

  /** Under the ordering the search finds `key` exactly when the tree holds it. */
  lemma {:induction false} LocateFinds(t: Tree, key: int)
    requires Ordered(t) && t != Nil
    ensures var s := Locate(t, key); s != Nil && (s.key == key <==> key in Keys(t))
  {
    match t
    case Branch(l, _, k, r) =>
      if key < k {
        assert key !in Keys(r);
        if l != Nil { LocateFinds(l, key); }
      } else if key > k {
        assert key !in Keys(l);
        if r != Nil { LocateFinds(r, key); }
      }
  }

  /** The leftmost branch of a non-empty tree: where a descent through left children ends. */
  function Leftmost(t: Tree): (s: Tree)
    requires t != Nil
    ensures s != Nil && s.left == Nil
  {
    if t.left == Nil then t else Leftmost(t.left)
  }

  /** The leftmost node is in the tree and, under the ordering, holds its smallest key. */
  lemma {:induction false} LeftmostMin(t: Tree)
    requires t != Nil && Distinct(t)
    ensures Leftmost(t).node in Nodes(t) && At(t, Leftmost(t).node) == Leftmost(t)
    ensures Leftmost(t).key in Keys(t)
    ensures Ordered(t) ==> forall x :: x in Keys(t) ==> Leftmost(t).key <= x
  {
    if t.left != Nil {
      LeftmostMin(t.left);
      Descend(t, Leftmost(t.left).node);
    } else {
      AtRoot(t);
    }
  }
}
