/** Facts about integer sequences shared by the tree traversals and the insertion sort. */
module Sequences {

  /** Non-decreasing order. */
  ghost predicate Sorted(s: seq<int>)
  {
    forall i, j :: 0 <= i < j < |s| ==> s[i] <= s[j]
  }

  /** The reverse of a sequence. */
  function Reverse(s: seq<int>): (r: seq<int>)
    ensures |r| == |s|
    ensures forall i :: 0 <= i < |s| ==> r[i] == s[|s| - 1 - i]
  {
    if s == [] then [] else Reverse(s[1..]) + [s[0]]
  }

  lemma {:induction false} ReverseConcat(a: seq<int>, b: seq<int>)
    ensures Reverse(a + b) == Reverse(b) + Reverse(a)
  {
    var r, q := Reverse(a + b), Reverse(b) + Reverse(a);
    assert |r| == |q|;
    forall i | 0 <= i < |r| ensures r[i] == q[i] {
      if i < |b| {
        assert q[i] == Reverse(b)[i] == b[|b| - 1 - i];
      } else {
        assert q[i] == Reverse(a)[i - |b|] == a[|a| - 1 - (i - |b|)];
      }
    }
  }

  /**
   * Replacing a part `b` of a concatenation by `a`, where `a` with the bag `p` balances `b` with
   * the bag `q`, keeps that balance for the whole concatenation.
   */
  lemma BagStep(a: seq<int>, b: seq<int>, c: seq<int>, k: int, p: multiset<int>, q: multiset<int>)
    requires multiset(a) + p == multiset(b) + q
    ensures multiset(a + [k] + c) + p == multiset(b + [k] + c) + q
    ensures multiset(c + [k] + a) + p == multiset(c + [k] + b) + q
  {
    forall y ensures (multiset(a + [k] + c) + p)[y] == (multiset(b + [k] + c) + q)[y] {
      assert (multiset(a) + p)[y] == (multiset(b) + q)[y];
    }
    forall y ensures (multiset(c + [k] + a) + p)[y] == (multiset(c + [k] + b) + q)[y] {
      assert (multiset(a) + p)[y] == (multiset(b) + q)[y];
    }
  }

  /** Two balances sharing the bag `b` combine into one without the shared key `q`. */
  lemma BagCancel(a: multiset<int>, b: multiset<int>, c: multiset<int>, q: int, k: int)
    requires a + multiset{q} == b && b + multiset{k} == c + multiset{q}
    ensures a + multiset{k} == c
  {
    forall y ensures (a + multiset{k})[y] == c[y] {
      assert (a + multiset{q})[y] == b[y];
      assert (b + multiset{k})[y] == (c + multiset{q})[y];
    }
  }
}
