/**
 * Insertion sort on an `int` array, in place: each element in turn is taken out, the larger
 * elements before it are shifted one place right, and it is dropped into the gap.
 */
module InsertionSort {
  import opened Sequences

  /**
   * `x` inserted into `s` the way the inner loop does it: scanning from the right end, past
   * every element greater than `x`, and stopping at the first one that is not.
   */
  function InsertSorted(s: seq<int>, x: int): (r: seq<int>)
    ensures |r| == |s| + 1
  {
    if s == [] || !(x < s[|s| - 1]) then s + [x]
    else InsertSorted(s[..|s| - 1], x) + [s[|s| - 1]]
  }

  /**
   * The first `n` elements of `s` as the outer loop leaves them after `n - 1` rounds: each one in
   * turn, from the left, inserted into the sorted run before it.
   */
  function SortedPrefix(s: seq<int>, n: nat): (r: seq<int>)
    requires n <= |s|
    ensures |r| == n
  {
    if n == 0 then [] else InsertSorted(SortedPrefix(s, n - 1), s[n - 1])
  }

  /** Dropping the last element of a sorted sequence leaves it sorted. */
  lemma SortedInit(s: seq<int>)
    requires Sorted(s) && s != []
    ensures Sorted(s[..|s| - 1])
  {
    var n := |s| - 1;
    forall i, j | 0 <= i < j < n ensures s[..n][i] <= s[..n][j] {
      assert s[..n][i] == s[i] && s[..n][j] == s[j];
    }
  }

  /** Appending an element no smaller than any before it keeps a sequence sorted. */
  lemma AppendSorted(r: seq<int>, y: int)
    requires Sorted(r) && forall z :: z in r ==> z <= y
    ensures Sorted(r + [y])
  {
    forall i, j | 0 <= i < j < |r| + 1 ensures (r + [y])[i] <= (r + [y])[j] {
      if j == |r| {
        assert (r + [y])[i] == r[i] && r[i] in r;
      }
    }
  }

  /** Inserting adds exactly `x`, whatever the order of `s`. */
  lemma {:induction false} InsertSortedBag(s: seq<int>, x: int)
    ensures multiset(InsertSorted(s, x)) == multiset(s) + multiset{x}
  {
    if s != [] && x < s[|s| - 1] {
      var init, last := s[..|s| - 1], s[|s| - 1];
      assert s == init + [last];
      InsertSortedBag(init, x);
    }
  }

  /** Inserting into a sorted sequence keeps it sorted. */
  lemma {:induction false} InsertSortedKeeps(s: seq<int>, x: int)
    requires Sorted(s)
    ensures Sorted(InsertSorted(s, x))
  {
    if s == [] || !(x < s[|s| - 1]) {
      forall z | z in s ensures z <= x {
        var k :| 0 <= k < |s| && s[k] == z;
      }
      AppendSorted(s, x);
    } else {
      var init, last := s[..|s| - 1], s[|s| - 1];
      assert s == init + [last];
      SortedInit(s);
      InsertSortedKeeps(init, x);
      var r := InsertSorted(init, x);
      forall z | z in r ensures z <= last {
        InsertSortedBag(init, x);
        assert z in multiset(r);
        if z != x {
          assert z in multiset(init);
          var k :| 0 <= k < |init| && init[k] == z;
          assert s[k] == z;
        }
      }
      AppendSorted(r, last);
    }
  }

  /** Insertion sort turns any prefix into a sorted permutation of it. */
  lemma {:induction false} SortedPrefixSorts(s: seq<int>, n: nat)
    requires n <= |s|
    ensures Sorted(SortedPrefix(s, n))
    ensures multiset(SortedPrefix(s, n)) == multiset(s[..n])
  {
    if n > 0 {
      assert s[..n] == s[..n - 1] + [s[n - 1]];
      SortedPrefixSorts(s, n - 1);
      InsertSortedKeeps(SortedPrefix(s, n - 1), s[n - 1]);
      InsertSortedBag(SortedPrefix(s, n - 1), s[n - 1]);
    }
  }

  /**
   * Where the scan stops: when every element from position `j` on is greater than `x` and the one
   * before `j`, if any, is not, `x` lands at position `j`.
   */
  lemma {:induction false} InsertSortedAt(s: seq<int>, x: int, j: int)
    requires 0 <= j <= |s|
    requires j == 0 || !(x < s[j - 1])
    requires forall k :: j <= k < |s| ==> x < s[k]
    ensures InsertSorted(s, x) == s[..j] + [x] + s[j..]
    decreases |s|
  {
    if j < |s| {
      var init := s[..|s| - 1];
      InsertSortedAt(init, x, j);
      assert init[..j] == s[..j];
      assert init[j..] + [s[|s| - 1]] == s[j..];
    } else {
      assert s[..j] == s;
    }
  }

  /** Two sorted arrangements of one multiset end in the same, largest, element. */
  lemma SortedLastAgree(a: seq<int>, b: seq<int>)
    requires Sorted(a) && Sorted(b) && multiset(a) == multiset(b) && a != []
    ensures |b| == |a| && a[|a| - 1] == b[|b| - 1]
  {
    assert |b| == |multiset(b)| == |multiset(a)| == |a|;
    var n := |a| - 1;
    assert a[n] in multiset(b) && b[n] in multiset(a);
    var i :| 0 <= i < |b| && b[i] == a[n];
    var k :| 0 <= k < |a| && a[k] == b[n];
  }

  /** Two sequences with one multiset and one last element agree as multisets without it. */
  lemma BagInit(a: seq<int>, b: seq<int>)
    requires multiset(a) == multiset(b) && a != [] && b != [] && a[|a| - 1] == b[|b| - 1]
    ensures multiset(a[..|a| - 1]) == multiset(b[..|b| - 1])
  {
    var a', b', y := a[..|a| - 1], b[..|b| - 1], a[|a| - 1];
    assert a == a' + [y] && b == b' + [y];
    forall z ensures multiset(a')[z] == multiset(b')[z] {
      assert multiset(a)[z] == multiset(a')[z] + multiset{y}[z];
      assert multiset(b)[z] == multiset(b')[z] + multiset{y}[z];
    }
  }

  /** There is only one sorted arrangement of a multiset. */
  lemma {:induction false} SortedUnique(a: seq<int>, b: seq<int>)
    requires Sorted(a) && Sorted(b) && multiset(a) == multiset(b)
    ensures a == b
    decreases |a|
  {
    if a == [] {
      assert |b| == |multiset(b)| == 0;
    } else {
      SortedLastAgree(a, b);
      var n := |a| - 1;
      BagInit(a, b);
      SortedInit(a);
      SortedInit(b);
      SortedUnique(a[..n], b[..n]);
      assert a == a[..n] + [a[n]] && b == b[..n] + [b[n]];
    }
  }

  /** Insertion sort agrees with any other sort: the result is the one sorted permutation. */
  lemma InsertionSortIsTheSort(s: seq<int>, t: seq<int>)
    requires Sorted(t) && multiset(t) == multiset(s)
    ensures SortedPrefix(s, |s|) == t
  {
    SortedPrefixSorts(s, |s|);
    assert s[..|s|] == s;
    SortedUnique(SortedPrefix(s, |s|), t);
  }

  /**
   * The step that ends a round. The array held the sorted run of the first `i + 1` input elements
   * followed by the rest of the input, `o`; the run from `j` on has been shifted one place right,
   * giving `a`; and `current`, the next input element, belongs at `j`. Writing it there leaves the
   * sorted run of the first `i + 2` input elements followed by the rest of the input.
   */
  lemma PlaceCurrent(input: seq<int>, i: int, j: int, current: int, o: seq<int>, a: seq<int>)
    requires 0 <= j <= i + 1 < |input| && current == input[i + 1]
    requires o == SortedPrefix(input, i + 1) + input[i + 1..]
    requires a == Shifted(o, j - 1, i)
    requires j == 0 || !(current < o[j - 1])
    requires forall k :: j <= k <= i ==> current < o[k]
    ensures a[j := current] == SortedPrefix(input, i + 2) + input[i + 2..]
  {
    var sorted := SortedPrefix(input, i + 1);
    InsertSortedAt(sorted, current, j);
    var placed := sorted[..j] + [current] + sorted[j..];
    assert SortedPrefix(input, i + 2) == placed;
    var b := a[j := current];
    var want := placed + input[i + 2..];
    forall k | 0 <= k < |b| ensures b[k] == want[k] {
      if k < j {
        assert b[k] == o[k] == sorted[k] == want[k];
      } else if k == j {
        assert b[k] == current == want[k];
      } else if k <= i + 1 {
        assert b[k] == o[k - 1] == sorted[k - 1] == want[k];
      } else {
        assert b[k] == o[k] == input[k] == want[k];
      }
    }
    assert |b| == |want|;
  }

  /**
   * `o` with the part from `p + 1` to `i` shifted one place right, over the element after it;
   * the element at `p + 1` is still there.
   */
  function Shifted(o: seq<int>, p: int, i: int): (r: seq<int>)
    requires -1 <= p <= i && i + 2 <= |o|
    ensures |r| == |o|
  {
    o[..p + 2] + o[p + 1..i + 1] + o[i + 2..]
  }

  /** Copying element `p` one place right shifts one element more. */
  lemma ShiftStep(o: seq<int>, p: int, i: int)
    requires 0 <= p <= i && i + 2 <= |o|
    ensures Shifted(o, p, i)[p] == o[p]
    ensures Shifted(o, p, i)[p + 1 := o[p]] == Shifted(o, p - 1, i)
  {
    var a, b := Shifted(o, p, i)[p + 1 := o[p]], Shifted(o, p - 1, i);
    forall k | 0 <= k < |o| ensures a[k] == b[k] {
    }
  }

  /**
   * The inner loop of one round: starting at `i` and moving left, every element greater than
   * `current` is copied one place to the right; stops at the first element that is not greater,
   * or past the left end, and returns that position.
   */
  method ShiftLarger(source: array<int>, i: int, current: int) returns (preIndex: int)
    requires 0 <= i < source.Length - 1
    modifies source
    ensures -1 <= preIndex <= i
    ensures preIndex == -1 || !(current < old(source[..])[preIndex])
    ensures forall k :: preIndex + 1 <= k <= i ==> current < old(source[..])[k]
    ensures source[..] == Shifted(old(source[..]), preIndex, i)
  {
    ghost var o := source[..];
    preIndex := i;
    assert source[..] == Shifted(o, i, i) by {
      assert o[..i + 2] + o[i + 1..i + 1] + o[i + 2..] == o;
    }
    while preIndex >= 0 && current < source[preIndex]
      invariant -1 <= preIndex <= i
      invariant forall k :: preIndex + 1 <= k <= i ==> current < o[k]
      invariant source[..] == Shifted(o, preIndex, i)
      decreases preIndex
    {
      ShiftStep(o, preIndex, i);
      source[preIndex + 1] := source[preIndex];
      preIndex := preIndex - 1;
    }
  }

  /**
   * Sorts `source` in place; a null or empty array is left alone. For each position after the
   * first, the element there is held in `current` while the larger elements before it move one
   * place right, and it is written into the gap they leave.
   */
  method Sort(source: array?<int>)
    modifies source
    ensures source != null ==> source[..] == SortedPrefix(old(source[..]), source.Length)
    ensures source != null ==> Sorted(source[..])
  {
    if source == null || source.Length == 0 {
      return;
    }
    ghost var input := source[..];
    var i := 0;
    while i < source.Length - 1
      invariant 0 <= i <= source.Length - 1
      invariant source[..] == SortedPrefix(input, i + 1) + input[i + 1..]
    {
      var current := source[i + 1];
      ghost var o := source[..];
      assert current == o[i + 1] == input[i + 1];
      var preIndex := ShiftLarger(source, i, current);
      ghost var a := source[..];
      PlaceCurrent(input, i, preIndex + 1, current, o, a);
      source[preIndex + 1] := current;
      assert source[..] == a[preIndex + 1 := current];
      i := i + 1;
    }
    assert source[..] == SortedPrefix(input, |input|) by {
      assert input[i + 1..] == [];
    }
    SortedPrefixSorts(input, |input|);
  }
}
