/** The insertion sort Go's `slices.SortFunc` runs on short slices (twelve
    elements or fewer), parameterised by the "less" test it derives from the
    comparator (`cmp(a, b) < 0`).
 */
module Sorting {

  /** Ascending by `key`. */
  predicate SortedBy<T>(xs: seq<T>, key: T -> real) {
    forall i, j :: 0 <= i < j < |xs| ==> key(xs[i]) <= key(xs[j])
  }

  /** `less` is exactly "smaller key": a comparator that is a true ordering. */
  ghost predicate LessIsKeyOrder<T(!new)>(less: (T, T) -> bool, key: T -> real) {
    forall a, b :: less(a, b) <==> key(a) < key(b)
  }

  /** The inner loop: `x`, appended after an already processed prefix, is
      swapped leftwards while it is less than its left neighbour. */
  function InsertBack<T>(prefix: seq<T>, x: T, less: (T, T) -> bool): (r: seq<T>)
    ensures multiset(r) == multiset(prefix) + multiset{x}
    ensures |r| == |prefix| + 1
    decreases |prefix|
  {
    if |prefix| == 0 || !less(x, prefix[|prefix| - 1]) then prefix + [x]
    else
      var init, last := prefix[..|prefix| - 1], prefix[|prefix| - 1];
      assert prefix == init + [last];
      InsertBack(init, x, less) + [last]
  }

  /** The outer loop: each element in turn is inserted into the sorted prefix. */
  function InsertionSort<T>(xs: seq<T>, less: (T, T) -> bool): (r: seq<T>)
    ensures multiset(r) == multiset(xs)
    ensures |r| == |xs|
    decreases |xs|
  {
    if |xs| == 0 then []
    else
      assert xs == xs[..|xs| - 1] + [xs[|xs| - 1]];
      InsertBack(InsertionSort(xs[..|xs| - 1], less), xs[|xs| - 1], less)
  }

  /** Every element of a multiset-equal sequence comes from one of the parts. */
  lemma MemberOfInsert<T>(r: seq<T>, prefix: seq<T>, x: T, k: int)
    requires multiset(r) == multiset(prefix) + multiset{x}
    requires 0 <= k < |r|
    ensures r[k] in prefix || r[k] == x
  {
    assert r[k] in multiset(r);
  }

  lemma {:induction false} InsertBackSorted<T(!new)>(prefix: seq<T>, x: T, less: (T, T) -> bool, key: T -> real)
    requires LessIsKeyOrder(less, key)
    requires SortedBy(prefix, key)
    ensures SortedBy(InsertBack(prefix, x, less), key)
    decreases |prefix|
  {
    var r := InsertBack(prefix, x, less);
    if |prefix| == 0 || !less(x, prefix[|prefix| - 1]) {
      assert r == prefix + [x];
      if |prefix| > 0 {
        assert key(prefix[|prefix| - 1]) <= key(x);
      }
    } else {
      var init, last := prefix[..|prefix| - 1], prefix[|prefix| - 1];
      assert SortedBy(init, key);
      InsertBackSorted(init, x, less, key);
      var front := InsertBack(init, x, less);
      assert r == front + [last];
      forall k | 0 <= k < |front|
        ensures key(front[k]) <= key(last)
      {
        MemberOfInsert(front, init, x, k);
        if front[k] in init {
          var m :| 0 <= m < |init| && init[m] == front[k];
          assert prefix[m] == init[m];
        }
      }
    }
  }

  /** With a `less` that agrees with a key, the sort leaves the list ascending. */
  lemma {:induction false} InsertionSortSorted<T(!new)>(xs: seq<T>, less: (T, T) -> bool, key: T -> real)
    requires LessIsKeyOrder(less, key)
    ensures SortedBy(InsertionSort(xs, less), key)
    decreases |xs|
  {
    if |xs| > 0 {
      InsertionSortSorted(xs[..|xs| - 1], less, key);
      InsertBackSorted(InsertionSort(xs[..|xs| - 1], less), xs[|xs| - 1], less, key);
    }
  }

  /** Two "less" tests that give the same answer on every pair drawn from
      `xs`. */
  ghost predicate AgreeOn<T>(xs: seq<T>, less1: (T, T) -> bool, less2: (T, T) -> bool) {
    forall a, b :: a in xs && b in xs ==> (less1(a, b) <==> less2(a, b))
  }

  lemma {:induction false} InsertBackAgree<T>(prefix: seq<T>, x: T, less1: (T, T) -> bool, less2: (T, T) -> bool)
    requires forall a :: a in prefix ==> (less1(x, a) <==> less2(x, a))
    ensures InsertBack(prefix, x, less1) == InsertBack(prefix, x, less2)
    decreases |prefix|
  {
    if |prefix| > 0 {
      var init := prefix[..|prefix| - 1];
      assert forall a :: a in init ==> a in prefix;
      InsertBackAgree(init, x, less1, less2);
    }
  }

  /** The sort only consults `less` on pairs of the list's own elements, so
      two tests that agree there sort the list alike. */
  lemma {:induction false} InsertionSortAgree<T>(xs: seq<T>, less1: (T, T) -> bool, less2: (T, T) -> bool)
    requires AgreeOn(xs, less1, less2)
    ensures InsertionSort(xs, less1) == InsertionSort(xs, less2)
    decreases |xs|
  {
    if |xs| > 0 {
      var init, x := xs[..|xs| - 1], xs[|xs| - 1];
      assert xs == init + [x];
      assert forall a :: a in init ==> a in xs;
      InsertionSortAgree(init, less1, less2);
      var sorted := InsertionSort(init, less1);
      forall a | a in sorted
        ensures less1(x, a) <==> less2(x, a)
      {
        assert a in multiset(sorted);
        assert a in init;
      }
      InsertBackAgree(sorted, x, less1, less2);
    }
  }

  /** Ascending order is what the sort produces: both halves of "sorted
      permutation". */
  lemma SortIsSortedPermutation<T(!new)>(xs: seq<T>, less: (T, T) -> bool, key: T -> real)
    requires LessIsKeyOrder(less, key)
    ensures var r := InsertionSort(xs, less);
      multiset(r) == multiset(xs) && SortedBy(r, key)
  {
    InsertionSortSorted(xs, less, key);
  }
}
