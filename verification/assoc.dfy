/** Key/value folds that several loaders and parsers share: a Go loop that
    assigns `m[k] = v` for each pair in turn, one that appends `v` to `m[k]`,
    and Go maps whose iteration order the model fixes as an explicit sequence.
 */
module Assoc {

  /** No later pair in `pairs` has the key of pair `i`. */
  predicate IsLastFor<K(==, !new), V>(pairs: seq<(K, V)>, i: int)
    requires 0 <= i < |pairs|
  {
    forall j :: i < j < |pairs| ==> pairs[j].0 != pairs[i].0
  }

  /** Go's `for ... { m[k] = v }`: every key that occurs is present, bound to
      the value of its last occurrence. */
  function LastWins<K(==, !new), V>(pairs: seq<(K, V)>): (m: map<K, V>)
    ensures forall i :: 0 <= i < |pairs| ==> pairs[i].0 in m
    ensures forall k :: k in m ==> exists i :: 0 <= i < |pairs| && pairs[i].0 == k
    ensures forall i :: 0 <= i < |pairs| && IsLastFor(pairs, i) ==> m[pairs[i].0] == pairs[i].1
    decreases |pairs|
  {
    if |pairs| == 0 then map[]
    else
      var init := pairs[..|pairs| - 1];
      var m := LastWins(init);
      assert pairs == init + [pairs[|pairs| - 1]];
      LastWinsStep(init, pairs[|pairs| - 1], m);
      m[pairs[|pairs| - 1].0 := pairs[|pairs| - 1].1]
  }

  /** One turn of the LastWins loop keeps its three promises. */
  lemma LastWinsStep<K(!new), V>(init: seq<(K, V)>, last: (K, V), m: map<K, V>)
    requires forall i :: 0 <= i < |init| ==> init[i].0 in m
    requires forall k :: k in m ==> exists i :: 0 <= i < |init| && init[i].0 == k
    requires forall i :: 0 <= i < |init| && IsLastFor(init, i) ==> m[init[i].0] == init[i].1
    ensures var pairs, m' := init + [last], m[last.0 := last.1];
      && (forall i :: 0 <= i < |pairs| ==> pairs[i].0 in m')
      && (forall k :: k in m' ==> exists i :: 0 <= i < |pairs| && pairs[i].0 == k)
      && (forall i :: 0 <= i < |pairs| && IsLastFor(pairs, i) ==> m'[pairs[i].0] == pairs[i].1)
  {
    var pairs, m' := init + [last], m[last.0 := last.1];
    forall k | k in m'
      ensures exists i :: 0 <= i < |pairs| && pairs[i].0 == k
    {
      if k == last.0 {
        assert pairs[|pairs| - 1].0 == k;
      } else {
        var i :| 0 <= i < |init| && init[i].0 == k;
        assert pairs[i].0 == k;
      }
    }
    forall i | 0 <= i < |pairs|
      ensures pairs[i].0 in m'
    {
      if i < |init| {
        assert init[i].0 == pairs[i].0;
      }
    }
    forall i | 0 <= i < |pairs| && IsLastFor(pairs, i)
      ensures m'[pairs[i].0] == pairs[i].1
    {
      if i < |init| {
        assert pairs[i] == init[i];
        assert pairs[|pairs| - 1] == last;
        assert IsLastFor(init, i) by {
          forall j | i < j < |init|
            ensures init[j].0 != init[i].0
          {
            assert init[j] == pairs[j];
          }
        }
      }
    }
  }

  /** The values paired with `k`, in the order they occur (reference
      definition, read front to back). */
  function InOrder<K(==, !new), V>(pairs: seq<(K, V)>, k: K): seq<V>
    decreases |pairs|
  {
    if |pairs| == 0 then []
    else (if pairs[0].0 == k then [pairs[0].1] else []) + InOrder(pairs[1..], k)
  }

  lemma {:induction false} InOrderSnoc<K(!new), V>(pairs: seq<(K, V)>, p: (K, V), k: K)
    ensures InOrder(pairs + [p], k) == InOrder(pairs, k) + (if p.0 == k then [p.1] else [])
    decreases |pairs|
  {
    if |pairs| == 0 {
      assert pairs + [p] == [p];
    } else {
      var h := if pairs[0].0 == k then [pairs[0].1] else [];
      var t := if p.0 == k then [p.1] else [];
      assert (pairs + [p])[0] == pairs[0];
      assert (pairs + [p])[1..] == pairs[1..] + [p];
      InOrderSnoc(pairs[1..], p, k);
      assert InOrder(pairs + [p], k) == h + (InOrder(pairs[1..], k) + t);
      assert InOrder(pairs, k) == h + InOrder(pairs[1..], k);
    }
  }

  lemma {:induction false} InOrderEmpty<K(!new), V>(pairs: seq<(K, V)>, k: K)
    requires forall i :: 0 <= i < |pairs| ==> pairs[i].0 != k
    ensures InOrder(pairs, k) == []
    decreases |pairs|
  {
    if |pairs| > 0 {
      InOrderEmpty(pairs[1..], k);
    }
  }

  /** Every pair's value is among the values read for its key. */
  lemma {:induction false} InOrderHas<K(!new), V>(pairs: seq<(K, V)>, i: int)
    requires 0 <= i < |pairs|
    ensures pairs[i].1 in InOrder(pairs, pairs[i].0)
    decreases |pairs|
  {
    if i > 0 {
      InOrderHas(pairs[1..], i - 1);
      assert pairs[1..][i - 1] == pairs[i];
    }
  }

  /** Every pair's value lands in its key's group. */
  lemma GroupInOrderHasEveryPair<K(!new), V>(pairs: seq<(K, V)>)
    ensures forall i :: 0 <= i < |pairs| ==> pairs[i].1 in GroupInOrder(pairs)[pairs[i].0]
  {
    forall i | 0 <= i < |pairs|
      ensures pairs[i].1 in GroupInOrder(pairs)[pairs[i].0]
    {
      InOrderHas(pairs, i);
    }
  }

  /** Go's `m[k] = append(m[k], v)` loop: pairs sharing a key are kept
      together in file order. */
  function GroupInOrder<K(==, !new), V>(pairs: seq<(K, V)>): (m: map<K, seq<V>>)
    ensures forall i :: 0 <= i < |pairs| ==> pairs[i].0 in m
    ensures forall k :: k in m ==> exists i :: 0 <= i < |pairs| && pairs[i].0 == k
    ensures forall k :: k in m ==> m[k] == InOrder(pairs, k)
    decreases |pairs|
  {
    if |pairs| == 0 then map[]
    else
      var init := pairs[..|pairs| - 1];
      var last := pairs[|pairs| - 1];
      var m := GroupInOrder(init);
      GroupStep(init, last, m);
      assert pairs == init + [last] by { SplitLast(pairs); }
      m[last.0 := (if last.0 in m then m[last.0] else []) + [last.1]]
  }

  lemma SplitLast<T>(xs: seq<T>)
    requires |xs| > 0
    ensures xs == xs[..|xs| - 1] + [xs[|xs| - 1]]
  {
  }

  /** One turn of the GroupInOrder loop keeps its three promises. */
  lemma GroupStep<K(!new), V>(init: seq<(K, V)>, last: (K, V), m: map<K, seq<V>>)
    requires forall i :: 0 <= i < |init| ==> init[i].0 in m
    requires forall k :: k in m ==> exists i :: 0 <= i < |init| && init[i].0 == k
    requires forall k :: k in m ==> m[k] == InOrder(init, k)
    ensures var pairs, m' := init + [last], m[last.0 := (if last.0 in m then m[last.0] else []) + [last.1]];
      && (forall i :: 0 <= i < |pairs| ==> pairs[i].0 in m')
      && (forall k :: k in m' ==> exists i :: 0 <= i < |pairs| && pairs[i].0 == k)
      && (forall k :: k in m' ==> m'[k] == InOrder(pairs, k))
  {
    var pairs, m' := init + [last], m[last.0 := (if last.0 in m then m[last.0] else []) + [last.1]];
    forall k | k in m'
      ensures exists i :: 0 <= i < |pairs| && pairs[i].0 == k
    {
      if k == last.0 {
        assert pairs[|pairs| - 1].0 == k;
      } else {
        var i :| 0 <= i < |init| && init[i].0 == k;
        assert pairs[i].0 == k;
      }
    }
    forall i | 0 <= i < |pairs|
      ensures pairs[i].0 in m'
    {
      if i < |init| {
        assert init[i].0 == pairs[i].0;
      }
    }
    forall k | k in m'
      ensures m'[k] == InOrder(pairs, k)
    {
      InOrderSnoc(init, last, k);
      if k == last.0 && k !in m {
        InOrderEmpty(init, k);
      }
    }
  }

  // ---------------------------------------------------------------------
  // A Go map that is iterated later is kept as a sequence of pairs with
  // distinct keys; the sequence order stands for Go's (unspecified) map
  // iteration order.

  predicate DistinctKeys<K(==, !new), V>(al: seq<(K, V)>) {
    forall i, j :: 0 <= i < j < |al| ==> al[i].0 != al[j].0
  }

  function KeyIndex<K(==, !new), V>(al: seq<(K, V)>, k: K): (i: int)
    ensures -1 <= i < |al|
    ensures i >= 0 ==> al[i].0 == k
    ensures i < 0 ==> forall j :: 0 <= j < |al| ==> al[j].0 != k
    decreases |al|
  {
    if |al| == 0 then -1
    else if al[|al| - 1].0 == k then |al| - 1
    else KeyIndex(al[..|al| - 1], k)
  }

  /** `m[k] = v` on an insertion-ordered map: an existing key keeps its place. */
  function Upsert<K(==, !new), V>(al: seq<(K, V)>, k: K, v: V): (r: seq<(K, V)>)
    requires DistinctKeys(al)
    ensures DistinctKeys(r)
    ensures LastWins(r) == LastWins(al)[k := v]
  {
    var i := KeyIndex(al, k);
    var r := if i >= 0 then al[i := (k, v)] else al + [(k, v)];
    assert DistinctKeys(r) by {
      forall a, b | 0 <= a < b < |r|
        ensures r[a].0 != r[b].0
      {
        if i < 0 && b == |al| {
          assert r[a] == al[a];
        } else {
          assert r[a].0 == al[a].0 && r[b].0 == al[b].0;
        }
      }
    }
    UpsertLastWins(al, r, k, v);
    r
  }

  lemma UpsertLastWins<K(!new), V>(al: seq<(K, V)>, r: seq<(K, V)>, k: K, v: V)
    requires DistinctKeys(al) && DistinctKeys(r)
    requires KeyIndex(al, k) >= 0 ==> r == al[KeyIndex(al, k) := (k, v)]
    requires KeyIndex(al, k) < 0 ==> r == al + [(k, v)]
    ensures LastWins(r) == LastWins(al)[k := v]
  {
    var a := LastWins(al)[k := v];
    var b := LastWins(r);
    forall x
      ensures (x in a <==> x in b) && (x in a ==> a[x] == b[x])
    {
      UpsertKey(al, r, k, v, x);
    }
    MapsAgree(a, b);
  }

  /** Maps that agree on every key are equal. */
  lemma MapsAgree<K, V>(a: map<K, V>, b: map<K, V>)
    requires forall x :: (x in a <==> x in b) && (x in a ==> a[x] == b[x])
    ensures a == b
  {
  }

  /** UpsertLastWins, one key at a time. */
  lemma UpsertKey<K(!new), V>(al: seq<(K, V)>, r: seq<(K, V)>, k: K, v: V, x: K)
    requires DistinctKeys(al) && DistinctKeys(r)
    requires KeyIndex(al, k) >= 0 ==> r == al[KeyIndex(al, k) := (k, v)]
    requires KeyIndex(al, k) < 0 ==> r == al + [(k, v)]
    ensures var a, b := LastWins(al)[k := v], LastWins(r);
      (x in a <==> x in b) && (x in a ==> a[x] == b[x])
  {
    var i := KeyIndex(al, k);
    if i >= 0 {
      ReplacedKey(al, i, k, v, x);
    } else {
      AppendedKey(al, k, v, x);
    }
  }

  /** An existing key's value replaced in place. */
  lemma ReplacedKey<K(!new), V>(al: seq<(K, V)>, i: int, k: K, v: V, x: K)
    requires DistinctKeys(al) && 0 <= i < |al| && al[i].0 == k
    requires DistinctKeys(al[i := (k, v)])
    ensures var a, b := LastWins(al)[k := v], LastWins(al[i := (k, v)]);
      (x in a <==> x in b) && (x in a ==> a[x] == b[x])
  {
    var r := al[i := (k, v)];
    DistinctLastWins(al);
    DistinctLastWins(r);
    if x == k {
      assert r[i] == (k, v);
    } else {
      if x in LastWins(al) {
        var j :| 0 <= j < |al| && al[j].0 == x;
        assert r[j] == al[j];
      }
      if x in LastWins(r) {
        var j :| 0 <= j < |r| && r[j].0 == x;
        assert al[j] == r[j];
      }
    }
  }

  /** A new key appended at the end. */
  lemma AppendedKey<K(!new), V>(al: seq<(K, V)>, k: K, v: V, x: K)
    requires DistinctKeys(al) && DistinctKeys(al + [(k, v)])
    ensures var a, b := LastWins(al)[k := v], LastWins(al + [(k, v)]);
      (x in a <==> x in b) && (x in a ==> a[x] == b[x])
  {
    LastWinsSnoc(al, (k, v));
  }

  /** With distinct keys every pair survives in LastWins. */
  lemma DistinctLastWins<K(!new), V>(al: seq<(K, V)>)
    requires DistinctKeys(al)
    ensures forall i :: 0 <= i < |al| ==> LastWins(al)[al[i].0] == al[i].1
  {
    forall i | 0 <= i < |al|
      ensures LastWins(al)[al[i].0] == al[i].1
    {
      assert IsLastFor(al, i);
    }
  }

  /** The Go map built from `pairs` (later pairs overwrite earlier ones), as
      an insertion-ordered sequence of its entries. */
  function Collect<K(==, !new), V>(pairs: seq<(K, V)>): (al: seq<(K, V)>)
    ensures DistinctKeys(al)
    ensures LastWins(al) == LastWins(pairs)
    decreases |pairs|
  {
    if |pairs| == 0 then []
    else
      var init := pairs[..|pairs| - 1];
      var last := pairs[|pairs| - 1];
      LastWinsLast(pairs);
      Upsert(Collect(init), last.0, last.1)
  }

  /** The last pair with the key of pair `i`, whose value the map holds. */
  lemma LastIndexOf<K(!new), V>(pairs: seq<(K, V)>, i: int) returns (j: int)
    requires 0 <= i < |pairs|
    ensures 0 <= j < |pairs| && pairs[j].0 == pairs[i].0 && IsLastFor(pairs, j)
    ensures LastWins(pairs)[pairs[i].0] == pairs[j].1
    decreases |pairs| - i
  {
    if IsLastFor(pairs, i) {
      j := i;
    } else {
      var k :| i < k < |pairs| && pairs[k].0 == pairs[i].0;
      j := LastIndexOf(pairs, k);
    }
  }

  /** The value a key holds is the value of one of its pairs. */
  lemma LastWinsValueFromPair<K(!new), V>(pairs: seq<(K, V)>, k: K)
    requires k in LastWins(pairs)
    ensures exists i :: 0 <= i < |pairs| && pairs[i] == (k, LastWins(pairs)[k])
  {
    var i :| 0 <= i < |pairs| && pairs[i].0 == k;
    var j := LastIndexOf(pairs, i);
    assert pairs[j] == (k, LastWins(pairs)[k]);
  }

  /** Each entry of the collected list is one of the pairs (the last for its
      key), and every key of the pairs has an entry. */
  lemma CollectFromPairs<K(!new), V>(pairs: seq<(K, V)>)
    ensures forall i :: 0 <= i < |Collect(pairs)| ==> Collect(pairs)[i] in pairs
    ensures forall j :: 0 <= j < |pairs| ==> exists i :: 0 <= i < |Collect(pairs)| && Collect(pairs)[i].0 == pairs[j].0
  {
    var al := Collect(pairs);
    DistinctLastWins(al);
    forall i | 0 <= i < |al|
      ensures al[i] in pairs
    {
      LastWinsValueFromPair(pairs, al[i].0);
    }
  }

  /** The last turn of the LastWins loop. */
  lemma LastWinsLast<K(!new), V>(pairs: seq<(K, V)>)
    requires |pairs| > 0
    ensures LastWins(pairs) == LastWins(pairs[..|pairs| - 1])[pairs[|pairs| - 1].0 := pairs[|pairs| - 1].1]
  {
  }

  /** One more turn of the LastWins loop. */
  lemma LastWinsSnoc<K(!new), V>(init: seq<(K, V)>, p: (K, V))
    ensures LastWins(init + [p]) == LastWins(init)[p.0 := p.1]
  {
    assert (init + [p])[..|init|] == init;
  }

  /** A list with distinct keys holds each entry of its map exactly once. */
  lemma {:induction false} DistinctCount<K(!new), V(!new)>(al: seq<(K, V)>, x: (K, V))
    requires DistinctKeys(al)
    ensures multiset(al)[x] == if x.0 in LastWins(al) && LastWins(al)[x.0] == x.1 then 1 else 0
    decreases |al|
  {
    if |al| > 0 {
      var init, p := al[..|al| - 1], al[|al| - 1];
      assert al == init + [p];
      DistinctSplit(al);
      DistinctCount(init, x);
      LastWinsSnoc(init, p);
      assert multiset(al) == multiset(init) + multiset{p};
      if x.0 == p.0 {
        assert x.0 !in LastWins(init);
      }
    }
  }

  /** Dropping the last entry keeps the keys distinct, and the last key
      appears nowhere before it. */
  lemma DistinctSplit<K(!new), V>(al: seq<(K, V)>)
    requires DistinctKeys(al) && |al| > 0
    ensures DistinctKeys(al[..|al| - 1])
    ensures forall i :: 0 <= i < |al| - 1 ==> al[i].0 != al[|al| - 1].0
  {
    var init := al[..|al| - 1];
    forall i, j | 0 <= i < j < |init|
      ensures init[i].0 != init[j].0
    {
      assert init[i] == al[i] && init[j] == al[j];
    }
  }

  /** Two insertion orders of the same map hold the same entries: the map
      alone, not the order Go happens to visit it in, fixes the multiset. */
  lemma SameMapSameEntries<K(!new), V(!new)>(a: seq<(K, V)>, b: seq<(K, V)>)
    requires DistinctKeys(a) && DistinctKeys(b)
    requires LastWins(a) == LastWins(b)
    ensures multiset(a) == multiset(b)
  {
    forall x
      ensures multiset(a)[x] == multiset(b)[x]
    {
      DistinctCount(a, x);
      DistinctCount(b, x);
    }
  }
}
