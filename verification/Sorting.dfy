/** Stable sorting by a total order on keys: what any correct stable sort returns, and what decides it. */
module Sorting {
  datatype Ordering = Less | Equal | Greater

  /** `compare` orders keys totally, and calls only identical keys equal. */
  ghost predicate IsTotalOrder<K(!new)>(compare: (K, K) -> Ordering) {
    (forall a, b :: compare(a, b) == Equal <==> a == b) &&
    (forall a, b :: compare(a, b) == Less <==> compare(b, a) == Greater) &&
    (forall a, b, c :: compare(a, b) == Less && compare(b, c) == Less ==> compare(a, c) == Less)
  }

  /** Put `x` after every element that is not greater. */
  function Insert<T, K>(xs: seq<T>, x: T, key: T -> K, compare: (K, K) -> Ordering): seq<T> {
    if xs == [] then [x]
    else
      var n := |xs| - 1;
      if compare(key(xs[n]), key(x)) == Greater then Insert(xs[..n], x, key, compare) + [xs[n]] else xs + [x]
  }

  function StableSort<T, K>(xs: seq<T>, key: T -> K, compare: (K, K) -> Ordering): seq<T> {
    if xs == [] then []
    else Insert(StableSort(xs[..|xs| - 1], key, compare), xs[|xs| - 1], key, compare)
  }

  ghost predicate IsSorted<T, K>(xs: seq<T>, key: T -> K, compare: (K, K) -> Ordering) {
    forall i, j | 0 <= i < j < |xs| :: compare(key(xs[i]), key(xs[j])) != Greater
  }

  /** The elements with key `k`, in their order. */
  ghost function WithKey<T, K>(xs: seq<T>, key: T -> K, k: K): seq<T> {
    if xs == [] then []
    else
      var n := |xs| - 1;
      WithKey(xs[..n], key, k) + if key(xs[n]) == k then [xs[n]] else []
  }

  lemma {:induction false} InsertPermutes<T, K>(xs: seq<T>, x: T, key: T -> K, compare: (K, K) -> Ordering)
    ensures multiset(Insert(xs, x, key, compare)) == multiset(xs) + multiset{x}
  {
    if xs != [] {
      var n := |xs| - 1;
      InsertPermutes(xs[..n], x, key, compare);
      assert xs == xs[..n] + [xs[n]];
    }
  }

  lemma {:induction false} InsertSorts<T, K(!new)>(xs: seq<T>, x: T, key: T -> K, compare: (K, K) -> Ordering)
    requires IsTotalOrder(compare) && IsSorted(xs, key, compare)
    ensures IsSorted(Insert(xs, x, key, compare), key, compare)
  {
    if xs != [] {
      var n := |xs| - 1;
      var r := Insert(xs[..n], x, key, compare);
      InsertSorts(xs[..n], x, key, compare);
      InsertPermutes(xs[..n], x, key, compare);
      forall i | 0 <= i < |r| && compare(key(xs[n]), key(x)) == Greater
        ensures compare(key(r[i]), key(xs[n])) != Greater
      {
        assert r[i] in multiset(r);
        assert r[i] in multiset(xs[..n]) || r[i] == x;
      }
      if compare(key(xs[n]), key(x)) != Greater {
        forall i | 0 <= i < |xs| ensures compare(key(xs[i]), key(x)) != Greater {
          assert i == n || compare(key(xs[i]), key(xs[n])) != Greater;
        }
      }
    }
  }

  lemma {:induction false} SortPermutesAndSorts<T, K(!new)>(xs: seq<T>, key: T -> K, compare: (K, K) -> Ordering)
    requires IsTotalOrder(compare)
    ensures multiset(StableSort(xs, key, compare)) == multiset(xs)
    ensures IsSorted(StableSort(xs, key, compare), key, compare)
  {
    if xs != [] {
      var n := |xs| - 1;
      SortPermutesAndSorts(xs[..n], key, compare);
      InsertPermutes(StableSort(xs[..n], key, compare), xs[n], key, compare);
      InsertSorts(StableSort(xs[..n], key, compare), xs[n], key, compare);
      assert xs == xs[..n] + [xs[n]];
    }
  }

  lemma {:induction false} WithKeyAppend<T, K>(xs: seq<T>, ys: seq<T>, key: T -> K, k: K)
    ensures WithKey(xs + ys, key, k) == WithKey(xs, key, k) + WithKey(ys, key, k)
  {
    if ys == [] {
      assert xs + ys == xs;
    } else {
      var n := |ys| - 1;
      WithKeyAppend(xs, ys[..n], key, k);
      assert (xs + ys)[..|xs + ys| - 1] == xs + ys[..n];
    }
  }

  lemma {:induction false} WithKeyOfOne<T, K>(x: T, key: T -> K, k: K)
    ensures WithKey([x], key, k) == if key(x) == k then [x] else []
  {
    assert [x][..0] == [];
  }

  lemma {:induction false} InsertIsStable<T, K(!new)>(xs: seq<T>, x: T, key: T -> K, compare: (K, K) -> Ordering, k: K)
    requires IsTotalOrder(compare)
    ensures WithKey(Insert(xs, x, key, compare), key, k) == WithKey(xs + [x], key, k)
  {
    WithKeyAppend(xs, [x], key, k);
    WithKeyOfOne(x, key, k);
    if xs != [] {
      var n := |xs| - 1;
      if compare(key(xs[n]), key(x)) == Greater {
        InsertIsStable(xs[..n], x, key, compare, k);
        WithKeyAppend(Insert(xs[..n], x, key, compare), [xs[n]], key, k);
        WithKeyOfOne(xs[n], key, k);
        WithKeyAppend(xs[..n], [x], key, k);
        assert compare(key(x), key(xs[n])) == Less;
      }
    }
  }

  /** Sorting moves no two elements of one key past each other. */
  lemma {:induction false} SortIsStable<T, K(!new)>(xs: seq<T>, key: T -> K, compare: (K, K) -> Ordering, k: K)
    requires IsTotalOrder(compare)
    ensures WithKey(StableSort(xs, key, compare), key, k) == WithKey(xs, key, k)
  {
    if xs != [] {
      var n := |xs| - 1;
      SortIsStable(xs[..n], key, compare, k);
      InsertIsStable(StableSort(xs[..n], key, compare), xs[n], key, compare, k);
      WithKeyAppend(StableSort(xs[..n], key, compare), [xs[n]], key, k);
      WithKeyOfOne(xs[n], key, k);
    }
  }

  lemma {:induction false} WithKeyMember<T, K>(xs: seq<T>, key: T -> K, k: K)
    ensures WithKey(xs, key, k) != [] <==> exists i | 0 <= i < |xs| :: key(xs[i]) == k
  {
    if xs != [] {
      WithKeyMember(xs[..|xs| - 1], key, k);
    }
  }

  lemma NoKeysNoElements<T, K(!new)>(xs: seq<T>, key: T -> K)
    requires forall k :: WithKey(xs, key, k) == []
    ensures xs == []
  {
    if xs != [] {
      WithKeyMember(xs, key, key(xs[|xs| - 1]));
    }
  }

  /** A sorted list is determined by what it holds of each key. */
  lemma {:induction false} SortedDetermined<T, K(!new)>(xs: seq<T>, ys: seq<T>, key: T -> K,
                                                        compare: (K, K) -> Ordering)
    requires IsTotalOrder(compare) && IsSorted(xs, key, compare) && IsSorted(ys, key, compare)
    requires forall k :: WithKey(xs, key, k) == WithKey(ys, key, k)
    ensures xs == ys
  {
    if xs == [] {
      forall k ensures WithKey(ys, key, k) == [] {
        assert WithKey(xs, key, k) == [];
      }
      NoKeysNoElements(ys, key);
    } else {
      var n := |xs| - 1;
      WithKeyMember(xs, key, key(xs[n]));
      WithKeyMember(ys, key, key(xs[n]));
      var m := |ys| - 1;
      WithKeyMember(ys, key, key(ys[m]));
      WithKeyMember(xs, key, key(ys[m]));
      LastKeyIsGreatest(xs, ys, key, compare);
      assert xs[n] == WithKey(xs, key, key(xs[n]))[|WithKey(xs, key, key(xs[n]))| - 1];
      assert ys[m] == WithKey(ys, key, key(ys[m]))[|WithKey(ys, key, key(ys[m]))| - 1];
      assert xs[n] == ys[m];
      forall k ensures WithKey(xs[..n], key, k) == WithKey(ys[..m], key, k) {
        assert WithKey(xs, key, k) == WithKey(xs[..n], key, k) + if key(xs[n]) == k then [xs[n]] else [];
        assert WithKey(ys, key, k) == WithKey(ys[..m], key, k) + if key(ys[m]) == k then [ys[m]] else [];
        AppendCancels(WithKey(xs[..n], key, k), WithKey(ys[..m], key, k), if key(xs[n]) == k then [xs[n]] else []);
      }
      SortedDetermined(xs[..n], ys[..m], key, compare);
      assert xs == xs[..n] + [xs[n]] && ys == ys[..m] + [ys[m]];
    }
  }

  lemma LastKeyIsGreatest<T, K(!new)>(xs: seq<T>, ys: seq<T>, key: T -> K, compare: (K, K) -> Ordering)
    requires IsTotalOrder(compare) && IsSorted(xs, key, compare) && IsSorted(ys, key, compare)
    requires xs != [] && ys != []
    requires exists i | 0 <= i < |ys| :: key(ys[i]) == key(xs[|xs| - 1])
    requires exists j | 0 <= j < |xs| :: key(xs[j]) == key(ys[|ys| - 1])
    ensures key(xs[|xs| - 1]) == key(ys[|ys| - 1])
  {
    var n, m := |xs| - 1, |ys| - 1;
    var i :| 0 <= i < |ys| && key(ys[i]) == key(xs[n]);
    var j :| 0 <= j < |xs| && key(xs[j]) == key(ys[m]);
    assert i == m || compare(key(ys[i]), key(ys[m])) != Greater;
    assert j == n || compare(key(xs[j]), key(xs[n])) != Greater;
  }

  lemma AppendCancels<T>(a: seq<T>, b: seq<T>, c: seq<T>)
    requires a + c == b + c
    ensures a == b
  {
    assert a == (a + c)[..|a + c| - |c|];
    assert b == (b + c)[..|b + c| - |c|];
  }

  /** Key by key, the two lists hold the same elements in the same order. */
  ghost predicate SameByKey<T, K(!new)>(xs: seq<T>, ys: seq<T>, key: T -> K) {
    forall k :: WithKey(xs, key, k) == WithKey(ys, key, k)
  }

  lemma SortedSameByKey<T, K(!new)>(xs: seq<T>, key: T -> K, compare: (K, K) -> Ordering)
    requires IsTotalOrder(compare)
    ensures SameByKey(StableSort(xs, key, compare), xs, key)
  {
    forall k ensures WithKey(StableSort(xs, key, compare), key, k) == WithKey(xs, key, k) {
      SortIsStable(xs, key, compare, k);
    }
  }

  lemma SameByKeySortsAlike<T, K(!new)>(xs: seq<T>, ys: seq<T>, key: T -> K, compare: (K, K) -> Ordering)
    requires IsTotalOrder(compare) && SameByKey(xs, ys, key)
    ensures StableSort(xs, key, compare) == StableSort(ys, key, compare)
  {
    var xs', ys' := StableSort(xs, key, compare), StableSort(ys, key, compare);
    SortedSameByKey(xs, key, compare);
    SortedSameByKey(ys, key, compare);
    SortPermutesAndSorts(xs, key, compare);
    SortPermutesAndSorts(ys, key, compare);
    forall k ensures WithKey(xs', key, k) == WithKey(ys', key, k) {
      assert WithKey(xs, key, k) == WithKey(ys, key, k);
    }
    SortedDetermined(xs', ys', key, compare);
  }

  /** Two lists sort alike exactly when they hold the same of each key, in the same order. */
  lemma SortsAlikeExactly<T, K(!new)>(xs: seq<T>, ys: seq<T>, key: T -> K, compare: (K, K) -> Ordering)
    requires IsTotalOrder(compare)
    ensures StableSort(xs, key, compare) == StableSort(ys, key, compare) <==> SameByKey(xs, ys, key)
  {
    if SameByKey(xs, ys, key) {
      SameByKeySortsAlike(xs, ys, key, compare);
    } else {
      SortedSameByKey(xs, key, compare);
      SortedSameByKey(ys, key, compare);
    }
  }

  /** Sorting a sorted list leaves it alone. */
  lemma SortIdempotent<T, K(!new)>(xs: seq<T>, key: T -> K, compare: (K, K) -> Ordering)
    requires IsTotalOrder(compare)
    ensures StableSort(StableSort(xs, key, compare), key, compare) == StableSort(xs, key, compare)
  {
    SortedSameByKey(xs, key, compare);
    SameByKeySortsAlike(StableSort(xs, key, compare), xs, key, compare);
  }

  ghost predicate DistinctKeys<T, K>(xs: seq<T>, key: T -> K) {
    forall i, j | 0 <= i < j < |xs| :: key(xs[i]) != key(xs[j])
  }

  lemma {:induction false} WithDistinctKey<T, K>(xs: seq<T>, key: T -> K, i: nat)
    requires DistinctKeys(xs, key) && i < |xs|
    ensures WithKey(xs, key, key(xs[i])) == [xs[i]]
  {
    var n := |xs| - 1;
    if i == n {
      WithKeyMember(xs[..n], key, key(xs[n]));
    } else {
      WithDistinctKey(xs[..n], key, i);
    }
  }

  /** Two permutations of elements with pairwise distinct keys sort alike. */
  lemma PermutationsSortAlike<T, K(!new)>(xs: seq<T>, ys: seq<T>, key: T -> K, compare: (K, K) -> Ordering)
    requires IsTotalOrder(compare) && multiset(xs) == multiset(ys) && DistinctKeys(xs, key) && DistinctKeys(ys, key)
    ensures StableSort(xs, key, compare) == StableSort(ys, key, compare)
  {
    forall k ensures WithKey(xs, key, k) == WithKey(ys, key, k) {
      WithKeyMember(xs, key, k);
      WithKeyMember(ys, key, k);
      if i :| 0 <= i < |xs| && key(xs[i]) == k {
        assert xs[i] in multiset(ys);
        var j :| 0 <= j < |ys| && ys[j] == xs[i];
        WithDistinctKey(xs, key, i);
        WithDistinctKey(ys, key, j);
      } else {
        forall j | 0 <= j < |ys| ensures key(ys[j]) != k {
          assert ys[j] in multiset(xs);
        }
      }
    }
    SameByKeySortsAlike(xs, ys, key, compare);
  }
}
