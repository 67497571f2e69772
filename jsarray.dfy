/**
 * The ECMAScript array and set built-ins the reporting code is made of:
 * `filter` by a key, `map`, `reduce` with a numeric accumulator,
 * `[...new Set(xs)]`, `new Set(xs).size` and a stable `sort` by a numeric key.
 * Callbacks are total Dafny functions.
 */
module JsArray {

  predicate Distinct<T(==)>(xs: seq<T>) {
    forall i, j :: 0 <= i < j < |xs| ==> xs[i] != xs[j]
  }

  /** `xs.map(f)`. */
  function Map<T, U>(xs: seq<T>, f: T -> U): (r: seq<U>)
    ensures |r| == |xs|
    ensures forall i :: 0 <= i < |xs| ==> r[i] == f(xs[i])
    decreases |xs|
  {
    if xs == [] then [] else [f(xs[0])] + Map(xs[1..], f)
  }

  // ---------------------------------------------------------------------------
  // reduce

  /** `xs.reduce((acc, x) => acc + f(x), acc)`: a left fold that adds each weight. */
  function Reduce<T>(acc: real, xs: seq<T>, f: T -> real): real
    decreases |xs|
  {
    if xs == [] then acc else Reduce(acc + f(xs[0]), xs[1..], f)
  }

  /** The starting value of the accumulator is only added on. */
  lemma {:induction false} ReduceFrom<T>(acc: real, xs: seq<T>, f: T -> real)
    ensures Reduce(acc, xs, f) == acc + Reduce(0.0, xs, f)
    decreases |xs|
  {
    if xs != [] {
      ReduceFrom(acc + f(xs[0]), xs[1..], f);
      ReduceFrom(0.0 + f(xs[0]), xs[1..], f);
    }
  }

  /** Unfolding a fold from zero at its first element. */
  lemma ReduceCons<T>(x: T, xs: seq<T>, f: T -> real)
    ensures Reduce(0.0, [x] + xs, f) == f(x) + Reduce(0.0, xs, f)
  {
    assert ([x] + xs)[1..] == xs;
    ReduceFrom(0.0 + f(x), xs, f);
  }

  /** A fold from zero distributes over concatenation. */
  lemma {:induction false} ReduceAppend<T>(xs: seq<T>, ys: seq<T>, f: T -> real)
    ensures Reduce(0.0, xs + ys, f) == Reduce(0.0, xs, f) + Reduce(0.0, ys, f)
    decreases |xs|
  {
    if xs == [] {
      assert xs + ys == ys;
    } else {
      assert xs + ys == [xs[0]] + (xs[1..] + ys);
      assert xs == [xs[0]] + xs[1..];
      ReduceCons(xs[0], xs[1..] + ys, f);
      ReduceCons(xs[0], xs[1..], f);
      ReduceAppend(xs[1..], ys, f);
    }
  }

  /** Non-negative weights give a non-negative total. */
  lemma {:induction false} ReduceNonnegative<T>(xs: seq<T>, f: T -> real)
    requires forall i :: 0 <= i < |xs| ==> f(xs[i]) >= 0.0
    ensures Reduce(0.0, xs, f) >= 0.0
    decreases |xs|
  {
    if xs != [] {
      assert xs == [xs[0]] + xs[1..];
      ReduceCons(xs[0], xs[1..], f);
      ReduceNonnegative(xs[1..], f);
    }
  }

  /** Zero weights everywhere give zero. */
  lemma {:induction false} ReduceZero<T>(xs: seq<T>, f: T -> real)
    requires forall i :: 0 <= i < |xs| ==> f(xs[i]) == 0.0
    ensures Reduce(0.0, xs, f) == 0.0
    decreases |xs|
  {
    if xs != [] {
      assert xs == [xs[0]] + xs[1..];
      ReduceCons(xs[0], xs[1..], f);
      ReduceZero(xs[1..], f);
    }
  }

  /** Scaling every weight by `c` scales the total by `c`. */
  lemma {:induction false} ReduceScale<T>(xs: seq<T>, f: T -> real, g: T -> real, c: real)
    requires forall i :: 0 <= i < |xs| ==> f(xs[i]) == c * g(xs[i])
    ensures Reduce(0.0, xs, f) == c * Reduce(0.0, xs, g)
    decreases |xs|
  {
    if xs != [] {
      assert xs == [xs[0]] + xs[1..];
      ReduceCons(xs[0], xs[1..], f);
      ReduceCons(xs[0], xs[1..], g);
      ReduceScale(xs[1..], f, g, c);
    }
  }

  // ---------------------------------------------------------------------------
  // filter by key

  /** `xs.filter(x => key(x) === k)`. */
  function FilterKey<T, K(==)>(xs: seq<T>, key: T -> K, k: K): (r: seq<T>)
    ensures |r| <= |xs|
    ensures forall i :: 0 <= i < |r| ==> key(r[i]) == k
    decreases |xs|
  {
    if xs == [] then []
    else (if key(xs[0]) == k then [xs[0]] else []) + FilterKey(xs[1..], key, k)
  }

  /** Filtering distributes over concatenation, so it keeps the input order. */
  lemma {:induction false} FilterKeyAppend<T, K>(xs: seq<T>, ys: seq<T>, key: T -> K, k: K)
    ensures FilterKey(xs + ys, key, k) == FilterKey(xs, key, k) + FilterKey(ys, key, k)
    decreases |xs|
  {
    if xs == [] {
      assert xs + ys == ys;
    } else {
      assert (xs + ys)[0] == xs[0];
      assert (xs + ys)[1..] == xs[1..] + ys;
      FilterKeyAppend(xs[1..], ys, key, k);
    }
  }

  /** An element is kept exactly when it is in the input and has the key. */
  lemma {:induction false} FilterKeyMembers<T, K>(xs: seq<T>, key: T -> K, k: K, x: T)
    ensures x in FilterKey(xs, key, k) <==> x in xs && key(x) == k
    decreases |xs|
  {
    if xs != [] {
      FilterKeyMembers(xs[1..], key, k, x);
      assert xs == [xs[0]] + xs[1..];
    }
  }

  /** No element has the key: nothing is kept. */
  lemma {:induction false} FilterKeyNone<T, K>(xs: seq<T>, key: T -> K, k: K)
    requires forall i :: 0 <= i < |xs| ==> key(xs[i]) != k
    ensures FilterKey(xs, key, k) == []
    decreases |xs|
  {
    if xs != [] {
      FilterKeyNone(xs[1..], key, k);
    }
  }

  // ---------------------------------------------------------------------------
  // grouping: filtering by every key of a list and folding each group

  /** The sum, over the keys `ks`, of the fold of the elements with that key. */
  function GroupTotals<T, K(==)>(ks: seq<K>, xs: seq<T>, key: T -> K, f: T -> real): real
    decreases |ks|
  {
    if ks == [] then 0.0
    else Reduce(0.0, FilterKey(xs, key, ks[0]), f) + GroupTotals(ks[1..], xs, key, f)
  }

  /** The weight `w` counted once for every key of `ks` equal to `k`. */
  function Occurrences<K(==)>(ks: seq<K>, k: K, w: real): real
    decreases |ks|
  {
    if ks == [] then 0.0 else (if ks[0] == k then w else 0.0) + Occurrences(ks[1..], k, w)
  }

  lemma {:induction false} OccurrencesOnce<K>(ks: seq<K>, k: K, w: real)
    requires Distinct(ks) && k in ks
    ensures Occurrences(ks, k, w) == w
    decreases |ks|
  {
    if ks[0] == k {
      OccurrencesAbsent(ks[1..], k, w);
    } else {
      OccurrencesOnce(ks[1..], k, w);
    }
  }

  lemma {:induction false} OccurrencesAbsent<K>(ks: seq<K>, k: K, w: real)
    requires k !in ks
    ensures Occurrences(ks, k, w) == 0.0
    decreases |ks|
  {
    if ks != [] {
      OccurrencesAbsent(ks[1..], k, w);
    }
  }

  /** Peeling the first element off every group. */
  lemma {:induction false} GroupTotalsCons<T, K>(ks: seq<K>, x: T, xs: seq<T>, key: T -> K, f: T -> real)
    ensures GroupTotals(ks, [x] + xs, key, f)
         == Occurrences(ks, key(x), f(x)) + GroupTotals(ks, xs, key, f)
    decreases |ks|
  {
    if ks != [] {
      var k := ks[0];
      assert ([x] + xs)[1..] == xs;
      var rest := FilterKey(xs, key, k);
      assert FilterKey([x] + xs, key, k) == (if key(x) == k then [x] else []) + rest;
      if key(x) == k {
        ReduceCons(x, rest, f);
      } else {
        assert FilterKey([x] + xs, key, k) == rest;
      }
      GroupTotalsCons(ks[1..], x, xs, key, f);
    }
  }

  /**
   * When the keys are distinct and cover every element, the groups partition
   * the elements, so the group totals add up to the overall total.
   */
  lemma {:induction false} GroupTotalsPartition<T, K>(ks: seq<K>, xs: seq<T>, key: T -> K, f: T -> real)
    requires Distinct(ks)
    requires forall i :: 0 <= i < |xs| ==> key(xs[i]) in ks
    ensures GroupTotals(ks, xs, key, f) == Reduce(0.0, xs, f)
    decreases |xs|
  {
    if xs == [] {
      GroupTotalsEmpty(ks, key, f);
    } else {
      assert xs == [xs[0]] + xs[1..];
      GroupTotalsCons(ks, xs[0], xs[1..], key, f);
      OccurrencesOnce(ks, key(xs[0]), f(xs[0]));
      GroupTotalsPartition(ks, xs[1..], key, f);
      ReduceCons(xs[0], xs[1..], f);
    }
  }

  lemma {:induction false} GroupTotalsEmpty<T, K>(ks: seq<K>, key: T -> K, f: T -> real)
    ensures GroupTotals(ks, [], key, f) == 0.0
    decreases |ks|
  {
    if ks != [] {
      GroupTotalsEmpty(ks[1..], key, f);
    }
  }

  // ---------------------------------------------------------------------------
  // Set

  /** The elements of `new Set(xs)`. */
  function ElementSet<T(==)>(xs: seq<T>): set<T> {
    set x | x in xs
  }

  /** `new Set(xs).size` never exceeds the length and is 0 only for the empty list. */
  lemma {:induction false} SetSizeBounds<T>(xs: seq<T>)
    ensures |ElementSet(xs)| <= |xs|
    ensures |ElementSet(xs)| == 0 <==> xs == []
    decreases |xs|
  {
    if xs != [] {
      var n := |xs| - 1;
      assert xs == xs[..n] + [xs[n]];
      assert ElementSet(xs) == ElementSet(xs[..n]) + {xs[n]};
      assert xs[n] in ElementSet(xs);
      SetSizeBounds(xs[..n]);
    }
  }

  /**
   * `[...new Set(xs)]`: each distinct element once, at the position of its first
   * occurrence (a Set iterates in insertion order).
   */
  function Dedup<T(==,!new)>(xs: seq<T>): (r: seq<T>)
    ensures Distinct(r)
    ensures forall x :: x in r <==> x in xs
    decreases |xs|
  {
    if xs == [] then []
    else
      var n := |xs| - 1;
      assert xs == xs[..n] + [xs[n]];
      var r := Dedup(xs[..n]);
      if xs[n] in r then r else r + [xs[n]]
  }

  /** Spreading a Set yields as many elements as the Set's size. */
  lemma {:induction false} DedupLength<T(!new)>(xs: seq<T>)
    ensures |Dedup(xs)| == |ElementSet(xs)|
  {
    var r := Dedup(xs);
    assert ElementSet(xs) == ElementSet(r);
    DistinctCardinality(r);
  }

  lemma {:induction false} DistinctCardinality<T>(xs: seq<T>)
    requires Distinct(xs)
    ensures |ElementSet(xs)| == |xs|
    decreases |xs|
  {
    if xs != [] {
      var n := |xs| - 1;
      assert xs == xs[..n] + [xs[n]];
      assert ElementSet(xs) == ElementSet(xs[..n]) + {xs[n]};
      assert xs[n] !in ElementSet(xs[..n]);
      DistinctCardinality(xs[..n]);
    }
  }

  // ---------------------------------------------------------------------------
  // stable sort by a numeric key

  predicate SortedByKey<T>(xs: seq<T>, key: T -> int) {
    forall i, j :: 0 <= i < j < |xs| ==> key(xs[i]) <= key(xs[j])
  }

  predicate StrictlySortedByKey<T>(xs: seq<T>, key: T -> int) {
    forall i, j :: 0 <= i < j < |xs| ==> key(xs[i]) < key(xs[j])
  }

  /** Inserts `x` before the first element whose key is not smaller. */
  function Insert<T(==)>(x: T, xs: seq<T>, key: T -> int): (r: seq<T>)
    ensures multiset(r) == multiset(xs) + multiset{x}
    decreases |xs|
  {
    if xs == [] || key(x) <= key(xs[0]) then [x] + xs
    else
      assert xs == [xs[0]] + xs[1..];
      [xs[0]] + Insert(x, xs[1..], key)
  }

  lemma {:induction false} InsertSorted<T>(x: T, xs: seq<T>, key: T -> int)
    requires SortedByKey(xs, key)
    ensures SortedByKey(Insert(x, xs, key), key)
    decreases |xs|
  {
    if xs != [] && key(x) > key(xs[0]) {
      var rest := Insert(x, xs[1..], key);
      InsertSorted(x, xs[1..], key);
      forall i | 0 <= i < |rest|
        ensures key(xs[0]) <= key(rest[i])
      {
        assert rest[i] in multiset(rest);
        assert rest[i] == x || rest[i] in multiset(xs[1..]);
      }
    }
  }

  lemma {:induction false} InsertDistinct<T>(x: T, xs: seq<T>, key: T -> int)
    requires Distinct(xs) && x !in xs
    ensures Distinct(Insert(x, xs, key))
    decreases |xs|
  {
    if xs != [] && key(x) > key(xs[0]) {
      var rest := Insert(x, xs[1..], key);
      assert xs == [xs[0]] + xs[1..];
      InsertDistinct(x, xs[1..], key);
      assert xs[0] !in multiset(rest);
    }
  }

  /**
   * `xs.sort((a, b) => key(a) - key(b))`: ECMAScript requires this sort to be
   * stable; insertion sort is one such sort.
   */
  function SortByKey<T(==)>(xs: seq<T>, key: T -> int): (r: seq<T>)
    ensures multiset(r) == multiset(xs)
    decreases |xs|
  {
    if xs == [] then []
    else
      assert xs == [xs[0]] + xs[1..];
      Insert(xs[0], SortByKey(xs[1..], key), key)
  }

  /** The sorted list is ordered by the key and keeps a duplicate-free input duplicate-free. */
  lemma {:induction false} SortByKeySorted<T>(xs: seq<T>, key: T -> int)
    ensures SortedByKey(SortByKey(xs, key), key)
    ensures Distinct(xs) ==> Distinct(SortByKey(xs, key))
    decreases |xs|
  {
    if xs != [] {
      var rest := SortByKey(xs[1..], key);
      SortByKeySorted(xs[1..], key);
      InsertSorted(xs[0], rest, key);
      if Distinct(xs) {
        assert xs == [xs[0]] + xs[1..];
        assert Distinct(xs[1..]);
        assert xs[0] !in multiset(rest);
        InsertDistinct(xs[0], rest, key);
      }
    }
  }

  /**
   * Two lists strictly sorted by the same key with the same elements are equal:
   * when keys are distinct, the outcome of a sort does not depend on the
   * algorithm nor on the input order.
   */
  lemma {:induction false} StrictlySortedUnique<T>(r1: seq<T>, r2: seq<T>, key: T -> int)
    requires StrictlySortedByKey(r1, key) && StrictlySortedByKey(r2, key)
    requires forall x :: x in r1 <==> x in r2
    ensures r1 == r2
    decreases |r1|
  {
    if r1 == [] {
      assert forall k :: 0 <= k < |r2| ==> r2[k] in r2;
    } else {
      assert r1[0] in r1;
      assert r2 != [];
      assert r2[0] in r2;
      var i :| 0 <= i < |r1| && r1[i] == r2[0];
      var j :| 0 <= j < |r2| && r2[j] == r1[0];
      assert key(r1[0]) <= key(r2[0]) && key(r2[0]) <= key(r1[0]);
      assert i == 0;
      forall x
        ensures x in r1[1..] <==> x in r2[1..]
      {
        TailMembers(r1, key, x);
        TailMembers(r2, key, x);
      }
      StrictlySortedUnique(r1[1..], r2[1..], key);
    }
  }

  lemma TailMembers<T>(r: seq<T>, key: T -> int, x: T)
    requires StrictlySortedByKey(r, key) && r != []
    ensures x in r[1..] <==> x in r && x != r[0]
  {
    assert r == [r[0]] + r[1..];
    if x in r[1..] {
      var k :| 0 <= k < |r[1..]| && r[1..][k] == x;
      assert r[k + 1] == x;
    }
  }
}
