/**
 * Order-preserving selection and the stable sort the move orderers rely on.
 *
 * The engine sorts with the host language's built-in sort, which is stable:
 * elements whose keys tie keep their input order, also when sorting in reverse.
 * Every sort key it uses is a pair of integers compared lexicographically
 * (a descending sort on `v` is the ascending sort on `-v`), so the model sorts
 * moves decorated with such a key, smallest key first.
 */
module Ordering {
  import opened Chess

  // ---------------------------------------------------------------------
  // Selection by key.

  /** The elements of `xs` whose key is `k`, in input order. */
  function Filter<T, K(==)>(xs: seq<T>, key: T -> K, k: K): (r: seq<T>)
    ensures |r| <= |xs|
  {
    if |xs| == 0 then []
    else Filter(xs[..|xs| - 1], key, k) + (if key(xs[|xs| - 1]) == k then [xs[|xs| - 1]] else [])
  }

  /** Selection distributes over concatenation. */
  lemma {:induction false} FilterAppend<T, K>(a: seq<T>, b: seq<T>, key: T -> K, k: K)
    ensures Filter(a + b, key, k) == Filter(a, key, k) + Filter(b, key, k)
  {
    if |b| == 0 {
      assert a + b == a;
    } else {
      var init := b[..|b| - 1];
      assert (a + b)[..|a + b| - 1] == a + init;
      FilterAppend(a, init, key, k);
    }
  }

  lemma FilterSnoc<T, K>(xs: seq<T>, x: T, key: T -> K, k: K)
    ensures Filter(xs + [x], key, k) == Filter(xs, key, k) + (if key(x) == k then [x] else [])
  {
    assert (xs + [x])[..|xs|] == xs;
  }

  /** Two sequences that are permutations of each other have the same members. */
  lemma SameMembers<T>(a: seq<T>, b: seq<T>)
    requires multiset(a) == multiset(b)
    ensures forall x :: x in a <==> x in b
  {
    forall x
      ensures x in a <==> x in b
    {
      assert x in a <==> x in multiset(a);
      assert x in b <==> x in multiset(b);
    }
  }

  lemma {:induction false} FilterCons<T, K>(x: T, ys: seq<T>, key: T -> K, k: K)
    ensures Filter([x] + ys, key, k) == (if key(x) == k then [x] else []) + Filter(ys, key, k)
  {
    if |ys| == 0 {
      assert [x] + ys == [x];
      assert [x][..0] == [];
    } else {
      var init, last := ys[..|ys| - 1], ys[|ys| - 1];
      assert ([x] + ys)[..|ys|] == [x] + init;
      assert ([x] + ys)[|ys|] == last;
      FilterCons(x, init, key, k);
    }
  }

  /** An element is selected exactly when it occurs in the input and has key `k`. */
  lemma {:induction false} FilterMembers<T, K>(xs: seq<T>, key: T -> K, k: K)
    ensures forall x :: x in Filter(xs, key, k) <==> x in xs && key(x) == k
  {
    if |xs| > 0 {
      var init := xs[..|xs| - 1];
      FilterMembers(init, key, k);
      assert xs == init + [xs[|xs| - 1]];
    }
  }

  /** Selection keeps every element with key `k`, and each as often as it occurs. */
  lemma {:induction false} FilterCounts<T, K>(xs: seq<T>, key: T -> K, k: K, x: T)
    ensures multiset(Filter(xs, key, k))[x] == if key(x) == k then multiset(xs)[x] else 0
  {
    if |xs| > 0 {
      var init := xs[..|xs| - 1];
      FilterCounts(init, key, k, x);
      assert xs == init + [xs[|xs| - 1]];
    }
  }

  /** When every key is one of `a`, `b`, `c`, the three selections together are a permutation of the input. */
  lemma {:induction false} FilterPartition3<T, K>(xs: seq<T>, key: T -> K, a: K, b: K, c: K)
    requires a != b && b != c && a != c
    requires forall i :: 0 <= i < |xs| ==> key(xs[i]) == a || key(xs[i]) == b || key(xs[i]) == c
    ensures multiset(Filter(xs, key, a) + Filter(xs, key, b) + Filter(xs, key, c)) == multiset(xs)
  {
    if |xs| > 0 {
      var init, x := xs[..|xs| - 1], xs[|xs| - 1];
      assert xs == init + [x];
      FilterPartition3(init, key, a, b, c);
    }
  }

  /** When every key is `a` or `b`, the two selections together are a permutation of the input. */
  lemma {:induction false} FilterPartition2<T, K>(xs: seq<T>, key: T -> K, a: K, b: K)
    requires a != b
    requires forall i :: 0 <= i < |xs| ==> key(xs[i]) == a || key(xs[i]) == b
    ensures multiset(Filter(xs, key, a) + Filter(xs, key, b)) == multiset(xs)
  {
    if |xs| > 0 {
      var init, x := xs[..|xs| - 1], xs[|xs| - 1];
      assert xs == init + [x];
      FilterPartition2(init, key, a, b);
    }
  }

  /** The elements that pass a test, in input order. */
  function Select<T>(xs: seq<T>, keep: T -> bool): (r: seq<T>)
  {
    Filter(xs, keep, true)
  }

  // ---------------------------------------------------------------------
  // The stable sort.

  /** A lexicographic pair: first component first. */
  datatype SortKey = SortKey(primary: int, secondary: int)

  predicate KeyLe(a: SortKey, b: SortKey) {
    a.primary < b.primary || (a.primary == b.primary && a.secondary <= b.secondary)
  }

  /** A move paired with the key it is sorted by. */
  datatype Decorated = Decorated(move: Move, key: SortKey)

  function KeyOf(d: Decorated): SortKey {
    d.key
  }

  /** The moves of a decorated sequence, in order. */
  function MovesOf(ds: seq<Decorated>): (ms: seq<Move>)
    ensures |ms| == |ds|
    ensures forall i :: 0 <= i < |ds| ==> ms[i] == ds[i].move
  {
    seq(|ds|, i requires 0 <= i < |ds| => ds[i].move)
  }

  predicate SortedByKey(ds: seq<Decorated>) {
    forall i, j :: 0 <= i < j < |ds| ==> KeyLe(ds[i].key, ds[j].key)
  }

  /** Puts `x` before the first element whose key is not smaller than its own. */
  function Insert(x: Decorated, ys: seq<Decorated>): (r: seq<Decorated>)
    ensures |r| == |ys| + 1
  {
    if |ys| == 0 || KeyLe(x.key, ys[0].key) then [x] + ys
    else [ys[0]] + Insert(x, ys[1..])
  }

  /** Insertion sort from the back: each element is inserted ahead of every later element with an equal key. */
  function SortBy(xs: seq<Decorated>): (r: seq<Decorated>)
    ensures |r| == |xs|
  {
    if |xs| == 0 then [] else Insert(xs[0], SortBy(xs[1..]))
  }

  lemma {:induction false} InsertSorted(x: Decorated, ys: seq<Decorated>)
    requires SortedByKey(ys)
    ensures SortedByKey(Insert(x, ys))
    ensures multiset(Insert(x, ys)) == multiset{x} + multiset(ys)
  {
    if |ys| == 0 || KeyLe(x.key, ys[0].key) {
    } else {
      InsertSorted(x, ys[1..]);
      assert ys == [ys[0]] + ys[1..];
      var r := Insert(x, ys[1..]);
      forall j | 0 <= j < |r|
        ensures KeyLe(ys[0].key, r[j].key)
      {
        assert r[j] in multiset(r);
      }
    }
  }

  /** The sorted sequence is ordered by key and is a permutation of the input. */
  lemma {:induction false} SortBySorted(xs: seq<Decorated>)
    ensures SortedByKey(SortBy(xs))
    ensures multiset(SortBy(xs)) == multiset(xs)
  {
    if |xs| > 0 {
      SortBySorted(xs[1..]);
      InsertSorted(xs[0], SortBy(xs[1..]));
      assert xs == [xs[0]] + xs[1..];
    }
  }

  lemma {:induction false} InsertStable(x: Decorated, ys: seq<Decorated>, k: SortKey)
    ensures Filter(Insert(x, ys), KeyOf, k) == (if x.key == k then [x] else []) + Filter(ys, KeyOf, k)
  {
    if |ys| == 0 || KeyLe(x.key, ys[0].key) {
      FilterCons(x, ys, KeyOf, k);
    } else {
      InsertStable(x, ys[1..], k);
      FilterCons(ys[0], Insert(x, ys[1..]), KeyOf, k);
      FilterCons(ys[0], ys[1..], KeyOf, k);
      assert ys == [ys[0]] + ys[1..];
    }
  }

  /** Stability: among the elements with any one key, the sorted order is the input order. */
  lemma {:induction false} SortByStable(xs: seq<Decorated>, k: SortKey)
    ensures Filter(SortBy(xs), KeyOf, k) == Filter(xs, KeyOf, k)
  {
    if |xs| > 0 {
      SortByStable(xs[1..], k);
      InsertStable(xs[0], SortBy(xs[1..]), k);
      FilterCons(xs[0], xs[1..], KeyOf, k);
      assert xs == [xs[0]] + xs[1..];
    }
  }

  lemma {:induction false} MovesOfInsert(x: Decorated, ys: seq<Decorated>)
    ensures multiset(MovesOf(Insert(x, ys))) == multiset{x.move} + multiset(MovesOf(ys))
  {
    if |ys| == 0 || KeyLe(x.key, ys[0].key) {
      assert MovesOf([x] + ys) == [x.move] + MovesOf(ys);
    } else {
      MovesOfInsert(x, ys[1..]);
      assert MovesOf(Insert(x, ys)) == [ys[0].move] + MovesOf(Insert(x, ys[1..]));
      assert MovesOf(ys) == [ys[0].move] + MovesOf(ys[1..]);
    }
  }

  /** Sorting never adds, drops or duplicates a move. */
  lemma {:induction false} SortByPermutesMoves(xs: seq<Decorated>)
    ensures multiset(MovesOf(SortBy(xs))) == multiset(MovesOf(xs))
  {
    if |xs| > 0 {
      SortByPermutesMoves(xs[1..]);
      MovesOfInsert(xs[0], SortBy(xs[1..]));
      assert MovesOf(xs) == [xs[0].move] + MovesOf(xs[1..]);
    }
  }
}
