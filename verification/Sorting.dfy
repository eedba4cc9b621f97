/** `Array.prototype.sort` with a comparator that subtracts a key: a stable ascending sort.

    The built-in is given by its two promises, order and stability.  `Sort` is one function
    that keeps them, and `Determined` shows that they leave no other result, so nothing proved
    with `Sort` depends on how it computes. */
module Sorting {

  ghost predicate Sorted<T>(key: T -> real, xs: seq<T>) {
    forall i, j | 0 <= i < j < |xs| :: key(xs[i]) <= key(xs[j])
  }

  /** The elements with key `k`, in their order. */
  function WithKey<T>(key: T -> real, k: real, xs: seq<T>): seq<T> {
    if xs == [] then []
    else (if key(xs[0]) == k then [xs[0]] else []) + WithKey(key, k, xs[1..])
  }

  /** `ys` rearranges `xs` and keeps elements of equal key in their order. */
  ghost predicate StableRearrangement<T>(key: T -> real, xs: seq<T>, ys: seq<T>) {
    forall k: real :: WithKey(key, k, ys) == WithKey(key, k, xs)
  }

  /** Insert before the first element with a key at least as large. */
  function Insert<T>(key: T -> real, x: T, xs: seq<T>): seq<T> {
    if xs == [] || key(x) <= key(xs[0]) then [x] + xs else [xs[0]] + Insert(key, x, xs[1..])
  }

  function Sort<T>(key: T -> real, xs: seq<T>): seq<T> {
    if xs == [] then [] else Insert(key, xs[0], Sort(key, xs[1..]))
  }

  lemma WithKeyCons<T>(key: T -> real, k: real, x: T, xs: seq<T>)
    ensures WithKey(key, k, [x] + xs) == (if key(x) == k then [x] else []) + WithKey(key, k, xs)
  {
    assert ([x] + xs)[1..] == xs;
  }

  lemma {:induction false} InsertKeepsElements<T>(key: T -> real, x: T, xs: seq<T>)
    ensures multiset(Insert(key, x, xs)) == multiset{x} + multiset(xs)
  {
    if xs != [] && key(x) > key(xs[0]) {
      InsertKeepsElements(key, x, xs[1..]);
      assert xs == [xs[0]] + xs[1..];
    }
  }

  ghost predicate NoneBelow<T>(key: T -> real, bound: real, xs: seq<T>) {
    forall i | 0 <= i < |xs| :: bound <= key(xs[i])
  }

  lemma {:induction false} InsertKeepsBound<T>(key: T -> real, x: T, xs: seq<T>, bound: real)
    requires bound <= key(x) && NoneBelow(key, bound, xs)
    ensures NoneBelow(key, bound, Insert(key, x, xs))
  {
    if xs != [] && key(x) > key(xs[0]) {
      InsertKeepsBound(key, x, xs[1..], bound);
    }
  }

  lemma {:induction false} InsertKeepsOrder<T>(key: T -> real, x: T, xs: seq<T>)
    requires Sorted(key, xs)
    ensures Sorted(key, Insert(key, x, xs))
  {
    if xs != [] && key(x) > key(xs[0]) {
      InsertKeepsOrder(key, x, xs[1..]);
      InsertKeepsBound(key, x, xs[1..], key(xs[0]));
      SortedCons(key, xs[0], Insert(key, x, xs[1..]));
    }
  }

  lemma SortedCons<T>(key: T -> real, x: T, xs: seq<T>)
    requires Sorted(key, xs) && NoneBelow(key, key(x), xs)
    ensures Sorted(key, [x] + xs)
  {}

  lemma {:induction false} InsertIsStable<T>(key: T -> real, x: T, xs: seq<T>, k: real)
    requires Sorted(key, xs)
    ensures WithKey(key, k, Insert(key, x, xs)) == (if key(x) == k then [x] else []) + WithKey(key, k, xs)
  {
    if xs == [] || key(x) <= key(xs[0]) {
      WithKeyCons(key, k, x, xs);
    } else {
      InsertIsStable(key, x, xs[1..], k);
      WithKeyCons(key, k, xs[0], Insert(key, x, xs[1..]));
    }
  }

  lemma {:induction false} SortKeepsPromises<T(!new)>(key: T -> real, xs: seq<T>)
    ensures Sorted(key, Sort(key, xs))
    ensures StableRearrangement(key, xs, Sort(key, xs))
    ensures multiset(Sort(key, xs)) == multiset(xs)
  {
    if xs != [] {
      var rest := Sort(key, xs[1..]);
      SortKeepsPromises(key, xs[1..]);
      InsertKeepsOrder(key, xs[0], rest);
      InsertKeepsElements(key, xs[0], rest);
      assert xs == [xs[0]] + xs[1..];
      forall k: real ensures WithKey(key, k, Sort(key, xs)) == WithKey(key, k, xs) {
        InsertIsStable(key, xs[0], rest, k);
      }
    }
  }

  lemma {:induction false} FirstWithKey<T>(key: T -> real, k: real, xs: seq<T>)
    ensures WithKey(key, k, xs) != [] ==>
              WithKey(key, k, xs)[0] in xs && key(WithKey(key, k, xs)[0]) == k
  {
    if xs != [] && key(xs[0]) != k {
      FirstWithKey(key, k, xs[1..]);
    }
  }

  /** Order and stability determine the result. */
  lemma {:induction false} Determined<T(!new)>(key: T -> real, xs: seq<T>, ys: seq<T>)
    requires Sorted(key, xs) && Sorted(key, ys) && StableRearrangement(key, xs, ys)
    ensures xs == ys
    decreases |xs| + |ys|
  {
    if xs != [] && ys != [] {
      var k, m := key(xs[0]), key(ys[0]);
      FirstWithKey(key, k, ys);
      FirstWithKey(key, m, xs);
      assert WithKey(key, k, ys) == WithKey(key, k, xs) && WithKey(key, m, ys) == WithKey(key, m, xs);
      assert k == m;
      forall j: real ensures WithKey(key, j, ys[1..]) == WithKey(key, j, xs[1..]) {
        assert WithKey(key, j, ys) == WithKey(key, j, xs);
        assert WithKey(key, j, ys)[(if m == j then 1 else 0)..] == WithKey(key, j, ys[1..]);
        assert WithKey(key, j, xs)[(if k == j then 1 else 0)..] == WithKey(key, j, xs[1..]);
      }
      Determined(key, xs[1..], ys[1..]);
      assert xs == [xs[0]] + xs[1..] && ys == [ys[0]] + ys[1..];
    } else if xs != [] {
      FirstWithKey(key, key(xs[0]), ys);
    } else if ys != [] {
      FirstWithKey(key, key(ys[0]), xs);
    }
  }
}
