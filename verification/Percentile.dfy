/** `percentile` of evals/model-routing-classifier.eval.ts: the nearest-rank percentile. */
module Percentile {
  import opened Basics
  import opened Sorting

  function Identity(v: real): real { v }
  function Ceil(x: real): (c: int)
    ensures x <= c as real < x + 1.0
  {
    -(-x).Floor
  }

  /** `Math.ceil(p * n)`. */
  function Share(p: real, n: nat): int { Ceil(Times(p, n)) }

  function Times(p: real, n: nat): real { p * n as real }

  function Min(a: int, b: int): int { if a < b then a else b }
  function Max(a: int, b: int): int { if a > b then a else b }

  /** `None` stands for the `undefined` read from an empty array. */
  function Percentile(values: seq<real>, p: real): Option<real> {
    var sorted := Sort(Identity, values);
    SortLength(values);
    var index := Min(|sorted| - 1, Share(p, |sorted|) - 1);
    if values == [] then None else Some(sorted[Max(0, index)])
  }

  lemma SortLength(values: seq<real>)
    ensures |Sort(Identity, values)| == |values|
  {
    SortKeepsPromises(Identity, values);
    assert |multiset(Sort(Identity, values))| == |multiset(values)|;
  }

  /** How many values are at most `v`. */
  function CountAtMost(values: seq<real>, v: real): nat {
    if values == [] then 0 else (if values[0] <= v then 1 else 0) + CountAtMost(values[1..], v)
  }

  /** The rank a fraction `p` of `n` values asks for. */
  function Rank(p: real, n: nat): int { Max(1, Min(n, Share(p, n))) }

  lemma {:induction false} CountConcat(a: seq<real>, b: seq<real>, v: real)
    ensures CountAtMost(a + b, v) == CountAtMost(a, v) + CountAtMost(b, v)
  {
    if a == [] {
      assert a + b == b;
    } else {
      assert (a + b)[1..] == a[1..] + b;
      CountConcat(a[1..], b, v);
    }
  }

  lemma {:induction false} CountBounds(a: seq<real>, v: real)
    ensures CountAtMost(a, v) <= |a|
    ensures (forall i | 0 <= i < |a| :: a[i] <= v) ==> CountAtMost(a, v) == |a|
    ensures (forall i | 0 <= i < |a| :: a[i] > v) ==> CountAtMost(a, v) == 0
  {
    if a != [] {
      CountBounds(a[1..], v);
    }
  }

  lemma {:induction false} CountInsert(x: real, xs: seq<real>, v: real)
    ensures CountAtMost(Insert(Identity, x, xs), v) == CountAtMost([x] + xs, v)
  {
    if xs != [] && Identity(x) > Identity(xs[0]) {
      CountInsert(x, xs[1..], v);
      CountConcat([x], xs, v);
      CountConcat([x], xs[1..], v);
      CountConcat([xs[0]], Insert(Identity, x, xs[1..]), v);
    }
  }

  lemma {:induction false} CountSorted(xs: seq<real>, v: real)
    ensures CountAtMost(Sort(Identity, xs), v) == CountAtMost(xs, v)
  {
    if xs != [] {
      CountSorted(xs[1..], v);
      CountInsert(xs[0], Sort(Identity, xs[1..]), v);
      CountConcat([xs[0]], Sort(Identity, xs[1..]), v);
    }
  }

  /** In a sorted sequence, the element of rank r is the least member with r values at most it. */
  lemma RankInSorted(s: seq<real>, r: nat, w: real)
    requires Sorted(Identity, s) && 1 <= r <= |s|
    ensures CountAtMost(s, s[r - 1]) >= r
    ensures w in s && CountAtMost(s, w) >= r ==> s[r - 1] <= w
  {
    var v := s[r - 1];
    AtMostBefore(s, r, v);
    if w < v {
      AboveFrom(s, r - 1, w);
    }
  }

  lemma AtMostBefore(s: seq<real>, r: nat, v: real)
    requires Sorted(Identity, s) && 1 <= r <= |s| && v == s[r - 1]
    ensures CountAtMost(s, v) >= r
  {
    hide CountAtMost;
    assert s == s[..r] + s[r..];
    forall i | 0 <= i < r ensures s[..r][i] <= v {
      assert i < r - 1 ==> Identity(s[i]) <= Identity(s[r - 1]);
    }
    CountConcat(s[..r], s[r..], v);
    CountBounds(s[..r], v);
  }

  lemma AboveFrom(s: seq<real>, n: nat, w: real)
    requires Sorted(Identity, s) && n < |s| && w < s[n]
    ensures CountAtMost(s, w) <= n
  {
    hide CountAtMost;
    assert s == s[..n] + s[n..];
    forall i | 0 <= i < |s[n..]| ensures s[n..][i] > w {
      assert 0 < i ==> Identity(s[n]) <= Identity(s[n + i]);
    }
    CountConcat(s[..n], s[n..], w);
    CountBounds(s[n..], w);
    CountBounds(s[..n], w);
  }

  lemma ScaleMonotone(p: real, q: real, n: real)
    requires p <= q && 0.0 <= n
    ensures p * n <= q * n
  {
    assert 0.0 <= (q - p) * n;
  }

  lemma ScalePositive(p: real, n: real)
    requires 0.0 < p && 0.0 < n
    ensures 0.0 < p * n
  {}

  lemma RankOfFraction(p: real, n: nat)
    requires 0.0 < p <= 1.0 && n > 0
    ensures Rank(p, n) == Share(p, n)
  {
    ScaleMonotone(p, 1.0, n as real);
    ScalePositive(p, n as real);
  }

  /** The value read is the element of that rank in the sorted copy. */
  lemma PercentileHasRank(values: seq<real>, p: real)
    requires values != []
    ensures |Sort(Identity, values)| == |values| && 1 <= Rank(p, |values|) <= |values|
    ensures Percentile(values, p) == Some(Sort(Identity, values)[Rank(p, |values|) - 1])
  {
    SortLength(values);
    hide Share, Sort;
  }

  ghost predicate IsNearestRank(values: seq<real>, rank: int, v: real) {
    && v in values && CountAtMost(values, v) >= rank
    && forall w | w in values && CountAtMost(values, w) >= rank :: v <= w
  }

  /** Nearest rank: the least member with at least `rank` values at most it, for every `p`. */
  lemma NearestRank(values: seq<real>, p: real)
    requires values != []
    ensures IsNearestRank(values, Rank(p, |values|), Percentile(values, p).value)
    ensures 0.0 < p <= 1.0 ==> Rank(p, |values|) == Share(p, |values|)
  {
    if 0.0 < p <= 1.0 {
      RankOfFraction(p, |values|);
    }
    PercentileHasRank(values, p);
    hide Percentile, Sort, Rank, IsNearestRank, Share;
    SortedRank(values, Rank(p, |values|));
  }

  /** For a fraction the rank is the least integer that is at least `p * n`; for what is below
      or above a fraction it is the first or the last. */
  ghost predicate IsRank(p: real, n: nat, r: int) {
    if p <= 0.0 then r == 1
    else if p >= 1.0 then r == n
    else Times(p, n) <= r as real < Times(p, n) + 1.0
  }

  lemma NearestRankExact(values: seq<real>, p: real, r: int)
    requires values != [] && IsRank(p, |values|, r)
    ensures 1 <= r <= |values| && Percentile(values, p).Some?
    ensures IsNearestRank(values, r, Percentile(values, p).value)
    ensures Percentile([], p) == None
  {
    PercentileHasRank(values, p);
    RankBounds(p, |values|, r);
    hide *;
    SortedRank(values, r);
  }

  lemma CeilIs(x: real, n: nat, r: int)
    requires n > 0
    ensures x <= 0.0 ==> Max(1, Min(n, Ceil(x))) == 1
    ensures x >= n as real ==> Max(1, Min(n, Ceil(x))) == n
    ensures 0.0 < x <= n as real && x <= r as real < x + 1.0 ==> r == Max(1, Min(n, Ceil(x)))
  {}

  lemma ShareBounds(p: real, n: nat)
    requires n > 0
    ensures p <= 0.0 ==> Times(p, n) <= 0.0
    ensures p >= 1.0 ==> Times(p, n) >= n as real
    ensures 0.0 < p < 1.0 ==> 0.0 < Times(p, n) <= n as real
  {
    if p <= 0.0 {
      ScaleMonotone(p, 0.0, n as real);
    } else {
      ScalePositive(p, n as real);
      if p >= 1.0 {
        ScaleMonotone(1.0, p, n as real);
      } else {
        ScaleMonotone(p, 1.0, n as real);
      }
    }
  }

  lemma RankBounds(p: real, n: nat, r: int)
    requires n > 0 && IsRank(p, n, r)
    ensures 1 <= r <= n && r == Rank(p, n)
  {
    hide Ceil, Max, Min, Times;
    ShareBounds(p, n);
    CeilIs(Times(p, n), n, r);
    RankWithin(p, n);
  }

  lemma RankWithin(p: real, n: nat)
    requires n > 0
    ensures 1 <= Rank(p, n) <= n
  {
    hide Share;
  }

  lemma SortedRank(values: seq<real>, r: nat)
    requires |Sort(Identity, values)| == |values| && 1 <= r <= |values|
    ensures IsNearestRank(values, r, Sort(Identity, values)[r - 1])
  {
    var s := Sort(Identity, values);
    hide Sort, CountAtMost;
    SortKeepsPromises(Identity, values);
    SameMembers(s, values);
    CountSorted(values, s[r - 1]);
    RankInSorted(s, r, s[r - 1]);
    assert s[r - 1] in s;
    forall w | w in values && CountAtMost(values, w) >= r ensures s[r - 1] <= w {
      CountSorted(values, w);
      RankInSorted(s, r, w);
    }
  }

  lemma SameMembers(xs: seq<real>, ys: seq<real>)
    requires multiset(xs) == multiset(ys)
    ensures forall x :: x in xs <==> x in ys
  {
    forall x ensures x in xs <==> x in ys {
      assert x in multiset(xs) <==> x in multiset(ys);
    }
  }

  lemma {:induction false} WithKeyCopies(xs: seq<real>, k: real)
    ensures |WithKey(Identity, k, xs)| == multiset(xs)[k]
    ensures forall i | 0 <= i < |WithKey(Identity, k, xs)| :: WithKey(Identity, k, xs)[i] == k
  {
    if xs != [] {
      WithKeyCopies(xs[1..], k);
      assert xs == [xs[0]] + xs[1..];
      assert WithKey(Identity, k, xs) == (if xs[0] == k then [k] else []) + WithKey(Identity, k, xs[1..]);
      hide WithKey;
    }
  }

  /** The order of the measurements does not matter. */
  lemma PermutationInvariant(xs: seq<real>, ys: seq<real>, p: real)
    requires multiset(xs) == multiset(ys)
    ensures Percentile(xs, p) == Percentile(ys, p)
  {
    SameSort(xs, ys);
    SortLength(xs);
    SortLength(ys);
    hide Sort, Share;
  }

  lemma SameSort(xs: seq<real>, ys: seq<real>)
    requires multiset(xs) == multiset(ys)
    ensures Sort(Identity, xs) == Sort(Identity, ys)
  {
    hide Sort, Sorted, WithKey;
    var s, t := Sort(Identity, xs), Sort(Identity, ys);
    SortKeepsPromises(Identity, xs);
    SortKeepsPromises(Identity, ys);
    forall k: real ensures WithKey(Identity, k, t) == WithKey(Identity, k, s) {
      WithKeyCopies(s, k);
      WithKeyCopies(t, k);
    }
    Determined(Identity, s, t);
  }

  /** A larger fraction never gives a smaller value; so p50 <= p95. */
  lemma MonotoneInFraction(values: seq<real>, p: real, q: real)
    requires values != [] && p <= q
    ensures Percentile(values, p).value <= Percentile(values, q).value
  {
    PercentileHasRank(values, p);
    PercentileHasRank(values, q);
    RankMonotone(p, q, |values|);
    var s := Sort(Identity, values);
    hide Percentile, Sort, Rank, Share;
    SortKeepsPromises(Identity, values);
    assert Identity(s[Rank(p, |values|) - 1]) <= Identity(s[Rank(q, |values|) - 1]);
  }

  lemma RankMonotone(p: real, q: real, n: nat)
    requires p <= q
    ensures Rank(p, n) <= Rank(q, n)
  {
    ScaleMonotone(p, q, n as real);
  }
}
