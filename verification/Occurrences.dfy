/** `countOccurrences` of evals/memory-reflect.eval.ts: a greedy scan, proved optimal. */
module Occurrences {
  import opened Basics

  ghost predicate OccursAt(haystack: string, needle: string, i: int) {
    0 <= i <= |haystack| - |needle| && haystack[i..i + |needle|] == needle
  }

  /** Non-overlapping occurrences of the needle, given by their positions. */
  ghost predicate Packing(haystack: string, needle: string, places: set<int>) {
    && (forall p | p in places :: OccursAt(haystack, needle, p))
    && (forall p, q | p in places && q in places && p < q :: p + |needle| <= q)
  }

  /** `indexOf(needle, from)`. */
  method IndexOf(haystack: string, needle: string, from: nat) returns (index: int)
    requires needle != ""
    ensures index == -1 ==> forall i | from <= i :: !OccursAt(haystack, needle, i)
    ensures index != -1 ==> from <= index && OccursAt(haystack, needle, index)
    ensures forall i | from <= i < index :: !OccursAt(haystack, needle, i)
  {
    index := from;
    while index + |needle| <= |haystack|
      invariant from <= index
      invariant forall i | from <= i < index :: !OccursAt(haystack, needle, i)
      decreases |haystack| - index
    {
      if haystack[index..index + |needle|] == needle {
        return;
      }
      index := index + 1;
    }
    index := -1;
  }

  /** No packing beyond `from` is larger than `bound`. */
  ghost predicate AtMost(haystack: string, needle: string, from: int, bound: int) {
    forall places: set<int> |
      Packing(haystack, needle, places) && (forall p | p in places :: from <= p) :: |places| <= bound
  }

  /** Greedy stays ahead: give up the first occurrence, and what is left of any packing lies
      beyond it. */
  lemma GreedyStep(haystack: string, needle: string, from: int, index: int, places: set<int>,
                   bound: int)
    requires needle != ""
    requires OccursAt(haystack, needle, index)
    requires forall i | from <= i < index :: !OccursAt(haystack, needle, i)
    requires Packing(haystack, needle, places) && forall p | p in places :: from <= p
    requires AtMost(haystack, needle, index + |needle|, bound)
    ensures |places| <= bound + 1
  {
    if |places| > 0 {
      var first := Least(places);
      var rest := places - {first};
      assert index <= first;
      assert forall p | p in rest :: first + |needle| <= p;
      assert |rest| <= bound;
      assert |places| == |rest| + 1;
    } else {
      assert Packing(haystack, needle, places) && |places| <= bound;
    }
  }

  lemma Least(s: set<int>) returns (m: int)
    requires |s| > 0
    ensures m in s && forall x | x in s :: m <= x
  {
    m := Pick(s);
    var rest := s - {m};
    assert forall x | x in s :: x == m || x in rest;
    if |rest| > 0 {
      var n := Least(rest);
      if n < m {
        m := n;
      }
    }
  }

  /** The count is the largest number of non-overlapping occurrences: `places` attains it and
      no packing exceeds it. */
  method CountOccurrences(haystack: string, needle: string) returns (count: nat, ghost places: set<int>)
    ensures needle == "" ==> count == 0
    ensures needle != "" ==> Packing(haystack, needle, places) && |places| == count
    ensures needle != "" ==> AtMost(haystack, needle, 0, count)
  {
    places := {};
    if |needle| == 0 {
      return 0, {};
    }
    count := 0;
    var from := 0;
    while true
      invariant 0 <= from
      invariant Packing(haystack, needle, places) && |places| == count
      invariant forall p | p in places :: p + |needle| <= from
      invariant forall bound | AtMost(haystack, needle, from, bound) ::
                  AtMost(haystack, needle, 0, count + bound)
      decreases |haystack| - from
    {
      var index := IndexOf(haystack, needle, from);
      if index == -1 {
        assert AtMost(haystack, needle, from, 0) by { NothingLeft(haystack, needle, from); }
        return;
      }
      var next := index + |needle|;
      forall bound | AtMost(haystack, needle, next, bound)
        ensures AtMost(haystack, needle, 0, count + 1 + bound)
      {
        forall ps: set<int> | Packing(haystack, needle, ps) && (forall p | p in ps :: from <= p)
          ensures |ps| <= bound + 1
        {
          GreedyStep(haystack, needle, from, index, ps, bound);
        }
        assert AtMost(haystack, needle, from, bound + 1);
      }
      places := places + {index};
      count := count + 1;
      from := next;
    }
  }

  lemma NothingLeft(haystack: string, needle: string, from: int)
    requires forall i | from <= i :: !OccursAt(haystack, needle, i)
    ensures AtMost(haystack, needle, from, 0)
  {
    forall places: set<int> | Packing(haystack, needle, places) && (forall p | p in places :: from <= p)
      ensures |places| <= 0
    {
      if |places| > 0 {
        var p := Pick(places);
      }
    }
  }
}
