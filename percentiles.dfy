/**
 * Percentile selection over simulated results (src/App.tsx): the results are
 * sorted ascending and the samples at `floor(n * p)` are read for
 * p = 0.1, 0.5 and 0.9. A percentile is a literal sample, never interpolated.
 */
module Percentiles {

  predicate SortedAscending(s: seq<real>)
  {
    forall i, j :: 0 <= i < j < |s| ==> s[i] <= s[j]
  }

  /** Places `x` into the sorted sequence `s`. */
  function Insert(x: real, s: seq<real>): (r: seq<real>)
    requires SortedAscending(s)
    ensures SortedAscending(r)
    ensures multiset(r) == multiset(s) + multiset{x}
    ensures |r| == |s| + 1
  {
    if |s| == 0 then [x]
    else if x <= s[0] then [x] + s
    else
      assert s == [s[0]] + s[1..];
      var t := Insert(x, s[1..]);
      BoundedBelow(s[0], x, s[1..], t);
      SortedCons(s[0], t);
      assert multiset([s[0]] + t) == multiset{s[0]} + multiset(t);
      [s[0]] + t
  }

  /** A rearrangement of `rest` plus `x` keeps any lower bound of both. */
  lemma BoundedBelow(lo: real, x: real, rest: seq<real>, t: seq<real>)
    requires lo <= x && forall i :: 0 <= i < |rest| ==> lo <= rest[i]
    requires multiset(t) == multiset(rest) + multiset{x}
    ensures forall i :: 0 <= i < |t| ==> lo <= t[i]
  {
    forall i | 0 <= i < |t|
      ensures lo <= t[i]
    {
      assert t[i] in multiset(t);
      if t[i] != x {
        assert t[i] in multiset(rest);
      }
    }
  }

  /** A lower bound of a sorted sequence can be put in front of it. */
  lemma SortedCons(a: real, t: seq<real>)
    requires SortedAscending(t) && forall i :: 0 <= i < |t| ==> a <= t[i]
    ensures SortedAscending([a] + t)
  {
    var r := [a] + t;
    forall i, j | 0 <= i < j < |r|
      ensures r[i] <= r[j]
    {
      if i > 0 {
        assert r[i] == t[i - 1] && r[j] == t[j - 1];
      }
    }
  }

  /**
   * The ascending arrangement of `s` (`toSorted((a, b) => a - b)`): sorted,
   * and a permutation of its input.
   */
  function SortAscending(s: seq<real>): (r: seq<real>)
    ensures SortedAscending(r)
    ensures multiset(r) == multiset(s)
  {
    if |s| == 0 then []
    else
      assert s == [s[0]] + s[1..];
      Insert(s[0], SortAscending(s[1..]))
  }

  /** The index `Math.floor(n * p)` read for the percentile `p` of `n` samples. */
  function PercentileIndex(n: nat, p: real): (k: int)
  {
    (n as real * p).Floor
  }

  /** For a fraction `p` in [0, 1) and at least one sample, the index is in range. */
  lemma PercentileIndexInRange(n: nat, p: real)
    requires n >= 1 && 0.0 <= p < 1.0
    ensures 0 <= PercentileIndex(n, p) < n
  {
    assert 0.0 <= n as real * p < n as real;
  }

  /** A larger percentile never reads an earlier sample. */
  lemma PercentileIndexMonotone(n: nat, p: real, q: real)
    requires p <= q
    ensures PercentileIndex(n, p) <= PercentileIndex(n, q)
  {
    assert n as real * p <= n as real * q;
  }

  /** The three indices the table reads are ordered and in range. */
  lemma TableIndices(n: nat)
    requires n >= 1
    ensures 0 <= PercentileIndex(n, 0.1) <= PercentileIndex(n, 0.5)
            <= PercentileIndex(n, 0.9) < n
  {
    PercentileIndexInRange(n, 0.1);
    PercentileIndexInRange(n, 0.9);
    PercentileIndexMonotone(n, 0.1, 0.5);
    PercentileIndexMonotone(n, 0.5, 0.9);
  }

  /**
   * The percentile `p` of the sorted samples `s`: a sample such that every
   * sample before its index is no larger and every one after is no smaller.
   */
  function Pick(s: seq<real>, p: real): (r: real)
    requires |s| >= 1 && 0.0 <= p < 1.0
    requires SortedAscending(s)
    ensures r in s
    ensures forall i :: 0 <= i < |s| && i <= PercentileIndex(|s|, p) ==> s[i] <= r
    ensures forall i :: PercentileIndex(|s|, p) <= i < |s| ==> r <= s[i]
  {
    PercentileIndexInRange(|s|, p);
    s[PercentileIndex(|s|, p)]
  }

  /** Percentiles of one sorted sample set are non-decreasing in `p`. */
  lemma PickMonotone(s: seq<real>, p: real, q: real)
    requires |s| >= 1 && 0.0 <= p <= q < 1.0
    requires SortedAscending(s)
    ensures Pick(s, p) <= Pick(s, q)
  {
    PercentileIndexMonotone(|s|, p, q);
  }
}
