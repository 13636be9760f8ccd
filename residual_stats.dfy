/**
 * `do_residuals_stats`: the six-entry summary of a checkpoint residual vector
 * (MAX_ABS_ERR, MIN_ABS_ERR, AVERAGE_ERR, STD_DEV, RMSE, MEDIAN). The extremes
 * are the signed maximum and minimum, and the median is the element that
 * `nth_element` brings to position N/2.
 */
module ResidualStats {

  /** The header written above the statistics row. */
  const StatsHeader: string := "% MAX_ABS_ERR   MIN_ABS_ERR   AVERAGE_ERR   STD_DEV   RMSE    MEDIAN\n"

  /** `maxCoeff`: the largest (signed) entry. */
  function MaxOf(s: seq<real>): (m: real)
    requires |s| > 0
    ensures m in s
    ensures forall i :: 0 <= i < |s| ==> s[i] <= m
  {
    if |s| == 1 then s[0]
    else
      var rest := MaxOf(s[1..]);
      if s[0] > rest then s[0] else rest
  }

  /** `minCoeff`: the smallest (signed) entry. */
  function MinOf(s: seq<real>): (m: real)
    requires |s| > 0
    ensures m in s
    ensures forall i :: 0 <= i < |s| ==> m <= s[i]
  {
    if |s| == 1 then s[0]
    else
      var rest := MinOf(s[1..]);
      if s[0] < rest then s[0] else rest
  }

  /** Number of entries strictly below `m`. */
  function CountBelow(s: seq<real>, m: real): (c: nat) {
    if s == [] then 0 else (if s[0] < m then 1 else 0) + CountBelow(s[1..], m)
  }

  /** Number of entries at or below `m`. */
  function CountUpTo(s: seq<real>, m: real): (c: nat) {
    if s == [] then 0 else (if s[0] <= m then 1 else 0) + CountUpTo(s[1..], m)
  }

  /**
   * `m` is the entry of rank `k` (0-based) of `s`: at most k entries are below
   * it and more than k are at or below it, i.e. it is what position k holds
   * once `s` is sorted.
   */
  ghost predicate HasRank(s: seq<real>, k: nat, m: real) {
    CountBelow(s, m) <= k < CountUpTo(s, m)
  }

  ghost predicate Sorted(s: seq<real>) {
    forall i, j :: 0 <= i < j < |s| ==> s[i] <= s[j]
  }

  lemma {:induction false} CountsAppend(a: seq<real>, b: seq<real>, m: real)
    ensures CountBelow(a + b, m) == CountBelow(a, m) + CountBelow(b, m)
    ensures CountUpTo(a + b, m) == CountUpTo(a, m) + CountUpTo(b, m)
    decreases |a|
  {
    if a != [] {
      var ab := a + b;
      assert ab[0] == a[0];
      assert ab[1..] == a[1..] + b;
      CountsAppend(a[1..], b, m);
      assert CountBelow(ab, m) == (if ab[0] < m then 1 else 0) + CountBelow(ab[1..], m);
      assert CountUpTo(ab, m) == (if ab[0] <= m then 1 else 0) + CountUpTo(ab[1..], m);
    } else {
      assert a + b == b;
    }
  }

  /** Taking out the entry at position j takes out its contribution to both counts. */
  lemma CountsWithout(b: seq<real>, j: nat, m: real)
    requires j < |b|
    ensures CountBelow(b, m) == (if b[j] < m then 1 else 0) + CountBelow(b[..j] + b[j + 1..], m)
    ensures CountUpTo(b, m) == (if b[j] <= m then 1 else 0) + CountUpTo(b[..j] + b[j + 1..], m)
  {
    assert b == b[..j] + ([b[j]] + b[j + 1..]);
    CountsAppend(b[..j], [b[j]] + b[j + 1..], m);
    CountsAppend([b[j]], b[j + 1..], m);
    CountsAppend(b[..j], b[j + 1..], m);
  }

  lemma MultisetWithout(b: seq<real>, j: nat)
    requires j < |b|
    ensures multiset(b[..j] + b[j + 1..]) == multiset(b) - multiset{b[j]}
  {
    assert b == b[..j] + [b[j]] + b[j + 1..];
  }

  /** Both counts depend only on the multiset of entries, so any permutation keeps them. */
  lemma {:induction false} CountsOfPermutation(a: seq<real>, b: seq<real>, m: real)
    requires multiset(a) == multiset(b)
    ensures CountBelow(a, m) == CountBelow(b, m)
    ensures CountUpTo(a, m) == CountUpTo(b, m)
    decreases |a|
  {
    if a == [] {
      assert |multiset(b)| == 0;
    } else {
      var x := a[0];
      assert x in multiset(b);
      var j :| 0 <= j < |b| && b[j] == x;
      MultisetWithout(a, 0);
      MultisetWithout(b, j);
      assert a[..0] + a[1..] == a[1..];
      CountsOfPermutation(a[1..], b[..j] + b[j + 1..], m);
      CountsWithout(b, j, m);
    }
  }

  /** Entries all at or above `m` contribute nothing below it. */
  lemma {:induction false} NoneBelow(s: seq<real>, m: real)
    requires forall i :: 0 <= i < |s| ==> m <= s[i]
    ensures CountBelow(s, m) == 0
    decreases |s|
  {
    if s != [] {
      NoneBelow(s[1..], m);
    }
  }

  /** Entries all at or below `m` are all counted up to it. */
  lemma {:induction false} AllUpTo(s: seq<real>, m: real)
    requires forall i :: 0 <= i < |s| ==> s[i] <= m
    ensures CountUpTo(s, m) == |s|
    decreases |s|
  {
    if s != [] {
      AllUpTo(s[1..], m);
    }
  }

  lemma {:induction false} CountBelowAtMostLength(s: seq<real>, m: real)
    ensures CountBelow(s, m) <= |s|
    decreases |s|
  {
    if s != [] {
      CountBelowAtMostLength(s[1..], m);
    }
  }

  /** The post-state of `nth_element` at position n: everything left is <= v[n] <= everything right. */
  ghost predicate PartitionedAt(v: seq<real>, n: nat)
    requires n < |v|
  {
    (forall i :: 0 <= i < n ==> v[i] <= v[n]) &&
    (forall i :: n < i < |v| ==> v[n] <= v[i])
  }

  /** The element standing at a partition point has exactly that rank. */
  lemma PartitionedHasRank(v: seq<real>, n: nat)
    requires n < |v|
    requires PartitionedAt(v, n)
    ensures HasRank(v, n, v[n])
  {
    var m := v[n];
    assert v == v[..n] + v[n..];
    CountsAppend(v[..n], v[n..], m);
    CountBelowAtMostLength(v[..n], m);
    NoneBelow(v[n..], m);
    AllUpTo(v[..n + 1], m);
    assert v == v[..n + 1] + v[n + 1..];
    CountsAppend(v[..n + 1], v[n + 1..], m);
  }

  /** Of two values, one below the other, the smaller has no more entries up to it than the larger has below it. */
  lemma {:induction false} CountsMonotone(s: seq<real>, m1: real, m2: real)
    requires m1 < m2
    ensures CountUpTo(s, m1) <= CountBelow(s, m2)
    decreases |s|
  {
    if s != [] {
      CountsMonotone(s[1..], m1, m2);
    }
  }

  /** The rank-k element is unique. */
  lemma RankIsUnique(s: seq<real>, k: nat, m1: real, m2: real)
    requires HasRank(s, k, m1) && HasRank(s, k, m2)
    ensures m1 == m2
  {
    if m1 < m2 {
      CountsMonotone(s, m1, m2);
    } else if m2 < m1 {
      CountsMonotone(s, m2, m1);
    }
  }

  /** In a sorted sequence the rank-k element is the one at position k. */
  lemma SortedRank(t: seq<real>, k: nat, m: real)
    requires Sorted(t) && k < |t|
    requires HasRank(t, k, m)
    ensures t[k] == m
  {
    if t[k] < m {
      AllUpTo(t[..k + 1], t[k]);
      assert t == t[..k + 1] + t[k + 1..];
      CountsAppend(t[..k + 1], t[k + 1..], m);
      CountsMonotone(t[..k + 1], t[k], m);
    } else if m < t[k] {
      assert t == t[..k] + t[k..];
      CountsAppend(t[..k], t[k..], m);
      CountsMonotone(t[k..], m, t[k]);
      NoneBelow(t[k..], t[k]);
      CountsLeqLength(t[..k], m);
    }
  }

  lemma {:induction false} CountsLeqLength(s: seq<real>, m: real)
    ensures CountUpTo(s, m) <= |s|
    decreases |s|
  {
    if s != [] {
      CountsLeqLength(s[1..], m);
    }
  }

  /**
   * The element of rank N/2 of the residuals is what index N/2 of any sorted
   * copy of them holds; for an even N this is the upper of the two middle values.
   */
  lemma MedianIsSortedMiddle(r: seq<real>, t: seq<real>, m: real)
    requires |r| > 0
    requires multiset(t) == multiset(r) && Sorted(t)
    requires HasRank(r, |r| / 2, m)
    ensures t[|t| / 2] == m
  {
    assert |t| == |multiset(t)| == |multiset(r)| == |r|;
    CountsOfPermutation(t, r, m);
    SortedRank(t, |t| / 2, m);
  }

  /**
   * `nth_element(v.begin(), v.begin() + n, v.end())`: rearranges `v` in place so
   * that v[n] is the element that sorting would put there, with nothing
   * larger before it and nothing smaller after it.
   */
  method NthElement(v: array<real>, n: nat)
    requires n < v.Length
    modifies v
    ensures multiset(v[..]) == old(multiset(v[..]))
    ensures PartitionedAt(v[..], n)
  {
    var i := 0;
    while i <= n
      invariant 0 <= i <= n + 1
      invariant multiset(v[..]) == old(multiset(v[..]))
      invariant forall p, q :: 0 <= p < i && p < q < v.Length ==> v[p] <= v[q]
    {
      var least := IndexOfLeast(v, i);
      Swap(v, i, least);
      i := i + 1;
    }
  }

  /** Position of a smallest entry of v[from..]. */
  method IndexOfLeast(v: array<real>, from: nat) returns (least: nat)
    requires from < v.Length
    ensures from <= least < v.Length
    ensures forall q :: from <= q < v.Length ==> v[least] <= v[q]
  {
    least := from;
    var j := from + 1;
    while j < v.Length
      invariant from <= least < v.Length && from < j <= v.Length
      invariant forall q :: from <= q < j ==> v[least] <= v[q]
    {
      if v[j] < v[least] {
        least := j;
      }
      j := j + 1;
    }
  }

  /** `iter_swap`: exchange two entries, keeping the multiset of entries. */
  method Swap(v: array<real>, i: nat, j: nat)
    requires i < v.Length && j < v.Length
    modifies v
    ensures v[i] == old(v[j]) && v[j] == old(v[i])
    ensures forall k :: 0 <= k < v.Length && k != i && k != j ==> v[k] == old(v[k])
    ensures multiset(v[..]) == old(multiset(v[..]))
  {
    v[i], v[j] := v[j], v[i];
  }

  /**
   * The tail of `do_residuals_stats` (src/dem-gmrf_main.cpp:305-308): copy the residuals into a scratch vector, partially sort it
   * at N/2 and take that element, so the result is the rank-N/2 residual.
   */
  method MedianOfResiduals(r: array<real>) returns (m: real)
    requires r.Length > 0
    ensures m in r[..]
    ensures HasRank(r[..], r.Length / 2, m)
  {
    var n := r.Length;
    var v := new real[n];
    var i := 0;
    while i < n
      invariant 0 <= i <= n
      invariant v[..i] == r[..i]
    {
      v[i] := r[i];
      i := i + 1;
    }
    assert v[..] == r[..];
    NthElement(v, n / 2);
    m := v[n / 2];
    PartitionedHasRank(v[..], n / 2);
    CountsOfPermutation(v[..], r[..], m);
    assert m in multiset(v[..]);
  }

  /**
   * `do_residuals_stats`: the result always has six entries; for an empty
   * residual vector nothing is computed; otherwise entry 0 is the signed
   * maximum, entry 1 the signed minimum (both residuals themselves, not
   * absolute values) and entry 5 the rank-N/2 residual.
   */
  method DoResidualsStats(r: array<real>) returns (stats: array<real>, fileHdr: string)
    ensures fresh(stats) && stats.Length == 6
    ensures fileHdr == StatsHeader
    ensures r.Length > 0 ==>
              stats[0] in r[..] && stats[1] in r[..] &&
              forall i :: 0 <= i < r.Length ==> stats[1] <= r[i] <= stats[0]
    ensures r.Length > 0 ==> HasRank(r[..], r.Length / 2, stats[5])
  {
    fileHdr := StatsHeader;
    var n := r.Length;
    stats := new real[6];
    if n == 0 {
      return;
    }
    stats[0] := MaxOf(r[..]);
    stats[1] := MinOf(r[..]);
    var median := MedianOfResiduals(r);
    stats[5] := median;
  }

  function SumOfSquares(s: seq<real>): (sum: real) {
    if s == [] then 0.0 else s[0] * s[0] + SumOfSquares(s[1..])
  }

  /** The square of the RMSE computed by `do_residuals_stats` (src/dem-gmrf_main.cpp:303), over exact reals. */
  function MeanSquare(s: seq<real>): (ms: real)
    requires |s| > 0
  {
    SumOfSquares(s) / |s| as real
  }

  lemma {:induction false} SumOfSquaresBounded(s: seq<real>, bound: real)
    requires forall i :: 0 <= i < |s| ==> s[i] * s[i] <= bound
    ensures SumOfSquares(s) <= |s| as real * bound
    decreases |s|
  {
    if s != [] {
      SumOfSquaresBounded(s[1..], bound);
    }
  }

  /** The larger of the squares of the two extremes. */
  function ExtremeSquare(hi: real, lo: real): (sq: real) {
    if hi * hi >= lo * lo then hi * hi else lo * lo
  }

  /** A value between two extremes has a square no larger than the larger of theirs. */
  lemma SquareWithinExtremes(x: real, hi: real, lo: real)
    requires lo <= x <= hi
    ensures x * x <= ExtremeSquare(hi, lo)
  {
    if x >= 0.0 {
      assert x * x <= x * hi <= hi * hi;
    } else {
      assert x * x <= x * lo <= lo * lo;
    }
  }

  /**
   * The RMSE never exceeds the larger magnitude of the signed extremes in
   * entries 0 and 1: RMSE^2 <= max(max^2, min^2).
   */
  lemma RmseWithinExtremes(s: seq<real>)
    requires |s| > 0
    ensures 0.0 <= MeanSquare(s) <= ExtremeSquare(MaxOf(s), MinOf(s))
  {
    var hi, lo := MaxOf(s), MinOf(s);
    SquaresWithinExtremes(s, hi, lo);
    MeanSquareBounded(s, ExtremeSquare(hi, lo));
  }

  /** A bound on every square bounds their mean. */
  lemma MeanSquareBounded(s: seq<real>, bound: real)
    requires |s| > 0
    requires forall i :: 0 <= i < |s| ==> s[i] * s[i] <= bound
    ensures 0.0 <= MeanSquare(s) <= bound
  {
    SumOfSquaresBounded(s, bound);
    SumOfSquaresNonNegative(s);
    QuotientBounded(SumOfSquares(s), |s| as real, bound);
  }

  lemma SquaresWithinExtremes(s: seq<real>, hi: real, lo: real)
    requires forall i :: 0 <= i < |s| ==> lo <= s[i] <= hi
    ensures forall i :: 0 <= i < |s| ==> s[i] * s[i] <= ExtremeSquare(hi, lo)
  {
    forall i | 0 <= i < |s|
      ensures s[i] * s[i] <= ExtremeSquare(hi, lo)
    {
      SquareWithinExtremes(s[i], hi, lo);
    }
  }

  lemma QuotientBounded(sum: real, n: real, bound: real)
    requires n > 0.0 && 0.0 <= sum <= n * bound
    ensures 0.0 <= sum / n <= bound
  {
  }

  lemma {:induction false} SumOfSquaresNonNegative(s: seq<real>)
    ensures SumOfSquares(s) >= 0.0
    decreases |s|
  {
    if s != [] {
      SumOfSquaresNonNegative(s[1..]);
      assert s[0] * s[0] >= 0.0;
    }
  }

  /**
   * The worked example [1, -2, 3]: entry 0 is 3, entry 1 is -2 (the signed
   * minimum, not the smallest magnitude 1), the median is 1 and RMSE^2 is 14/3.
   */
  lemma WorkedExample(m: real)
    requires HasRank([1.0, -2.0, 3.0], 1, m)
    ensures MaxOf([1.0, -2.0, 3.0]) == 3.0
    ensures MinOf([1.0, -2.0, 3.0]) == -2.0
    ensures m == 1.0
    ensures MeanSquare([1.0, -2.0, 3.0]) == 14.0 / 3.0
  {
    var s := [1.0, -2.0, 3.0];
    assert HasRank(s, 1, 1.0);
    RankIsUnique(s, 1, m, 1.0);
  }

  /** For an even count the median is the upper middle value: [4, 1, 3, 2] gives 3, not 2. */
  lemma UpperMedianForEvenCount(m: real)
    requires HasRank([4.0, 1.0, 3.0, 2.0], 2, m)
    ensures m == 3.0
  {
    var s := [4.0, 1.0, 3.0, 2.0];
    assert HasRank(s, 2, 3.0);
    RankIsUnique(s, 2, m, 3.0);
  }
}
