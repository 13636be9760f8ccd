/**
 * Step [3] of the driver and the loops that consume it: the index list 0..N-1
 * is shuffled in place, its first N - round(ratio * N) entries name the points
 * inserted into the DEM map and the rest name the checkpoints.
 */
module Checkpoints {
  import opened Dataset

  /** `mrpt::utils::round` on a non-negative value: the nearest integer, halves rounded up. */
  function RoundHalfUp(v: real): (k: int)
    ensures -0.5 < k as real - v <= 0.5
  {
    (v + 0.5).Floor
  }

  /** Any integer within one half of a value in [0, n] lies in [0, n]. */
  lemma NearestStaysInRange(v: real, n: nat, k: int)
    requires 0.0 <= v <= n as real
    requires -0.5 <= k as real - v <= 0.5
    ensures 0 <= k <= n
  {
  }

  lemma ScaledRatioInRange(ratio: real, n: nat)
    requires 0.0 <= ratio <= 1.0
    ensures 0.0 <= ratio * n as real <= n as real
  {
  }

  /**
   * The split of `dem_gmrf_main` (src/dem-gmrf_main.cpp:121-131): the ratio
   * must lie in [0, 1]; then the number of checkpoints is round(ratio * N),
   * a nearest integer to ratio * N, never more than N, and the number of
   * inserted points is the rest, so the two add up to N with no underflow.
   * Result: (N_insert_pts, N_chk_pts).
   */
  function SplitCounts(ratio: real, n: nat): (r: Result<(nat, nat)>)
    ensures r.Ok? <==> 0.0 <= ratio <= 1.0
    ensures !r.Ok? ==> r.error == RatioOutOfRange(ratio)
    ensures r.Ok? ==> r.value.0 + r.value.1 == n
    ensures r.Ok? ==> -0.5 <= r.value.1 as real - ratio * n as real <= 0.5
    ensures r.Ok? ==> r.value.1 == RoundHalfUp(ratio * n as real)
  {
    if 0.0 <= ratio <= 1.0 then
      ScaledRatioInRange(ratio, n);
      var chk := RoundHalfUp(ratio * n as real);
      NearestStaysInRange(ratio * n as real, n, chk);
      Ok((n - chk, chk))
    else
      Err(RatioOutOfRange(ratio))
  }

  /** The two ends of the ratio option: 0.0 selects no checkpoint, 1.0 selects every point. */
  lemma RatioEnds(n: nat)
    ensures SplitCounts(0.0, n) == Ok((n, 0))
    ensures SplitCounts(1.0, n) == Ok((0, n))
  {
  }

  /** 0, 1, ..., n - 1. */
  function Range(n: nat): (s: seq<nat>)
    ensures |s| == n && forall i :: 0 <= i < n ==> s[i] == i
  {
    seq(n, i => i)
  }

  /** Each of 0..n-1 occurs in Range(n) exactly once, and nothing else occurs. */
  lemma {:induction false} RangeOccurrences(n: nat)
    ensures forall i: nat :: multiset(Range(n))[i] == if i < n then 1 else 0
  {
    if n > 0 {
      RangeOccurrences(n - 1);
      assert Range(n) == Range(n - 1) + [n - 1];
      forall i: nat
        ensures multiset(Range(n))[i] == if i < n then 1 else 0
      {
        assert multiset(Range(n)) == multiset(Range(n - 1)) + multiset{(n - 1) as nat};
        assert multiset(Range(n - 1))[i] == if i < n - 1 then 1 else 0;
      }
    }
  }

  /** `linspace(0, N-1, N, pts_indices)`: a fresh list holding 0..N-1. */
  method Linspace(n: nat) returns (a: array<nat>)
    ensures fresh(a)
    ensures a[..] == Range(n)
  {
    a := new nat[n];
    var i := 0;
    while i < n
      invariant 0 <= i <= n
      invariant forall k :: 0 <= k < i ==> a[k] == k
    {
      a[i] := i;
      i := i + 1;
    }
  }

  /**
   * `random_shuffle` over the whole list: a Fisher-Yates pass in which step i
   * swaps entry i with entry rand(i) % (i + 1). The random draws are a
   * parameter, so the model promises only that the list is permuted.
   */
  method RandomShuffle(a: array<nat>, rand: nat -> nat)
    modifies a
    ensures multiset(a[..]) == old(multiset(a[..]))
  {
    if a.Length == 0 {
      return;
    }
    var i := 1;
    while i < a.Length
      invariant 1 <= i <= a.Length
      invariant multiset(a[..]) == old(multiset(a[..]))
    {
      var j := rand(i) % (i + 1);
      if i != j {
        a[i], a[j] := a[j], a[i];
      }
      i := i + 1;
    }
  }

  /** The index list 0..N-1 of src/dem-gmrf_main.cpp:125-129, built and then shuffled in place. */
  method ShuffledIndices(n: nat, rand: nat -> nat) returns (idx: array<nat>)
    ensures fresh(idx) && idx.Length == n
    ensures multiset(idx[..]) == multiset(Range(n))
  {
    idx := Linspace(n);
    RandomShuffle(idx, rand);
  }

  /**
   * Once the list is a permutation of 0..n-1, the inserted prefix
   * `s[..k]` and the checkpoint suffix `s[k..]` split the point indices: each
   * of 0..n-1 occurs exactly once in exactly one of them, and they hold no
   * other value.
   */
  lemma SplitIsPartition(s: seq<nat>, n: nat, k: nat)
    requires multiset(s) == multiset(Range(n))
    requires k <= |s|
    ensures |s| == n
    ensures forall i :: 0 <= i < n ==> multiset(s[..k])[i] + multiset(s[k..])[i] == 1
    ensures forall i :: 0 <= i < n ==> (i in s[..k] <==> i !in s[k..])
    ensures forall i :: i in s[..k] ==> i < n
    ensures forall i :: i in s[k..] ==> i < n
    ensures forall j :: 0 <= j < |s| ==> s[j] < n
  {
    RangeOccurrences(n);
    assert |multiset(s)| == |multiset(Range(n))|;
    assert s == s[..k] + s[k..];
    assert multiset(s) == multiset(s[..k]) + multiset(s[k..]);
    forall i | 0 <= i < n
      ensures multiset(s[..k])[i] + multiset(s[k..])[i] == 1
      ensures i in s[..k] <==> i !in s[k..]
    {
      assert multiset(s)[i] == 1;
    }
    forall i | i in s[..k]
      ensures i < n
    {
      assert multiset(s)[i] > 0;
    }
    forall i | i in s[k..]
      ensures i < n
    {
      assert multiset(s)[i] > 0;
    }
    forall j | 0 <= j < |s|
      ensures s[j] < n
    {
      assert multiset(s)[s[j]] > 0;
    }
  }

  /** One call of `insertIndividualReading`: height, position and the reading's standard deviation. */
  datatype Reading = Reading(x: real, y: real, z: real, stddev: real)

  /**
   * The insertion loop of src/dem-gmrf_main.cpp:165-184 (and the
   * `_pts_map.txt` loop at 241-246, which visits the same rows): the readings
   * handed to the map, in insertion order, one per entry of the inserted
   * prefix. A 3-column file gives every reading the global `--std-obs`
   * value, any wider file gives each reading its own column 3.
   */
  method CollectReadings(t: Table, stdObs: real, idx: array<nat>, nInsert: nat) returns (readings: seq<Reading>)
    requires t.Valid() && t.nCols >= 3
    requires nInsert <= idx.Length
    requires forall k :: 0 <= k < idx.Length ==> idx[k] < |t.rows|
    ensures |readings| == nInsert
    ensures forall k :: 0 <= k < nInsert ==>
              var row := t.rows[idx[k]];
              readings[k].x == row[0] && readings[k].y == row[1] && readings[k].z == row[2]
    ensures forall k :: 0 <= k < nInsert ==>
              readings[k].stddev == if t.nCols == 3 then stdObs else t.rows[idx[k]][3]
  {
    readings := [];
    var k := 0;
    while k < nInsert
      invariant 0 <= k <= nInsert
      invariant |readings| == k
      invariant forall j :: 0 <= j < k ==>
                  readings[j] == var row := t.rows[idx[j]];
                    Reading(row[0], row[1], row[2], if t.nCols == 3 then stdObs else row[3])
    {
      var i := idx[k];
      var row := t.rows[i];
      var readingStddev;
      if t.nCols == 3 {
        readingStddev := stdObs;
      } else {
        readingStddev := row[3];
      }
      readings := readings + [Reading(row[0], row[1], row[2], readingStddev)];
      k := k + 1;
    }
  }

  /**
   * The checkpoint loops of src/dem-gmrf_main.cpp:205-207 and 249-252: the points named by the
   * suffix `pts_indices[N_insert..N_insert + N_chk)`, in list order.
   */
  method CollectCheckpoints(t: Table, idx: array<nat>, nInsert: nat, nChk: nat) returns (chk: seq<Point>)
    requires t.Valid() && t.nCols >= 3
    requires nInsert + nChk == idx.Length
    requires forall k :: 0 <= k < idx.Length ==> idx[k] < |t.rows|
    ensures |chk| == nChk
    ensures forall k :: 0 <= k < nChk ==> chk[k] == PointOfRow(t.rows[idx[nInsert + k]])
  {
    chk := [];
    var k := 0;
    while k < nChk
      invariant 0 <= k <= nChk
      invariant |chk| == k
      invariant forall j :: 0 <= j < k ==> chk[j] == PointOfRow(t.rows[idx[nInsert + j]])
    {
      var i := idx[k + nInsert];
      chk := chk + [PointOfRow(t.rows[i])];
      k := k + 1;
    }
  }
}
