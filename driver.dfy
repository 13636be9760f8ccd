/**
 * The part of `dem_gmrf_main` that runs before and around the GMRF estimator:
 * validate the table, find the bounding box, shuffle the point indices and
 * split them into the readings inserted into the DEM map and the checkpoints
 * held back for validation.
 */
module Driver {
  import opened Dataset
  import opened BoundingBox
  import opened Checkpoints

  /**
   * What the driver hands to the estimator and the output files: the widened
   * box given to `setSize`, the split sizes, the inserted and checkpoint index
   * lists, the readings in insertion order and the checkpoint points.
   */
  datatype Plan = Plan(
    box: Box,
    nInsert: nat,
    nChk: nat,
    inserted: seq<nat>,
    checkpoints: seq<nat>,
    readings: seq<Reading>,
    chkPoints: seq<Point>)

  /**
   * Steps [1]-[3] and the index loops of steps [5], [7] and [9]. A table
   * narrower than three columns is rejected first, then a ratio outside
   * [0, 1]. Otherwise every row index lands exactly once in exactly one of
   * the two lists, the inserted list is N - round(ratio * N) long, and each
   * reading and checkpoint carries the coordinates (and, for readings, the
   * standard deviation) of the row it names.
   */
  method PrepareRun(t: Table, stdObs: real, ratio: real, rand: nat -> nat) returns (res: Result<Plan>)
    requires t.Valid()
    ensures t.nCols < 3 ==> res == Err(TooFewColumns(t.nCols))
    ensures t.nCols >= 3 && !(0.0 <= ratio <= 1.0) ==> res == Err(RatioOutOfRange(ratio))
    ensures res.Ok? <==> t.nCols >= 3 && 0.0 <= ratio <= 1.0
    ensures res.Ok? && t.nCols >= 3 ==>
              res.value.box == Widen(RawExtent(Points(t)), Border)
    ensures res.Ok? ==>
              var p, n := res.value, |t.rows|;
              p.nChk == RoundHalfUp(ratio * n as real) && p.nInsert + p.nChk == n &&
              |p.inserted| == p.nInsert && |p.checkpoints| == p.nChk
    ensures res.Ok? ==>
              var p, n := res.value, |t.rows|;
              (forall i :: 0 <= i < n ==> multiset(p.inserted)[i] + multiset(p.checkpoints)[i] == 1) &&
              (forall i :: i in p.inserted ==> i < n) &&
              (forall i :: i in p.checkpoints ==> i < n)
    ensures res.Ok? ==>
              var p := res.value;
              |p.readings| == |p.inserted| &&
              forall k :: 0 <= k < |p.readings| ==>
                p.inserted[k] < |t.rows| &&
                var row := t.rows[p.inserted[k]];
                p.readings[k] == Reading(row[0], row[1], row[2], if t.nCols == 3 then stdObs else row[3])
    ensures res.Ok? ==>
              var p := res.value;
              |p.chkPoints| == |p.checkpoints| &&
              forall k :: 0 <= k < |p.chkPoints| ==>
                p.checkpoints[k] < |t.rows| && p.chkPoints[k] == PointOfRow(t.rows[p.checkpoints[k]])
  {
    if t.nCols < 3 {
      return Err(TooFewColumns(t.nCols));
    }
    var n := |t.rows|;
    var box := ScanBoundingBox(Points(t));
    var counts := SplitCounts(ratio, n);
    if counts.Err? {
      return Err(counts.error);
    }
    var idx := ShuffledIndices(n, rand);
    var nInsert, nChk := counts.value.0, counts.value.1;
    SplitIsPartition(idx[..], n, nInsert);
    var readings := CollectReadings(t, stdObs, idx, nInsert);
    var chkPoints := CollectCheckpoints(t, idx, nInsert, nChk);
    var inserted, checkpoints := idx[..nInsert], idx[nInsert..];
    assert idx[..][..nInsert] == inserted && idx[..][nInsert..] == checkpoints;
    res := Ok(Plan(box, nInsert, nChk, inserted, checkpoints, readings, chkPoints));
  }
}
