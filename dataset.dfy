/**
 * The input point table of dem-gmrf: a plain-text numeric matrix whose rows
 * are `x y z` or `x y z stddev`, and the errors the driver raises on it.
 */
module Dataset {

  /** The largest finite IEEE-754 double, (2^53 - 1) * 2^971, written out exactly. */
  const DoubleMax: real := 179769313486231570814527423731704356798070567525844996598917476803157260780028538760589558632766878171540458953514382464234321326889464182768467546703537516986049910576551282076245490090389328944075868508455133942304583236903222948165808559332123348274797826204144723168738177180919299881250404026184124858368.0

  /** One 3D sample, as read from the first three columns of a row. */
  datatype Point = Point(x: real, y: real, z: real)

  /** The loaded matrix: `rows` in file order, every one of them `nCols` wide. */
  datatype Table = Table(rows: seq<seq<real>>, nCols: nat) {
    predicate Valid() {
      forall i :: 0 <= i < |rows| ==> |rows[i]| == nCols
    }
  }

  /** The reasons the driver stops: a matrix narrower than `x y z`, or a checkpoint ratio outside [0, 1]. */
  datatype Error = TooFewColumns(nCols: nat) | RatioOutOfRange(ratio: real)

  datatype Result<T> = Ok(value: T) | Err(error: Error)

  function PointOfRow(row: seq<real>): (p: Point)
    requires |row| >= 3
  {
    Point(row[0], row[1], row[2])
  }

  /** The points of all rows, in file order. */
  function Points(t: Table): (pts: seq<Point>)
    requires t.Valid() && t.nCols >= 3
    ensures |pts| == |t.rows|
    ensures forall i :: 0 <= i < |pts| ==> pts[i] == PointOfRow(t.rows[i])
  {
    seq(|t.rows|, i requires 0 <= i < |t.rows| => PointOfRow(t.rows[i]))
  }
}
