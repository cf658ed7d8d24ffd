/** The distance oracle: squared Euclidean distance between two points of the
    cloud, and the full N x N table the rest of the pipeline reads. */
module Distances {

  /** One row of the caller's point table: its two coordinates. */
  datatype Point = Point(x: real, y: real)

  /** A table of distances, row by row. */
  type Table = seq<seq<real>>

  /** Squared Euclidean distance between points ix and iy of data (no square
      root: ordering by it is ordering by the true distance). */
  function Dist2(data: seq<Point>, ix: int, iy: int): (r: real)
    requires 0 <= ix < |data| && 0 <= iy < |data|
    ensures r >= 0.0
    ensures ix == iy ==> r == 0.0
  {
    var dx := data[ix].x - data[iy].x;
    var dy := data[ix].y - data[iy].y;
    dx * dx + dy * dy
  }

  /** The distance between two points does not depend on their order. */
  lemma Dist2Symmetric(data: seq<Point>, ix: int, iy: int)
    requires 0 <= ix < |data| && 0 <= iy < |data|
    ensures Dist2(data, ix, iy) == Dist2(data, iy, ix)
  {
    var dx := data[ix].x - data[iy].x;
    var dy := data[ix].y - data[iy].y;
    assert (-dx) * (-dx) == dx * dx;
    assert (-dy) * (-dy) == dy * dy;
  }

  /** table is the npts x npts table of Dist2 over the first npts points. */
  ghost predicate IsDistanceTable(table: Table, data: seq<Point>)
  {
    |table| <= |data| &&
    (forall i | 0 <= i < |table| :: |table[i]| == |table|) &&
    (forall i, j | 0 <= i < |table| && 0 <= j < |table| :: table[i][j] == Dist2(data, i, j))
  }

  /** Builds the table row by row, one Dist2 per cell, as the nested
      push_back loops do. A negative npts yields the empty table. */
  method MakeDistances(data: seq<Point>, npts: int) returns (table: Table)
    requires npts <= |data|
    ensures |table| == (if npts < 0 then 0 else npts)
    ensures forall i | 0 <= i < |table| :: |table[i]| == |table|
    ensures forall i, j | 0 <= i < |table| && 0 <= j < |table| :: table[i][j] == Dist2(data, i, j)
  {
    table := [];
    var i := 0;
    while i < npts
      invariant 0 <= i && (i <= npts || i == 0)
      invariant |table| == i
      invariant forall r | 0 <= r < i :: |table[r]| == npts
      invariant forall r, c | 0 <= r < i && 0 <= c < npts :: table[r][c] == Dist2(data, r, c)
    {
      var row: seq<real> := [];
      var j := 0;
      while j < npts
        invariant 0 <= j <= npts
        invariant |row| == j
        invariant forall c | 0 <= c < j :: row[c] == Dist2(data, i, c)
      {
        row := row + [Dist2(data, i, j)];
        j := j + 1;
      }
      table := table + [row];
      i := i + 1;
    }
  }

  /** Over exact arithmetic the table has a zero diagonal, is symmetric and
      is non-negative. */
  lemma DistanceTableProperties(table: Table, data: seq<Point>)
    requires IsDistanceTable(table, data)
    ensures forall i | 0 <= i < |table| :: table[i][i] == 0.0
    ensures forall i, j | 0 <= i < |table| && 0 <= j < |table| :: table[i][j] == table[j][i]
    ensures forall i, j | 0 <= i < |table| && 0 <= j < |table| :: table[i][j] >= 0.0
  {
    forall i, j | 0 <= i < |table| && 0 <= j < |table|
      ensures table[i][j] == table[j][i]
    {
      Dist2Symmetric(data, i, j);
    }
  }
}
