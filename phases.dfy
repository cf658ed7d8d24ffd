/** The seven points that the two script versions hard-code: the corners of
    the unit square, its centre, and two points on a diagonal. */
module Sample {
  import opened Distances

  const SampleData: seq<Point> := [
    Point(1.0, 0.0), Point(1.0, 1.0), Point(0.0, 1.0), Point(0.0, 0.0),
    Point(0.5, 0.5), Point(0.75, 0.25), Point(0.25, 0.75)
  ]
}

/** The second script version: the library's functions, except that dist2
    reads the global sample instead of its data argument and sorted_edges
    enumerates pairs up to the sample's size rather than the table's. */
module Phase2 {
  import Distances
  import opened Edges
  import opened UnionFind
  import opened MergeScan
  import opened Sample

  /** make_distances of the script: the table is built from the global
      sample whatever data is passed. */
  method MakeDistances(data: seq<Distances.Point>, npts: int) returns (table: Distances.Table)
    requires npts <= |SampleData|
    ensures |table| == (if npts < 0 then 0 else npts)
    ensures forall i | 0 <= i < |table| :: |table[i]| == |table|
    ensures forall i, j | 0 <= i < |table| && 0 <= j < |table| :: table[i][j] == Distances.Dist2(SampleData, i, j)
  {
    table := Distances.MakeDistances(SampleData, npts);
  }

  /** sorted_edges of the script: the pairs below the sample's size (7, so
      21 pairs), whatever the size of the table, sorted by distance. */
  method SortedEdges(table: Distances.Table) returns (edges: seq<Edge>)
    requires Covers(table, |SampleData|)
    ensures multiset(edges) == multiset(AllPairs(|SampleData|))
    ensures |edges| == 21
    ensures forall e :: e in edges <==> 0 <= e.s < e.t < 7
    ensures AllInTable(table, edges) && SortedByWeight(table, edges)
  {
    edges := SortedEdgesBelow(table, |SampleData|);
  }

  /** main without its printing: the seven-point sample has 6 H0 deaths, in
      non-decreasing order, and 15 H1-critical edges. */
  method Run() returns (deaths: seq<real>, critical: seq<Edge>)
    ensures |deaths| == 6 && |critical| == 15
    ensures forall a, b | 0 <= a < b < |deaths| :: deaths[a] <= deaths[b]
  {
    var nodes := new Forest(|SampleData|);
    var table := MakeDistances(SampleData, |SampleData|);
    assert Covers(table, 7);
    var edges := SortedEdges(table);
    assert nodes.parent[..] == Identity(7);
    Barcode(7, edges, table);
    deaths, critical := FindDeathsCriticals(nodes, edges, table);
  }
}

/** The first script version: everything inline in main, over the global
    sample. Node creation and the distance rows share one loop there; neither
    reads the other, so they are built one after the other here. */
module Phase1 {
  import Distances
  import opened Edges
  import opened UnionFind
  import opened MergeScan
  import opened Sample

  /** main without its printing: 6 H0 deaths in non-decreasing order and 15
      H1-critical edges. */
  method Run() returns (deaths: seq<real>, critical: seq<Edge>)
    ensures |deaths| == 6 && |critical| == 15
    ensures forall a, b | 0 <= a < b < |deaths| :: deaths[a] <= deaths[b]
  {
    var nodes := new Forest(|SampleData|);
    var table := Distances.MakeDistances(SampleData, |SampleData|);
    assert Covers(table, 7);
    var edges := SortedEdgesBelow(table, 7);
    assert nodes.parent[..] == Identity(7);
    Barcode(7, edges, table);
    deaths, critical := FindDeathsCriticals(nodes, edges, table);
  }
}
