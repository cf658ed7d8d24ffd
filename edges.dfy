/** The edge enumerator and sorter: every pair (i, j) with i < j, listed row
    by row and then ordered by its entry in the distance table. */
module Edges {
  import opened Distances

  /** A candidate edge of the complete graph on the points: the pair (s, t). */
  datatype Edge = Edge(s: int, t: int)

  /** The table holds an entry for e. */
  predicate InTable(table: Table, e: Edge)
  {
    0 <= e.s < |table| && 0 <= e.t < |table[e.s]|
  }

  predicate AllInTable(table: Table, es: seq<Edge>)
  {
    forall k | 0 <= k < |es| :: InTable(table, es[k])
  }

  /** The distance an edge is ranked by: table[s][t]. */
  function Weight(table: Table, e: Edge): real
    requires InTable(table, e)
  {
    table[e.s][e.t]
  }

  /** es is in non-decreasing order of weight. */
  ghost predicate SortedByWeight(table: Table, es: seq<Edge>)
    requires AllInTable(table, es)
  {
    forall a, b | 0 <= a < b < |es| :: Weight(table, es[a]) <= Weight(table, es[b])
  }

  /** The table has an entry for every pair i < j < n: at least n rows, and
      every row but the last has at least n entries. */
  predicate Covers(table: Table, n: int)
  {
    n <= |table| && forall i | 0 <= i < n - 1 :: n <= |table[i]|
  }

  /** Row i of the enumeration: (i, i+1), ..., (i, n-1). */
  function Row(i: int, n: int): (r: seq<Edge>)
    requires i < n
    ensures |r| == n - i - 1
  {
    seq(n - i - 1, k => Edge(i, i + 1 + k))
  }

  /** The first m rows of the enumeration of pairs below n. */
  function PairsBelow(m: nat, n: nat): seq<Edge>
    requires m <= n
  {
    if m == 0 then [] else PairsBelow(m - 1, n) + Row(m - 1, n)
  }

  /** Every pair i < j < n, in the order "for i, for j > i". */
  function AllPairs(n: nat): seq<Edge>
  {
    PairsBelow(n, n)
  }

  /** e comes before f in the order of the enumeration. */
  predicate LexLess(e: Edge, f: Edge)
  {
    e.s < f.s || (e.s == f.s && e.t < f.t)
  }

  /** The first m rows hold m * (2n - m - 1) / 2 pairs. */
  lemma {:induction false} PairsBelowLength(m: nat, n: nat)
    requires m <= n
    ensures 2 * |PairsBelow(m, n)| == m * (2 * n - m - 1)
  {
    if m > 0 {
      PairsBelowLength(m - 1, n);
      assert |PairsBelow(m, n)| == |PairsBelow(m - 1, n)| + (n - m);
      assert (m - 1) * (2 * n - m) + 2 * (n - m) == m * (2 * n - m - 1);
    }
  }

  /** The first m rows hold exactly the pairs i < j < n with i < m. */
  lemma {:induction false} PairsBelowMembers(m: nat, n: nat)
    requires m <= n
    ensures forall k | 0 <= k < |PairsBelow(m, n)| :: 0 <= PairsBelow(m, n)[k].s < m && PairsBelow(m, n)[k].s < PairsBelow(m, n)[k].t < n
    ensures forall i, j | 0 <= i < m && i < j < n :: Edge(i, j) in PairsBelow(m, n)
  {
    if m > 0 {
      PairsBelowMembers(m - 1, n);
      var prev, row := PairsBelow(m - 1, n), Row(m - 1, n);
      var ps := prev + row;
      assert ps == PairsBelow(m, n);
      forall k | 0 <= k < |ps|
        ensures 0 <= ps[k].s < m && ps[k].s < ps[k].t < n
      {
        if k >= |prev| {
          assert ps[k] == row[k - |prev|];
        }
      }
      forall i, j | 0 <= i < m && i < j < n
        ensures Edge(i, j) in ps
      {
        if i == m - 1 {
          assert row[j - i - 1] == Edge(i, j);
          assert ps[|prev| + (j - i - 1)] == Edge(i, j);
        } else {
          assert Edge(i, j) in prev;
        }
      }
    }
  }

  /** The first m rows are in strictly increasing order, so each pair
      occurs once. */
  lemma {:induction false} PairsBelowOrdered(m: nat, n: nat)
    requires m <= n
    ensures forall a, b | 0 <= a < b < |PairsBelow(m, n)| :: LexLess(PairsBelow(m, n)[a], PairsBelow(m, n)[b])
  {
    if m > 0 {
      PairsBelowOrdered(m - 1, n);
      PairsBelowMembers(m - 1, n);
      var prev, row := PairsBelow(m - 1, n), Row(m - 1, n);
      var ps := prev + row;
      assert ps == PairsBelow(m, n);
      forall a, b | 0 <= a < b < |ps|
        ensures LexLess(ps[a], ps[b])
      {
        if b < |prev| {
          assert ps[a] == prev[a] && ps[b] == prev[b];
        } else if a < |prev| {
          assert ps[a] == prev[a] && ps[b] == row[b - |prev|];
        } else {
          assert ps[a] == row[a - |prev|] && ps[b] == row[b - |prev|];
        }
      }
    }
  }

  /** The enumeration before sorting: n(n-1)/2 pairs, exactly the pairs
      i < j < n, each once. */
  lemma AllPairsShape(n: nat)
    ensures |AllPairs(n)| == n * (n - 1) / 2
    ensures forall e :: e in AllPairs(n) <==> 0 <= e.s < e.t < n
    ensures forall a, b | 0 <= a < b < |AllPairs(n)| :: AllPairs(n)[a] != AllPairs(n)[b]
  {
    PairsBelowLength(n, n);
    PairsBelowMembers(n, n);
    PairsBelowOrdered(n, n);
    assert 2 * |AllPairs(n)| == n * (n - 1);
    forall e | e in AllPairs(n)
      ensures 0 <= e.s < e.t < n
    {
      var k :| 0 <= k < |AllPairs(n)| && AllPairs(n)[k] == e;
    }
  }

  /** The nested loops of sorted_edges: for i < n, for i < j < n, push (i, j). */
  method EnumeratePairs(n: nat) returns (edges: seq<Edge>)
    ensures edges == AllPairs(n)
  {
    edges := [];
    var i := 0;
    while i < n
      invariant 0 <= i <= n
      invariant edges == PairsBelow(i, n)
    {
      var j := i + 1;
      while j < n
        invariant i + 1 <= j <= n
        invariant edges == PairsBelow(i, n) + Row(i, n)[..j - i - 1]
      {
        assert Row(i, n)[..j - i] == Row(i, n)[..j - i - 1] + [Edge(i, j)];
        edges := edges + [Edge(i, j)];
        j := j + 1;
      }
      assert Row(i, n)[..n - i - 1] == Row(i, n);
      i := i + 1;
    }
  }

  /** The in-place std::sort of sorted_edges, keyed by table[s][t]. Only
      what the key comparison fixes is promised: sorted by weight and a
      permutation of the input; the order among equal weights is left open. */
  method SortByWeight(a: array<Edge>, table: Table)
    requires AllInTable(table, a[..])
    modifies a
    ensures AllInTable(table, a[..]) && SortedByWeight(table, a[..])
    ensures multiset(a[..]) == multiset(old(a[..]))
  {
    if a.Length == 0 {
      return;
    }
    var i := 1;
    while i < a.Length
      invariant 1 <= i <= a.Length
      invariant AllInTable(table, a[..])
      invariant SortedPrefix(table, a[..], i)
      invariant multiset(a[..]) == multiset(old(a[..]))
    {
      InsertLast(a, i, table);
      i := i + 1;
    }
  }

  /** The first i edges of es are in non-decreasing order of weight. */
  ghost predicate SortedPrefix(table: Table, es: seq<Edge>, i: int)
    requires AllInTable(table, es)
  {
    forall x, y | 0 <= x < y < i && y < |es| :: Weight(table, es[x]) <= Weight(table, es[y])
  }

  /** One pass of the insertion sort: a[i] moves down past the heavier
      edges before it, so the first i + 1 edges end up sorted. */
  method InsertLast(a: array<Edge>, i: int, table: Table)
    requires 0 < i < a.Length
    requires AllInTable(table, a[..]) && SortedPrefix(table, a[..], i)
    modifies a
    ensures AllInTable(table, a[..]) && SortedPrefix(table, a[..], i + 1)
    ensures multiset(a[..]) == multiset(old(a[..]))
  {
    var j := i;
    while j > 0 && Weight(table, a[j - 1]) > Weight(table, a[j])
      invariant 0 <= j <= i
      invariant AllInTable(table, a[..]) && Sinking(table, a[..], i, j)
      invariant multiset(a[..]) == multiset(old(a[..]))
    {
      SwapKeepsSinking(table, a[..], i, j);
      a[j - 1], a[j] := a[j], a[j - 1];
      j := j - 1;
    }
    SunkIsSorted(table, a[..], i, j);
  }

  /** The state of the inner loop of InsertLast: the edge being inserted
      sits at j, is no heavier than anything after it up to i, and the
      other edges up to i are in order. */
  ghost predicate Sinking(table: Table, es: seq<Edge>, i: int, j: int)
    requires AllInTable(table, es) && 0 <= j <= i < |es|
  {
    (forall x, y | 0 <= x < y <= i && x != j && y != j :: Weight(table, es[x]) <= Weight(table, es[y])) &&
    (forall y | j < y <= i :: Weight(table, es[j]) <= Weight(table, es[y]))
  }

  /** Swapping the edge at j with a heavier predecessor moves it one place
      down and keeps the state of the inner loop. */
  lemma SwapKeepsSinking(table: Table, es: seq<Edge>, i: int, j: int)
    requires AllInTable(table, es) && 0 < j <= i < |es| && Sinking(table, es, i, j)
    requires Weight(table, es[j - 1]) > Weight(table, es[j])
    ensures AllInTable(table, es[j - 1 := es[j]][j := es[j - 1]])
    ensures Sinking(table, es[j - 1 := es[j]][j := es[j - 1]], i, j - 1)
    ensures multiset(es[j - 1 := es[j]][j := es[j - 1]]) == multiset(es)
  {
    var t := es[j - 1 := es[j]][j := es[j - 1]];
    assert AllInTable(table, t) by {
      forall k | 0 <= k < |t|
        ensures InTable(table, t[k])
      {
        assert t[k] == es[k] || t[k] == es[j] || t[k] == es[j - 1];
      }
    }
    forall x, y | 0 <= x < y <= i && x != j - 1 && y != j - 1
      ensures Weight(table, t[x]) <= Weight(table, t[y])
    {
      if x == j {
        assert t[x] == es[j - 1];
      } else if y == j {
        assert t[y] == es[j - 1] && t[x] == es[x];
      }
    }
    forall y | j - 1 < y <= i
      ensures Weight(table, t[j - 1]) <= Weight(table, t[y])
    {
      assert t[j - 1] == es[j];
    }
  }

  /** When the inserted edge is no lighter than its predecessor, or is
      first, the first i + 1 edges are sorted. */
  lemma SunkIsSorted(table: Table, es: seq<Edge>, i: int, j: int)
    requires AllInTable(table, es) && 0 <= j <= i < |es| && Sinking(table, es, i, j)
    requires j == 0 || Weight(table, es[j - 1]) <= Weight(table, es[j])
    ensures SortedPrefix(table, es, i + 1)
  {
    forall x, y | 0 <= x < y <= i
      ensures Weight(table, es[x]) <= Weight(table, es[y])
    {
      if y == j && x < j - 1 {
        assert Weight(table, es[x]) <= Weight(table, es[j - 1]);
      } else if x == j - 1 && y > j {
        assert Weight(table, es[j]) <= Weight(table, es[y]);
      }
    }
  }

  /** sorted_edges with the enumeration bounded by n: the pairs i < j < n,
      each once, in non-decreasing order of table[i][j]. */
  method SortedEdgesBelow(table: Table, n: nat) returns (edges: seq<Edge>)
    requires Covers(table, n)
    ensures multiset(edges) == multiset(AllPairs(n))
    ensures |edges| == n * (n - 1) / 2
    ensures forall e :: e in edges <==> 0 <= e.s < e.t < n
    ensures AllInTable(table, edges) && SortedByWeight(table, edges)
  {
    var pairs := EnumeratePairs(n);
    AllPairsShape(n);
    var a := new Edge[|pairs|](k requires 0 <= k < |pairs| => pairs[k]);
    assert a[..] == pairs;
    SortByWeight(a, table);
    edges := a[..];
    assert |edges| == |multiset(edges)| == |multiset(pairs)| == |pairs|;
    forall e
      ensures e in edges <==> e in pairs
    {
      assert e in edges <==> e in multiset(edges);
      assert e in pairs <==> e in multiset(pairs);
    }
  }

  /** sorted_edges of the library: the enumeration runs over the rows of the
      table itself. */
  method SortedEdges(table: Table) returns (edges: seq<Edge>)
    requires Covers(table, |table|)
    ensures multiset(edges) == multiset(AllPairs(|table|))
    ensures |edges| == |table| * (|table| - 1) / 2
    ensures forall e :: e in edges <==> 0 <= e.s < e.t < |table|
    ensures AllInTable(table, edges) && SortedByWeight(table, edges)
  {
    edges := SortedEdgesBelow(table, |table|);
  }
}
