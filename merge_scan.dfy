/** The merge scan of find_deaths_criticals: one pass over the edges in the
    order given; an edge whose endpoints lie in different sets unites them
    and records its distance as an H0 death, any other edge is recorded as
    an H1-critical edge. */
module MergeScan {
  import opened Distances
  import opened UnionFind
  import opened Edges

  /** The forest (parents and set labels) and the two outputs so far. */
  datatype ScanState = ScanState(parent: seq<int>, rep: seq<int>, deaths: seq<real>, critical: seq<Edge>)

  /** The state a scan starts from: a forest and two empty outputs. */
  function Start(parent: seq<int>, rep: seq<int>): ScanState
  {
    ScanState(parent, rep, [], [])
  }

  predicate Consistent(st: ScanState)
  {
    |st.parent| == |st.rep| && Labels(st.rep)
  }

  /** Every edge joins two nodes of a forest of n nodes and has a table entry. */
  predicate Fits(es: seq<Edge>, table: Table, n: int)
  {
    forall k | 0 <= k < |es| :: 0 <= es[k].s < n && 0 <= es[k].t < n && InTable(table, es[k])
  }

  /** One iteration of the scan on edge e. The roots of its endpoints are
      their labels; when they differ, unite(sr, tr) re-parents the smaller
      root under the larger and table[s][t] is appended to the deaths,
      otherwise e is appended to the critical edges. */
  function Step(st: ScanState, e: Edge, table: Table): (r: ScanState)
    requires Consistent(st) && 0 <= e.s < |st.rep| && 0 <= e.t < |st.rep| && InTable(table, e)
    ensures Consistent(r) && |r.rep| == |st.rep|
    ensures r.rep[e.s] == r.rep[e.t]
    ensures st.rep[e.s] != st.rep[e.t] <==> |r.deaths| == |st.deaths| + 1
    ensures |r.deaths| + |r.critical| == |st.deaths| + |st.critical| + 1
    ensures Increasing(st.parent) ==> Increasing(r.parent)
  {
    var sr, tr := st.rep[e.s], st.rep[e.t];
    if sr != tr then
      var lo, hi := Min(sr, tr), Max(sr, tr);
      RelabelRoots(st.rep, lo, hi);
      ScanState(st.parent[lo := hi], Relabel(st.rep, lo, hi), st.deaths + [Weight(table, e)], st.critical)
    else
      ScanState(st.parent, st.rep, st.deaths, st.critical + [e])
  }

  /** The scan of es from st, one Step per edge in order. */
  function Scan(st: ScanState, es: seq<Edge>, table: Table): (r: ScanState)
    requires Consistent(st) && Fits(es, table, |st.rep|)
    ensures Consistent(r) && |r.rep| == |st.rep|
    decreases |es|
  {
    if es == [] then st
    else Step(Scan(st, es[..|es| - 1], table), es[|es| - 1], table)
  }

  /** deaths and critical split es in order: each edge of es lands in exactly
      one of them, an edge in deaths as its distance and an edge in critical
      as itself, and both keep the order of es. */
  ghost predicate Split(es: seq<Edge>, table: Table, deaths: seq<real>, critical: seq<Edge>)
    requires AllInTable(table, es)
    decreases |es|
  {
    if es == [] then deaths == [] && critical == []
    else
      var e, rest := es[|es| - 1], es[..|es| - 1];
      (deaths != [] && deaths[|deaths| - 1] == Weight(table, e) && Split(rest, table, deaths[..|deaths| - 1], critical))
      || (critical != [] && critical[|critical| - 1] == e && Split(rest, table, deaths, critical[..|critical| - 1]))
  }

  lemma FitsPrefix(es: seq<Edge>, table: Table, n: int, k: nat)
    requires Fits(es, table, n) && k <= |es|
    ensures Fits(es[..k], table, n) && AllInTable(table, es[..k])
  {
  }

  /** Every edge lands in exactly one output, in order. */
  lemma {:induction false} ScanSplits(st: ScanState, es: seq<Edge>, table: Table)
    requires Consistent(st) && Fits(es, table, |st.rep|)
    requires st.deaths == [] && st.critical == []
    ensures AllInTable(table, es) && Split(es, table, Scan(st, es, table).deaths, Scan(st, es, table).critical)
    decreases |es|
  {
    if es != [] {
      var rest := es[..|es| - 1];
      ScanSplits(st, rest, table);
      var prev := Scan(st, rest, table);
      var r := Scan(st, es, table);
      assert r == Step(prev, es[|es| - 1], table);
      if r.deaths == prev.deaths + [Weight(table, es[|es| - 1])] {
        assert r.deaths[..|r.deaths| - 1] == prev.deaths;
      } else {
        assert r.critical[..|r.critical| - 1] == prev.critical;
      }
    }
  }

  /** A split has one output entry per edge. */
  lemma {:induction false} SplitSizes(es: seq<Edge>, table: Table, deaths: seq<real>, critical: seq<Edge>)
    requires AllInTable(table, es) && Split(es, table, deaths, critical)
    ensures |deaths| + |critical| == |es|
    decreases |es|
  {
    if es != [] {
      var rest := es[..|es| - 1];
      assert AllInTable(table, rest);
      if deaths != [] && deaths[|deaths| - 1] == Weight(table, es[|es| - 1]) && Split(rest, table, deaths[..|deaths| - 1], critical) {
        SplitSizes(rest, table, deaths[..|deaths| - 1], critical);
      } else {
        SplitSizes(rest, table, deaths, critical[..|critical| - 1]);
      }
    }
  }

  /** A death recorded from es is at most any bound on the weights of es. */
  lemma {:induction false} SplitDeathsBounded(es: seq<Edge>, table: Table, deaths: seq<real>, critical: seq<Edge>, bound: real)
    requires AllInTable(table, es) && Split(es, table, deaths, critical)
    requires forall k | 0 <= k < |es| :: Weight(table, es[k]) <= bound
    ensures forall k | 0 <= k < |deaths| :: deaths[k] <= bound
    decreases |es|
  {
    if es != [] {
      var rest := es[..|es| - 1];
      assert AllInTable(table, rest);
      if deaths != [] && deaths[|deaths| - 1] == Weight(table, es[|es| - 1]) && Split(rest, table, deaths[..|deaths| - 1], critical) {
        SplitDeathsBounded(rest, table, deaths[..|deaths| - 1], critical, bound);
      } else {
        SplitDeathsBounded(rest, table, deaths, critical[..|critical| - 1], bound);
      }
    }
  }

  /** The deaths split from edges sorted by weight are sorted. */
  lemma {:induction false} SplitDeathsSorted(es: seq<Edge>, table: Table, deaths: seq<real>, critical: seq<Edge>)
    requires AllInTable(table, es) && Split(es, table, deaths, critical)
    requires SortedByWeight(table, es)
    ensures forall a, b | 0 <= a < b < |deaths| :: deaths[a] <= deaths[b]
    decreases |es|
  {
    if es != [] {
      var rest, last := es[..|es| - 1], es[|es| - 1];
      assert AllInTable(table, rest) && SortedByWeight(table, rest);
      if deaths != [] && deaths[|deaths| - 1] == Weight(table, last) && Split(rest, table, deaths[..|deaths| - 1], critical) {
        var init := deaths[..|deaths| - 1];
        SplitDeathsSorted(rest, table, init, critical);
        SplitDeathsBounded(rest, table, init, critical, Weight(table, last));
      } else {
        SplitDeathsSorted(rest, table, deaths, critical[..|critical| - 1]);
      }
    }
  }

  /** After the scan, the two endpoints of every edge scanned share a set. */
  lemma {:induction false} ScanJoinsEndpoints(st: ScanState, es: seq<Edge>, table: Table)
    requires Consistent(st) && Fits(es, table, |st.rep|)
    ensures forall k | 0 <= k < |es| :: Scan(st, es, table).rep[es[k].s] == Scan(st, es, table).rep[es[k].t]
    decreases |es|
  {
    if es != [] {
      var rest, e := es[..|es| - 1], es[|es| - 1];
      ScanJoinsEndpoints(st, rest, table);
      var prev := Scan(st, rest, table);
      var r := Scan(st, es, table);
      assert r == Step(prev, e, table);
      forall k | 0 <= k < |es|
        ensures r.rep[es[k].s] == r.rep[es[k].t]
      {
        if k < |es| - 1 {
          assert es[k] == rest[k];
        }
      }
    }
  }

  /** Each merge removes exactly one set: deaths plus sets is constant. */
  lemma {:induction false} ScanCountsMerges(st: ScanState, es: seq<Edge>, table: Table)
    requires Consistent(st) && Fits(es, table, |st.rep|)
    ensures |Scan(st, es, table).deaths| + |Roots(Scan(st, es, table).rep)| == |st.deaths| + |Roots(st.rep)|
    decreases |es|
  {
    if es != [] {
      var rest, e := es[..|es| - 1], es[|es| - 1];
      ScanCountsMerges(st, rest, table);
      var prev := Scan(st, rest, table);
      var sr, tr := prev.rep[e.s], prev.rep[e.t];
      if sr != tr {
        RelabelRoots(prev.rep, Min(sr, tr), Max(sr, tr));
      }
    }
  }

  /** The scan only links a smaller root under a larger one: links that
      point upwards stay so, and so does every label being at least its
      node, i.e. each root is the largest index of its set. */
  lemma {:induction false} ScanKeepsLinksUpward(st: ScanState, es: seq<Edge>, table: Table)
    requires Consistent(st) && Fits(es, table, |st.rep|)
    requires Increasing(st.parent) && Increasing(st.rep)
    ensures Increasing(Scan(st, es, table).parent) && Increasing(Scan(st, es, table).rep)
    decreases |es|
  {
    if es != [] {
      ScanKeepsLinksUpward(st, es[..|es| - 1], table);
    }
  }

  /** When every pair of nodes is among the edges, a scan ends with one set
      (none when there are no nodes). */
  lemma AllPairsLeaveOneSet(st: ScanState, es: seq<Edge>, table: Table)
    requires Consistent(st) && Fits(es, table, |st.rep|)
    requires forall i, j | 0 <= i < j < |st.rep| :: Edge(i, j) in es
    ensures |Roots(Scan(st, es, table).rep)| == if |st.rep| == 0 then 0 else 1
  {
    var rep := Scan(st, es, table).rep;
    ScanJoinsEndpoints(st, es, table);
    if |rep| > 0 {
      forall i | 0 < i < |rep|
        ensures rep[i] == rep[0]
      {
        assert Edge(0, i) in es;
        var k :| 0 <= k < |es| && es[k] == Edge(0, i);
      }
      assert Roots(rep) == {rep[0]};
    } else {
      assert Roots(rep) == {};
    }
  }

  /** The H0 barcode of single linkage: scanning all pairs of n points from n
      singletons gives n - 1 deaths (none for no points), in non-decreasing
      order when the pairs are sorted by distance, and every other pair is
      H1-critical. */
  lemma Barcode(n: nat, es: seq<Edge>, table: Table)
    requires multiset(es) == multiset(AllPairs(n)) && Covers(table, n)
    ensures Fits(es, table, n)
    ensures var r := Scan(Start(Identity(n), Identity(n)), es, table);
      && |r.deaths| == (if n == 0 then 0 else n - 1)
      && |r.deaths| + |r.critical| == |es| == n * (n - 1) / 2
      && Split(es, table, r.deaths, r.critical)
      && (SortedByWeight(table, es) ==> forall a, b | 0 <= a < b < |r.deaths| :: r.deaths[a] <= r.deaths[b])
  {
    AllPairsShape(n);
    forall e | e in es
      ensures 0 <= e.s < e.t < n
    {
      assert e in multiset(es);
    }
    forall i, j | 0 <= i < j < n
      ensures Edge(i, j) in es
    {
      assert Edge(i, j) in multiset(AllPairs(n));
    }
    assert |es| == |multiset(es)| == |AllPairs(n)|;
    var st := Start(Identity(n), Identity(n));
    IdentityRoots(n);
    assert Fits(es, table, n);
    var r := Scan(st, es, table);
    ScanCountsMerges(st, es, table);
    AllPairsLeaveOneSet(st, es, table);
    ScanSplits(st, es, table);
    SplitSizes(es, table, r.deaths, r.critical);
    if SortedByWeight(table, es) {
      SplitDeathsSorted(es, table, r.deaths, r.critical);
    }
  }

  /** find_deaths_criticals: the scan of edges over forest, in place. The
      outputs and the new forest are those of Scan; the forest stays valid. */
  method FindDeathsCriticals(forest: Forest, edges: seq<Edge>, table: Table) returns (deaths: seq<real>, critical: seq<Edge>)
    requires forest.Valid() && Fits(edges, table, forest.parent.Length)
    modifies forest, forest.parent
    ensures forest.Valid() && forest.parent == old(forest.parent)
    ensures Consistent(Start(old(forest.parent[..]), old(forest.rep)))
    ensures var r := Scan(Start(old(forest.parent[..]), old(forest.rep)), edges, table);
      deaths == r.deaths && critical == r.critical && forest.parent[..] == r.parent && forest.rep == r.rep
  {
    RankedLabels(forest.parent[..], forest.rep, forest.depth);
    ghost var st := Start(forest.parent[..], forest.rep);
    deaths, critical := [], [];
    var k := 0;
    while k < |edges|
      invariant 0 <= k <= |edges|
      invariant forest.Valid() && forest.parent == old(forest.parent)
      invariant Consistent(st) && |st.rep| == forest.parent.Length
      invariant Scan(st, edges[..k], table) == ScanState(forest.parent[..], forest.rep, deaths, critical)
    {
      var e := edges[k];
      FitsPrefix(edges, table, |st.rep|, k + 1);
      assert edges[..k + 1][..k] == edges[..k];
      ghost var prev := ScanState(forest.parent[..], forest.rep, deaths, critical);
      assert Scan(st, edges[..k + 1], table) == Step(prev, e, table);
      var sr := forest.Find(e.s);
      var tr := forest.Find(e.t);
      RankedLabels(forest.parent[..], forest.rep, forest.depth);
      assert sr == prev.rep[e.s] && tr == prev.rep[e.t];
      assert prev.rep[sr] == sr && prev.rep[tr] == tr;
      if sr != tr {
        forest.Unite(sr, tr);
        assert forest.parent[..] == prev.parent[Min(sr, tr) := Max(sr, tr)];
        assert forest.rep == Relabel(prev.rep, Min(sr, tr), Max(sr, tr));
        deaths := deaths + [table[e.s][e.t]];
      } else {
        critical := critical + [e];
      }
      assert Step(prev, e, table) == ScanState(forest.parent[..], forest.rep, deaths, critical);
      k := k + 1;
    }
    assert edges[..|edges|] == edges;
  }
}
