/** The disjoint-set forest of the H0 computation, as an index arena: node i
    is the node whose dataindex is i, and parent[i] is the index of its parent.
    There is no path compression and no union by rank. */
module UnionFind {

  function Min(a: int, b: int): int { if a <= b then a else b }

  function Max(a: int, b: int): int { if a <= b then b else a }

  /** The ghost abstraction of a forest p: rep[i] is the root that node i's
      parent links lead to, and depth[i] strictly drops along every link, so
      the links have no cycle. */
  ghost predicate Ranked(p: seq<int>, rep: seq<int>, depth: seq<nat>)
  {
    |rep| == |p| && |depth| == |p| &&
    InRange(p, rep) && RootsSelfParented(p, rep) && Climbs(p, rep, depth)
  }

  /** Every parent and every label is a node. */
  ghost predicate InRange(p: seq<int>, rep: seq<int>)
    requires |rep| == |p|
  {
    forall i | 0 <= i < |p| :: 0 <= p[i] < |p| && 0 <= rep[i] < |p|
  }

  /** The self-parented nodes are exactly the labels. */
  ghost predicate RootsSelfParented(p: seq<int>, rep: seq<int>)
    requires |rep| == |p| && InRange(p, rep)
  {
    (forall i, r {:trigger rep[i], p[r]} | 0 <= i < |p| && r == rep[i] :: p[r] == r) &&
    (forall i | 0 <= i < |p| && p[i] == i :: rep[i] == i)
  }

  /** A link stays inside its set and leads to a strictly smaller depth. */
  ghost predicate Climbs(p: seq<int>, rep: seq<int>, depth: seq<nat>)
    requires |rep| == |p| && |depth| == |p| && InRange(p, rep)
  {
    forall i, j {:trigger p[i], rep[j]} | 0 <= i < |p| && j == p[i] && j != i :: rep[j] == rep[i] && depth[j] < depth[i]
  }

  /** rep is a labelling of nodes by set: every label is a node that is its
      own label. */
  predicate Labels(rep: seq<int>)
  {
    forall i | 0 <= i < |rep| :: 0 <= rep[i] < |rep| && rep[rep[i]] == rep[i]
  }

  /** The set roots of a labelling: one per set. */
  function Roots(rep: seq<int>): set<int>
  {
    set i | 0 <= i < |rep| && rep[i] == i
  }

  /** Every parent link of p points to an equal or higher index. */
  predicate Increasing(p: seq<int>)
  {
    forall i | 0 <= i < |p| :: i <= p[i]
  }

  /** The n singletons: node i is labelled (and parented) by itself. */
  function Identity(n: nat): (r: seq<int>)
    ensures |r| == n
  {
    seq(n, i => i)
  }

  /** rep with the set labelled from moved under the label to. */
  function Relabel(rep: seq<int>, from: int, to: int): (r: seq<int>)
    ensures |r| == |rep|
    ensures forall i | 0 <= i < |rep| && rep[i] == from :: r[i] == to
    ensures forall i | 0 <= i < |rep| && rep[i] != from :: r[i] == rep[i]
  {
    seq(|rep|, i requires 0 <= i < |rep| => if rep[i] == from then to else rep[i])
  }

  /** depth with every node of the set labelled root pushed down by extra. */
  ghost function Deepen(depth: seq<nat>, rep: seq<int>, root: int, extra: nat): (r: seq<nat>)
    requires |rep| == |depth|
    ensures |r| == |depth|
    ensures forall i | 0 <= i < |depth| && rep[i] == root :: r[i] == depth[i] + extra
    ensures forall i | 0 <= i < |depth| && rep[i] != root :: r[i] == depth[i]
  {
    seq(|depth|, i requires 0 <= i < |depth| => if rep[i] == root then depth[i] + extra else depth[i])
  }

  /** A ranked forest's labelling is a labelling by roots. */
  lemma RankedLabels(p: seq<int>, rep: seq<int>, depth: seq<nat>)
    requires Ranked(p, rep, depth)
    ensures Labels(rep)
    ensures forall i | 0 <= i < |p| :: (p[i] == i <==> rep[i] == i)
  {
    forall i | 0 <= i < |p|
      ensures rep[rep[i]] == rep[i] && (p[i] == i <==> rep[i] == i)
    {
      assert p[rep[i]] == rep[i];
    }
  }

  /** Re-parenting the root of x's set onto y, a node of another set, keeps
      the forest acyclic: the whole of x's set takes y's root and sits
      depth[y] + 1 lower. This is the one write unite performs. */
  lemma LinkKeepsRanked(p: seq<int>, rep: seq<int>, depth: seq<nat>, x: int, y: int)
    requires Ranked(p, rep, depth)
    requires 0 <= x < |p| && 0 <= y < |p| && rep[x] != rep[y]
    ensures Ranked(p[rep[x] := y], Relabel(rep, rep[x], rep[y]), Deepen(depth, rep, rep[x], depth[y] + 1))
  {
    var rx, ry := rep[x], rep[y];
    var p', rep', depth' := p[rx := y], Relabel(rep, rx, ry), Deepen(depth, rep, rx, depth[y] + 1);
    assert InRange(p', rep');
    LinkKeepsRoots(p, rep, depth, x, y);
    LinkClimbs(p, rep, depth, x, y);
  }

  lemma LinkKeepsRoots(p: seq<int>, rep: seq<int>, depth: seq<nat>, x: int, y: int)
    requires Ranked(p, rep, depth)
    requires 0 <= x < |p| && 0 <= y < |p| && rep[x] != rep[y]
    ensures InRange(p[rep[x] := y], Relabel(rep, rep[x], rep[y]))
    ensures RootsSelfParented(p[rep[x] := y], Relabel(rep, rep[x], rep[y]))
  {
    var rx, ry := rep[x], rep[y];
    var p', rep' := p[rx := y], Relabel(rep, rx, ry);
    assert p[rx] == rx && p[ry] == ry;
    forall i | 0 <= i < |p|
      ensures p'[rep'[i]] == rep'[i]
    {
      if rep[i] == rx {
        assert rep'[i] == ry;
      } else {
        assert rep'[i] == rep[i];
      }
    }
    forall i | 0 <= i < |p| && p'[i] == i
      ensures rep'[i] == i
    {
      assert i != rx;
    }
  }

  lemma LinkClimbs(p: seq<int>, rep: seq<int>, depth: seq<nat>, x: int, y: int)
    requires Ranked(p, rep, depth)
    requires 0 <= x < |p| && 0 <= y < |p| && rep[x] != rep[y]
    requires InRange(p[rep[x] := y], Relabel(rep, rep[x], rep[y]))
    ensures Climbs(p[rep[x] := y], Relabel(rep, rep[x], rep[y]), Deepen(depth, rep, rep[x], depth[y] + 1))
  {
    var rx, ry := rep[x], rep[y];
    var p', rep', depth' := p[rx := y], Relabel(rep, rx, ry), Deepen(depth, rep, rx, depth[y] + 1);
    forall i | 0 <= i < |p| && p'[i] != i
      ensures rep'[p'[i]] == rep'[i] && depth'[p'[i]] < depth'[i]
    {
      if i == rx {
        assert p'[i] == y && rep[i] == rx && rep'[i] == ry && rep'[y] == ry;
        assert depth'[y] == depth[y] && depth'[i] == depth[i] + depth[y] + 1;
      } else {
        assert p'[i] == p[i];
        if rep[i] == rx {
          assert rep[p[i]] == rx;
        }
      }
    }
  }

  /** When every link goes upwards, the root of a set is its largest index. */
  lemma {:induction false} RootIsLargest(p: seq<int>, rep: seq<int>, depth: seq<nat>, i: int)
    requires Ranked(p, rep, depth) && Increasing(p)
    requires 0 <= i < |p|
    ensures i <= rep[i]
    decreases depth[i]
  {
    if p[i] != i {
      assert rep[p[i]] == rep[i];
      RootIsLargest(p, rep, depth, p[i]);
    }
  }

  /** The n singletons are n distinct sets. */
  lemma {:induction false} IdentityRoots(n: nat)
    ensures Labels(Identity(n))
    ensures |Roots(Identity(n))| == n
  {
    if n > 0 {
      IdentityRoots(n - 1);
      assert Roots(Identity(n)) == Roots(Identity(n - 1)) + {n - 1};
    }
  }

  /** Moving the set of root lo under root hi merges two sets into one: the
      roots lose lo and nothing else. */
  lemma RelabelRoots(rep: seq<int>, lo: int, hi: int)
    requires Labels(rep)
    requires 0 <= lo < |rep| && 0 <= hi < |rep| && lo != hi
    requires rep[lo] == lo && rep[hi] == hi
    ensures Labels(Relabel(rep, lo, hi))
    ensures Roots(Relabel(rep, lo, hi)) == Roots(rep) - {lo}
    ensures |Roots(Relabel(rep, lo, hi))| == |Roots(rep)| - 1
  {
    var r := Relabel(rep, lo, hi);
    forall i | 0 <= i < |rep|
      ensures 0 <= r[i] < |r| && r[r[i]] == r[i]
    {
      if rep[i] == lo {
        assert r[i] == hi && r[hi] == hi;
      } else {
        assert r[i] == rep[i] && rep[rep[i]] == rep[i];
      }
    }
    assert Roots(r) == Roots(rep) - {lo};
  }

  /** The forest of make_nodes: parent is the arena of heap nodes, node i
      standing for the node whose dataindex is i. The ghost fields rep and
      depth are the abstraction Valid ties to parent. */
  class Forest {
    var parent: array<int>
    ghost var rep: seq<int>
    ghost var depth: seq<nat>

    ghost predicate Valid()
      reads this, parent
    {
      Ranked(parent[..], rep, depth)
    }

    /** make_nodes: npts nodes, node i with dataindex i and parent itself
        (no nodes when npts is not positive). */
    constructor (npts: int)
      ensures Valid() && fresh(parent)
      ensures parent.Length == (if npts < 0 then 0 else npts)
      ensures forall i | 0 <= i < parent.Length :: parent[i] == i
      ensures rep == Identity(parent.Length)
    {
      var n := if npts < 0 then 0 else npts;
      var a := new int[n];
      var i := 0;
      while i < n
        invariant 0 <= i <= n
        invariant forall k | 0 <= k < i :: a[k] == k
      {
        a[i] := i;
        i := i + 1;
      }
      parent := a;
      rep := Identity(n);
      depth := seq(n, k => 0);
    }

    /** find: climbs parent links from x to the self-parented node of its
        set, changing nothing. */
    method Find(x: int) returns (r: int)
      requires Valid() && 0 <= x < parent.Length
      ensures 0 <= r < parent.Length && parent[r] == r
      ensures r == rep[x]
    {
      r := x;
      while parent[r] != r
        invariant 0 <= r < parent.Length && rep[r] == rep[x]
        decreases depth[r]
      {
        assert rep[parent[..][r]] == rep[r];
        r := parent[r];
      }
    }

    /** unite: orders its arguments by dataindex, then re-parents the root of
        the smaller one onto the larger argument. Exactly one parent field
        changes; the two sets become one labelled by the larger argument's
        root, and every other set keeps its members and root. */
    method Unite(a: int, b: int)
      requires Valid() && 0 <= a < parent.Length && 0 <= b < parent.Length
      requires rep[a] != rep[b]
      modifies this, parent
      ensures Valid() && parent == old(parent)
      ensures parent[..] == old(parent[..])[old(rep[Min(a, b)]) := Max(a, b)]
      ensures rep == Relabel(old(rep), old(rep[Min(a, b)]), old(rep[Max(a, b)]))
      ensures rep[a] == rep[b]
    {
      var x, y := Min(a, b), Max(a, b);
      var rx := Find(x);
      ghost var p0, rep0 := parent[..], rep;
      LinkKeepsRanked(p0, rep0, depth, x, y);
      depth := Deepen(depth, rep0, rx, depth[y] + 1);
      rep := Relabel(rep0, rx, rep0[y]);
      parent[rx] := y;
      assert parent[..] == p0[rx := y];
      assert rep[x] == rep0[y] && rep[y] == rep0[y];
    }
  }
}
