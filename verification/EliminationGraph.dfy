/**
  Undirected graphs with vertices 1..n, and what eliminating vertices does to them.
  Eliminating a vertex makes its remaining neighbours pairwise adjacent and drops the vertex.
 */
module EliminationGraph {

  /** g[v - 1] lists the neighbours of vertex v. */
  type Graph = seq<seq<int>>

  predicate IsVertex(g: Graph, v: int) {
    1 <= v <= |g|
  }

  predicate Adjacent(g: Graph, x: int, y: int) {
    IsVertex(g, x) && y in g[x - 1]
  }

  ghost predicate Distinct(s: seq<int>) {
    forall i, j | 0 <= i < j < |s| :: s[i] != s[j]
  }

  ghost predicate InRange(g: Graph) {
    forall x, y | Adjacent(g, x, y) :: IsVertex(g, y)
  }

  /** What the ordering needs of its input: symmetric adjacency, no self-loop, no edge listed twice. */
  ghost predicate Simple(g: Graph) {
    && InRange(g)
    && (forall x, y | Adjacent(g, x, y) :: Adjacent(g, y, x) && x != y)
    && (forall v | IsVertex(g, v) :: Distinct(g[v - 1]))
  }

  function SetOf(s: seq<int>): set<int> {
    set v | v in s
  }

  // ---------------------------------------------------------------------------------------------
  // The elimination graph, by its definition

  ghost predicate ElimEdge(g: Graph, elims: seq<int>, x: int, y: int)
    decreases |elims|
  {
    if elims == [] then Adjacent(g, x, y)
    else
      var before, v := elims[..|elims| - 1], elims[|elims| - 1];
      && x != v && y != v && x != y
      && (ElimEdge(g, before, x, y) || (ElimEdge(g, before, x, v) && ElimEdge(g, before, v, y)))
  }

  ghost function ElimNeighbours(g: Graph, elims: seq<int>, x: int): set<int> {
    set y | 1 <= y <= |g| && ElimEdge(g, elims, x, y)
  }

  ghost function ElimDegree(g: Graph, elims: seq<int>, x: int): nat {
    |ElimNeighbours(g, elims, x)|
  }

  // ---------------------------------------------------------------------------------------------
  // Reachability through a set of vertices

  ghost predicate Step(g: Graph, p: seq<int>, i: int)
    requires 0 <= i < |p| - 1
  {
    Adjacent(g, p[i], p[i + 1])
  }

  ghost predicate Walk(g: Graph, p: seq<int>) {
    forall i | 0 <= i < |p| - 1 :: Step(g, p, i)
  }

  /** p leads from x to y, and all its inner vertices lie in `through`. */
  ghost predicate PathThrough(g: Graph, through: set<int>, p: seq<int>, x: int, y: int) {
    && |p| >= 2 && p[0] == x && p[|p| - 1] == y
    && Walk(g, p)
    && (forall i | 0 < i < |p| - 1 :: p[i] in through)
  }

  ghost predicate Joined(g: Graph, through: set<int>, x: int, y: int) {
    exists p :: PathThrough(g, through, p, x, y)
  }

  lemma {:induction false} ElimEdgeSymmetric(g: Graph, elims: seq<int>, x: int, y: int)
    requires Simple(g) && ElimEdge(g, elims, x, y)
    ensures ElimEdge(g, elims, y, x)
    decreases |elims|
  {
    if elims != [] {
      var before, v := elims[..|elims| - 1], elims[|elims| - 1];
      if ElimEdge(g, before, x, y) {
        ElimEdgeSymmetric(g, before, x, y);
      } else {
        ElimEdgeSymmetric(g, before, x, v);
        ElimEdgeSymmetric(g, before, v, y);
      }
    }
  }

  lemma {:induction false} ElimEdgeEnds(g: Graph, elims: seq<int>, x: int, y: int)
    requires Simple(g) && ElimEdge(g, elims, x, y)
    ensures x != y && x !in elims && y !in elims && IsVertex(g, x) && IsVertex(g, y)
    decreases |elims|
  {
    if elims != [] {
      var before, v := elims[..|elims| - 1], elims[|elims| - 1];
      assert elims == before + [v];
      if ElimEdge(g, before, x, y) {
        ElimEdgeEnds(g, before, x, y);
      } else {
        ElimEdgeEnds(g, before, x, v);
        ElimEdgeEnds(g, before, v, y);
      }
    }
  }

  lemma JoinPaths(g: Graph, through: set<int>, p: seq<int>, q: seq<int>, x: int, v: int, y: int)
    requires PathThrough(g, through, p, x, v) && PathThrough(g, through, q, v, y)
    ensures PathThrough(g, through + {v}, p + q[1..], x, y)
  {
    var r := p + q[1..];
    forall i | 0 <= i < |r| - 1 ensures Step(g, r, i) {
      if i >= |p| - 1 {
        assert r[i + 1] == q[i - |p| + 2] && r[i] == q[i - |p| + 1];
        assert Step(g, q, i - |p| + 1);
      } else {
        assert Step(g, p, i);
      }
    }
    forall i | 0 < i < |r| - 1 ensures r[i] in through + {v} {
      if i >= |p| {
        assert r[i] == q[i - |p| + 1];
      }
    }
  }

  lemma {:induction false} ElimEdgeHasPath(g: Graph, elims: seq<int>, x: int, y: int) returns (p: seq<int>)
    requires ElimEdge(g, elims, x, y)
    ensures PathThrough(g, SetOf(elims), p, x, y)
    decreases |elims|
  {
    if elims == [] {
      p := [x, y];
      assert Step(g, p, 0);
    } else {
      var before, v := elims[..|elims| - 1], elims[|elims| - 1];
      assert elims == before + [v];
      assert SetOf(elims) == SetOf(before) + {v};
      if ElimEdge(g, before, x, y) {
        p := ElimEdgeHasPath(g, before, x, y);
      } else {
        var p1 := ElimEdgeHasPath(g, before, x, v);
        var p2 := ElimEdgeHasPath(g, before, v, y);
        JoinPaths(g, SetOf(before), p1, p2, x, v, y);
        p := p1 + p2[1..];
      }
    }
  }

  /** The part of a path before the first v, and the part after the last v, avoid v inside. */
  lemma FirstVisit(g: Graph, through: set<int>, p: seq<int>, x: int, y: int, v: int) returns (i: nat)
    requires PathThrough(g, through + {v}, p, x, y) && x != v
    requires exists k :: 0 < k < |p| - 1 && p[k] == v
    ensures 0 < i < |p| - 1 && PathThrough(g, through, p[..i + 1], x, v)
  {
    i := 1;
    while p[i] != v
      invariant 0 < i < |p| - 1
      invariant forall k | 0 < k < i :: p[k] != v
      decreases |p| - i
    {
      i := i + 1;
    }
    var q := p[..i + 1];
    forall k | 0 <= k < |q| - 1 ensures Step(g, q, k) {
      assert Step(g, p, k);
    }
  }

  lemma LastVisit(g: Graph, through: set<int>, p: seq<int>, x: int, y: int, v: int) returns (i: nat)
    requires PathThrough(g, through + {v}, p, x, y) && y != v
    requires exists k :: 0 <= k < |p| - 1 && p[k] == v
    ensures 0 <= i < |p| - 1 && PathThrough(g, through, p[i..], v, y)
  {
    i := |p| - 2;
    while p[i] != v
      invariant 0 <= i < |p| - 1
      invariant forall k | i < k < |p| :: p[k] != v
      decreases i
    {
      i := i - 1;
    }
    var q := p[i..];
    forall k | 0 <= k < |q| - 1 ensures Step(g, q, k) {
      assert Step(g, p, i + k);
    }
    forall k | 0 < k < |q| - 1 ensures q[k] in through {
      assert q[k] == p[i + k];
    }
  }

  lemma InnerVertex(g: Graph, through: set<int>, p: seq<int>, x: int, y: int, i: int)
    requires PathThrough(g, through, p, x, y) && 0 < i < |p| - 1
    ensures p[i] in through
  {
  }

  lemma {:induction false} PathIsElimEdge(g: Graph, elims: seq<int>, p: seq<int>, x: int, y: int)
    requires Distinct(elims) && x !in elims && y !in elims && x != y
    requires PathThrough(g, SetOf(elims), p, x, y)
    ensures ElimEdge(g, elims, x, y)
    decreases |elims|
  {
    if elims == [] {
      if |p| > 2 {
        InnerVertex(g, SetOf(elims), p, x, y, 1);
      }
      assert Step(g, p, 0);
    } else {
      var before, v := elims[..|elims| - 1], elims[|elims| - 1];
      assert elims == before + [v];
      assert SetOf(elims) == SetOf(before) + {v};
      if exists k :: 0 < k < |p| - 1 && p[k] == v {
        var i := FirstVisit(g, SetOf(before), p, x, y, v);
        var j := LastVisit(g, SetOf(before), p, x, y, v);
        PathIsElimEdge(g, before, p[..i + 1], x, v);
        PathIsElimEdge(g, before, p[j..], v, y);
      } else {
        PathIsElimEdge(g, before, p, x, y);
      }
    }
  }

  /**
    The theorem behind the reach-set method: two remaining vertices are adjacent in the
    elimination graph exactly when the original graph joins them through eliminated vertices.
   */
  lemma ReachTheorem(g: Graph, elims: seq<int>, x: int, y: int)
    requires Simple(g) && Distinct(elims)
    ensures ElimEdge(g, elims, x, y) <==>
            x !in elims && y !in elims && x != y && Joined(g, SetOf(elims), x, y)
  {
    if ElimEdge(g, elims, x, y) {
      var p := ElimEdgeHasPath(g, elims, x, y);
      ElimEdgeEnds(g, elims, x, y);
    } else if x !in elims && y !in elims && x != y && Joined(g, SetOf(elims), x, y) {
      var p :| PathThrough(g, SetOf(elims), p, x, y);
      PathIsElimEdge(g, elims, p, x, y);
    }
  }

  /** Walking back through the start does not reach anything new. */
  lemma ThroughTheStart(g: Graph, through: set<int>, v: int, y: int)
    requires y != v
    ensures Joined(g, through + {v}, v, y) <==> Joined(g, through, v, y)
  {
    if Joined(g, through + {v}, v, y) {
      var p :| PathThrough(g, through + {v}, p, v, y);
      assert p[0] == v;
      var i := LastVisit(g, through, p, v, y, v);
    }
    if Joined(g, through, v, y) {
      var p :| PathThrough(g, through, p, v, y);
      assert PathThrough(g, through + {v}, p, v, y);
    }
  }

  /** Eliminating v changes the neighbourhoods of v's own neighbours only. */
  lemma OnlyNeighboursChange(g: Graph, elims: seq<int>, v: int, x: int)
    requires Simple(g) && x != v && !ElimEdge(g, elims, v, x)
    ensures ElimNeighbours(g, elims + [v], x) == ElimNeighbours(g, elims, x)
  {
    assert (elims + [v])[..|elims|] == elims;
    assert !ElimEdge(g, elims, x, v) by {
      if ElimEdge(g, elims, x, v) {
        ElimEdgeSymmetric(g, elims, x, v);
      }
    }
    forall y ensures ElimEdge(g, elims + [v], x, y) <==> ElimEdge(g, elims, x, y) {
      if ElimEdge(g, elims, x, y) {
        ElimEdgeEnds(g, elims, x, y);
      }
    }
  }
}
