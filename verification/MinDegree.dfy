/**
  Minimum-degree ordering with reachable sets: the elimination graph is never built, the degree
  of a node is the size of the set it reaches through eliminated nodes.
 */
module MinDegree {
  import opened EliminationGraph

  const NOT_ELIMINATED := -1

  datatype Node = Node(id: int, degree: int, elimStep: int, adj: seq<int>)

  predicate Less(x: Node, y: Node) {
    x.degree < y.degree || (x.degree == y.degree && x.id < y.id)
  }

  function GraphOf(nodes: seq<Node>): (g: Graph)
    ensures |g| == |nodes| && forall i | 0 <= i < |nodes| :: g[i] == nodes[i].adj
  {
    seq(|nodes|, i requires 0 <= i < |nodes| => nodes[i].adj)
  }

  predicate IsEliminated(nodes: seq<Node>, v: int) {
    1 <= v <= |nodes| && nodes[v - 1].elimStep != NOT_ELIMINATED
  }

  function Eliminated(nodes: seq<Node>): set<int> {
    set v | 1 <= v <= |nodes| && IsEliminated(nodes, v)
  }

  /** y belongs to the reachable set of `start`. */
  ghost predicate Reaches(nodes: seq<Node>, start: int, y: int) {
    && 1 <= y <= |nodes| && y != start && y !in Eliminated(nodes)
    && Joined(GraphOf(nodes), Eliminated(nodes), start, y)
  }

  // ---------------------------------------------------------------------------------------------
  // get_reach

  ghost predicate Discovered(nodes: seq<Node>, start: int, y: int) {
    1 <= y <= |nodes| && Joined(GraphOf(nodes), Eliminated(nodes), start, y)
  }

  lemma DiscoverNeighbour(nodes: seq<Node>, start: int, y: int)
    requires InRange(GraphOf(nodes)) && Adjacent(GraphOf(nodes), start, y)
    ensures Discovered(nodes, start, y)
  {
    var p := [start, y];
    assert Step(GraphOf(nodes), p, 0);
    assert PathThrough(GraphOf(nodes), Eliminated(nodes), p, start, y);
  }

  lemma DiscoverFurther(nodes: seq<Node>, start: int, v: int, y: int)
    requires InRange(GraphOf(nodes)) && Discovered(nodes, start, v) && v in Eliminated(nodes)
    requires Adjacent(GraphOf(nodes), v, y)
    ensures Discovered(nodes, start, y)
  {
    var g, through := GraphOf(nodes), Eliminated(nodes);
    var p :| PathThrough(g, through, p, start, v);
    var q := [v, y];
    assert Step(g, q, 0);
    assert PathThrough(g, through, q, v, y);
    JoinPaths(g, through, p, q, start, v, y);
    assert through + {v} == through;
  }

  /** The explored set is closed: it holds the start's neighbours and those of its eliminated members. */
  ghost predicate Closed(nodes: seq<Node>, start: int, explored: set<int>) {
    && (forall y | Adjacent(GraphOf(nodes), start, y) :: y in explored)
    && (forall v, y | v in explored && v != start && v in Eliminated(nodes) && Adjacent(GraphOf(nodes), v, y) ::
          y in explored)
  }

  lemma {:induction false} ClosedHoldsPath(
      nodes: seq<Node>, start: int, explored: set<int>, p: seq<int>, y: int, i: nat)
    requires Closed(nodes, start, explored)
    requires PathThrough(GraphOf(nodes), Eliminated(nodes), p, start, y) && 1 <= i < |p|
    ensures p[i] in explored
  {
    var k := i - 1;
    assert Step(GraphOf(nodes), p, k);
    if k > 0 {
      ClosedHoldsPath(nodes, start, explored, p, y, k);
    }
  }

  lemma ClosedHoldsDiscovered(nodes: seq<Node>, start: int, explored: set<int>, y: int)
    requires Closed(nodes, start, explored) && Discovered(nodes, start, y)
    ensures y in explored
  {
    var p :| PathThrough(GraphOf(nodes), Eliminated(nodes), p, start, y);
    ClosedHoldsPath(nodes, start, explored, p, y, |p| - 1);
  }

  /** How often y is ever put on the worklist: once, or as often as the start lists it. */
  function Occurrences(nodes: seq<Node>, start: int, y: int): nat
    requires 1 <= start <= |nodes|
  {
    if y in nodes[start - 1].adj then multiset(nodes[start - 1].adj)[y] else 1
  }

  /** State of the search: `explored` nodes have been put on the worklist, `open` is still on it. */
  ghost predicate Search(nodes: seq<Node>, start: int, explored: set<int>, open: seq<int>, reach: seq<int>) {
    && InRange(GraphOf(nodes)) && 1 <= start <= |nodes|
    && (forall y | y in explored :: Discovered(nodes, start, y))
    && (forall y | y in open :: y in explored)
    && (forall y | Adjacent(GraphOf(nodes), start, y) :: y in explored)
    && (forall y | y in reach :: y in explored && y != start && !IsEliminated(nodes, y))
    && (forall y {:trigger Balanced(nodes, start, explored, open, reach, y)} | y != start && !IsEliminated(nodes, y) ::
          Balanced(nodes, start, explored, open, reach, y))
  }

  /** y has been put on the worklist as often as it should, and was reported each time it left. */
  ghost predicate Balanced(nodes: seq<Node>, start: int, explored: set<int>, open: seq<int>, reach: seq<int>, y: int)
    requires 1 <= start <= |nodes|
  {
    multiset(reach)[y] + multiset(open)[y] == if y in explored then Occurrences(nodes, start, y) else 0
  }

  /** Every explored, eliminated node that is neither open nor `current` has been expanded. */
  ghost predicate Expanded(nodes: seq<Node>, start: int, explored: set<int>, open: seq<int>, current: int) {
    forall v, y | v in explored && v !in open && v != start && v != current
                  && IsEliminated(nodes, v) && Adjacent(GraphOf(nodes), v, y) :: y in explored
  }

  lemma SearchStarts(nodes: seq<Node>, start: int)
    requires InRange(GraphOf(nodes)) && 1 <= start <= |nodes|
    ensures var adj := nodes[start - 1].adj;
      Search(nodes, start, (set v | v in adj), adj, []) && Expanded(nodes, start, (set v | v in adj), adj, 0)
  {
    var g, adj := GraphOf(nodes), nodes[start - 1].adj;
    assert g[start - 1] == adj;
    forall y | y in adj ensures Discovered(nodes, start, y) {
      DiscoverNeighbour(nodes, start, y);
    }
  }

  lemma SearchSkips(nodes: seq<Node>, start: int, explored: set<int>, open: seq<int>, reach: seq<int>)
    requires Search(nodes, start, explored, open, reach) && open != []
    requires var v := open[|open| - 1]; v == start || IsEliminated(nodes, v)
    ensures Search(nodes, start, explored, open[..|open| - 1], reach)
  {
    var v, rest := open[|open| - 1], open[..|open| - 1];
    assert open == rest + [v];
    forall y | y != start && !IsEliminated(nodes, y) ensures Balanced(nodes, start, explored, rest, reach, y) {
      assert Balanced(nodes, start, explored, open, reach, y);
      assert multiset(open) == multiset(rest) + multiset{v};
    }
  }

  lemma SearchReports(nodes: seq<Node>, start: int, explored: set<int>, open: seq<int>, reach: seq<int>)
    requires Search(nodes, start, explored, open, reach) && open != []
    requires var v := open[|open| - 1]; v != start && !IsEliminated(nodes, v)
    ensures Search(nodes, start, explored, open[..|open| - 1], reach + [open[|open| - 1]])
  {
    var v, rest := open[|open| - 1], open[..|open| - 1];
    assert open == rest + [v];
    assert v in open;
    forall y | y != start && !IsEliminated(nodes, y)
      ensures Balanced(nodes, start, explored, rest, reach + [v], y)
    {
      assert Balanced(nodes, start, explored, open, reach, y);
      assert multiset(open) == multiset(rest) + multiset{v};
      assert multiset(reach + [v]) == multiset(reach) + multiset{v};
    }
  }

  lemma OpenNode(nodes: seq<Node>, start: int, explored: set<int>, open: seq<int>, reach: seq<int>)
    requires Search(nodes, start, explored, open, reach) && open != []
    ensures var v := open[|open| - 1]; v in explored && 1 <= v <= |nodes|
    ensures IsEliminated(nodes, open[|open| - 1]) <==> nodes[open[|open| - 1] - 1].elimStep != NOT_ELIMINATED
  {
    var v := open[|open| - 1];
    assert Discovered(nodes, start, v);
  }

  lemma ExpandedPops(nodes: seq<Node>, start: int, explored: set<int>, open: seq<int>)
    requires Expanded(nodes, start, explored, open, 0) && open != []
    ensures var v, rest := open[|open| - 1], open[..|open| - 1];
      && Expanded(nodes, start, explored, rest, v)
      && (v == start || !IsEliminated(nodes, v) ==> Expanded(nodes, start, explored, rest, 0))
  {
    var v, rest := open[|open| - 1], open[..|open| - 1];
    assert open == rest + [v];
  }

  lemma SearchPushes(nodes: seq<Node>, start: int, explored: set<int>, open: seq<int>, reach: seq<int>, v: int, w: int)
    requires Search(nodes, start, explored, open, reach) && Expanded(nodes, start, explored, open, v)
    requires v in explored && IsEliminated(nodes, v) && Adjacent(GraphOf(nodes), v, w) && w !in explored
    ensures Search(nodes, start, explored + {w}, open + [w], reach)
    ensures Expanded(nodes, start, explored + {w}, open + [w], v)
  {
    assert GraphOf(nodes)[start - 1] == nodes[start - 1].adj;
    assert !Adjacent(GraphOf(nodes), start, w);
    DiscoverFurther(nodes, start, v, w);
    forall y | y != start && !IsEliminated(nodes, y)
      ensures Balanced(nodes, start, explored + {w}, open + [w], reach, y)
    {
      assert Balanced(nodes, start, explored, open, reach, y);
      assert multiset(open + [w]) == multiset(open) + multiset{w};
    }
  }

  lemma SearchEnds(nodes: seq<Node>, start: int, explored: set<int>, reach: seq<int>)
    requires Search(nodes, start, explored, [], reach) && Expanded(nodes, start, explored, [], 0)
    ensures forall y :: y in reach <==> Reaches(nodes, start, y)
    ensures forall y | y in reach :: multiset(reach)[y] == Occurrences(nodes, start, y)
  {
    assert Closed(nodes, start, explored);
    forall y ensures y in reach ==> multiset(reach)[y] == Occurrences(nodes, start, y)
             ensures y in reach <==> Reaches(nodes, start, y) {
      if Reaches(nodes, start, y) {
        ClosedHoldsDiscovered(nodes, start, explored, y);
      }
      if y in explored && y != start && !IsEliminated(nodes, y) {
        assert Balanced(nodes, start, explored, [], reach, y);
        assert Occurrences(nodes, start, y) > 0;
        assert y in multiset(reach);
      }
    }
  }

  lemma ExpandedCompletes(nodes: seq<Node>, start: int, explored: set<int>, open: seq<int>, v: int)
    requires Expanded(nodes, start, explored, open, v)
    requires 1 <= v <= |nodes| && forall y | y in nodes[v - 1].adj :: y in explored
    ensures Expanded(nodes, start, explored, open, 0)
  {
    assert GraphOf(nodes)[v - 1] == nodes[v - 1].adj;
  }

  ghost predicate Marks(explored: seq<bool>, marked: set<int>) {
    && (forall v | v in marked :: 1 <= v <= |explored|)
    && (forall i | 0 <= i < |explored| :: explored[i] <==> i + 1 in marked)
  }

  lemma Bounded(marked: set<int>, n: nat)
    requires forall v | v in marked :: 1 <= v <= n
    ensures |marked| <= n
    decreases n
  {
    if n > 0 {
      Bounded(marked - {n}, n - 1);
    } else {
      forall v ensures v !in marked {
      }
      assert marked == {};
    }
  }

  lemma Mark(explored: seq<bool>, marked: set<int>, w: int)
    requires Marks(explored, marked) && 1 <= w <= |explored|
    ensures explored[w - 1] <==> w in marked
    ensures Marks(explored[w - 1 := true], marked + {w})
    ensures |marked + {w}| <= |explored|
  {
    Bounded(marked + {w}, |explored|);
  }

  lemma NeighbourInRange(nodes: seq<Node>, v: int, i: int)
    requires InRange(GraphOf(nodes)) && 1 <= v <= |nodes| && 0 <= i < |nodes[v - 1].adj|
    ensures Adjacent(GraphOf(nodes), v, nodes[v - 1].adj[i]) && 1 <= nodes[v - 1].adj[i] <= |nodes|
  {
    assert GraphOf(nodes)[v - 1] == nodes[v - 1].adj;
    assert Adjacent(GraphOf(nodes), v, nodes[v - 1].adj[i]);
  }

  /** Puts the neighbours of the eliminated node v that are not yet explored on the worklist. */
  method PushUnexplored(adj: seq<int>, open: seq<int>, explored: seq<bool>, ghost marked: set<int>,
      ghost nodes: seq<Node>, ghost start: int, ghost reach: seq<int>, ghost v: int)
    returns (open': seq<int>, explored': seq<bool>, ghost marked': set<int>)
    requires |explored| == |nodes| && Marks(explored, marked)
    requires InRange(GraphOf(nodes)) && 1 <= v <= |nodes| && nodes[v - 1].adj == adj
    requires v in marked && IsEliminated(nodes, v)
    requires Search(nodes, start, marked, open, reach) && Expanded(nodes, start, marked, open, v)
    ensures |explored'| == |nodes| && Marks(explored', marked')
    ensures Search(nodes, start, marked', open', reach) && Expanded(nodes, start, marked', open', 0)
    ensures |open'| - |marked'| == |open| - |marked|
  {
    open', explored', marked' := open, explored, marked;
    hide *;
    for i := 0 to |adj|
      invariant |explored'| == |nodes| && Marks(explored', marked')
      invariant |open'| - |marked'| == |open| - |marked|
      invariant v in marked' && Search(nodes, start, marked', open', reach)
      invariant Expanded(nodes, start, marked', open', v)
      invariant forall y | y in adj[..i] :: y in marked'
    {
      var currAdj := adj[i];
      NeighbourInRange(nodes, v, i);
      Mark(explored', marked', currAdj);
      assert adj[..i + 1] == adj[..i] + [currAdj];
      if !explored'[currAdj - 1] {
        SearchPushes(nodes, start, marked', open', reach, v, currAdj);
        open' := open' + [currAdj];
        explored' := explored'[currAdj - 1 := true];
        marked' := marked' + {currAdj};
      }
    }
    ExpandedCompletes(nodes, start, marked', open', v);
  }

  /**
    The reachable set of a node, found with a worklist. A node is reported once, except that a
    neighbour which the start lists several times is reported that often.
   */
  method GetReach(nodes: array<Node>, start: int) returns (reach: seq<int>)
    requires InRange(GraphOf(nodes[..])) && 1 <= start <= nodes.Length
    ensures forall y :: y in reach <==> Reaches(nodes[..], start, y)
    ensures forall y | y in reach :: multiset(reach)[y] == Occurrences(nodes[..], start, y)
  {
    var n := nodes.Length;
    ghost var ns := nodes[..];
    reach := [];
    var explored := seq(n, _ => false);
    ghost var marked: set<int> := {};
    var exploreSet: seq<int> := [];
    var minNode := nodes[start - 1];
    assert Marks(explored, marked);
    hide *;

    for i := 0 to |minNode.adj|
      invariant exploreSet == minNode.adj[..i] && marked == (set v | v in exploreSet)
      invariant |explored| == n && Marks(explored, marked)
    {
      var currAdj := minNode.adj[i];
      NeighbourInRange(ns, start, i);
      Mark(explored, marked, currAdj);
      exploreSet := exploreSet + [currAdj];
      explored := explored[currAdj - 1 := true];
      marked := marked + {currAdj};
    }
    assert exploreSet == minNode.adj;
    SearchStarts(ns, start);

    while |exploreSet| > 0
      invariant |explored| == n && Marks(explored, marked)
      invariant Search(ns, start, marked, exploreSet, reach)
      invariant Expanded(ns, start, marked, exploreSet, 0)
      decreases n - |marked| + |exploreSet|
    {
      OpenNode(ns, start, marked, exploreSet, reach);
      ExpandedPops(ns, start, marked, exploreSet);
      ghost var open := exploreSet;
      var currNodeId := exploreSet[|exploreSet| - 1];
      Mark(explored, marked, currNodeId);
      assert marked + {currNodeId} == marked;
      exploreSet := exploreSet[..|exploreSet| - 1];
      if currNodeId == start {
        SearchSkips(ns, start, marked, open, reach);
        continue;
      }
      var currNode := nodes[currNodeId - 1];
      if currNode.elimStep == NOT_ELIMINATED {
        SearchReports(ns, start, marked, open, reach);
        reach := reach + [currNodeId];
      } else {
        SearchSkips(ns, start, marked, open, reach);
        exploreSet, explored, marked :=
          PushUnexplored(currNode.adj, exploreSet, explored, marked, ns, start, reach, currNodeId);
      }
    }
    SearchEnds(ns, start, marked, reach);
  }

  /** Over a simple graph nothing is reported twice. */
  lemma ReachDistinct(nodes: seq<Node>, start: int, reach: seq<int>)
    requires Simple(GraphOf(nodes)) && 1 <= start <= |nodes|
    requires forall y | y in reach :: multiset(reach)[y] == Occurrences(nodes, start, y)
    ensures Distinct(reach)
  {
    var adj := nodes[start - 1].adj;
    assert GraphOf(nodes)[start - 1] == adj && IsVertex(GraphOf(nodes), start);
    forall y | y in reach ensures multiset(reach)[y] == 1 {
      if y in adj {
        DistinctCounts(adj, y);
      }
    }
    CountsDistinct(reach);
  }

  lemma {:induction false} DistinctCounts(s: seq<int>, y: int)
    requires Distinct(s) && y in s
    ensures multiset(s)[y] == 1
  {
    var k := |s| - 1;
    assert s == s[..k] + [s[k]];
    if y == s[k] {
      assert y !in s[..k];
    } else {
      DistinctCounts(s[..k], y);
    }
  }

  lemma CountsDistinct(s: seq<int>)
    requires forall y | y in s :: multiset(s)[y] == 1
    ensures Distinct(s)
  {
    forall i, j | 0 <= i < j < |s| ensures s[i] != s[j] {
      assert s == s[..j] + s[j..];
      assert s[i] in s[..j] && s[j] in s[j..];
      assert multiset(s) == multiset(s[..j]) + multiset(s[j..]);
      assert s[i] == s[j] ==> multiset(s)[s[i]] >= 2;
    }
  }

  lemma {:induction false} DistinctSize(s: seq<int>)
    requires Distinct(s)
    ensures |SetOf(s)| == |s|
  {
    if s != [] {
      var k := |s| - 1;
      DistinctSize(s[..k]);
      assert s == s[..k] + [s[k]];
      assert SetOf(s) == SetOf(s[..k]) + {s[k]};
    } else {
      assert SetOf(s) == {};
    }
  }

  // ---------------------------------------------------------------------------------------------
  // The elimination loop

  /** v is a remaining vertex of least degree in the elimination graph, and of least id among those. */
  ghost predicate MinDegreeVertex(g: Graph, elims: seq<int>, v: int) {
    && IsVertex(g, v) && v !in elims
    && forall u | IsVertex(g, u) && u !in elims ::
         || ElimDegree(g, elims, v) < ElimDegree(g, elims, u)
         || (ElimDegree(g, elims, v) == ElimDegree(g, elims, u) && v <= u)
  }

  /** The nodes as the reader of the matrix file leaves them. */
  ghost predicate Fresh(nodes: seq<Node>) {
    && Simple(GraphOf(nodes))
    && forall i | 0 <= i < |nodes| ::
         nodes[i].id == i + 1 && nodes[i].elimStep == NOT_ELIMINATED && nodes[i].degree == |nodes[i].adj|
  }

  /** The immutable parts of the nodes, and which of them count as eliminated. */
  ghost predicate Marked(g: Graph, elims: seq<int>, nodes: seq<Node>) {
    |nodes| == |g| && forall v | IsVertex(g, v) :: MarkedNode(g, elims, nodes, v)
  }

  ghost predicate MarkedNode(g: Graph, elims: seq<int>, nodes: seq<Node>, v: int)
    requires IsVertex(g, v) && |nodes| == |g|
  {
    var node := nodes[v - 1];
    node.id == v && node.adj == g[v - 1] && (node.elimStep != NOT_ELIMINATED <==> v in elims)
  }

  /** The stored degree is the degree in the elimination graph; that of eliminated nodes is out of reach. */
  ghost predicate DegreeCurrent(g: Graph, elims: seq<int>, nodes: seq<Node>, v: int)
    requires IsVertex(g, v) && |nodes| == |g|
  {
    var degree := nodes[v - 1].degree;
    if v in elims then 10 * |g| <= degree < 11 * |g| else degree == ElimDegree(g, elims, v)
  }

  ghost predicate DegreesCurrent(g: Graph, elims: seq<int>, nodes: seq<Node>)
    requires |nodes| == |g|
  {
    forall v | IsVertex(g, v) :: DegreeCurrent(g, elims, nodes, v)
  }

  ghost predicate Scheduled(g: Graph, elims: seq<int>) {
    && Simple(g) && Distinct(elims)
    && forall v | v in elims :: IsVertex(g, v)
  }

  lemma ElimDegreeBelow(g: Graph, elims: seq<int>, v: int)
    requires Simple(g) && IsVertex(g, v)
    ensures ElimDegree(g, elims, v) < |g|
  {
    var s := ElimNeighbours(g, elims, v);
    if v in s {
      ElimEdgeEnds(g, elims, v, v);
    }
    Bounded(s + {v}, |g|);
  }

  lemma FreshCurrent(nodes: seq<Node>)
    requires Fresh(nodes)
    ensures var g := GraphOf(nodes); Marked(g, [], nodes) && DegreesCurrent(g, [], nodes) && Scheduled(g, [])
  {
    var g := GraphOf(nodes);
    forall v | IsVertex(g, v) ensures DegreeCurrent(g, [], nodes, v) {
      var adj := nodes[v - 1].adj;
      assert g[v - 1] == adj;
      assert forall y | y in adj :: Adjacent(g, v, y);
      assert ElimNeighbours(g, [], v) == SetOf(adj);
      DistinctSize(adj);
    }
  }

  lemma MarkedView(g: Graph, elims: seq<int>, nodes: seq<Node>)
    requires Marked(g, elims, nodes) && Scheduled(g, elims)
    ensures GraphOf(nodes) == g && Eliminated(nodes) == SetOf(elims)
    ensures forall i | 0 <= i < |nodes| :: nodes[i].id == i + 1
  {
    forall i | 0 <= i < |g| ensures GraphOf(nodes)[i] == g[i] && nodes[i].id == i + 1 {
      assert IsVertex(g, i + 1) && MarkedNode(g, elims, nodes, i + 1);
    }
    forall v ensures v in Eliminated(nodes) <==> v in SetOf(elims) {
      if IsVertex(g, v) {
        assert MarkedNode(g, elims, nodes, v);
      }
    }
  }

  /** What get_reach reports for a remaining node are its neighbours in the elimination graph. */
  lemma ReachIsElimNeighbours(g: Graph, elims: seq<int>, nodes: seq<Node>, x: int, reach: seq<int>)
    requires Marked(g, elims, nodes) && Scheduled(g, elims) && IsVertex(g, x) && x !in elims
    requires forall y :: y in reach <==> Reaches(nodes, x, y)
    requires forall y | y in reach :: multiset(reach)[y] == Occurrences(nodes, x, y)
    ensures |reach| == ElimDegree(g, elims, x)
  {
    MarkedView(g, elims, nodes);
    forall y ensures y in reach <==> y in ElimNeighbours(g, elims, x) {
      ReachTheorem(g, elims, x, y);
    }
    assert SetOf(reach) == ElimNeighbours(g, elims, x);
    ReachDistinct(nodes, x, reach);
    DistinctSize(reach);
  }

  /** The pivot is already marked when its reach is taken; it still reports its former neighbours. */
  lemma PivotReach(g: Graph, elims: seq<int>, nodes: seq<Node>, v: int, y: int)
    requires Scheduled(g, elims) && IsVertex(g, v) && v !in elims
    requires Marked(g, elims + [v], nodes) && Scheduled(g, elims + [v])
    ensures Reaches(nodes, v, y) <==> ElimEdge(g, elims, v, y)
  {
    MarkedView(g, elims + [v], nodes);
    assert SetOf(elims + [v]) == SetOf(elims) + {v};
    ReachTheorem(g, elims, v, y);
    if y != v {
      ThroughTheStart(g, SetOf(elims), v, y);
    }
    if ElimEdge(g, elims, v, y) {
      ElimEdgeEnds(g, elims, v, y);
    }
  }

  /** Marking the pivot leaves all degrees current except those of its neighbours. */
  lemma OthersStayCurrent(g: Graph, elims: seq<int>, nodes: seq<Node>, nodes': seq<Node>, v: int, u: int)
    requires Scheduled(g, elims) && |nodes| == |nodes'| == |g| && DegreesCurrent(g, elims, nodes)
    requires IsVertex(g, v) && v !in elims && IsVertex(g, u) && !ElimEdge(g, elims, v, u)
    requires nodes'[u - 1].degree == nodes[u - 1].degree + if u == v then 10 * |g| else 0
    ensures DegreeCurrent(g, elims + [v], nodes', u)
  {
    assert DegreeCurrent(g, elims, nodes, u);
    if u == v {
      ElimDegreeBelow(g, elims, v);
    } else {
      OnlyNeighboursChange(g, elims, v, u);
    }
  }

  lemma PivotMarked(g: Graph, elims: seq<int>, before: seq<Node>, after: seq<Node>, v: int, step: int)
    requires Marked(g, elims, before) && MinDegreeVertex(g, elims, v) && Scheduled(g, elims)
    requires step != NOT_ELIMINATED
    requires after == before[v - 1 := before[v - 1].(elimStep := step, degree := before[v - 1].degree + 10 * |g|)]
    ensures Marked(g, elims + [v], after) && Scheduled(g, elims + [v])
  {
    forall u | IsVertex(g, u) ensures MarkedNode(g, elims + [v], after, u) {
      assert MarkedNode(g, elims, before, u);
    }
  }

  /** get_reach of the marked pivot returns exactly the nodes whose degree is out of date. */
  lemma PivotReachSuffices(g: Graph, elims: seq<int>, before: seq<Node>, after: seq<Node>, v: int, reach: seq<int>)
    requires Scheduled(g, elims) && |before| == |g| && DegreesCurrent(g, elims, before) && IsVertex(g, v) && v !in elims
    requires Scheduled(g, elims + [v]) && Marked(g, elims + [v], after)
    requires forall i | 0 <= i < |g| :: after[i].degree == before[i].degree + if i == v - 1 then 10 * |g| else 0
    requires forall y :: y in reach <==> Reaches(after, v, y)
    ensures forall y | y in reach :: IsVertex(g, y) && y !in elims && y != v
    ensures forall u | IsVertex(g, u) && u !in reach :: DegreeCurrent(g, elims + [v], after, u)
  {
    forall u ensures u in reach <==> ElimEdge(g, elims, v, u) {
      PivotReach(g, elims, after, v, u);
    }
    forall u | u in reach ensures IsVertex(g, u) && u !in elims && u != v {
      ElimEdgeEnds(g, elims, v, u);
    }
    forall u | IsVertex(g, u) && u !in reach ensures DegreeCurrent(g, elims + [v], after, u) {
      OthersStayCurrent(g, elims, before, after, v, u);
    }
  }

  /** The ids from 1 to n. */
  function Ids(n: nat): (ids: set<int>)
    ensures |ids| == n && forall u :: u in ids <==> 1 <= u <= n
  {
    if n == 0 then {} else Ids(n - 1) + {n}
  }

  lemma SubsetSize(a: set<int>, b: set<int>)
    requires a <= b
    ensures |a| <= |b|
  {
    assert b == a + (b - a);
  }

  /** While fewer than n vertices have been eliminated, one remains. */
  lemma SomeVertexRemains(g: Graph, elims: seq<int>) returns (v: int)
    requires Scheduled(g, elims) && |elims| < |g|
    ensures IsVertex(g, v) && v !in elims
  {
    if forall u | IsVertex(g, u) :: u in elims {
      DistinctSize(elims);
      var all := Ids(|g|);
      forall u | u in all ensures u in SetOf(elims) {
        assert IsVertex(g, u);
      }
      SubsetSize(all, SetOf(elims));
    }
    v :| IsVertex(g, v) && v !in elims;
  }

  /** The least node under operator< is a true minimum-degree vertex of the elimination graph. */
  lemma LeastNodeIsPivot(g: Graph, elims: seq<int>, nodes: seq<Node>, v: int)
    requires Scheduled(g, elims) && |elims| < |g| && Marked(g, elims, nodes) && DegreesCurrent(g, elims, nodes)
    requires IsVertex(g, v) && forall i | 0 <= i < |nodes| :: !Less(nodes[i], nodes[v - 1])
    ensures MinDegreeVertex(g, elims, v)
  {
    assert MarkedNode(g, elims, nodes, v) && DegreeCurrent(g, elims, nodes, v);
    var r := SomeVertexRemains(g, elims);
    assert DegreeCurrent(g, elims, nodes, r) && !Less(nodes[r - 1], nodes[v - 1]);
    ElimDegreeBelow(g, elims, r);
    forall u | IsVertex(g, u) && u !in elims
      ensures ElimDegree(g, elims, v) < ElimDegree(g, elims, u)
           || (ElimDegree(g, elims, v) == ElimDegree(g, elims, u) && v <= u)
    {
      assert MarkedNode(g, elims, nodes, u) && DegreeCurrent(g, elims, nodes, u);
      assert !Less(nodes[u - 1], nodes[v - 1]);
    }
  }

  method FindMinDegreeNode(nodes: array<Node>) returns (id: int)
    requires nodes.Length > 0 && forall i | 0 <= i < nodes.Length :: nodes[i].id == i + 1
    ensures 1 <= id <= nodes.Length
    ensures forall i | 0 <= i < nodes.Length :: !Less(nodes[i], nodes[id - 1])
  {
    var min := 0;
    for i := 1 to nodes.Length
      invariant 0 <= min < nodes.Length
      invariant forall k | 0 <= k < i :: !Less(nodes[k], nodes[min])
    {
      if Less(nodes[i], nodes[min]) {
        min := i;
      }
    }
    id := nodes[min].id;
  }

  /** Every schedule entry is the minimum-degree vertex of the graph left by those before it. */
  ghost predicate MinDegreeSchedule(g: Graph, schedule: seq<int>) {
    forall k | 0 <= k < |schedule| :: MinDegreeVertex(g, schedule[..k], schedule[k])
  }

  /** The elimination steps are recorded in the nodes. */
  ghost predicate StepsRecorded(elims: seq<int>, nodes: seq<Node>) {
    forall k | 0 <= k < |elims| :: 1 <= elims[k] <= |nodes| && nodes[elims[k] - 1].elimStep == k + 1
  }

  lemma ScheduleGrows(g: Graph, schedule: seq<int>, v: int)
    requires MinDegreeSchedule(g, schedule) && MinDegreeVertex(g, schedule, v)
    ensures MinDegreeSchedule(g, schedule + [v])
  {
    var s := schedule + [v];
    forall k | 0 <= k < |s| ensures MinDegreeVertex(g, s[..k], s[k]) {
      if k < |schedule| {
        assert s[..k] == schedule[..k];
      } else {
        assert s[..k] == schedule;
      }
    }
  }

  lemma StepsGrow(elims: seq<int>, v: int, before: seq<Node>, after: seq<Node>)
    requires StepsRecorded(elims, before) && v !in elims && 1 <= v <= |before| == |after|
    requires after[v - 1].elimStep == |elims| + 1
    requires forall i | 0 <= i < |after| && i != v - 1 :: after[i].elimStep == before[i].elimStep
    ensures StepsRecorded(elims + [v], after)
  {
  }

  /** Recomputes the degrees of the pivot's reach set, as every unit does for its own nodes. */
  method UpdateDegrees(nodes: array<Node>, pivot: int, ghost g: Graph, ghost elims: seq<int>, reach: seq<int>)
    requires Scheduled(g, elims + [pivot]) && Marked(g, elims + [pivot], nodes[..])
    requires forall y | y in reach :: IsVertex(g, y) && y !in elims && y != pivot
    requires forall u | IsVertex(g, u) && u !in reach :: DegreeCurrent(g, elims + [pivot], nodes[..], u)
    modifies nodes
    ensures Marked(g, elims + [pivot], nodes[..]) && DegreesCurrent(g, elims + [pivot], nodes[..])
    ensures forall i | 0 <= i < nodes.Length :: nodes[i] == old(nodes[i]).(degree := nodes[i].degree)
  {
    ghost var elims' := elims + [pivot];
    for it := 0 to |reach|
      invariant Marked(g, elims', nodes[..])
      invariant forall u | IsVertex(g, u) && u !in reach[it..] :: DegreeCurrent(g, elims', nodes[..], u)
      invariant forall i | 0 <= i < nodes.Length :: nodes[i] == old(nodes[i]).(degree := nodes[i].degree)
    {
      var nghbId := reach[it];
      MarkedView(g, elims', nodes[..]);
      assert nghbId in reach;
      var nghbReach := GetReach(nodes, nghbId);
      ReachIsElimNeighbours(g, elims', nodes[..], nghbId, nghbReach);
      ghost var before := nodes[..];
      nodes[nghbId - 1] := nodes[nghbId - 1].(degree := |nghbReach|);
      forall u | IsVertex(g, u) ensures MarkedNode(g, elims', nodes[..], u) {
        assert MarkedNode(g, elims', before, u);
      }
      forall u | IsVertex(g, u) && u !in reach[it + 1..] ensures DegreeCurrent(g, elims', nodes[..], u) {
        assert reach[it..] == [nghbId] + reach[it + 1..];
        assert u != nghbId ==> DegreeCurrent(g, elims', before, u);
      }
    }
  }

  /** One elimination step: pick the pivot, mark it, bring its neighbours' degrees up to date. */
  method Eliminate(nodes: array<Node>, step: int, ghost g: Graph, ghost elims: seq<int>) returns (minId: int)
    requires |elims| < |g| && step == |elims| + 1
    requires Scheduled(g, elims) && Marked(g, elims, nodes[..]) && DegreesCurrent(g, elims, nodes[..])
    requires StepsRecorded(elims, nodes[..])
    modifies nodes
    ensures MinDegreeVertex(g, elims, minId)
    ensures Scheduled(g, elims + [minId]) && Marked(g, elims + [minId], nodes[..])
    ensures DegreesCurrent(g, elims + [minId], nodes[..]) && StepsRecorded(elims + [minId], nodes[..])
  {
    ghost var before := nodes[..];
    MarkedView(g, elims, before);
    minId := FindMinDegreeNode(nodes);
    LeastNodeIsPivot(g, elims, before, minId);
    hide StepsRecorded, DegreesCurrent, Reaches;
    var minNode := nodes[minId - 1];
    nodes[minId - 1] := minNode.(elimStep := step, degree := minNode.degree + 10 * nodes.Length);
    PivotMarked(g, elims, before, nodes[..], minId, step);
    MarkedView(g, elims + [minId], nodes[..]);
    var reach := GetReach(nodes, minId);
    PivotReachSuffices(g, elims, before, nodes[..], minId, reach);
    UpdateDegrees(nodes, minId, g, elims, reach);
    StepsGrow(elims, minId, before, nodes[..]);
  }

  /**
    The elimination loop. At its head every stored degree is current, so the schedule eliminates
    all vertices, each time a true minimum-degree vertex with ties broken by id.
   */
  method MinDegreeOrdering(nodes: array<Node>) returns (schedule: seq<int>)
    requires Fresh(nodes[..])
    modifies nodes
    ensures |schedule| == nodes.Length && Distinct(schedule)
    ensures forall v :: v in schedule <==> 1 <= v <= nodes.Length
    ensures MinDegreeSchedule(GraphOf(old(nodes[..])), schedule)
    ensures StepsRecorded(schedule, nodes[..])
  {
    var n := nodes.Length;
    ghost var g := GraphOf(nodes[..]);
    schedule := [];
    FreshCurrent(nodes[..]);
    for step := 1 to n + 1
      invariant |schedule| == step - 1
      invariant Scheduled(g, schedule) && Marked(g, schedule, nodes[..]) && DegreesCurrent(g, schedule, nodes[..])
      invariant MinDegreeSchedule(g, schedule) && StepsRecorded(schedule, nodes[..])
    {
      var minId := Eliminate(nodes, step, g, schedule);
      ScheduleGrows(g, schedule, minId);
      schedule := schedule + [minId];
    }
    forall v | 1 <= v <= n ensures v in schedule {
      if v !in schedule {
        DistinctSize(schedule + [v]);
        Bounded(SetOf(schedule + [v]), n);
      }
    }
  }
}
