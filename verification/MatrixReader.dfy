/**
  The nodes that the reader of a coordinate-format matrix file hands to the ordering: every
  off-diagonal entry adds each of its two indices to the other one's neighbour list.
 */
module MatrixReader {
  import opened EliminationGraph
  import opened MinDegree

  /** How often the entries list the edge between x and y, in either orientation. */
  function Listed(entries: seq<(int, int)>, x: int, y: int): nat {
    if x == y then 0 else multiset(entries)[(x, y)] + multiset(entries)[(y, x)]
  }

  ghost predicate EachEdgeOnce(entries: seq<(int, int)>) {
    forall x, y :: Listed(entries, x, y) <= 1
  }

  /** The neighbour lists hold every edge as often as the entries list it. */
  ghost predicate Lists(adj: seq<seq<int>>, entries: seq<(int, int)>) {
    forall x, y :: ListedAt(adj, entries, x, y)
  }

  ghost predicate ListedAt(adj: seq<seq<int>>, entries: seq<(int, int)>, x: int, y: int) {
    1 <= x <= |adj| ==> multiset(adj[x - 1])[y] == Listed(entries, x, y)
  }

  lemma ListedGrows(entries: seq<(int, int)>, m: int, n: int, x: int, y: int)
    ensures Listed(entries + [(m, n)], x, y) ==
            Listed(entries, x, y) + if m != n && ((x, y) == (m, n) || (x, y) == (n, m)) then 1 else 0
  {
    assert multiset(entries + [(m, n)]) == multiset(entries) + multiset{(m, n)};
  }

  lemma ListsAdjacent(adj: Graph, entries: seq<(int, int)>, x: int, y: int)
    requires Lists(adj, entries)
    ensures Adjacent(adj, x, y) <==> IsVertex(adj, x) && Listed(entries, x, y) > 0
  {
    assert ListedAt(adj, entries, x, y);
    if IsVertex(adj, x) {
      assert y in adj[x - 1] <==> multiset(adj[x - 1])[y] > 0;
    }
  }

  lemma ListedEntry(n: nat, entries: seq<(int, int)>, x: int, y: int)
    requires forall e | e in entries :: 1 <= e.0 <= n && 1 <= e.1 <= n
    requires Listed(entries, x, y) > 0
    ensures 1 <= x <= n && 1 <= y <= n && x != y
  {
    assert (x, y) in multiset(entries) || (y, x) in multiset(entries);
  }

  /** The lists form a simple graph exactly when no edge is listed twice. */
  lemma SimpleIffEachEdgeOnce(adj: Graph, entries: seq<(int, int)>)
    requires forall e | e in entries :: 1 <= e.0 <= |adj| && 1 <= e.1 <= |adj|
    requires Lists(adj, entries)
    ensures Simple(adj) <==> EachEdgeOnce(entries)
  {
    forall x, y | Adjacent(adj, x, y) ensures IsVertex(adj, y) && Adjacent(adj, y, x) && x != y {
      ListsAdjacent(adj, entries, x, y);
      ListedEntry(|adj|, entries, x, y);
      ListsAdjacent(adj, entries, y, x);
    }
    if EachEdgeOnce(entries) {
      forall v | IsVertex(adj, v) ensures Distinct(adj[v - 1]) {
        var list := adj[v - 1];
        forall y | y in list ensures multiset(list)[y] == 1 {
          assert ListedAt(adj, entries, v, y);
        }
        CountsDistinct(list);
      }
    }
    if Simple(adj) {
      forall x, y ensures Listed(entries, x, y) <= 1 {
        if Listed(entries, x, y) > 0 {
          ListedEntry(|adj|, entries, x, y);
          ListsAdjacent(adj, entries, x, y);
          assert ListedAt(adj, entries, x, y);
          assert IsVertex(adj, x) && y in adj[x - 1];
          DistinctCounts(adj[x - 1], y);
        }
      }
    }
  }

  function AddEntry(adj: seq<seq<int>>, m: int, k: int): (r: seq<seq<int>>)
    requires 1 <= m <= |adj| && 1 <= k <= |adj|
    ensures |r| == |adj|
  {
    if m == k then adj
    else
      var adj' := adj[m - 1 := adj[m - 1] + [k]];
      adj'[k - 1 := adj'[k - 1] + [m]]
  }

  lemma EntryAdds(adj: seq<seq<int>>, entries: seq<(int, int)>, m: int, k: int)
    requires 1 <= m <= |adj| && 1 <= k <= |adj| && Lists(adj, entries)
    ensures Lists(AddEntry(adj, m, k), entries + [(m, k)])
  {
    var adj', entries' := AddEntry(adj, m, k), entries + [(m, k)];
    forall x, y ensures ListedAt(adj', entries', x, y) {
      ListedGrows(entries, m, k, x, y);
      assert ListedAt(adj, entries, x, y);
    }
  }

  /** The other ends of the entries off the diagonal that have v as one end, in the order of the file. */
  function OtherEnds(entries: seq<(int, int)>, v: int): seq<int> {
    if entries == [] then []
    else
      var (m, k) := entries[|entries| - 1];
      OtherEnds(entries[..|entries| - 1], v) +
        if m == k then [] else if m == v then [k] else if k == v then [m] else []
  }

  lemma EntryExtends(adj: seq<seq<int>>, entries: seq<(int, int)>, m: int, k: int)
    requires 1 <= m <= |adj| && 1 <= k <= |adj|
    requires forall v | 1 <= v <= |adj| :: adj[v - 1] == OtherEnds(entries, v)
    ensures forall v | 1 <= v <= |adj| :: AddEntry(adj, m, k)[v - 1] == OtherEnds(entries + [(m, k)], v)
  {
    assert (entries + [(m, k)])[..|entries|] == entries;
  }

  /** `entries` are the index pairs of the file, in 1..n. */
  method ReadNodes(n: nat, entries: seq<(int, int)>) returns (nodes: seq<Node>)
    requires forall e | e in entries :: 1 <= e.0 <= n && 1 <= e.1 <= n
    ensures |nodes| == n && Lists(GraphOf(nodes), entries)
    ensures forall i | 0 <= i < n ::
              && nodes[i].id == i + 1 && nodes[i].elimStep == -1
              && nodes[i].adj == OtherEnds(entries, i + 1) && nodes[i].degree == |nodes[i].adj|
    ensures Fresh(nodes) <==> EachEdgeOnce(entries)
  {
    var ladj: seq<seq<int>> := seq(n, _ => []);
    for i := 0 to |entries|
      invariant |ladj| == n && Lists(ladj, entries[..i])
      invariant forall v | 1 <= v <= n :: ladj[v - 1] == OtherEnds(entries[..i], v)
    {
      var (m, k) := entries[i];
      assert entries[i] in entries && entries[..i + 1] == entries[..i] + [(m, k)];
      EntryAdds(ladj, entries[..i], m, k);
      EntryExtends(ladj, entries[..i], m, k);
      ladj := AddEntry(ladj, m, k);
    }
    assert entries[..|entries|] == entries;
    nodes := seq(n, i requires 0 <= i < n => Node(i + 1, |ladj[i]|, NOT_ELIMINATED, ladj[i]));
    assert GraphOf(nodes) == ladj;
    SimpleIffEachEdgeOnce(ladj, entries);
  }
}
