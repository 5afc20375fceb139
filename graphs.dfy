/**
 * The undirected graph the search works on, seen through the few operations
 * the script asks of igraph: the vertex count, adjacency, copying and adding
 * one edge. Vertices are the dense ids 0 .. n-1; the edges form a multiset,
 * because igraph keeps every edge it is given (an adjacency file that lists
 * an edge from both endpoints yields it twice).
 */
module Graphs {

  type Vertex = nat
  type Edge = (Vertex, Vertex)

  /** A walk given by its vertices, as igraph reports shortest paths. */
  type Path = seq<Vertex>

  /** `are_adjacent`: undirected, so an edge in either orientation counts. */
  predicate Adjacent(edges: multiset<Edge>, a: Vertex, b: Vertex)
  {
    (a, b) in edges || (b, a) in edges
  }

  /** Every edge joins two vertices of the graph. */
  predicate EdgesWithin(edges: multiset<Edge>, n: nat)
  {
    forall e :: e in edges ==> e.0 < n && e.1 < n
  }

  /** A non-empty vertex sequence whose consecutive vertices are adjacent. */
  predicate IsPath(edges: multiset<Edge>, n: nat, p: Path)
  {
    && |p| >= 1
    && (forall k :: 0 <= k < |p| ==> p[k] < n)
    && (forall k :: 0 <= k < |p| - 1 ==> Adjacent(edges, p[k], p[k + 1]))
  }

  /** A path no other path between the same two endpoints undercuts. */
  ghost predicate IsShortestPath(edges: multiset<Edge>, n: nat, p: Path)
  {
    && IsPath(edges, n, p)
    && forall q :: IsPath(edges, n, q) && q[0] == p[0] && q[|q| - 1] == p[|p| - 1] ==> |p| <= |q|
  }

  /** Every element is a shortest path from `i` to some later vertex. */
  ghost predicate ShortestPathsFrom(edges: multiset<Edge>, n: nat, i: Vertex, ps: seq<Path>)
  {
    forall k :: 0 <= k < |ps| ==>
      IsShortestPath(edges, n, ps[k]) && ps[k][0] == i && i < ps[k][|ps[k]| - 1]
  }

  /**
   * What `get_all_shortest_paths(i, to=range(i + 1, n))` hands back: shortest
   * paths from `i` to later vertices, and every such shortest path among them.
   * A target without any path to it therefore has no element ending at it.
   */
  ghost predicate AllShortestPathsFrom(edges: multiset<Edge>, n: nat, i: Vertex, ps: seq<Path>)
  {
    && ShortestPathsFrom(edges, n, i, ps)
    && (forall q :: IsShortestPath(edges, n, q) && q[0] == i && i < q[|q| - 1] ==> q in ps)
  }

  /** One such list for every source vertex 0 .. n-1, in source order. */
  ghost predicate AllShortestPaths(edges: multiset<Edge>, n: nat, pss: seq<seq<Path>>)
  {
    |pss| == n && forall i :: 0 <= i < n ==> AllShortestPathsFrom(edges, n, i, pss[i])
  }

  /** Every vertex of every path in one list is a vertex of the graph. */
  predicate ListWithin(n: nat, ps: seq<Path>)
  {
    forall k, t :: 0 <= k < |ps| && 0 <= t < |ps[k]| ==> ps[k][t] < n
  }

  /** The same, for the lists of every source. */
  predicate PathsWithin(n: nat, pss: seq<seq<Path>>)
  {
    forall i :: 0 <= i < |pss| ==> ListWithin(n, pss[i])
  }

  lemma AllShortestPathsWithin(edges: multiset<Edge>, n: nat, pss: seq<seq<Path>>)
    requires AllShortestPaths(edges, n, pss)
    ensures PathsWithin(n, pss)
  {
    forall i, k, t | 0 <= i < |pss| && 0 <= k < |pss[i]| && 0 <= t < |pss[i][k]|
      ensures pss[i][k][t] < n
    {
      assert AllShortestPathsFrom(edges, n, i, pss[i]);
      assert IsPath(edges, n, pss[i][k]);
    }
  }

  /** No vertex occurs twice. */
  predicate Simple(p: Path)
  {
    forall a, b :: 0 <= a < b < |p| ==> p[a] != p[b]
  }

  /**
   * Cutting out the loop between two visits of one vertex leaves a strictly
   * shorter path between the same endpoints.
   */
  lemma CutLoop(edges: multiset<Edge>, n: nat, p: Path, a: nat, b: nat) returns (q: Path)
    requires IsPath(edges, n, p)
    requires a < b < |p| && p[a] == p[b]
    ensures IsPath(edges, n, q)
    ensures q[0] == p[0] && q[|q| - 1] == p[|p| - 1]
    ensures |q| < |p|
  {
    q := p[..a] + p[b..];
    assert |q| == |p| - (b - a);
    forall k | 0 <= k < |q| ensures q[k] < n {
      if k < a { assert q[k] == p[k]; } else { assert q[k] == p[k - a + b]; }
    }
    forall k | 0 <= k < |q| - 1 ensures Adjacent(edges, q[k], q[k + 1]) {
      if k + 1 < a {
        assert q[k] == p[k] && q[k + 1] == p[k + 1];
      } else if k + 1 == a {
        assert q[k] == p[k] && q[k + 1] == p[b] == p[k + 1];
      } else {
        assert q[k] == p[k - a + b] && q[k + 1] == p[k + 1 - a + b];
      }
    }
    if a == 0 { assert q[0] == p[b]; } else { assert q[0] == p[0]; }
  }

  /** A shortest path never revisits a vertex. */
  lemma ShortestPathIsSimple(edges: multiset<Edge>, n: nat, p: Path)
    requires IsShortestPath(edges, n, p)
    ensures Simple(p)
  {
    if !Simple(p) {
      var a: nat, b: nat :| a < b < |p| && p[a] == p[b];
      var q := CutLoop(edges, n, p, a, b);
      assert false;
    }
  }

  /** The same walk taken backwards. */
  function Rev(p: Path): (r: Path)
    ensures |r| == |p| && forall k :: 0 <= k < |p| ==> r[k] == p[|p| - 1 - k]
  {
    seq(|p|, k requires 0 <= k < |p| => p[|p| - 1 - k])
  }

  /** Adjacency is undirected, so a path walked backwards is a path. */
  lemma RevIsPath(edges: multiset<Edge>, n: nat, p: Path)
    requires IsPath(edges, n, p)
    ensures IsPath(edges, n, Rev(p))
    ensures Rev(p)[0] == p[|p| - 1] && Rev(p)[|p| - 1] == p[0]
  {
    var r := Rev(p);
    forall k | 0 <= k < |r| - 1 ensures Adjacent(edges, r[k], r[k + 1]) {
      var j := |p| - 2 - k;
      assert r[k] == p[j + 1] && r[k + 1] == p[j];
      assert Adjacent(edges, p[j], p[j + 1]);
    }
  }

  /** A shortest path walked backwards is a shortest path between the same two vertices. */
  lemma RevIsShortest(edges: multiset<Edge>, n: nat, p: Path)
    requires IsShortestPath(edges, n, p)
    ensures IsShortestPath(edges, n, Rev(p))
  {
    var r := Rev(p);
    RevIsPath(edges, n, p);
    forall q | IsPath(edges, n, q) && q[0] == r[0] && q[|q| - 1] == r[|r| - 1] ensures |r| <= |q| {
      RevIsPath(edges, n, q);
      assert |p| <= |Rev(q)|;
    }
  }

  /**
   * The igraph graph object as the search uses it: `vcount()` is `n`, the
   * edge list is `edges`. `copy` duplicates it and `add_edge` is its only update.
   */
  class Graph {
    var n: nat
    var edges: multiset<Edge>

    ghost predicate Valid()
      reads this
    {
      EdgesWithin(edges, n)
    }

    constructor (n: nat, edges: multiset<Edge>)
      requires EdgesWithin(edges, n)
      ensures Valid() && this.n == n && this.edges == edges
    {
      this.n := n;
      this.edges := edges;
    }

    /** `graph.copy()`: a new object with the same vertices and edges. */
    method Copy() returns (g: Graph)
      requires Valid()
      ensures fresh(g) && g.Valid()
      ensures g.n == n && g.edges == edges
    {
      g := new Graph(n, edges);
    }

    /**
     * `add_edge(u, v)`: igraph raises for a vertex id that does not exist, and
     * otherwise adds the edge even when it already exists.
     */
    method AddEdge(u: Vertex, v: Vertex)
      requires Valid() && u < n && v < n
      modifies this
      ensures Valid()
      ensures n == old(n) && edges == old(edges) + multiset{(u, v)}
      ensures Adjacent(edges, u, v) && Adjacent(edges, v, u)
    {
      edges := edges + multiset{(u, v)};
    }
  }
}
