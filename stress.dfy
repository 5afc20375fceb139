/**
 * Stress centrality as `compute_max_stress_centrality` computes it: for each
 * source i, every shortest path to a later vertex j > i adds one to each of
 * its internal vertices; the result is the largest entry. The shortest paths
 * themselves come from igraph and are an input here.
 */
module Stress {
  import opened Graphs
  import opened Lists

  /** `path[1:-1]` for a path of more than two vertices; shorter ones are filtered out. */
  function Internal(p: Path): seq<Vertex>
  {
    if |p| > 2 then p[1..|p| - 1] else []
  }

  /** `chain.from_iterable(path[1:-1] for path in paths if len(path) > 2)`. */
  function InternalNodes(ps: seq<Path>): seq<Vertex>
  {
    if ps == [] then [] else InternalNodes(ps[..|ps| - 1]) + Internal(ps[|ps| - 1])
  }

  lemma {:induction false} InternalNodesWithin(n: nat, ps: seq<Path>)
    requires ListWithin(n, ps)
    ensures forall t :: 0 <= t < |InternalNodes(ps)| ==> InternalNodes(ps)[t] < n
  {
    if ps != [] {
      InternalNodesWithin(n, ps[..|ps| - 1]);
      var p := ps[|ps| - 1];
      assert forall t :: 0 <= t < |p| ==> p[t] < n;
    }
  }

  /** The contribution of one source's paths, vertex by vertex. */
  function Occurrences(ps: seq<Path>, v: Vertex): nat
  {
    multiset(InternalNodes(ps))[v]
  }

  /** Summed over the lists of all sources. */
  function Through(pss: seq<seq<Path>>, v: Vertex): nat
  {
    if pss == [] then 0 else Through(pss[..|pss| - 1], v) + Occurrences(pss[|pss| - 1], v)
  }

  /** `stress[node] += 1` for each node in turn. */
  function CreditNodes(stress: seq<int>, nodes: seq<Vertex>): (r: seq<int>)
    requires forall t :: 0 <= t < |nodes| ==> nodes[t] < |stress|
    ensures |r| == |stress|
  {
    if nodes == [] then stress
    else
      var r := CreditNodes(stress, nodes[..|nodes| - 1]);
      r[nodes[|nodes| - 1] := r[nodes[|nodes| - 1]] + 1]
  }

  /** Each counter grows by the number of times its vertex is listed. */
  lemma {:induction false} CreditNodesCounts(stress: seq<int>, nodes: seq<Vertex>)
    requires forall t :: 0 <= t < |nodes| ==> nodes[t] < |stress|
    ensures forall v :: 0 <= v < |stress| ==> CreditNodes(stress, nodes)[v] == stress[v] + multiset(nodes)[v]
  {
    if nodes != [] {
      var x := nodes[|nodes| - 1];
      assert nodes == nodes[..|nodes| - 1] + [x];
      CreditNodesCounts(stress, nodes[..|nodes| - 1]);
    }
  }

  /** The outer loop `for i in range(vcount)`, run over the given lists in order. */
  function Accumulate(stress: seq<int>, pss: seq<seq<Path>>): (r: seq<int>)
    requires PathsWithin(|stress|, pss)
    ensures |r| == |stress|
    ensures forall v :: 0 <= v < |stress| ==> r[v] == stress[v] + Through(pss, v)
  {
    if pss == [] then stress
    else
      var last := pss[|pss| - 1];
      InternalNodesWithin(|stress|, last);
      CreditNodesCounts(Accumulate(stress, pss[..|pss| - 1]), InternalNodes(last));
      CreditNodes(Accumulate(stress, pss[..|pss| - 1]), InternalNodes(last))
  }

  /** `[0] * vcount`. */
  function Zeros(n: nat): (z: seq<int>)
    ensures |z| == n && forall v :: 0 <= v < n ==> z[v] == 0
  {
    seq(n, _ => 0)
  }

  /** The stress list once every source has been processed. */
  function StressVector(n: nat, pss: seq<seq<Path>>): (r: seq<int>)
    requires PathsWithin(n, pss)
    ensures |r| == n
    ensures forall v :: 0 <= v < n ==> r[v] == Through(pss, v) >= 0
  {
    Accumulate(Zeros(n), pss)
  }

  /** Crediting one more node adds one at that node. */
  lemma CreditSnoc(stress: seq<int>, nodes: seq<Vertex>, x: Vertex)
    requires forall k :: 0 <= k < |nodes| ==> nodes[k] < |stress|
    requires x < |stress|
    ensures forall k :: 0 <= k < |nodes + [x]| ==> (nodes + [x])[k] < |stress|
    ensures var before := CreditNodes(stress, nodes);
      CreditNodes(stress, nodes + [x]) == before[x := before[x] + 1]
  {
    assert (nodes + [x])[..|nodes|] == nodes;
  }

  /** The inner sweep: `stress[node] += 1` for every node, in place. */
  method CreditInPlace(stress: array<int>, nodes: seq<Vertex>)
    requires forall t :: 0 <= t < |nodes| ==> nodes[t] < stress.Length
    modifies stress
    ensures stress[..] == CreditNodes(old(stress[..]), nodes)
  {
    ghost var before := stress[..];
    for t := 0 to |nodes|
      invariant stress[..] == CreditNodes(before, nodes[..t])
    {
      assert nodes[..t + 1] == nodes[..t] + [nodes[t]];
      CreditSnoc(before, nodes[..t], nodes[t]);
      stress[nodes[t]] := stress[nodes[t]] + 1;
    }
    assert nodes[..|nodes|] == nodes;
  }

  /** `compute_max_stress_centrality`, with igraph's shortest-path lists given per source. */
  method ComputeMaxStress(n: nat, ghost edges: multiset<Edge>, pss: seq<seq<Path>>) returns (m: int)
    requires n >= 1
    requires AllShortestPaths(edges, n, pss)
    ensures PathsWithin(n, pss) && m == MaxInt(StressVector(n, pss))
    ensures m in StressVector(n, pss)
    ensures forall v :: 0 <= v < n ==> StressVector(n, pss)[v] <= m
    ensures m >= 0
  {
    AllShortestPathsWithin(edges, n, pss);
    var stress := new int[n](_ => 0);
    assert stress[..] == Zeros(n);
    for i := 0 to n
      invariant stress[..] == Accumulate(Zeros(n), pss[..i])
    {
      InternalNodesWithin(n, pss[i]);
      CreditInPlace(stress, InternalNodes(pss[i]));
      assert pss[..i + 1][..i] == pss[..i];
    }
    assert pss[..n] == pss;
    m := MaxInt(stress[..]);
  }

  // ----- What the accumulated stress means -----

  /** How many of the listed paths have `v` as an internal vertex. */
  function PathsThrough(ps: seq<Path>, v: Vertex): nat
  {
    if ps == [] then 0
    else PathsThrough(ps[..|ps| - 1], v) + (if v in Internal(ps[|ps| - 1]) then 1 else 0)
  }

  /** The same, over the lists of all sources. */
  function ShortestPathsThrough(pss: seq<seq<Path>>, v: Vertex): nat
  {
    if pss == [] then 0
    else ShortestPathsThrough(pss[..|pss| - 1], v) + PathsThrough(pss[|pss| - 1], v)
  }

  /** A vertex occurs at most once in a simple sequence. */
  lemma {:induction false} SimpleCount(s: seq<Vertex>, v: Vertex)
    requires Simple(s)
    ensures multiset(s)[v] == if v in s then 1 else 0
  {
    if s != [] {
      var s' := s[..|s| - 1];
      assert s == s' + [s[|s| - 1]];
      assert Simple(s');
      SimpleCount(s', v);
      assert s[|s| - 1] !in s';
    }
  }

  /**
   * Each shortest path credits exactly its internal vertices, by exactly one
   * each, and its two endpoints nothing.
   */
  lemma ShortestPathCredit(edges: multiset<Edge>, n: nat, p: Path, v: Vertex)
    requires IsShortestPath(edges, n, p)
    ensures multiset(Internal(p))[v] == if v in Internal(p) then 1 else 0
    ensures p[0] !in Internal(p) && p[|p| - 1] !in Internal(p)
  {
    ShortestPathIsSimple(edges, n, p);
    if |p| > 2 {
      var s := p[1..|p| - 1];
      assert Simple(s) by {
        forall a, b | 0 <= a < b < |s| ensures s[a] != s[b] { assert s[a] == p[a + 1] && s[b] == p[b + 1]; }
      }
      SimpleCount(s, v);
      forall k | 0 <= k < |s| ensures s[k] != p[0] && s[k] != p[|p| - 1] { assert s[k] == p[k + 1]; }
    }
  }

  /** A path of at most two vertices changes nothing. */
  lemma ShortPathCreditsNothing(stress: seq<int>, p: Path)
    requires |p| <= 2
    ensures CreditNodes(stress, Internal(p)) == stress
  {
  }

  /** Counting occurrences of `v` among the internal vertices counts the listed paths through `v`. */
  lemma {:induction false} OccurrencesCountPaths(edges: multiset<Edge>, n: nat, i: Vertex, ps: seq<Path>, v: Vertex)
    requires ShortestPathsFrom(edges, n, i, ps)
    ensures Occurrences(ps, v) == PathsThrough(ps, v)
  {
    if ps != [] {
      var ps' := ps[..|ps| - 1];
      assert ShortestPathsFrom(edges, n, i, ps') by {
        forall k | 0 <= k < |ps'| ensures ps'[k] == ps[k] { }
      }
      OccurrencesCountPaths(edges, n, i, ps', v);
      ShortestPathCredit(edges, n, ps[|ps| - 1], v);
    }
  }

  lemma {:induction false} ThroughCountsPaths(edges: multiset<Edge>, n: nat, pss: seq<seq<Path>>, v: Vertex)
    requires forall i :: 0 <= i < |pss| ==> ShortestPathsFrom(edges, n, i, pss[i])
    ensures Through(pss, v) == ShortestPathsThrough(pss, v)
  {
    if pss != [] {
      var k := |pss| - 1;
      ThroughCountsPaths(edges, n, pss[..k], v);
      OccurrencesCountPaths(edges, n, k, pss[k], v);
    }
  }

  /**
   * The reference meaning of stress: the entry of `v` is the number of listed
   * shortest paths, over all sources, that pass through `v` as an internal vertex.
   */
  lemma StressCountsShortestPaths(edges: multiset<Edge>, n: nat, pss: seq<seq<Path>>, v: Vertex)
    requires AllShortestPaths(edges, n, pss)
    requires v < n
    ensures PathsWithin(n, pss) && StressVector(n, pss)[v] == ShortestPathsThrough(pss, v)
  {
    AllShortestPathsWithin(edges, n, pss);
    forall i | 0 <= i < |pss| ensures ShortestPathsFrom(edges, n, i, pss[i]) {
      assert AllShortestPathsFrom(edges, n, i, pss[i]);
    }
    ThroughCountsPaths(edges, n, pss, v);
  }

  // ----- Every shortest path of the graph is counted -----

  /** A listed path through `v` makes the count of its list positive. */
  lemma {:induction false} PathsThroughListed(ps: seq<Path>, k: nat, v: Vertex)
    requires k < |ps| && v in Internal(ps[k])
    ensures PathsThrough(ps, v) >= 1
  {
    var m := |ps| - 1;
    if k < m {
      assert ps[..m][k] == ps[k];
      PathsThroughListed(ps[..m], k, v);
    }
  }

  /** The count over all sources is at least the count of any one source. */
  lemma {:induction false} ThroughAtLeastOneSource(pss: seq<seq<Path>>, i: nat, v: Vertex)
    requires i < |pss|
    ensures ShortestPathsThrough(pss, v) >= PathsThrough(pss[i], v)
  {
    var m := |pss| - 1;
    if i < m {
      assert pss[..m][i] == pss[i];
      ThroughAtLeastOneSource(pss[..m], i, v);
    }
  }

  /**
   * Completeness at work: every shortest path of the graph, taken from its
   * smaller endpoint, gives each of its internal vertices a positive stress.
   */
  lemma EveryShortestPathCounts(edges: multiset<Edge>, n: nat, pss: seq<seq<Path>>, q: Path, v: Vertex)
    requires AllShortestPaths(edges, n, pss)
    requires IsShortestPath(edges, n, q) && q[0] < q[|q| - 1] && v in Internal(q)
    ensures v < n && PathsWithin(n, pss) && StressVector(n, pss)[v] >= 1
  {
    var t :| 0 <= t < |Internal(q)| && Internal(q)[t] == v;
    assert Internal(q)[t] == q[t + 1];
    var i := q[0];
    assert AllShortestPathsFrom(edges, n, i, pss[i]);
    var k :| 0 <= k < |pss[i]| && pss[i][k] == q;
    PathsThroughListed(pss[i], k, v);
    ThroughAtLeastOneSource(pss, i, v);
    StressCountsShortestPaths(edges, n, pss, v);
  }

  /** Every internal vertex of a path is an internal vertex of the path walked backwards. */
  lemma InternalOfRev(p: Path, v: Vertex)
    requires v in Internal(p)
    ensures v in Internal(Rev(p))
  {
    var t :| 0 <= t < |Internal(p)| && Internal(p)[t] == v;
    var r := Rev(p);
    assert Internal(p)[t] == p[t + 1] == r[|p| - 2 - t];
    assert Internal(r)[|p| - 3 - t] == r[|p| - 2 - t];
  }

  /**
   * Every shortest path of the graph between two distinct vertices, in
   * either direction, gives each of its internal vertices a positive stress.
   */
  lemma EveryShortestPathCountsBothWays(edges: multiset<Edge>, n: nat, pss: seq<seq<Path>>, q: Path, v: Vertex)
    requires AllShortestPaths(edges, n, pss)
    requires IsShortestPath(edges, n, q) && q[0] != q[|q| - 1] && v in Internal(q)
    ensures v < n && PathsWithin(n, pss) && StressVector(n, pss)[v] >= 1
  {
    if q[0] < q[|q| - 1] {
      EveryShortestPathCounts(edges, n, pss, q, v);
    } else {
      RevIsShortest(edges, n, q);
      RevIsPath(edges, n, q);
      InternalOfRev(q, v);
      EveryShortestPathCounts(edges, n, pss, Rev(q), v);
    }
  }

  /** No path occurs twice in the list. */
  predicate Distinct(ps: seq<Path>)
  {
    forall a, b :: 0 <= a < b < |ps| ==> ps[a] != ps[b]
  }

  /** No list hands back the same vertex path twice. */
  predicate NoRepeats(pss: seq<seq<Path>>)
  {
    forall i :: 0 <= i < |pss| ==> Distinct(pss[i])
  }

  /** Every path of list `i` starts at vertex `i`. */
  predicate Rooted(pss: seq<seq<Path>>)
  {
    forall i, k :: 0 <= i < |pss| && 0 <= k < |pss[i]| ==> |pss[i][k]| >= 1 && pss[i][k][0] == i
  }

  /** The distinct paths of one list that pass through `v`. */
  ghost function ListThrough(ps: seq<Path>, v: Vertex): set<Path>
  {
    set k | 0 <= k < |ps| && v in Internal(ps[k]) :: ps[k]
  }

  /** The distinct paths, over the lists of all sources, that pass through `v`. */
  ghost function AllThrough(pss: seq<seq<Path>>, v: Vertex): set<Path>
  {
    set i, k | 0 <= i < |pss| && 0 <= k < |pss[i]| && v in Internal(pss[i][k]) :: pss[i][k]
  }

  /** One more path adds itself to the set when it passes through `v`. */
  lemma ListThroughSnoc(ps: seq<Path>, v: Vertex)
    requires ps != []
    ensures ListThrough(ps, v) ==
      ListThrough(ps[..|ps| - 1], v) + (if v in Internal(ps[|ps| - 1]) then {ps[|ps| - 1]} else {})
  {
    var m := |ps| - 1;
    var prefix := ps[..m];
    forall q | q in ListThrough(ps, v)
      ensures q in ListThrough(prefix, v) + (if v in Internal(ps[m]) then {ps[m]} else {})
    {
      var k :| 0 <= k < |ps| && v in Internal(ps[k]) && ps[k] == q;
      if k < m { assert prefix[k] == q; }
    }
    forall q | q in ListThrough(prefix, v) ensures q in ListThrough(ps, v) {
      var k :| 0 <= k < |prefix| && v in Internal(prefix[k]) && prefix[k] == q;
      assert ps[k] == q;
    }
  }

  /** Without repeats, the earlier paths have none either, and the last path is not among them. */
  lemma LastIsNew(ps: seq<Path>, prefix: seq<Path>, v: Vertex)
    requires ps != [] && Distinct(ps) && prefix == ps[..|ps| - 1]
    ensures Distinct(prefix)
    ensures ps[|ps| - 1] !in ListThrough(prefix, v)
  {
    forall k | 0 <= k < |prefix| ensures prefix[k] != ps[|ps| - 1] {
      assert prefix[k] == ps[k];
    }
    forall a, b | 0 <= a < b < |prefix| ensures prefix[a] != prefix[b] {
      assert prefix[a] == ps[a] && prefix[b] == ps[b];
    }
  }

  /** Without repeats, one more path through `v` adds one to the number of distinct paths. */
  lemma ListThroughCard(ps: seq<Path>, prefix: seq<Path>, v: Vertex)
    requires ps != [] && Distinct(ps) && prefix == ps[..|ps| - 1]
    ensures |ListThrough(ps, v)| == |ListThrough(prefix, v)| + (if v in Internal(ps[|ps| - 1]) then 1 else 0)
  {
    ListThroughSnoc(ps, v);
    LastIsNew(ps, prefix, v);
  }

  /** Without repeats, counting the paths of a list through `v` counts distinct paths. */
  lemma {:induction false} ListCountsDistinct(ps: seq<Path>, v: Vertex)
    requires Distinct(ps)
    ensures PathsThrough(ps, v) == |ListThrough(ps, v)|
  {
    if ps != [] {
      var prefix := ps[..|ps| - 1];
      LastIsNew(ps, prefix, v);
      ListCountsDistinct(prefix, v);
      ListThroughCard(ps, prefix, v);
    }
  }

  /** The paths of the last source are new: they start at a vertex the earlier lists do not. */
  lemma AllThroughSplit(pss: seq<seq<Path>>, v: Vertex)
    requires pss != [] && Rooted(pss)
    ensures Rooted(pss[..|pss| - 1])
    ensures AllThrough(pss, v) == AllThrough(pss[..|pss| - 1], v) + ListThrough(pss[|pss| - 1], v)
    ensures AllThrough(pss[..|pss| - 1], v) * ListThrough(pss[|pss| - 1], v) == {}
  {
    var m := |pss| - 1;
    var prefix := pss[..m];
    forall q | q in AllThrough(pss, v)
      ensures q in AllThrough(prefix, v) + ListThrough(pss[m], v)
    {
      var i, k :| 0 <= i < |pss| && 0 <= k < |pss[i]| && v in Internal(pss[i][k]) && pss[i][k] == q;
      if i < m { assert prefix[i][k] == q; }
    }
    forall q | q in AllThrough(prefix, v) ensures q in AllThrough(pss, v) && q[0] < m {
      var i, k :| 0 <= i < |prefix| && 0 <= k < |prefix[i]| && v in Internal(prefix[i][k]) && prefix[i][k] == q;
      assert pss[i][k] == q;
    }
    forall q | q in ListThrough(pss[m], v) ensures q in AllThrough(pss, v) && q[0] == m {
      var k :| 0 <= k < |pss[m]| && v in Internal(pss[m][k]) && pss[m][k] == q;
    }
  }

  lemma {:induction false} CountsDistinct(pss: seq<seq<Path>>, v: Vertex)
    requires NoRepeats(pss) && Rooted(pss)
    ensures ShortestPathsThrough(pss, v) == |AllThrough(pss, v)|
  {
    if pss != [] {
      var m := |pss| - 1;
      AllThroughSplit(pss, v);
      CountsDistinct(pss[..m], v);
      ListCountsDistinct(pss[m], v);
    }
  }

  /** The lists igraph hands back start at their source. */
  lemma AllShortestPathsRooted(edges: multiset<Edge>, n: nat, pss: seq<seq<Path>>)
    requires AllShortestPaths(edges, n, pss)
    ensures Rooted(pss)
  {
    forall i, k | 0 <= i < |pss| && 0 <= k < |pss[i]| ensures |pss[i][k]| >= 1 && pss[i][k][0] == i {
      assert AllShortestPathsFrom(edges, n, i, pss[i]);
    }
  }

  /**
   * The distinct listed paths through `v` are exactly the shortest paths of
   * the graph that pass through `v`, each taken from its smaller endpoint.
   */
  lemma AllThroughMeaning(edges: multiset<Edge>, n: nat, pss: seq<seq<Path>>, v: Vertex, q: Path)
    requires AllShortestPaths(edges, n, pss)
    ensures q in AllThrough(pss, v) <==>
      IsShortestPath(edges, n, q) && q[0] < q[|q| - 1] && v in Internal(q)
  {
    if q in AllThrough(pss, v) {
      var i, k :| 0 <= i < |pss| && 0 <= k < |pss[i]| && v in Internal(pss[i][k]) && pss[i][k] == q;
      assert AllShortestPathsFrom(edges, n, i, pss[i]);
    }
    if IsShortestPath(edges, n, q) && q[0] < q[|q| - 1] && v in Internal(q) {
      var i := q[0];
      assert AllShortestPathsFrom(edges, n, i, pss[i]);
      var k :| 0 <= k < |pss[i]| && pss[i][k] == q;
      assert q in AllThrough(pss, v);
    }
  }

  /**
   * When no list repeats a path, the stress of `v` is the number of distinct
   * shortest paths of the graph that pass through `v` as an internal vertex,
   * one per unordered pair of endpoints and vertex sequence.
   */
  lemma StressCountsDistinctShortestPaths(edges: multiset<Edge>, n: nat, pss: seq<seq<Path>>, v: Vertex)
    requires AllShortestPaths(edges, n, pss) && NoRepeats(pss)
    requires v < n
    ensures PathsWithin(n, pss) && StressVector(n, pss)[v] == |AllThrough(pss, v)|
    ensures forall q :: q in AllThrough(pss, v) <==>
      IsShortestPath(edges, n, q) && q[0] < q[|q| - 1] && v in Internal(q)
  {
    AllShortestPathsRooted(edges, n, pss);
    StressCountsShortestPaths(edges, n, pss, v);
    CountsDistinct(pss, v);
    forall q ensures q in AllThrough(pss, v) <==> IsShortestPath(edges, n, q) && q[0] < q[|q| - 1] && v in Internal(q) {
      AllThroughMeaning(edges, n, pss, v, q);
    }
  }

  // ----- The total amount of stress -----

  /** `len(path) - 2` summed over the paths longer than two. */
  function InternalLength(ps: seq<Path>): nat
  {
    if ps == [] then 0
    else InternalLength(ps[..|ps| - 1]) + (var p := ps[|ps| - 1]; if |p| > 2 then |p| - 2 else 0)
  }

  /** The same, over the lists of all sources. */
  function TotalInternal(pss: seq<seq<Path>>): nat
  {
    if pss == [] then 0 else TotalInternal(pss[..|pss| - 1]) + InternalLength(pss[|pss| - 1])
  }

  lemma {:induction false} InternalNodesLength(ps: seq<Path>)
    ensures |InternalNodes(ps)| == InternalLength(ps)
  {
    if ps != [] { InternalNodesLength(ps[..|ps| - 1]); }
  }

  /** Crediting a list of nodes raises the total by the length of the list. */
  lemma {:induction false} CreditNodesSum(stress: seq<int>, nodes: seq<Vertex>)
    requires forall t :: 0 <= t < |nodes| ==> nodes[t] < |stress|
    ensures Sum(CreditNodes(stress, nodes)) == Sum(stress) + |nodes|
  {
    if nodes != [] {
      var x := nodes[|nodes| - 1];
      CreditNodesSum(stress, nodes[..|nodes| - 1]);
      SumIncrement(CreditNodes(stress, nodes[..|nodes| - 1]), x);
    }
  }

  lemma {:induction false} AccumulateSum(stress: seq<int>, pss: seq<seq<Path>>)
    requires PathsWithin(|stress|, pss)
    ensures Sum(Accumulate(stress, pss)) == Sum(stress) + TotalInternal(pss)
  {
    if pss != [] {
      var last := pss[|pss| - 1];
      AccumulateSum(stress, pss[..|pss| - 1]);
      InternalNodesWithin(|stress|, last);
      CreditNodesSum(Accumulate(stress, pss[..|pss| - 1]), InternalNodes(last));
      InternalNodesLength(last);
    }
  }

  lemma {:induction false} SumZeros(n: nat)
    ensures Sum(Zeros(n)) == 0
  {
    if n > 0 {
      assert Zeros(n)[..n - 1] == Zeros(n - 1);
      SumZeros(n - 1);
    }
  }

  /**
   * The stress values add up to the number of internal vertices of all
   * listed paths: each path longer than two hands out `len(path) - 2` units.
   */
  lemma StressSum(n: nat, pss: seq<seq<Path>>)
    requires PathsWithin(n, pss)
    ensures Sum(StressVector(n, pss)) == TotalInternal(pss)
  {
    AccumulateSum(Zeros(n), pss);
    SumZeros(n);
  }
}
