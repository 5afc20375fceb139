/**
 * The augmentation search of `do_pool`: every candidate edge is added to a
 * private copy of the graph, the copy is scored by its largest betweenness
 * and its largest stress, and the first 1000 candidates' scores are reduced
 * to the best candidate for each metric.
 *
 * igraph's `betweenness()` and `get_all_shortest_paths` are parameters: the
 * first is any scoring function giving one value per vertex, the second must
 * give, for each source, the shortest paths to later vertices.
 */
module Search {
  import opened Graphs
  import opened Lists
  import opened Stress
  import opened Candidates

  /** The tuple `(max_betw, max_stress, (u, v))` of `compute_centralities`. */
  datatype SearchResult = SearchResult(maxBetweenness: real, maxStress: int, edge: Edge)

  /** `Graph.betweenness()` of the graph with the given edges and vertex count. */
  type BetweennessOf = (multiset<Edge>, nat) -> seq<real>

  /** One `get_all_shortest_paths(i, to=range(i + 1, n))` list per source `i`. */
  type ShortestPathsOf = (multiset<Edge>, nat) -> seq<seq<Path>>

  /** Enough for the scores to be defined: one betweenness per vertex, and paths within the graph. */
  predicate Scorable(betweenness: BetweennessOf, shortestPaths: ShortestPathsOf, n: nat, edges: multiset<Edge>)
  {
    |betweenness(edges, n)| == n && PathsWithin(n, shortestPaths(edges, n))
  }

  /** The two igraph routines behave as promised on the graph with these edges. */
  ghost predicate Fits(betweenness: BetweennessOf, shortestPaths: ShortestPathsOf, n: nat, edges: multiset<Edge>)
  {
    |betweenness(edges, n)| == n && AllShortestPaths(edges, n, shortestPaths(edges, n))
  }

  lemma FitsScorable(betweenness: BetweennessOf, shortestPaths: ShortestPathsOf, n: nat, edges: multiset<Edge>)
    requires Fits(betweenness, shortestPaths, n, edges)
    ensures Scorable(betweenness, shortestPaths, n, edges)
  {
    AllShortestPathsWithin(edges, n, shortestPaths(edges, n));
  }

  /** The scores of one candidate: its largest betweenness and largest stress on the augmented graph. */
  function Evaluation(n: nat, edges: multiset<Edge>, e: Edge,
                      betweenness: BetweennessOf, shortestPaths: ShortestPathsOf): (r: SearchResult)
    requires e.0 < n && e.1 < n
    requires Scorable(betweenness, shortestPaths, n, edges + multiset{e})
    ensures r.edge == e
  {
    var augmented := edges + multiset{e};
    var pss := shortestPaths(augmented, n);
    SearchResult(MaxReal(betweenness(augmented, n)), MaxInt(StressVector(n, pss)), e)
  }

  /**
   * What the scores of a candidate mean: the betweenness score is the
   * largest betweenness of the augmented graph, and the stress score is the largest number of listed shortest paths (over
   * all sources) that pass through one vertex as an internal vertex.
   */
  lemma EvaluationScores(n: nat, edges: multiset<Edge>, e: Edge,
                         betweenness: BetweennessOf, shortestPaths: ShortestPathsOf)
    requires e.0 < n && e.1 < n
    requires Fits(betweenness, shortestPaths, n, edges + multiset{e})
    ensures Scorable(betweenness, shortestPaths, n, edges + multiset{e})
    ensures var r := Evaluation(n, edges, e, betweenness, shortestPaths);
      var pss := shortestPaths(edges + multiset{e}, n);
      && r.maxBetweenness in betweenness(edges + multiset{e}, n)
      && (forall v :: 0 <= v < n ==> betweenness(edges + multiset{e}, n)[v] <= r.maxBetweenness)
      && (forall v :: 0 <= v < n ==> ShortestPathsThrough(pss, v) <= r.maxStress)
      && (exists v :: 0 <= v < n && ShortestPathsThrough(pss, v) == r.maxStress)
  {
    var augmented := edges + multiset{e};
    var pss := shortestPaths(augmented, n);
    FitsScorable(betweenness, shortestPaths, n, augmented);
    var stress := StressVector(n, pss);
    var m := MaxInt(stress);
    forall v | 0 <= v < n ensures stress[v] == ShortestPathsThrough(pss, v) {
      StressCountsShortestPaths(augmented, n, pss, v);
    }
    var w :| 0 <= w < n && stress[w] == m;
    assert ShortestPathsThrough(pss, w) == m;
  }

  /**
   * `compute_centralities`: copy the graph, add the candidate to the copy,
   * and score the copy. The argument graph is not in any `modifies` clause,
   * so it is left exactly as it was.
   */
  method ComputeCentralities(graph: Graph, u: Vertex, v: Vertex,
                             betweenness: BetweennessOf, shortestPaths: ShortestPathsOf)
    returns (r: SearchResult)
    requires graph.Valid() && u < graph.n && v < graph.n
    requires Fits(betweenness, shortestPaths, graph.n, graph.edges + multiset{(u, v)})
    ensures r == Evaluation(graph.n, graph.edges, (u, v), betweenness, shortestPaths)
    ensures r.edge == (u, v)
  {
    var myG := graph.Copy();
    myG.AddEdge(u, v);
    var betw := betweenness(myG.edges, myG.n);
    var maxBetw := MaxReal(betw);
    var maxStress := ComputeMaxStress(myG.n, myG.edges, shortestPaths(myG.edges, myG.n));
    r := SearchResult(maxBetw, maxStress, (u, v));
  }

  /** Only the slice `args[:1000]` is evaluated. */
  const Limit: nat := 1000

  function Evaluated(cands: seq<Edge>): (prefix: seq<Edge>)
    ensures |prefix| <= Limit && |prefix| <= |cands|
    ensures |prefix| == Limit || |prefix| == |cands|
    ensures forall k :: 0 <= k < |prefix| ==> prefix[k] == cands[k]
  {
    if |cands| <= Limit then cands else cands[..Limit]
  }

  /** The candidate joins two vertices and its augmented graph can be scored. */
  predicate ScorableCandidate(n: nat, edges: multiset<Edge>, e: Edge,
                              betweenness: BetweennessOf, shortestPaths: ShortestPathsOf)
  {
    e.0 < n && e.1 < n && Scorable(betweenness, shortestPaths, n, edges + multiset{e})
  }

  /** The same for every candidate of a list. */
  predicate AllScorable(n: nat, edges: multiset<Edge>, cands: seq<Edge>,
                        betweenness: BetweennessOf, shortestPaths: ShortestPathsOf)
  {
    forall k :: 0 <= k < |cands| ==> ScorableCandidate(n, edges, cands[k], betweenness, shortestPaths)
  }

  /** Every candidate of the list joins two vertices and the igraph routines fit its augmented graph. */
  ghost predicate AllFit(n: nat, edges: multiset<Edge>, cands: seq<Edge>,
                         betweenness: BetweennessOf, shortestPaths: ShortestPathsOf)
  {
    forall k :: 0 <= k < |cands| ==>
      cands[k].0 < n && cands[k].1 < n && Fits(betweenness, shortestPaths, n, edges + multiset{cands[k]})
  }

  lemma AllFitScorable(n: nat, edges: multiset<Edge>, cands: seq<Edge>,
                       betweenness: BetweennessOf, shortestPaths: ShortestPathsOf)
    requires AllFit(n, edges, cands, betweenness, shortestPaths)
    ensures AllScorable(n, edges, cands, betweenness, shortestPaths)
  {
    forall k | 0 <= k < |cands| ensures ScorableCandidate(n, edges, cands[k], betweenness, shortestPaths) {
      FitsScorable(betweenness, shortestPaths, n, edges + multiset{cands[k]});
    }
  }

  /** The comprehension `[compute_centralities(arg) for arg in ...]`, one result per candidate in order. */
  function Results(n: nat, edges: multiset<Edge>, cands: seq<Edge>,
                   betweenness: BetweennessOf, shortestPaths: ShortestPathsOf): (rs: seq<SearchResult>)
    requires AllScorable(n, edges, cands, betweenness, shortestPaths)
  {
    if cands == [] then []
    else
      var last := cands[|cands| - 1];
      Results(n, edges, cands[..|cands| - 1], betweenness, shortestPaths)
        + [Evaluation(n, edges, last, betweenness, shortestPaths)]
  }

  /** Appending a result for an appended candidate keeps results and candidates in line. */
  lemma EdgesInLine(before: seq<SearchResult>, last: SearchResult, prefix: seq<Edge>, e: Edge)
    requires |before| == |prefix| && forall k :: 0 <= k < |prefix| ==> before[k].edge == prefix[k]
    requires last.edge == e
    ensures |before + [last]| == |prefix + [e]|
    ensures forall k :: 0 <= k < |prefix| + 1 ==> (before + [last])[k].edge == (prefix + [e])[k]
  {
  }

  /** The results line up with the candidates: entry k is the score of candidate k. */
  lemma {:induction false} ResultsMatchCandidates(n: nat, edges: multiset<Edge>, cands: seq<Edge>,
                                                  betweenness: BetweennessOf, shortestPaths: ShortestPathsOf)
    requires AllScorable(n, edges, cands, betweenness, shortestPaths)
    ensures |Results(n, edges, cands, betweenness, shortestPaths)| == |cands|
    ensures forall k :: 0 <= k < |cands| ==>
      Results(n, edges, cands, betweenness, shortestPaths)[k].edge == cands[k]
  {
    if cands != [] {
      var m := |cands| - 1;
      var prefix := cands[..m];
      ResultsSnoc(n, edges, cands, m, betweenness, shortestPaths);
      ResultsMatchCandidates(n, edges, prefix, betweenness, shortestPaths);
      assert cands[..m + 1] == cands == prefix + [cands[m]];
      EdgesInLine(Results(n, edges, prefix, betweenness, shortestPaths),
                  Evaluation(n, edges, cands[m], betweenness, shortestPaths), prefix, cands[m]);
    }
  }

  /** One more candidate adds its own result at the end. */
  lemma ResultsSnoc(n: nat, edges: multiset<Edge>, cands: seq<Edge>, k: nat,
                    betweenness: BetweennessOf, shortestPaths: ShortestPathsOf)
    requires AllScorable(n, edges, cands, betweenness, shortestPaths) && k < |cands|
    ensures AllScorable(n, edges, cands[..k], betweenness, shortestPaths)
    ensures AllScorable(n, edges, cands[..k + 1], betweenness, shortestPaths)
    ensures Results(n, edges, cands[..k + 1], betweenness, shortestPaths)
      == Results(n, edges, cands[..k], betweenness, shortestPaths)
        + [Evaluation(n, edges, cands[k], betweenness, shortestPaths)]
  {
    assert cands[..k + 1][..k] == cands[..k];
  }

  /** `results = [compute_centralities(arg) for arg in args[:1000]]`. */
  method EvaluateCandidates(graph: Graph, cands: seq<Edge>,
                            betweenness: BetweennessOf, shortestPaths: ShortestPathsOf)
    returns (results: seq<SearchResult>)
    requires graph.Valid()
    requires AllFit(graph.n, graph.edges, Evaluated(cands), betweenness, shortestPaths)
    ensures AllScorable(graph.n, graph.edges, Evaluated(cands), betweenness, shortestPaths)
    ensures results == Results(graph.n, graph.edges, Evaluated(cands), betweenness, shortestPaths)
    ensures |results| == |Evaluated(cands)|
    ensures forall k :: 0 <= k < |results| ==> results[k].edge == cands[k]
  {
    var args := Evaluated(cands);
    AllFitScorable(graph.n, graph.edges, args, betweenness, shortestPaths);
    results := [];
    for k := 0 to |args|
      invariant AllScorable(graph.n, graph.edges, args[..k], betweenness, shortestPaths)
      invariant results == Results(graph.n, graph.edges, args[..k], betweenness, shortestPaths)
    {
      var r := ComputeCentralities(graph, args[k].0, args[k].1, betweenness, shortestPaths);
      ResultsSnoc(graph.n, graph.edges, args, k, betweenness, shortestPaths);
      results := results + [r];
    }
    assert args[..|args|] == args;
    ResultsMatchCandidates(graph.n, graph.edges, args, betweenness, shortestPaths);
  }

  // ----- The `min` reductions -----

  datatype Metric = Betweenness | Stress

  /** The keys `lambda k: k[0]` and `lambda k: k[1]`. */
  function Key(r: SearchResult, m: Metric): real
  {
    match m
    case Betweenness => r.maxBetweenness
    case Stress => r.maxStress as real
  }

  /**
   * Python's `min` with a key: scanning from `i`, the current best is replaced
   * only by a strictly smaller key, so the first minimum is kept.
   */
  function MinFrom(rs: seq<SearchResult>, m: Metric, best: nat, i: nat): (k: nat)
    requires best < i <= |rs|
    requires forall j :: 0 <= j < best ==> Key(rs[best], m) < Key(rs[j], m)
    requires forall j :: best <= j < i ==> Key(rs[best], m) <= Key(rs[j], m)
    decreases |rs| - i
    ensures k < |rs|
    ensures forall j :: 0 <= j < |rs| ==> Key(rs[k], m) <= Key(rs[j], m)
    ensures forall j :: 0 <= j < k ==> Key(rs[k], m) < Key(rs[j], m)
  {
    if i == |rs| then best
    else if Key(rs[i], m) < Key(rs[best], m) then MinFrom(rs, m, i, i + 1)
    else MinFrom(rs, m, best, i + 1)
  }

  /**
   * `min(results, key=...)`: a result whose key is no larger than any other's,
   * and on ties the earliest one. Python raises on an empty list.
   */
  function BestBy(rs: seq<SearchResult>, m: Metric): (r: SearchResult)
    requires |rs| > 0
    ensures exists k :: (0 <= k < |rs| && rs[k] == r &&
      (forall j :: 0 <= j < |rs| ==> Key(r, m) <= Key(rs[j], m)) &&
      (forall j :: 0 <= j < k ==> Key(r, m) < Key(rs[j], m)))
  {
    rs[MinFrom(rs, m, 0, 1)]
  }

  // ----- The search as a whole -----

  /** What `do_pool` reports: the best candidate by each metric. */
  datatype Outcome = NoCandidates | Best(byBetweenness: SearchResult, byStress: SearchResult)

  /**
   * The search of `do_pool` once the graph is built. With no missing edge the
   * script does not get as far as a result (its pool of zero processes and
   * `min` of an empty list both raise); that case is `NoCandidates`.
   */
  method BestEdges(graph: Graph, betweenness: BetweennessOf, shortestPaths: ShortestPathsOf)
    returns (out: Outcome)
    requires graph.Valid()
    requires AllFit(graph.n, graph.edges, Evaluated(MissingEdges(graph.n, graph.edges)), betweenness, shortestPaths)
    ensures out.NoCandidates? <==> MissingEdges(graph.n, graph.edges) == []
    ensures out.Best? ==>
      AllScorable(graph.n, graph.edges, Evaluated(MissingEdges(graph.n, graph.edges)), betweenness, shortestPaths) &&
      var results := Results(graph.n, graph.edges, Evaluated(MissingEdges(graph.n, graph.edges)),
                             betweenness, shortestPaths);
      |results| > 0 &&
      out.byBetweenness == BestBy(results, Betweenness) && out.byStress == BestBy(results, Stress)
  {
    var missing := MissingEdges(graph.n, graph.edges);
    if |missing| == 0 {
      return NoCandidates;
    }
    var results := EvaluateCandidates(graph, missing, betweenness, shortestPaths);
    out := Best(BestBy(results, Betweenness), BestBy(results, Stress));
  }
}
