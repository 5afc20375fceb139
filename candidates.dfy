/**
 * The candidate edges of the search: the comprehension over `i` in
 * `range(vcount)` and `j` in `range(i + 1, vcount)` that keeps the pairs
 * igraph does not report as adjacent.
 */
module Candidates {
  import opened Graphs

  /** Lexicographic order on pairs, the order the nested `for` clauses produce. */
  predicate Before(a: Edge, b: Edge)
  {
    a.0 < b.0 || (a.0 == b.0 && a.1 < b.1)
  }

  /** A pair the search may add: two distinct vertices, smaller first, not yet adjacent. */
  predicate IsCandidate(n: nat, edges: multiset<Edge>, e: Edge)
  {
    e.0 < e.1 < n && !Adjacent(edges, e.0, e.1)
  }

  /** The inner clause: pairs `(i, j)` for `j` in `range(from, n)`. */
  function Row(n: nat, edges: multiset<Edge>, i: Vertex, from: nat): (r: seq<Edge>)
    decreases n - from
    ensures forall k :: 0 <= k < |r| ==> r[k].0 == i && from <= r[k].1 < n && !Adjacent(edges, i, r[k].1)
    ensures forall j :: from <= j < n && !Adjacent(edges, i, j) ==> (i, j) in r
    ensures forall a, b :: 0 <= a < b < |r| ==> r[a].1 < r[b].1
  {
    if from >= n then []
    else (if Adjacent(edges, i, from) then [] else [(i, from)]) + Row(n, edges, i, from + 1)
  }

  /** The outer clause: rows `i` for `i` in `range(from, n)`, each starting at `i + 1`. */
  function Rows(n: nat, edges: multiset<Edge>, from: nat): (r: seq<Edge>)
    decreases n - from
    ensures forall k :: 0 <= k < |r| ==> from <= r[k].0 && IsCandidate(n, edges, r[k])
    ensures forall e: Edge :: from <= e.0 && IsCandidate(n, edges, e) ==> e in r
    ensures forall a, b :: 0 <= a < b < |r| ==> Before(r[a], r[b])
  {
    if from >= n then []
    else
      var row, rest := Row(n, edges, from, from + 1), Rows(n, edges, from + 1);
      assert forall a, b :: 0 <= a < |row| && 0 <= b < |rest| ==> Before(row[a], rest[b]);
      assert forall e: Edge :: from == e.0 && IsCandidate(n, edges, e) ==> e in row;
      row + rest
  }

  /**
   * `missing_edges`: a pair is listed if and only if it is a candidate, and
   * the list is strictly increasing in lexicographic order, so each candidate
   * appears exactly once.
   */
  function MissingEdges(n: nat, edges: multiset<Edge>): (r: seq<Edge>)
    ensures forall e: Edge :: e in r <==> IsCandidate(n, edges, e)
    ensures forall a, b :: 0 <= a < b < |r| ==> Before(r[a], r[b])
    ensures forall a, b :: 0 <= a < b < |r| ==> r[a] != r[b]
  {
    Rows(n, edges, 0)
  }

  lemma {:induction false} CompleteRowEmpty(n: nat, edges: multiset<Edge>, i: Vertex, from: nat)
    requires forall j :: from <= j < n ==> Adjacent(edges, i, j)
    decreases n - from
    ensures Row(n, edges, i, from) == []
  {
    if from < n { CompleteRowEmpty(n, edges, i, from + 1); }
  }

  lemma {:induction false} CompleteRowsEmpty(n: nat, edges: multiset<Edge>, from: nat)
    requires forall i, j :: 0 <= i < j < n ==> Adjacent(edges, i, j)
    decreases n - from
    ensures Rows(n, edges, from) == []
  {
    if from < n {
      CompleteRowEmpty(n, edges, from, from + 1);
      CompleteRowsEmpty(n, edges, from + 1);
    }
  }

  /** In a complete graph there is nothing to add. */
  lemma CompleteGraphHasNoCandidates(n: nat, edges: multiset<Edge>)
    requires forall i, j :: 0 <= i < j < n ==> Adjacent(edges, i, j)
    ensures MissingEdges(n, edges) == []
  {
    CompleteRowsEmpty(n, edges, 0);
  }
}
