# Edge-augmentation search over centralities, in Dafny

The script reads an undirected graph from an adjacency-list file. It then looks
for the single missing edge whose addition makes the graph's largest
centrality as small as possible. Two centralities are used:
- betweenness, which igraph computes;
- stress: the number of shortest paths through a vertex, which the script
  accumulates itself from igraph's lists of all shortest paths.

The model has six modules:

- `Lists`: `max` over integer and real lists, and a sum.
- `Graphs`: the graph as the script sees it, plus paths and shortest paths.
  - The graph is a class `Graph` with a vertex count `n` and an edge multiset,
    copied by `Copy` (`graph.copy()`) and updated only by `AddEdge`
    (`add_edge`).
  - Shortest paths are a predicate over all paths.
  - A proof that a shortest path never repeats a vertex.
- `Stress`: `compute_max_stress_centrality`.
  - The stress vector is a specification function on the per-source path
    lists.
  - `ComputeMaxStress` is the imperative loop over an array of counters,
    proved equal to that function.
  - Lemmas show that the vector counts, for each vertex, the listed shortest
    paths that pass through it internally, and that its sum is the total
    number of internal vertices.
  - Because the lists are complete, every shortest path of the graph between
    two distinct vertices, written in either direction, gives each of its
    internal vertices a positive stress; a shortest path walked backwards is
    again a shortest path. When no list repeats a path, a vertex's stress is
    the number of distinct shortest paths through it, each written from its
    smaller endpoint.
- `Candidates`: the `missing_edges` comprehension. It lists exactly the
  non-adjacent pairs `i < j`, in generation order, once each; it is empty for
  a complete graph.
- `Search`: `compute_centralities`, the evaluation of `args[:1000]`, and the
  two `min` reductions.
  - Python's `min` with a key keeps the first minimum, and the model keeps
    that tie-break.
  - `BestEdges` is the search once the graph is built.
- `AdjacencyList`: the line handling of `read_adjlist`.
  - `strip` uses Python's whitespace set.
  - Blank lines and `#` lines are skipped.
  - The dictionary is modelled with its insertion order, so the last line for
    a node decides its neighbours.
  - Flattening yields the `(node, neighbour)` tuples in order, with no
    deduplication.

igraph's `betweenness()` and `get_all_shortest_paths` are parameters of the
search (`BetweennessOf`, `ShortestPathsOf`). They are constrained only by what
the script relies on:
- one betweenness value per vertex;
- for each source `i`, shortest paths from `i` to the later vertices, every
  such path among them.

The script evaluates only the first 1000 candidates (`args[:1000]`,
main.py:76).

With no missing edge the script raises in `Pool(processes=0)` or, for a graph
with no vertices, already at main.py:59 (`max` of an empty betweenness list);
`Outcome.NoCandidates` stands for both.

## Model

| member | source | states |
|---|---|---|
| Lists.MaxInt | main.py:44 | `max(stress)` of a non-empty list is one of its elements and no element exceeds it |
| Lists.MaxReal | main.py:52 | `max(betw)` of a non-empty list is one of its elements and no element exceeds it |
| Graphs.Adjacent | main.py:67 | `are_adjacent(i, j)`: some edge joins the two vertices, in either orientation |
| Graphs.RevIsPath | main.py:36-38 | edges are undirected, so a path walked backwards is a path with its endpoints swapped |
| Graphs.RevIsShortest | main.py:36-38 | a shortest path walked backwards is a shortest path |
| Graphs.ShortestPathIsSimple | main.py:36-38 | every shortest path igraph can list visits each vertex at most once |
| Graphs.Graph.Copy | main.py:49 | `graph.copy()` is a new object with the same vertex count and edges |
| Graphs.Graph.AddEdge | main.py:50 | `add_edge(u, v)` adds one more `(u, v)` edge, even when one exists, keeps the vertex count, and makes `u` and `v` adjacent |
| Stress.Internal | main.py:41 | `path[1:-1]` for a path longer than two vertices, and nothing for a shorter one |
| Stress.InternalNodes | main.py:41 | the internal vertices of all paths of one list, concatenated in list order |
| Stress.CreditNodes | main.py:41-42 | the counters after `stress[node] += 1` for each listed node in turn; keeps the length |
| Stress.CreditNodesCounts | main.py:41-42 | incrementing once per listed node raises each counter by the number of times its vertex is listed and keeps the length |
| Stress.Accumulate | main.py:35-42 | after the sweep over all sources, each counter has grown by the number of times its vertex is internal to a listed path |
| Stress.Zeros | main.py:33 | `[0] * vcount`: `n` counters, all zero |
| Stress.StressVector | main.py:31-42 | the stress vector has one entry per vertex, equal to its internal occurrences over all listed paths, never negative |
| Stress.CreditInPlace | main.py:41-42 | the in-place `stress[node] += 1` loop leaves the array equal to the credited sequence |
| Stress.ComputeMaxStress | main.py:31-44 | the loop over sources returns the largest entry of the stress vector: attained by some vertex, at least every entry, and non-negative |
| Stress.ShortestPathCredit | main.py:41 | a shortest path credits each of its internal vertices exactly once and its endpoints never |
| Stress.ShortPathCreditsNothing | main.py:41 | a path of at most two vertices changes no counter |
| Stress.StressCountsShortestPaths | main.py:35-42 | for all shortest-path lists, a vertex's stress is the number of listed shortest paths through it as an internal vertex |
| Stress.EveryShortestPathCounts | main.py:35-42 | every shortest path of the graph, written from its smaller endpoint, gives each of its internal vertices a stress of at least one |
| Stress.InternalOfRev | main.py:41 | every internal vertex of a path is an internal vertex of the path walked backwards |
| Stress.EveryShortestPathCountsBothWays | main.py:35-42 | every shortest path of the graph between two distinct vertices, in either direction, gives each of its internal vertices a stress of at least one |
| Stress.AllThroughMeaning | main.py:35-38 | the distinct listed paths through `v` are exactly the graph's shortest paths, from their smaller endpoint, with `v` as an internal vertex |
| Stress.StressCountsDistinctShortestPaths | main.py:35-42 | when no list repeats a path, the stress of `v` is the number of distinct shortest paths of the graph through `v`, each joining `i < j` |
| Stress.StressSum | main.py:35-42 | the stresses add up to the total number of internal vertices over all listed paths |
| Candidates.Row | main.py:66-67 | the inner clause for one `i`: exactly the non-adjacent `(i, j)` with `from <= j < n`, in increasing `j` |
| Candidates.Rows | main.py:64-67 | the rows for `i` from `from` on: exactly the candidates with `i >= from`, in lexicographic order |
| Candidates.MissingEdges | main.py:63-68 | a pair is listed if and only if `i < j < vcount` and the two are not adjacent; the list is strictly increasing in `(i, j)` order, so no pair repeats |
| Candidates.CompleteGraphHasNoCandidates | main.py:63-68 | when every pair is adjacent the candidate list is empty |
| Search.Evaluation | main.py:51-54 | the tuple `(max(betweenness), max(stress), (u, v))` of the augmented edge set |
| Search.EvaluationScores | main.py:51-53 | on the augmented graph, the betweenness score is the largest betweenness value, and the stress score is the largest number of listed shortest paths through one vertex, reached by some vertex |
| Search.ComputeCentralities | main.py:47-54 | scoring the copy with the added edge gives the evaluation of the augmented edge set, returned with `(u, v)`; the argument graph is not modified |
| Search.Evaluated | main.py:76 | `args[:1000]` is the first `min(1000, len(args))` candidates, unchanged |
| Search.Results | main.py:76 | the comprehension: the evaluation of each candidate, in candidate order |
| Search.ResultsMatchCandidates | main.py:76 | the comprehension yields one result per evaluated candidate, and result `k` belongs to candidate `k` |
| Search.EvaluateCandidates | main.py:76 | the loop computes the result list of the first 1000 candidates, in candidate order |
| Search.Key | main.py:77-78 | the keys `k[0]` (largest betweenness) and `k[1]` (largest stress) of a result tuple |
| Search.MinFrom | main.py:77-78 | the key-`min` scan returns an index whose key is minimal and strictly smaller than every earlier key |
| Search.BestBy | main.py:77-78 | `min(results, key=...)` returns a result with the least key, and on ties the earliest one |
| Search.BestEdges | main.py:63-78 | no candidates exactly when `missing_edges` is empty; otherwise the two winners are the first minima, by betweenness and by stress, of the results for the first 1000 candidates |
| AdjacencyList.LeadingSpaces | main.py:13 | `strip` removes from the front exactly the leading run of whitespace characters |
| AdjacencyList.TrailingSpaces | main.py:13 | `strip` removes from the back exactly the trailing run of whitespace characters |
| AdjacencyList.Strip | main.py:13 | `line.strip()`: the line without its leading and trailing whitespace |
| AdjacencyList.Skipped | main.py:14 | the stripped line is empty or starts with `#` |
| AdjacencyList.SkippedMeaning | main.py:13-15 | a line is skipped if and only if it is all whitespace or its first non-whitespace character is `#` |
| AdjacencyList.Assign | main.py:19 | `adjacency_list[node] = neighbors` sets that key, leaves other keys alone, and adds a new key at the end of the insertion order |
| AdjacencyList.TableOf | main.py:12-19 | the dictionary built by the loop keeps each key once in its insertion order |
| AdjacencyList.KeysAreNamedNodes | main.py:12-19 | a node is a key if and only if some kept line has it as its first field |
| AdjacencyList.LastLineWins | main.py:17-19 | a key's neighbour list is that of the last kept line naming it |
| AdjacencyList.OrderOfFirstAppearance | main.py:19 | keys are ordered by the first kept line that names each |
| AdjacencyList.Expand | main.py:24 | `(node, neighbor)` for each neighbour of one key, in list order |
| AdjacencyList.Flatten | main.py:22-24 | the `extend` loop over the keys in insertion order: each key's expanded tuples, concatenated |
| AdjacencyList.Edges | main.py:12-24 | the edge list of the lines: the flattening of the dictionary those lines build |
| AdjacencyList.FlattenMembership | main.py:22-24 | `(a, b)` is produced if and only if `a` is a key and `b` is in its neighbour list |
| AdjacencyList.FlattenLength | main.py:22-24 | the flattening produces one tuple per listed neighbour, without merging duplicates |
| AdjacencyList.FlattenAt | main.py:23-24 | the tuples of each key form one block, after those of the earlier keys, in the order of its neighbour list |
| AdjacencyList.EdgesFromLastLines | main.py:12-24 | `(a, b)` is an edge if and only if the last kept line naming `a` lists `b` |
| AdjacencyList.ReadAdjlist | main.py:9-24 | the two loops of `read_adjlist` produce the flattened edge list of the dictionary the lines define |

## Left out

- File reading, `int` conversion and `split`: each line comes with the
  integers its words denote (`Line.fields`). A word that is not an integer,
  which raises in the script, is outside the model.
- igraph graph construction (main.py:27), including how the vertex count is
  inferred from the largest id. The search takes a `Graph` with a given
  vertex count and edge multiset whose edges lie within it.
- igraph's `betweenness()` is a parameter returning one value per vertex, so
  its floating-point values are not modelled. Likewise `get_all_shortest_paths`
  is a parameter required to return sound and complete shortest-path lists.
- ComputeMaxStress: how many times igraph repeats a path on a multigraph is
  not constrained, because igraph's own counting is not part of this model.
  The stress counts the listed paths, as the script does; it equals the
  number of distinct shortest paths only when no list repeats a path
  (`Stress.StressCountsDistinctShortestPaths`).
- `Pool`, `cpu_count` and the commented-out parallel map (main.py:72-75): the
  script evaluates the candidates in a sequential comprehension, and so does
  the model.
- Printing, timing and the command line (main.py:59-61, 70, 79-93),
  including the scores of the original graph, which the script only prints.
- Search.BestBy and Lists.MaxInt: `min` and `max` of an empty list raise
  `ValueError` in Python. These are preconditions. The reachable cases are no
  candidates, where `min` is never reached because `Pool(processes=0)` raises
  first, and a graph with no vertices, which already raises at main.py:59;
  both are `Outcome.NoCandidates`.
