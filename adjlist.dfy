/**
 * The line handling of `read_adjlist`: each line is stripped; blank lines and
 * lines starting with `#` are skipped; any other line `node n1 ... nk` makes
 * `adjacency_list[node] = [n1, ..., nk]`, so a later line for the same node
 * replaces an earlier one; finally the dictionary is flattened, in insertion
 * order, into the tuples `(node, n1), ..., (node, nk)`.
 *
 * Reading the file and `int` conversion are not modelled: each line comes with
 * the integers its whitespace-separated words denote.
 */
module AdjacencyList {

  /** A line of the file with the integers `list(map(int, line.split()))`. */
  datatype Line = Line(text: string, fields: seq<int>)

  /** Python's `str.isspace()` for one character: the characters `str.strip()` removes. */
  predicate IsSpace(c: char)
  {
    || c == ' ' || c == '\t' || c == '\n' || c == '\r' || c == '\U{B}' || c == '\U{C}'
    || ('\U{1C}' <= c <= '\U{1F}') || c == '\U{85}' || c == '\U{A0}' || c == '\U{1680}'
    || ('\U{2000}' <= c <= '\U{200A}') || c == '\U{2028}' || c == '\U{2029}'
    || c == '\U{202F}' || c == '\U{205F}' || c == '\U{3000}'
  }

  /** The number of whitespace characters `strip` removes from the front. */
  function LeadingSpaces(s: string): (a: nat)
    ensures a <= |s|
    ensures forall k :: 0 <= k < a ==> IsSpace(s[k])
    ensures a < |s| ==> !IsSpace(s[a])
  {
    if s != [] && IsSpace(s[0]) then 1 + LeadingSpaces(s[1..]) else 0
  }

  /** The number of whitespace characters `strip` removes from the back. */
  function TrailingSpaces(s: string): (c: nat)
    ensures c <= |s|
    ensures forall k :: |s| - c <= k < |s| ==> IsSpace(s[k])
    ensures c < |s| ==> !IsSpace(s[|s| - 1 - c])
  {
    if s != [] && IsSpace(s[|s| - 1]) then 1 + TrailingSpaces(s[..|s| - 1]) else 0
  }

  /** `line.strip()`. */
  function Strip(s: string): string
  {
    var t := s[LeadingSpaces(s)..];
    t[..|t| - TrailingSpaces(t)]
  }

  /** `not line or line.startswith("#")` on the stripped line. */
  predicate Skipped(text: string)
  {
    var line := Strip(text);
    line == [] || line[0] == '#'
  }

  /**
   * A line is skipped exactly when it is all whitespace or its first
   * character that is not whitespace is `#`.
   */
  lemma SkippedMeaning(text: string)
    ensures Skipped(text) <==>
      (forall k :: 0 <= k < |text| ==> IsSpace(text[k])) ||
      (exists a :: 0 <= a < |text| && text[a] == '#' && forall k :: 0 <= k < a ==> IsSpace(text[k]))
  {
    var a := LeadingSpaces(text);
    var t := text[a..];
    var c := TrailingSpaces(t);
    if a < |text| {
      assert t[0] == text[a];
      assert Strip(text)[0] == text[a];
    }
    assert !IsSpace('#');
    forall a' | 0 <= a' < |text| && text[a'] == '#' && (forall k :: 0 <= k < a' ==> IsSpace(text[k]))
      ensures a' == a
    {
    }
  }

  /** Every line that is not skipped has at least one word. */
  predicate Tokenized(lines: seq<Line>)
  {
    forall k :: 0 <= k < |lines| && !Skipped(lines[k].text) ==> |lines[k].fields| >= 1
  }

  /** The line is kept and names `x` as its node. */
  predicate Names(line: Line, x: int)
  {
    !Skipped(line.text) && |line.fields| >= 1 && line.fields[0] == x
  }

  // ----- The dictionary `adjacency_list` -----

  /**
   * A Python dictionary from node ids to neighbour lists: its keys in
   * insertion order, and the map itself.
   */
  datatype Table = Table(order: seq<int>, lists: map<int, seq<int>>)

  /** Every entry of `order` is a key of `lists`. */
  predicate KeysIn(order: seq<int>, lists: map<int, seq<int>>)
  {
    forall k :: 0 <= k < |order| ==> order[k] in lists
  }

  /** The insertion order lists every key once, and only keys. */
  ghost predicate WellFormed(t: Table)
  {
    && KeysIn(t.order, t.lists)
    && (forall x :: x in t.lists ==> x in t.order)
    && (forall a, b :: 0 <= a < b < |t.order| ==> t.order[a] != t.order[b])
  }

  /** `adjacency_list[node] = neighbors`: a new key goes last, an existing key keeps its place. */
  function Assign(t: Table, node: int, neighbors: seq<int>): (r: Table)
    requires WellFormed(t)
    ensures WellFormed(r)
    ensures node in r.lists && r.lists[node] == neighbors
    ensures forall x :: x != node ==> (x in r.lists <==> x in t.lists) && (x in t.lists ==> r.lists[x] == t.lists[x])
    ensures r.order == if node in t.lists then t.order else t.order + [node]
  {
    if node in t.lists then Table(t.order, t.lists[node := neighbors])
    else Table(t.order + [node], t.lists[node := neighbors])
  }

  /** The dictionary after the loop over `lines`. */
  function TableOf(lines: seq<Line>): (t: Table)
    requires Tokenized(lines)
    ensures WellFormed(t)
  {
    if lines == [] then Table([], map[])
    else
      var t := TableOf(lines[..|lines| - 1]);
      var line := lines[|lines| - 1];
      if Skipped(line.text) then t else Assign(t, line.fields[0], line.fields[1..])
  }

  /** A line naming `x` is either in the prefix or the last line. */
  lemma NamedInPrefixOrLast(lines: seq<Line>, prefix: seq<Line>, x: int)
    requires lines != [] && prefix == lines[..|lines| - 1]
    ensures (exists k :: 0 <= k < |lines| && Names(lines[k], x)) <==>
      (exists k :: 0 <= k < |prefix| && Names(prefix[k], x)) || Names(lines[|lines| - 1], x)
  {
    if k :| 0 <= k < |lines| && Names(lines[k], x) {
      if k < |prefix| { assert prefix[k] == lines[k]; }
    }
    if k :| 0 <= k < |prefix| && Names(prefix[k], x) {
      assert prefix[k] == lines[k];
    }
  }

  /** The dictionary has a key exactly for the nodes that some kept line names. */
  lemma {:induction false} KeysAreNamedNodes(lines: seq<Line>, x: int)
    requires Tokenized(lines)
    ensures x in TableOf(lines).lists <==> exists k :: 0 <= k < |lines| && Names(lines[k], x)
  {
    if lines != [] {
      var prefix := lines[..|lines| - 1];
      KeysAreNamedNodes(prefix, x);
      NamedInPrefixOrLast(lines, prefix, x);
    }
  }

  /** The value of a key comes from the last kept line naming it. */
  lemma {:induction false} LastLineWins(lines: seq<Line>, k: nat, x: int)
    requires Tokenized(lines) && k < |lines| && Names(lines[k], x)
    requires forall j :: k < j < |lines| ==> !Names(lines[j], x)
    ensures x in TableOf(lines).lists && TableOf(lines).lists[x] == lines[k].fields[1..]
  {
    var m := |lines| - 1;
    var prefix := lines[..m];
    if k < m {
      assert prefix[k] == lines[k];
      forall j | k < j < m ensures !Names(prefix[j], x) {
        assert prefix[j] == lines[j];
      }
      LastLineWins(prefix, k, x);
      assert !Names(lines[m], x);
    }
  }

  /** One more line either keeps the insertion order or appends the new key it names. */
  lemma OrderStep(lines: seq<Line>, prefix: seq<Line>)
    requires Tokenized(lines) && lines != [] && prefix == lines[..|lines| - 1]
    ensures Tokenized(prefix)
    ensures
      || TableOf(lines).order == TableOf(prefix).order
      || (&& Names(lines[|lines| - 1], lines[|lines| - 1].fields[0])
          && lines[|lines| - 1].fields[0] !in TableOf(prefix).lists
          && TableOf(lines).order == TableOf(prefix).order + [lines[|lines| - 1].fields[0]])
  {
  }

  /** The keys come in the order of the first kept line naming each. */
  lemma {:induction false} OrderOfFirstAppearance(lines: seq<Line>, a: nat, b: nat)
    requires Tokenized(lines)
    requires a < b < |TableOf(lines).order|
    ensures exists i :: (0 <= i < |lines| && Names(lines[i], TableOf(lines).order[a]) &&
      forall j :: 0 <= j <= i ==> !Names(lines[j], TableOf(lines).order[b]))
  {
    assert lines != [];
    var m := |lines| - 1;
    var prefix := lines[..m];
    OrderStep(lines, prefix);
    var t := TableOf(prefix);
    var x, y := TableOf(lines).order[a], TableOf(lines).order[b];
    assert t.order[a] == x;
    if b < |t.order| {
      assert t.order[b] == y;
      OrderOfFirstAppearance(prefix, a, b);
      var i :| 0 <= i < |prefix| && Names(prefix[i], x) && forall j :: 0 <= j <= i ==> !Names(prefix[j], y);
      assert prefix[i] == lines[i];
      forall j | 0 <= j <= i ensures !Names(lines[j], y) {
        assert prefix[j] == lines[j];
      }
    } else {
      // the last line brought in a new key, which is `y`
      NewKeyComesAfter(lines, prefix, x, y);
    }
  }

  /** A key the prefix already has was named before any line naming a key it does not have. */
  lemma NewKeyComesAfter(lines: seq<Line>, prefix: seq<Line>, x: int, y: int)
    requires Tokenized(lines) && lines != [] && prefix == lines[..|lines| - 1] && Tokenized(prefix)
    requires x in TableOf(prefix).lists && y !in TableOf(prefix).lists
    ensures exists i :: (0 <= i < |lines| && Names(lines[i], x) &&
      forall j :: 0 <= j <= i ==> !Names(lines[j], y))
  {
    KeysAreNamedNodes(prefix, x);
    var i :| 0 <= i < |prefix| && Names(prefix[i], x);
    assert prefix[i] == lines[i];
    KeysAreNamedNodes(prefix, y);
    forall j | 0 <= j <= i ensures !Names(lines[j], y) {
      assert prefix[j] == lines[j];
    }
  }

  // ----- Flattening into edge tuples -----

  /** `(node, neighbor) for neighbor in neighbors`. */
  function Expand(node: int, neighbors: seq<int>): seq<(int, int)>
  {
    seq(|neighbors|, j requires 0 <= j < |neighbors| => (node, neighbors[j]))
  }

  /** `edges.extend(...)` for each key of the dictionary, in insertion order. */
  function Flatten(order: seq<int>, lists: map<int, seq<int>>): seq<(int, int)>
    requires KeysIn(order, lists)
  {
    if order == [] then []
    else Flatten(order[..|order| - 1], lists) + Expand(order[|order| - 1], lists[order[|order| - 1]])
  }

  /** The number of neighbours listed over a sequence of keys. */
  function Degrees(order: seq<int>, lists: map<int, seq<int>>): nat
    requires KeysIn(order, lists)
  {
    if order == [] then 0
    else Degrees(order[..|order| - 1], lists) + |lists[order[|order| - 1]]|
  }

  /** The tuple `(a, b)` is produced exactly when `a` is a key and `b` one of its neighbours. */
  lemma {:induction false} FlattenMembership(order: seq<int>, lists: map<int, seq<int>>, a: int, b: int)
    requires KeysIn(order, lists)
    ensures (a, b) in Flatten(order, lists) <==> a in order && b in lists[a]
  {
    if order != [] {
      var x := order[|order| - 1];
      var prefix := order[..|order| - 1];
      FlattenMembership(prefix, lists, a, b);
      var e := Expand(x, lists[x]);
      assert (a, b) in e <==> a == x && b in lists[x] by {
        if (a, b) in e { var j :| 0 <= j < |e| && e[j] == (a, b); }
        if a == x && b in lists[x] { var j :| 0 <= j < |lists[x]| && lists[x][j] == b; assert e[j] == (a, b); }
      }
      assert order == prefix + [x];
    }
  }

  /**
   * Nothing is merged or dropped: there are as many tuples as listed
   * neighbours, so an edge listed from both ends, or twice on one line, stays
   * twice.
   */
  lemma {:induction false} FlattenLength(order: seq<int>, lists: map<int, seq<int>>)
    requires KeysIn(order, lists)
    ensures |Flatten(order, lists)| == Degrees(order, lists)
  {
    if order != [] {
      FlattenLength(order[..|order| - 1], lists);
    }
  }

  /**
   * The block of key `order[a]` starts after the tuples of all earlier keys
   * and lists that key's neighbours in their order.
   */
  lemma {:induction false} FlattenAt(order: seq<int>, lists: map<int, seq<int>>, a: nat, j: nat)
    requires KeysIn(order, lists)
    requires a < |order| && j < |lists[order[a]]|
    ensures Degrees(order[..a], lists) + j < |Flatten(order, lists)|
    ensures Flatten(order, lists)[Degrees(order[..a], lists) + j] == (order[a], lists[order[a]][j])
  {
    var m := |order| - 1;
    var prefix := order[..m];
    FlattenLength(prefix, lists);
    if a == m {
      assert prefix == order[..a];
    } else {
      FlattenAt(prefix, lists, a, j);
      assert prefix[..a] == order[..a];
    }
  }

  /** The edge list `read_adjlist` builds from the lines. */
  function Edges(lines: seq<Line>): seq<(int, int)>
    requires Tokenized(lines)
  {
    var t := TableOf(lines);
    Flatten(t.order, t.lists)
  }

  /** The last kept line naming `x`, at or after line `k0`, which names it. */
  lemma LastNaming(lines: seq<Line>, x: int, k0: nat) returns (k: nat)
    requires k0 < |lines| && Names(lines[k0], x)
    decreases |lines| - k0
    ensures k0 <= k < |lines| && Names(lines[k], x)
    ensures forall j :: k < j < |lines| ==> !Names(lines[j], x)
  {
    if j :| k0 < j < |lines| && Names(lines[j], x) {
      k := LastNaming(lines, x, j);
    } else {
      k := k0;
    }
  }

  /**
   * `(a, b)` is an edge exactly when some kept line names `a` and the last
   * kept line that names `a` lists `b` among its neighbours.
   */
  lemma EdgesFromLastLines(lines: seq<Line>, a: int, b: int)
    requires Tokenized(lines)
    ensures (a, b) in Edges(lines) <==>
      exists k :: 0 <= k < |lines| && Names(lines[k], a) &&
        (forall j :: k < j < |lines| ==> !Names(lines[j], a)) && b in lines[k].fields[1..]
  {
    var t := TableOf(lines);
    FlattenMembership(t.order, t.lists, a, b);
    KeysAreNamedNodes(lines, a);
    if (a, b) in Edges(lines) {
      var k0 :| 0 <= k0 < |lines| && Names(lines[k0], a);
      var k := LastNaming(lines, a, k0);
      LastLineWins(lines, k, a);
    }
    if k :| (0 <= k < |lines| && Names(lines[k], a) &&
        (forall j :: k < j < |lines| ==> !Names(lines[j], a)) && b in lines[k].fields[1..]) {
      LastLineWins(lines, k, a);
    }
  }

  /** `read_adjlist` up to the point where igraph builds the graph from `edges`. */
  method ReadAdjlist(lines: seq<Line>) returns (edges: seq<(int, int)>)
    requires Tokenized(lines)
    ensures edges == Edges(lines)
  {
    var order: seq<int> := [];
    var adjacency: map<int, seq<int>> := map[];
    for i := 0 to |lines|
      invariant Tokenized(lines[..i])
      invariant Table(order, adjacency) == TableOf(lines[..i])
    {
      assert lines[..i + 1][..i] == lines[..i];
      var line := Strip(lines[i].text);
      if line == [] || line[0] == '#' {
        continue;
      }
      var parts := lines[i].fields;
      var node := parts[0];
      var neighbors := parts[1..];
      if node !in adjacency {
        order := order + [node];
      }
      adjacency := adjacency[node := neighbors];
    }
    assert lines[..|lines|] == lines;
    edges := [];
    for k := 0 to |order|
      invariant KeysIn(order, adjacency)
      invariant edges == Flatten(order[..k], adjacency)
    {
      assert order[..k + 1][..k] == order[..k];
      edges := edges + Expand(order[k], adjacency[order[k]]);
    }
    assert order[..|order|] == order;
  }
}
