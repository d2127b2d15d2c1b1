/** The import-cycle gate: depth-first search with three colours (scripts/check_circular_imports.py). */
module ImportCycles {
  type Node = string

  /** The modules a module imports, in the order in which the set happens to be iterated. */
  type Graph = map<Node, seq<Node>>

  function Deps(g: Graph, n: Node): seq<Node> {
    if n in g then g[n] else []
  }

  predicate IsWalk(g: Graph, w: seq<Node>) {
    forall i | 0 <= i < |w| - 1 :: w[i + 1] in Deps(g, w[i])
  }

  predicate Distinct(s: seq<Node>) {
    forall i, j | 0 <= i < j < |s| :: s[i] != s[j]
  }

  /** A closed walk along import edges that repeats no node but its first. */
  predicate IsCycle(g: Graph, c: seq<Node>) {
    |c| >= 2 && IsWalk(g, c) && c[0] == c[|c| - 1] && Distinct(c[..|c| - 1])
  }

  ghost predicate Acyclic(g: Graph) {
    forall w: seq<Node> | |w| >= 2 && IsWalk(g, w) :: w[0] != w[|w| - 1]
  }

  type Edge = (Node, Node)

  /** The i-th edge of a walk. */
  function EdgeAt(w: seq<Node>, i: nat): Edge
    requires i + 1 < |w|
  {
    (w[i], w[i + 1])
  }

  /** Every import of a listed module is listed before it, unless the import is one of the edges cut. */
  predicate TopologicalBut(g: Graph, order: seq<Node>, cut: set<Edge>) {
    && Distinct(order)
    && forall i | 0 <= i < |order| :: forall d | d in Deps(g, order[i]) :: d in order[..i] || (order[i], d) in cut
  }

  predicate Topological(g: Graph, order: seq<Node>) {
    TopologicalBut(g, order, {})
  }

  lemma {:induction false} WalkDescends(g: Graph, order: seq<Node>, cut: set<Edge>, w: seq<Node>, i: nat)
    requires TopologicalBut(g, order, cut) && |w| >= 2 && IsWalk(g, w) && i < |order| && w[0] == order[i]
    requires forall j: nat | j + 1 < |w| :: EdgeAt(w, j) !in cut
    ensures w[|w| - 1] in order[..i]
    decreases |w|
  {
    assert w[1] in Deps(g, order[i]) && EdgeAt(w, 0) !in cut;
    var k :| 0 <= k < i && order[k] == w[1];
    if |w| > 2 {
      var rest := w[1..];
      forall j: nat | j + 1 < |rest| ensures rest[j + 1] in Deps(g, rest[j]) && EdgeAt(rest, j) !in cut {
        assert w[j + 2] in Deps(g, w[j + 1]) && EdgeAt(w, j + 1) !in cut;
      }
      WalkDescends(g, order, cut, rest, k);
    }
  }

  /** An order of all modules that is topological but for some edges: every closed walk uses one of them. */
  lemma ClosedWalkIsCut(g: Graph, order: seq<Node>, cut: set<Edge>, w: seq<Node>) returns (j: nat)
    requires TopologicalBut(g, order, cut) && forall n | n in g :: n in order
    requires Closed(w) && IsWalk(g, w)
    ensures j + 1 < |w| && EdgeAt(w, j) in cut
  {
    if forall j: nat | j + 1 < |w| :: EdgeAt(w, j) !in cut {
      assert w[1] in Deps(g, w[0]);
      var i :| 0 <= i < |order| && order[i] == w[0];
      WalkDescends(g, order, cut, w, i);
      assert false;
    }
    j :| j + 1 < |w| && EdgeAt(w, j) in cut;
  }

  /** A topological order of all modules with imports rules out every closed walk. */
  lemma TopologicalIsAcyclic(g: Graph, order: seq<Node>)
    requires Topological(g, order) && forall n | n in g :: n in order
    ensures Acyclic(g)
  {
    forall w: seq<Node> | |w| >= 2 && IsWalk(g, w) ensures w[0] != w[|w| - 1] {
      if w[0] == w[|w| - 1] {
        var j := ClosedWalkIsCut(g, order, {}, w);
      }
    }
  }

  // ---------------------------------------------------------------- rotations

  /** The closed walk c started at its i-th node. */
  function Rotate(c: seq<Node>, i: nat): seq<Node>
    requires i < |c|
  {
    c[i..] + c[1..i + 1]
  }

  predicate IsRotation(c: seq<Node>, d: seq<Node>) {
    exists i | 0 <= i < |c| - 1 :: d == Rotate(c, i)
  }

  predicate Closed(c: seq<Node>) {
    |c| >= 2 && c[0] == c[|c| - 1]
  }

  lemma RotateAt(c: seq<Node>, i: nat, t: nat)
    requires Closed(c) && i < |c| - 1 && t < |c|
    ensures |Rotate(c, i)| == |c| && Closed(Rotate(c, i))
    ensures Rotate(c, i)[t] == if i + t < |c| then c[i + t] else c[i + t - (|c| - 1)]
  {
  }

  /** Rotating by i and then by j is one rotation. */
  lemma RotateTwice(c: seq<Node>, i: nat, j: nat)
    requires Closed(c) && i < |c| - 1 && j < |c| - 1
    ensures var k := if i + j < |c| - 1 then i + j else i + j - (|c| - 1);
            |Rotate(c, i)| == |c| && Rotate(Rotate(c, i), j) == Rotate(c, k)
  {
    hide Rotate;
    var n := |c| - 1;
    var k := if i + j < n then i + j else i + j - n;
    RotateAt(c, i, 0);
    var d := Rotate(c, i);
    RotateAt(d, j, 0);
    RotateAt(c, k, 0);
    forall t | 0 <= t <= n ensures Rotate(d, j)[t] == Rotate(c, k)[t] {
      RotateAt(d, j, t);
      RotateAt(c, k, t);
      RotateAt(c, i, if j + t <= n then j + t else j + t - n);
    }
  }

  lemma RotationIsSymmetric(c: seq<Node>, d: seq<Node>)
    requires Closed(c) && IsRotation(c, d)
    ensures IsRotation(d, c)
  {
    var i :| 0 <= i < |c| - 1 && d == Rotate(c, i);
    assert Rotate(c, 0) == c;
    hide Rotate;
    if i > 0 {
      RotateTwice(c, i, |c| - 1 - i);
      assert c == Rotate(d, |c| - 1 - i);
    }
  }

  predicate NoTwoRotations(cs: seq<seq<Node>>) {
    forall i, j | 0 <= i < |cs| && 0 <= j < |cs| && i != j :: !IsRotation(cs[i], cs[j])
  }

  lemma NodesDiffer(g: Graph, c: seq<Node>, i: nat, j: nat)
    requires IsCycle(g, c) && i < |c| - 1 && j < |c| - 1 && i != j
    ensures c[i] != c[j]
  {
    var nodes := c[..|c| - 1];
    assert nodes[i] == c[i] && nodes[j] == c[j];
  }

  lemma RotationIsCycle(g: Graph, c: seq<Node>, i: nat)
    requires IsCycle(g, c) && i < |c| - 1
    ensures IsCycle(g, Rotate(c, i)) && Rotate(c, i)[0] == c[i] && |Rotate(c, i)| == |c|
  {
    var d, n := Rotate(c, i), |c| - 1;
    RotateAt(c, i, 0);
    hide Rotate;
    forall t | 0 <= t < n ensures d[t + 1] in Deps(g, d[t]) {
      RotateAt(c, i, t);
      RotateAt(c, i, t + 1);
      var k := if i + t < n then i + t else i + t - n;
      assert c[k + 1] in Deps(g, c[k]);
    }
    forall s, t | 0 <= s < t < n ensures d[s] != d[t] {
      RotateAt(c, i, s);
      RotateAt(c, i, t);
      NodesDiffer(g, c, if i + s < n then i + s else i + s - n, if i + t < n then i + t else i + t - n);
    }
  }

  predicate Represented(c: seq<Node>, unique: seq<seq<Node>>) {
    exists u | u in unique :: IsRotation(c, u)
  }

  lemma StaysRepresented(c: seq<Node>, before: seq<seq<Node>>, u: seq<Node>)
    requires Represented(c, before)
    ensures Represented(c, before + [u])
  {
    var r :| r in before && IsRotation(c, r);
    assert r in before + [u];
  }

  /** Keeps the first of every class of rotations. */
  method Deduplicate(all: seq<seq<Node>>) returns (unique: seq<seq<Node>>)
    requires forall c | c in all :: Closed(c)
    ensures forall c | c in unique :: c in all
    ensures NoTwoRotations(unique)
    ensures forall c | c in all :: Represented(c, unique)
    ensures unique == [] ==> all == []
  {
    var seen: set<seq<Node>> := {};
    unique := [];
    for n := 0 to |all|
      invariant seen == set u | u in unique
      invariant forall c | c in unique :: c in all
      invariant NoTwoRotations(unique)
      invariant n > 0 ==> unique != []
      invariant forall c | c in all[..n] :: Represented(c, unique)
    {
      var c := all[n];
      assert c in all && Closed(c);
      var found := false;
      var i := 0;
      while i < |c| - 1 && !found
        invariant 0 <= i <= |c| - 1
        invariant !found ==> forall k | 0 <= k < i :: Rotate(c, k) !in seen
        invariant found ==> Represented(c, unique)
      {
        var rot := Rotate(c, i);
        if rot in seen {
          assert IsRotation(c, rot);
          found := true;
        }
        i := i + 1;
      }
      ghost var before := unique;
      if !found {
        forall u | u in before ensures !IsRotation(c, u) && !IsRotation(u, c) {
          if IsRotation(u, c) {
            RotationIsSymmetric(u, c);
          }
        }
        assert Rotate(c, 0) == c && IsRotation(c, c);
        seen := seen + {c};
        unique := unique + [c];
        assert c in unique;
      }
      forall b | b in all[..n] ensures Represented(b, unique) {
        if !found {
          StaysRepresented(b, before, c);
        }
      }
      assert all[..n + 1] == all[..n] + [c];
    }
    assert all[..|all|] == all;
  }

  // ---------------------------------------------------------------- the search

  datatype Color = White | Gray | Black

  /** The last edge of a reported cycle, by which the search noticed it. */
  function Closings(cycles: seq<seq<Node>>): set<Edge> {
    set c | c in cycles && |c| >= 2 :: EdgeAt(c, |c| - 2)
  }

  /** For every module met so far, the path on which the search first reached it. */
  type Trails = map<Node, seq<Node>>

  /** The search first reached b from a. */
  predicate Reached(trail: Trails, a: Node, b: Node) {
    a in trail && b in trail && trail[b] == trail[a] + [b]
  }

  /** The cycle runs down the search tree from its first node, except for its last edge. */
  predicate OnTrail(trail: Trails, c: seq<Node>) {
    && |c| >= 2 && c[0] in trail && trail[c[0]] != []
    && forall i | 0 <= i < |c| - 2 :: Reached(trail, c[i], c[i + 1])
  }

  predicate Extends(before: Trails, after: Trails) {
    forall n | n in before :: n in after && after[n] == before[n]
  }

  datatype Search = Search(
    color: map<Node, Color>, path: seq<Node>, finished: seq<Node>, found: seq<seq<Node>>, trail: Trails)

  /** Gray nodes are exactly the path, black ones exactly the finished nodes. */
  ghost predicate Coloured(g: Graph, nodes: set<Node>, s: Search)
    requires s.color.Keys == nodes
  {
    && IsWalk(g, s.path) && Distinct(s.path)
    && (forall n | n in nodes :: s.color[n] == Gray <==> n in s.path)
    && (forall n | n in nodes :: s.color[n] == Black <==> n in s.finished)
    && (forall n | n in s.path :: n in nodes)
  }

  /** The white nodes have no trail yet, the path is the trail of each of its nodes, and the cycles found
      run along trails. */
  ghost predicate Trailed(g: Graph, nodes: set<Node>, s: Search)
    requires s.color.Keys == nodes
  {
    && (forall n | n in nodes :: s.color[n] == White <==> n !in s.trail)
    && (forall i | 0 <= i < |s.path| :: s.path[i] in s.trail && s.trail[s.path[i]] == s.path[..i + 1])
    && (forall c | c in s.found :: IsCycle(g, c) && OnTrail(s.trail, c))
  }

  /** The finish order is topological but for the edges that closed a cycle. */
  ghost predicate Good(g: Graph, nodes: set<Node>, s: Search)
    requires s.color.Keys == nodes
  {
    Coloured(g, nodes, s) && Trailed(g, nodes, s) && TopologicalBut(g, s.finished, Closings(s.found))
  }

  ghost function OfColor(color: map<Node, Color>, c: Color): set<Node> {
    set n | n in color && color[n] == c
  }

  lemma FinishKeepsOrder(g: Graph, order: seq<Node>, cut: set<Edge>, node: Node)
    requires TopologicalBut(g, order, cut) && node !in order
    requires forall d | d in Deps(g, node) :: d in order || (node, d) in cut
    ensures TopologicalBut(g, order + [node], cut)
  {
    var all := order + [node];
    forall i, d | 0 <= i < |all| && d in Deps(g, all[i]) ensures d in all[..i] || (all[i], d) in cut {
      assert all[..i] == order[..i];
    }
  }

  lemma MoreCutsKeepOrder(g: Graph, order: seq<Node>, cut: set<Edge>, cut': set<Edge>)
    requires TopologicalBut(g, order, cut) && cut <= cut'
    ensures TopologicalBut(g, order, cut')
  {
  }

  lemma ClosingsGrow(cycles: seq<seq<Node>>, c: seq<Node>)
    requires |c| >= 2
    ensures Closings(cycles + [c]) == Closings(cycles) + {EdgeAt(c, |c| - 2)}
  {
    var all := cycles + [c];
    assert forall d :: d in all <==> d in cycles || d == c;
  }

  /** A gray import of the last node of the path closes a cycle. */
  lemma CloseKeepsGood(g: Graph, nodes: set<Node>, s: Search, idx: nat, node: Node)
    requires s.color.Keys == nodes && Good(g, nodes, s) && idx < |s.path| && s.path[idx] == node
    requires node in Deps(g, s.path[|s.path| - 1])
    ensures var c := s.path[idx..] + [node];
            && Good(g, nodes, s.(found := s.found + [c])) && IsCycle(g, c)
            && Closings(s.found + [c]) == Closings(s.found) + {(s.path[|s.path| - 1], node)}
  {
    hide TopologicalBut, IsCycle, Closings, OnTrail;
    var c := s.path[idx..] + [node];
    CloseWalk(g, s.path, idx, node);
    PathIsTrail(s.trail, s.path, idx, node);
    ClosingsGrow(s.found, c);
    MoreCutsKeepOrder(g, s.finished, Closings(s.found), Closings(s.found + [c]));
  }

  lemma PathIsTrail(trail: Trails, path: seq<Node>, idx: nat, node: Node)
    requires forall i | 0 <= i < |path| :: path[i] in trail && trail[path[i]] == path[..i + 1]
    requires idx < |path|
    ensures OnTrail(trail, path[idx..] + [node])
  {
    var c := path[idx..] + [node];
    forall i | 0 <= i < |c| - 2 ensures Reached(trail, c[i], c[i + 1]) {
      assert c[i] == path[idx + i] && c[i + 1] == path[idx + i + 1];
      assert path[..idx + i + 2] == path[..idx + i + 1] + [path[idx + i + 1]];
    }
  }

  lemma OnPath(g: Graph, nodes: set<Node>, s: Search, node: Node)
    requires s.color.Keys == nodes && Good(g, nodes, s) && node in nodes && s.color[node] == Gray
    ensures node in s.path
  {
  }

  lemma TrailsGrow(trail: Trails, trail': Trails, cycles: seq<seq<Node>>)
    requires Extends(trail, trail') && forall c | c in cycles :: OnTrail(trail, c)
    ensures forall c | c in cycles :: OnTrail(trail', c)
  {
  }

  lemma EnterColours(g: Graph, nodes: set<Node>, s: Search, node: Node)
    requires s.color.Keys == nodes && Coloured(g, nodes, s) && node in nodes && s.color[node] == White
    requires s.path != [] ==> node in Deps(g, s.path[|s.path| - 1])
    ensures Coloured(g, nodes, s.(color := s.color[node := Gray], path := s.path + [node]))
    ensures OfColor(s.color[node := Gray], White) == OfColor(s.color, White) - {node}
    ensures node in OfColor(s.color, White)
    ensures OfColor(s.color[node := Gray], Black) == OfColor(s.color, Black)
  {
    hide OfColor;
    RecolourSets(s.color, node, Gray);
    assert node in OfColor(s.color, White) by {
      InColour(s.color, node);
    }
  }

  lemma InColour(color: map<Node, Color>, node: Node)
    requires node in color
    ensures node in OfColor(color, color[node])
  {
  }

  lemma EnterKeepsGood(g: Graph, nodes: set<Node>, s: Search, node: Node)
    requires s.color.Keys == nodes && Good(g, nodes, s) && node in nodes && s.color[node] == White
    requires s.path != [] ==> node in Deps(g, s.path[|s.path| - 1])
    ensures var path := s.path + [node];
            Good(g, nodes, Search(s.color[node := Gray], path, s.finished, s.found, s.trail[node := path]))
    ensures Extends(s.trail, s.trail[node := s.path + [node]])
    ensures OfColor(s.color[node := Gray], White) == OfColor(s.color, White) - {node}
    ensures node in OfColor(s.color, White)
    ensures OfColor(s.color[node := Gray], Black) == OfColor(s.color, Black)
  {
    hide Coloured, TopologicalBut, IsCycle, OnTrail, OfColor;
    var path := s.path + [node];
    EnterColours(g, nodes, s, node);
    var trail := s.trail[node := path];
    TrailsGrow(s.trail, trail, s.found);
    forall i | 0 <= i < |path| ensures path[i] in trail && trail[path[i]] == path[..i + 1] {
      if i < |s.path| {
        assert path[i] == s.path[i] && path[..i + 1] == s.path[..i + 1];
      }
    }
    ColoursOnly(g, nodes, s.(color := s.color[node := Gray], path := path), s.found, trail);
  }

  /** The colours do not depend on what was found. */
  lemma ColoursOnly(g: Graph, nodes: set<Node>, s: Search, found: seq<seq<Node>>, trail: Trails)
    requires s.color.Keys == nodes && Coloured(g, nodes, s)
    ensures Coloured(g, nodes, s.(found := found, trail := trail))
  {
  }

  lemma RecolourSets(color: map<Node, Color>, node: Node, c: Color)
    requires node in color && color[node] != c
    ensures OfColor(color[node := c], c) == OfColor(color, c) + {node}
    ensures OfColor(color[node := c], color[node]) == OfColor(color, color[node]) - {node}
    ensures forall d | d != c && d != color[node] :: OfColor(color[node := c], d) == OfColor(color, d)
  {
  }

  lemma LeaveColours(g: Graph, nodes: set<Node>, s: Search, node: Node)
    requires s.color.Keys == nodes && Coloured(g, nodes, s) && s.path != [] && s.path[|s.path| - 1] == node
    ensures node in nodes && node !in s.finished
    ensures Coloured(g, nodes, s.(color := s.color[node := Black], path := s.path[..|s.path| - 1],
                                  finished := s.finished + [node]))
    ensures OfColor(s.color[node := Black], White) == OfColor(s.color, White)
    ensures OfColor(s.color[node := Black], Black) == OfColor(s.color, Black) + {node}
  {
    hide OfColor;
    assert s.color[node] == Gray;
    RecolourSets(s.color, node, Black);
    PopPath(s.path);
  }

  lemma PopPath(path: seq<Node>)
    requires path != [] && Distinct(path)
    ensures var rest := path[..|path| - 1]; var last := path[|path| - 1];
            Distinct(rest) && last !in rest && forall n :: n in path <==> n in rest || n == last
  {
    assert path == path[..|path| - 1] + [path[|path| - 1]];
  }

  lemma LeaveKeepsGood(g: Graph, nodes: set<Node>, s: Search, node: Node)
    requires s.color.Keys == nodes && Good(g, nodes, s) && s.path != [] && s.path[|s.path| - 1] == node
    requires forall d | d in Deps(g, node) :: d in OfColor(s.color, Black) || (node, d) in Closings(s.found)
    ensures Good(g, nodes, Search(s.color[node := Black], s.path[..|s.path| - 1], s.finished + [node],
                                  s.found, s.trail))
    ensures node in nodes && OfColor(s.color[node := Black], White) == OfColor(s.color, White)
    ensures OfColor(s.color[node := Black], Black) == OfColor(s.color, Black) + {node}
  {
    hide TopologicalBut, IsCycle, OnTrail, Coloured, OfColor, Closings;
    LeaveColours(g, nodes, s, node);
    SettledInOrder(g, nodes, s, node);
    FinishKeepsOrder(g, s.finished, Closings(s.found), node);
    LeaveTrails(g, nodes, s, node);
    ColoursOnly(g, nodes, s.(color := s.color[node := Black], path := s.path[..|s.path| - 1],
                             finished := s.finished + [node]), s.found, s.trail);
  }

  lemma SettledInOrder(g: Graph, nodes: set<Node>, s: Search, node: Node)
    requires s.color.Keys == nodes && Coloured(g, nodes, s)
    requires forall d | d in Deps(g, node) :: d in OfColor(s.color, Black) || (node, d) in Closings(s.found)
    ensures forall d | d in Deps(g, node) :: d in s.finished || (node, d) in Closings(s.found)
  {
  }

  lemma LeaveTrails(g: Graph, nodes: set<Node>, s: Search, node: Node)
    requires s.color.Keys == nodes && Coloured(g, nodes, s) && Trailed(g, nodes, s)
    requires s.path != [] && s.path[|s.path| - 1] == node
    ensures node in nodes
    ensures Trailed(g, nodes, Search(s.color[node := Black], s.path[..|s.path| - 1], s.finished + [node],
                                     s.found, s.trail))
  {
    hide IsCycle, OnTrail;
    var path := s.path[..|s.path| - 1];
    assert s.color[node] == Gray;
    forall i | 0 <= i < |path| ensures path[i] in s.trail && s.trail[path[i]] == path[..i + 1] {
      assert path[i] == s.path[i] && path[..i + 1] == s.path[..i + 1];
    }
  }

  lemma OffPath(g: Graph, nodes: set<Node>, s: Search, node: Node)
    requires s.color.Keys == nodes && Good(g, nodes, s) && s.path == [] && node in nodes
    ensures s.color[node] != Gray
  {
  }

  lemma GoodWhenDone(g: Graph, nodes: set<Node>, s: Search)
    requires s.color.Keys == nodes && Good(g, nodes, s)
    ensures TopologicalBut(g, s.finished, Closings(s.found))
    ensures forall n | n in OfColor(s.color, Black) :: n in s.finished
    ensures forall c | c in s.found :: IsCycle(g, c) && OnTrail(s.trail, c)
  {
  }

  class CycleFinder {
    const graph: Graph
    const nodes: set<Node>
    var color: map<Node, Color>
    var path: seq<Node>
    ghost var finished: seq<Node>    // in the order of finishing
    ghost var found: seq<seq<Node>>  // the cycles reported so far
    ghost var trail: Trails          // the path on which each node was first reached

    ghost function View(): Search
      reads this
    {
      Search(color, path, finished, found, trail)
    }

    ghost predicate Valid()
      reads this
    {
      && (forall n | n in graph :: n in nodes && forall d | d in graph[n] :: d in nodes)
      && color.Keys == nodes && Good(graph, nodes, View())
    }

    ghost function Whites(): set<Node>
      reads this
    {
      OfColor(color, White)
    }

    ghost function Blacks(): set<Node>
      reads this
    {
      OfColor(color, Black)
    }

    /** The import was followed to its end, or it closed a cycle. */
    ghost predicate Settled(node: Node, dep: Node)
      reads this
    {
      dep in Blacks() || (node, dep) in Closings(found)
    }

    constructor (graph: Graph)
      ensures this.graph == graph && Valid() && path == [] && found == [] && Blacks() == {}
    {
      var all: set<Node> := (set n | n in graph) + (set n, d | n in graph && d in graph[n] :: d);
      this.graph := graph;
      nodes := all;
      color := map n | n in all :: White;
      path, finished, found, trail := [], [], [], map[];
    }

    /** A node on the path closes a cycle: the path from its first occurrence on, and the node again. */
    method CloseCycle(node: Node) returns (cycle: seq<Node>)
      requires Valid() && path != [] && node in Deps(graph, path[|path| - 1])
      requires node in nodes && color[node] == Gray
      modifies this`found
      ensures Valid() && found == old(found) + [cycle]
      ensures (path[|path| - 1], node) in Closings(found)
    {
      hide Good, IsCycle, IsWalk, Closings;
      OnPath(graph, nodes, View(), node);
      var idx := IndexOf(path, node);
      CloseKeepsGood(graph, nodes, View(), idx, node);
      cycle := path[idx..] + [node];
      found := found + [cycle];
    }

    method Enter(node: Node)
      requires Valid() && node in nodes && color[node] == White
      requires path != [] ==> node in Deps(graph, path[|path| - 1])
      modifies this`color, this`path, this`trail
      ensures Valid() && path == old(path) + [node]
      ensures Whites() == old(Whites()) - {node} && node in old(Whites()) && Blacks() == old(Blacks())
      ensures Extends(old(trail), trail) && node in trail && trail[node] == path
    {
      hide Good, Coloured;
      EnterKeepsGood(graph, nodes, View(), node);
      color := color[node := Gray];
      path := path + [node];
      trail := trail[node := path];
    }

    method Leave(node: Node)
      requires Valid() && path != [] && path[|path| - 1] == node
      requires forall d | d in Deps(graph, node) :: Settled(node, d)
      modifies this`color, this`path, this`finished
      ensures Valid() && path == old(path[..|path| - 1])
      ensures Whites() == old(Whites()) && Blacks() == old(Blacks()) + {node}
    {
      hide Good, Coloured, Closings;
      LeaveKeepsGood(graph, nodes, View(), node);
      path := path[..|path| - 1];
      color := color[node := Black];
      finished := finished + [node];
    }

    /** One `dfs` call below the current path; a node that is not on the path gets finished, and one that
        is closes a cycle. */
    method Dfs(node: Node) returns (result: seq<seq<Node>>)
      requires Valid() && node in nodes
      requires path != [] ==> node in Deps(graph, path[|path| - 1])
      modifies this`color, this`path, this`finished, this`found, this`trail
      ensures Valid() && path == old(path) && Whites() <= old(Whites()) && old(Blacks()) <= Blacks()
      ensures found == old(found) + result && Extends(old(trail), trail)
      ensures old(color[node]) == White ==> node in trail && trail[node] == path + [node]
      ensures path == [] ==> node in Blacks()
      ensures path != [] ==> Settled(path[|path| - 1], node)
      decreases Whites(), 1
    {
      hide Good, IsCycle, Closings;
      if color[node] == Gray {
        OnPath(graph, nodes, View(), node);
        var cycle := CloseCycle(node);
        return [cycle];
      }
      if color[node] == Black {
        return [];
      }
      Enter(node);
      result := VisitDeps(node);
      Leave(node);
    }

    /** The loop over the imports of the last node of the path. */
    method VisitDeps(node: Node) returns (result: seq<seq<Node>>)
      requires Valid() && path != [] && path[|path| - 1] == node
      modifies this`color, this`path, this`finished, this`found, this`trail
      ensures Valid() && path == old(path) && Whites() <= old(Whites()) && old(Blacks()) <= Blacks()
      ensures found == old(found) + result && Extends(old(trail), trail)
      ensures forall d | d in Deps(graph, node) :: Settled(node, d)
      decreases Whites(), 2
    {
      hide Good, IsCycle, Closings;
      result := [];
      var deps := Deps(graph, node);
      for i := 0 to |deps|
        invariant Valid() && path == old(path) && Whites() <= old(Whites()) && old(Blacks()) <= Blacks()
        invariant found == old(found) + result && Extends(old(trail), trail)
        invariant forall k | 0 <= k < i :: Settled(node, deps[k])
      {
        ghost var before := found;
        var more := Dfs(deps[i]);
        ClosingsStay(before, more);
        result := result + more;
      }
    }
  }

  lemma ClosingsStay(cycles: seq<seq<Node>>, more: seq<seq<Node>>)
    ensures Closings(cycles) <= Closings(cycles + more)
  {
  }

  method IndexOf(s: seq<Node>, n: Node) returns (i: nat)
    requires n in s
    ensures i < |s| && s[i] == n && n !in s[..i]
  {
    i := 0;
    while s[i] != n
      invariant i < |s| && n !in s[..i]
      decreases |s| - i
    {
      i := i + 1;
    }
  }

  lemma CloseWalk(g: Graph, path: seq<Node>, idx: nat, node: Node)
    requires IsWalk(g, path) && Distinct(path) && idx < |path| && path[idx] == node
    requires node in Deps(g, path[|path| - 1])
    ensures IsCycle(g, path[idx..] + [node])
  {
    var c := path[idx..] + [node];
    forall i | 0 <= i < |c| - 1 ensures c[i + 1] in Deps(g, c[i]) {
      if i < |c| - 2 {
        assert path[idx + i + 1] in Deps(g, path[idx + i]);
      }
    }
    assert c[..|c| - 1] == path[idx..];
  }

  /** What the search leaves behind: cycles that run along the trails, a finish order of all modules that is
      topological but for the edges closing those cycles, and the first root at the top of its own trail. */
  ghost predicate Explains(g: Graph, roots: seq<Node>, cycles: seq<seq<Node>>, order: seq<Node>, trail: Trails) {
    && (forall c | c in cycles :: IsCycle(g, c) && OnTrail(trail, c))
    && TopologicalBut(g, order, Closings(cycles))
    && (forall n | n in g :: n in order)
    && (roots != [] ==> roots[0] in trail && trail[roots[0]] == [roots[0]])
  }

  /** `roots` lists the graph's keys. */
  predicate Lists(roots: seq<Node>, g: Graph) {
    (forall n | n in g :: n in roots) && (forall n | n in roots :: n in g)
  }

  /** The searches from all roots that are still white when their turn comes. */
  method SearchAll(graph: Graph, roots: seq<Node>)
    returns (all: seq<seq<Node>>, ghost order: seq<Node>, ghost trail: Trails)
    requires Lists(roots, graph)
    ensures forall c | c in all :: IsCycle(graph, c)
    ensures Explains(graph, roots, all, order, trail)
  {
    hide IsCycle, Good, TopologicalBut, OnTrail, Closings;
    var finder := new CycleFinder(graph);
    all := [];
    for i := 0 to |roots|
      invariant finder.Valid() && finder.path == [] && finder.graph == graph
      invariant finder.found == all
      invariant i == 0 ==> finder.Blacks() == {}
      invariant i > 0 ==> roots[0] in finder.trail && finder.trail[roots[0]] == [roots[0]]
      invariant forall k | 0 <= k < i :: roots[k] in finder.Blacks()
    {
      assert roots[i] in graph;
      OffPath(graph, finder.nodes, finder.View(), roots[i]);
      if finder.color[roots[i]] == White {
        var found := finder.Dfs(roots[i]);
        all := all + found;
      } else {
        assert roots[i] in finder.Blacks();
      }
    }
    order, trail := finder.finished, finder.trail;
    GoodWhenDone(graph, finder.nodes, finder.View());
  }

  lemma CycleIsClosed(g: Graph, c: seq<Node>)
    requires IsCycle(g, c)
    ensures Closed(c) && !Acyclic(g)
  {
  }

  /** Two cycles along the trails that are rotations of each other start at the same node, the one reached
      first, so they are the same. */
  lemma TrailFixesRotation(g: Graph, trail: Trails, c: seq<Node>, u: seq<Node>)
    requires IsCycle(g, c) && OnTrail(trail, c) && OnTrail(trail, u) && IsRotation(c, u)
    ensures c == u
  {
    var n := |c| - 1;
    var k :| 0 <= k < n && u == Rotate(c, k);
    if k > 0 {
      TrailLength(trail, c, k);
      TrailLength(trail, u, n - k);
    }
  }

  lemma {:induction false} TrailLength(trail: Trails, c: seq<Node>, i: nat)
    requires OnTrail(trail, c) && i < |c| - 1
    ensures c[i] in trail && |trail[c[i]]| == |trail[c[0]]| + i
  {
    if i > 0 {
      TrailLength(trail, c, i - 1);
    }
  }

  /** The gate reports nothing exactly on acyclic import graphs; what it reports are cycles along import
      edges, no two of them rotations of each other. Dropping the edges that close them leaves the finish
      order topological. `roots` lists the graph's keys in sorted order. */
  method FindCycles(graph: Graph, roots: seq<Node>)
    returns (unique: seq<seq<Node>>, ghost order: seq<Node>, ghost trail: Trails)
    requires Lists(roots, graph)
    ensures unique == [] <==> Acyclic(graph)
    ensures forall c | c in unique :: IsCycle(graph, c)
    ensures NoTwoRotations(unique)
    ensures Explains(graph, roots, unique, order, trail)
  {
    hide IsCycle, OnTrail, TopologicalBut, Closings, NoTwoRotations, IsRotation;
    var all;
    all, order, trail := SearchAll(graph, roots);
    forall c | c in all ensures Closed(c) {
      CycleIsClosed(graph, c);
    }
    unique := Deduplicate(all);
    // Rotations along the trails are equal, so only repeated tuples were dropped.
    forall c | c in all ensures c in unique {
      var u :| u in unique && IsRotation(c, u);
      TrailFixesRotation(graph, trail, c, u);
    }
    SameClosings(all, unique);
    if unique == [] {
      NoClosings();
      NothingCut(graph, order);
    } else {
      assert unique[0] in unique;
      CycleIsClosed(graph, unique[0]);
    }
  }

  lemma SameClosings(a: seq<seq<Node>>, b: seq<seq<Node>>)
    requires forall c :: c in a <==> c in b
    ensures Closings(a) == Closings(b)
  {
  }

  lemma NoClosings()
    ensures Closings([]) == {}
  {
  }

  lemma NothingCut(g: Graph, order: seq<Node>)
    requires TopologicalBut(g, order, {}) && forall n | n in g :: n in order
    ensures Acyclic(g)
  {
    TopologicalIsAcyclic(g, order);
  }
}
