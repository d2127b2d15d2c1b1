/** Which simple cycles the depth-first search finds (scripts/check_circular_imports.py, whose docstring
    promises all of them): exactly those that run down the search tree but for one edge. All are reported,
    whatever the order of the modules, exactly if no two of them share an edge. */
module CycleCompleteness {
  import opened ImportCycles
  import opened Sequences

  ghost predicate ShareEdge(c: seq<Node>, d: seq<Node>) {
    exists i: nat, j: nat :: i + 1 < |c| && j + 1 < |d| && EdgeAt(c, i) == EdgeAt(d, j)
  }

  /** Cycles that share an edge are one cycle. */
  ghost predicate EdgeDisjoint(g: Graph) {
    forall c, d | IsCycle(g, c) && IsCycle(g, d) && ShareEdge(c, d) :: IsRotation(c, d)
  }

  /** Every simple cycle is listed, up to rotation. */
  ghost predicate AllFound(g: Graph, cycles: seq<seq<Node>>) {
    forall c | IsCycle(g, c) :: Represented(c, cycles)
  }

  // ---------------------------------------------------------------- what is always found

  /** Every simple cycle uses the edge by which some reported cycle was closed. */
  lemma CycleMeetsReport(
      g: Graph, roots: seq<Node>, cycles: seq<seq<Node>>, order: seq<Node>, trail: Trails, c: seq<Node>)
    returns (u: seq<Node>, i: nat)
    requires Explains(g, roots, cycles, order, trail) && IsCycle(g, c)
    ensures u in cycles && |u| >= 2 && i + 1 < |c| && EdgeAt(c, i) == EdgeAt(u, |u| - 2)
  {
    i := ClosedWalkIsCut(g, order, Closings(cycles), c);
    u :| u in cycles && |u| >= 2 && EdgeAt(u, |u| - 2) == EdgeAt(c, i);
  }

  /** What lies between two nodes of a trail. */
  lemma {:induction false} TrailSlice(trail: Trails, c: seq<Node>, i: nat)
    requires OnTrail(trail, c) && i < |c| - 1
    ensures c[i] in trail && c[0] in trail && trail[c[i]] == trail[c[0]] + c[1..i + 1]
  {
    if i > 0 {
      TrailSlice(trail, c, i - 1);
      assert Reached(trail, c[i - 1], c[i]);
      assert c[1..i + 1] == c[1..i] + [c[i]];
      Regroup(trail[c[0]], c[1..i], [c[i]]);
    }
  }

  /** An edge that goes down a trail cannot be the one that closes a cycle on the trails. */
  lemma OnlyLastCloses(trail: Trails, c: seq<Node>, u: seq<Node>, i: nat)
    requires OnTrail(trail, c) && OnTrail(trail, u) && Closed(u)
    requires i + 1 < |c| && EdgeAt(c, i) == EdgeAt(u, |u| - 2)
    ensures i == |c| - 2
  {
    if i < |c| - 2 {
      assert Reached(trail, c[i], c[i + 1]);
      TrailLength(trail, u, |u| - 2);
    }
  }

  lemma SameClosingSameCycle(trail: Trails, c: seq<Node>, u: seq<Node>)
    requires OnTrail(trail, c) && OnTrail(trail, u) && Closed(c) && Closed(u)
    requires EdgeAt(c, |c| - 2) == EdgeAt(u, |u| - 2)
    ensures c == u
  {
    var m, n := |c| - 2, |u| - 2;
    hide OnTrail;
    TrailSlice(trail, c, m);
    TrailSlice(trail, u, n);
    SameEnd(trail[c[0]], c[1..m + 1], u[1..n + 1]);
    assert c == [c[0]] + c[1..m + 1] + [c[0]];
    assert u == [u[0]] + u[1..n + 1] + [u[0]];
  }

  lemma SameEnd<T>(a: seq<T>, b: seq<T>, c: seq<T>)
    requires a + b == a + c
    ensures b == c
  {
    assert (a + b)[|a|..] == b && (a + c)[|a|..] == c;
  }

  /** For whatever order of modules and imports: the search reports exactly the cycles that run down its trails
      but for their last edge. */
  lemma ReportedExactly(
      g: Graph, roots: seq<Node>, cycles: seq<seq<Node>>, order: seq<Node>, trail: Trails, c: seq<Node>)
    requires Explains(g, roots, cycles, order, trail)
    ensures c in cycles <==> IsCycle(g, c) && OnTrail(trail, c)
  {
    if IsCycle(g, c) && OnTrail(trail, c) {
      var u, i := CycleMeetsReport(g, roots, cycles, order, trail, c);
      CycleIsClosed(g, c);
      CycleIsClosed(g, u);
      hide OnTrail, IsCycle;
      OnlyLastCloses(trail, c, u, i);
      SameClosingSameCycle(trail, c, u);
    }
  }

  /** So a simple cycle is found exactly if, from one of its nodes, it runs down the trails. */
  lemma FoundIff(
      g: Graph, roots: seq<Node>, cycles: seq<seq<Node>>, order: seq<Node>, trail: Trails, c: seq<Node>)
    requires Explains(g, roots, cycles, order, trail) && IsCycle(g, c)
    ensures Represented(c, cycles) <==> exists i | 0 <= i < |c| - 1 :: OnTrail(trail, Rotate(c, i))
  {
    hide OnTrail, Rotate;
    forall i | 0 <= i < |c| - 1 ensures Rotate(c, i) in cycles <==> OnTrail(trail, Rotate(c, i)) {
      RotationIsCycle(g, c, i);
      ReportedExactly(g, roots, cycles, order, trail, Rotate(c, i));
    }
    if i :| 0 <= i < |c| - 1 && Rotate(c, i) in cycles {
      assert IsRotation(c, Rotate(c, i));
    }
  }

  lemma DisjointCyclesAreFound(g: Graph, roots: seq<Node>, cycles: seq<seq<Node>>, order: seq<Node>, trail: Trails)
    requires EdgeDisjoint(g) && Explains(g, roots, cycles, order, trail)
    ensures AllFound(g, cycles)
  {
    forall c | IsCycle(g, c) ensures Represented(c, cycles) {
      var u, i := CycleMeetsReport(g, roots, cycles, order, trail, c);
      assert ShareEdge(c, u) && IsCycle(g, u);
    }
  }

  // ---------------------------------------------------------------- what is not

  /** A cycle through the first root, written from there, is found only as the trail of its nodes. */
  lemma FoundFromRoot(
      g: Graph, roots: seq<Node>, cycles: seq<seq<Node>>, order: seq<Node>, trail: Trails, c: seq<Node>)
    requires Explains(g, roots, cycles, order, trail) && roots != []
    requires IsCycle(g, c) && c[0] == roots[0] && Represented(c, cycles)
    ensures c in cycles && OnTrail(trail, c) && c[0] in trail && trail[c[0]] == [c[0]]
  {
    var u :| u in cycles && IsRotation(c, u);
    var k :| 0 <= k < |c| - 1 && u == Rotate(c, k);
    if k > 0 {
      TrailLength(trail, u, |c| - 1 - k);
    } else {
      assert Rotate(c, 0) == c;
    }
  }

  lemma {:induction false} TrailIsPrefix(trail: Trails, c: seq<Node>, i: nat)
    requires OnTrail(trail, c) && c[0] in trail && trail[c[0]] == [c[0]] && i < |c| - 1
    ensures c[i] in trail && trail[c[i]] == c[..i + 1]
  {
    if i > 0 {
      TrailIsPrefix(trail, c, i - 1);
      assert Reached(trail, c[i - 1], c[i]);
      assert c[..i + 1] == c[..i] + [c[i]];
    } else {
      assert c[..1] == [c[0]];
    }
  }

  /** The search reaches a module on one path only, so of two cycles that leave the first root differently
      and meet again it finds at most one. */
  lemma OneOfTwo(
      g: Graph, roots: seq<Node>, cycles: seq<seq<Node>>, order: seq<Node>, trail: Trails,
      c: seq<Node>, d: seq<Node>, i: nat, j: nat)
    requires Explains(g, roots, cycles, order, trail) && roots != []
    requires IsCycle(g, c) && IsCycle(g, d) && c[0] == d[0] == roots[0]
    requires 0 < i < |c| - 1 && 0 < j < |d| - 1 && c[i] == d[j] && c[1] != d[1]
    ensures !Represented(c, cycles) || !Represented(d, cycles)
  {
    hide Explains, IsCycle, Represented, OnTrail;
    if Represented(c, cycles) && Represented(d, cycles) {
      FoundFromRoot(g, roots, cycles, order, trail, c);
      FoundFromRoot(g, roots, cycles, order, trail, d);
      TrailIsPrefix(trail, c, i);
      TrailIsPrefix(trail, d, j);
    }
  }

  // ---------------------------------------------------------------- cycles that share an edge

  lemma RotationIsTransitive(c: seq<Node>, d: seq<Node>, e: seq<Node>)
    requires Closed(c) && IsRotation(c, d) && IsRotation(d, e)
    ensures IsRotation(c, e)
  {
    var i :| 0 <= i < |c| - 1 && d == Rotate(c, i);
    RotateAt(c, i, 0);
    var j :| 0 <= j < |d| - 1 && e == Rotate(d, j);
    RotateTwice(c, i, j);
  }

  /** A cycle is no proper prefix of another. */
  lemma WholePrefix(g: Graph, c: seq<Node>, d: seq<Node>)
    requires IsCycle(g, c) && IsCycle(g, d) && |c| <= |d| && c == d[..|c|]
    ensures c == d
  {
    if |c| < |d| {
      NodesDiffer(g, d, 0, |c| - 1);
    }
  }

  /** Two different cycles with the same first edge: where they part. */
  lemma PartingOf(g: Graph, c: seq<Node>, d: seq<Node>) returns (k: nat)
    requires IsCycle(g, c) && IsCycle(g, d) && EdgeAt(c, 0) == EdgeAt(d, 0) && c != d
    ensures 1 <= k < |c| - 1 && k < |d| - 1 && c[k] == d[k] && c[k + 1] != d[k + 1]
  {
    k := 1;
    while k + 1 < |c| && k + 1 < |d| && c[k + 1] == d[k + 1]
      invariant 1 <= k < |c| && k < |d| && c[..k + 1] == d[..k + 1]
      decreases |c| - k
    {
      assert c[..k + 2] == c[..k + 1] + [c[k + 1]] && d[..k + 2] == d[..k + 1] + [d[k + 1]];
      k := k + 1;
    }
    assert c[..k + 1][k] == d[..k + 1][k];
    if k + 1 == |c| {
      assert c[..k + 1] == c;
      WholePrefix(g, c, d);
    } else if k + 1 == |d| {
      assert d[..k + 1] == d;
      WholePrefix(g, d, c);
    }
  }

  lemma SameRotation(g: Graph, c: seq<Node>, d: seq<Node>, a: nat, b: nat)
    requires IsCycle(g, c) && IsCycle(g, d) && a < |c| - 1 && b < |d| - 1 && Rotate(c, a) == Rotate(d, b)
    ensures IsRotation(c, d)
  {
    hide Rotate;
    assert IsRotation(c, Rotate(c, a)) && IsRotation(d, Rotate(d, b));
    RotationIsSymmetric(d, Rotate(d, b));
    RotationIsTransitive(c, Rotate(c, a), d);
  }

  /** Different cycles that share an edge can be written from a common node after which they part and to
      which they come back over another common node. */
  lemma ForkOf(g: Graph, c: seq<Node>, d: seq<Node>) returns (c': seq<Node>, d': seq<Node>, i: nat, j: nat)
    requires IsCycle(g, c) && IsCycle(g, d) && ShareEdge(c, d) && !IsRotation(c, d)
    ensures IsCycle(g, c') && IsCycle(g, d') && c'[0] == d'[0] && c'[1] != d'[1]
    ensures 0 < i < |c'| - 1 && 0 < j < |d'| - 1 && c'[i] == d'[j]
  {
    hide IsCycle, IsRotation;
    var a: nat, b: nat :| a + 1 < |c| && b + 1 < |d| && EdgeAt(c, a) == EdgeAt(d, b);
    var c0, d0 := Rotate(c, a), Rotate(d, b);
    RotationIsCycle(g, c, a);
    RotationIsCycle(g, d, b);
    SharedStart(g, c, d, a, b);
    hide Rotate;
    if c0 == d0 {
      SameRotation(g, c, d, a, b);
    }
    var k := PartingOf(g, c0, d0);
    c', d' := Rotate(c0, k), Rotate(d0, k);
    i, j := |c0| - 1 - k, |d0| - 1 - k;
    FromParting(g, c0, k);
    FromParting(g, d0, k);
  }

  lemma SharedStart(g: Graph, c: seq<Node>, d: seq<Node>, a: nat, b: nat)
    requires IsCycle(g, c) && IsCycle(g, d) && a < |c| - 1 && b < |d| - 1 && EdgeAt(c, a) == EdgeAt(d, b)
    ensures |Rotate(c, a)| >= 2 && |Rotate(d, b)| >= 2 && EdgeAt(Rotate(c, a), 0) == EdgeAt(Rotate(d, b), 0)
  {
    hide Rotate;
    RotateAt(c, a, 0);
    RotateAt(c, a, 1);
    RotateAt(d, b, 0);
    RotateAt(d, b, 1);
  }

  /** A cycle written from its k-th node: the next node, and where it comes back to its first one. */
  lemma FromParting(g: Graph, c: seq<Node>, k: nat)
    requires IsCycle(g, c) && 1 <= k < |c| - 1
    ensures IsCycle(g, Rotate(c, k)) && |Rotate(c, k)| == |c|
    ensures Rotate(c, k)[0] == c[k] && Rotate(c, k)[1] == c[k + 1] && Rotate(c, k)[|c| - 1 - k] == c[0]
  {
    hide Rotate;
    RotationIsCycle(g, c, k);
    RotateAt(c, k, 1);
    RotateAt(c, k, |c| - 1 - k);
  }

  // ---------------------------------------------------------------- the exact condition

  ghost predicate AlwaysFindsAll(g: Graph, roots: seq<Node>) {
    forall cycles, order, trail | Explains(g, roots, cycles, order, trail) :: AllFound(g, cycles)
  }

  ghost predicate NeverFindsAll(g: Graph, roots: seq<Node>) {
    forall cycles, order, trail | Explains(g, roots, cycles, order, trail) :: !AllFound(g, cycles)
  }

  lemma ListOf(s: set<Node>) returns (l: seq<Node>)
    ensures Distinct(l) && forall n :: n in l <==> n in s
  {
    l := [];
    if s != {} {
      var n :| n in s;
      var rest := ListOf(s - {n});
      l := [n] + rest;
    }
  }

  /** The search returns every simple cycle, in whatever order the modules are named and the sets iterated,
      exactly if no two simple cycles share an edge: if two do, an order that starts where they part makes
      every search miss one. */
  lemma CompleteExactlyWhenDisjoint(g: Graph)
    ensures EdgeDisjoint(g) ==> forall roots :: AlwaysFindsAll(g, roots)
    ensures !EdgeDisjoint(g) ==> exists roots :: Lists(roots, g) && Distinct(roots) && NeverFindsAll(g, roots)
  {
    if EdgeDisjoint(g) {
      forall roots ensures AlwaysFindsAll(g, roots) {
        forall cycles, order, trail | Explains(g, roots, cycles, order, trail) ensures AllFound(g, cycles) {
          DisjointCyclesAreFound(g, roots, cycles, order, trail);
        }
      }
    } else {
      var c, d :| IsCycle(g, c) && IsCycle(g, d) && ShareEdge(c, d) && !IsRotation(c, d);
      var c', d', i, j := ForkOf(g, c, d);
      var others := ListOf(g.Keys - {c'[0]});
      var roots := [c'[0]] + others;
      assert c'[1] in Deps(g, c'[0]);
      assert NeverFindsAll(g, roots) by {
        forall cycles, order, trail | Explains(g, roots, cycles, order, trail) ensures !AllFound(g, cycles) {
          OneOfTwo(g, roots, cycles, order, trail, c', d', i, j);
        }
      }
      assert Lists(roots, g) && Distinct(roots);
    }
  }

  const DIAMOND: Graph := map["a" := ["b", "c"], "b" := ["d"], "c" := ["d"], "d" := ["a"]]
  const LEFT: seq<Node> := ["a", "b", "d", "a"]
  const RIGHT: seq<Node> := ["a", "c", "d", "a"]

  lemma DiamondCycles()
    ensures IsCycle(DIAMOND, LEFT) && IsCycle(DIAMOND, RIGHT) && Lists(["a", "b", "c", "d"], DIAMOND)
  {
    assert LEFT[..3] == ["a", "b", "d"] && RIGHT[..3] == ["a", "c", "d"];
    assert ["a", "b", "c", "d"][0] == "a";
  }

  /** In the alphabetical order of its modules the search misses one of the two cycles a-b-d and a-c-d. */
  method DiamondMissesOne() returns (cycles: seq<seq<Node>>)
    ensures IsCycle(DIAMOND, LEFT) && IsCycle(DIAMOND, RIGHT)
    ensures !Represented(LEFT, cycles) || !Represented(RIGHT, cycles)
  {
    hide Explains, IsCycle, Represented, Acyclic;
    ghost var order, trail;
    DiamondCycles();
    cycles, order, trail := FindCycles(DIAMOND, ["a", "b", "c", "d"]);
    OneOfTwo(DIAMOND, ["a", "b", "c", "d"], cycles, order, trail, LEFT, RIGHT, 2, 2);
  }
}
