/** The wiring gate: modules reachable from the entry surfaces by imports (scripts/validate_wiring.py). */
module Wiring {
  type Name = string

  /** What was read of a package: for each module file the names it imports (none if it does not parse),
      and the modules that carry the unwired label. */
  datatype Package = Package(imports: map<Name, set<Name>>, labelled: set<Name>)

  const ENTRY_ROOTS: seq<Name> := [
    "teaagent.cli", "teaagent.tui", "teaagent.runner", "teaagent.gateway",
    "teaagent.jit_approval_server", "teaagent.mcp_server", "teaagent.mcp_http"]

  const WATCH_MODULES: seq<Name> := [
    "teaagent.governance.policy_routing", "teaagent.governance.scope_creep",
    "teaagent.governance.repo_map_benchmark", "teaagent.update", "teaagent.update.changelog",
    "teaagent.update.delta", "teaagent.update.installer", "teaagent.update.update"]

  const OPTIONAL_ROOTS: set<Name> := {"teaagent.jit_approval_server"}

  /** `m` lies inside the package `p`. */
  predicate Below(p: Name, m: Name) {
    p + "." <= m
  }

  /** An import of `name` reaches module `m`: it is that module, or a package of ours without a module
      file of its own that contains `m`. */
  predicate Targets(modules: set<Name>, name: Name, m: Name) {
    m in modules && if name in modules then m == name else "teaagent." <= name && Below(name, m)
  }

  /** `m` is a place to start: an entry root, or inside one that has no module file of its own. */
  predicate IsRoot(modules: set<Name>, m: Name) {
    m in modules && exists k | 0 <= k < |ENTRY_ROOTS| :: StartsAt(modules, ENTRY_ROOTS[k], m)
  }

  predicate StartsAt(modules: set<Name>, root: Name, m: Name) {
    if root in modules then m == root else Below(root, m)
  }

  /** Module `m` imports module `n`, directly or through a package name. */
  predicate Imports(p: Package, m: Name, n: Name) {
    m in p.imports && exists name | name in p.imports[m] :: Targets(p.imports.Keys, name, n)
  }

  method ExpandToModules(names: set<Name>, modules: set<Name>) returns (expanded: set<Name>)
    ensures forall m :: m in expanded <==> exists name | name in names :: Targets(modules, name, m)
    ensures forall m :: m in expanded <==>
              exists name | name in names ::
                m in modules && (m == name || (name !in modules && "teaagent." <= name && name + "." <= m))
  {
    expanded := {};
    var todo := names;
    while todo != {}
      invariant todo <= names
      invariant forall m :: m in expanded <==> exists name | name in names - todo :: Targets(modules, name, m)
    {
      var name :| name in todo;
      ghost var before, done := expanded, names - todo;
      todo := todo - {name};
      var added := {};
      if name in modules {
        added := {name};
      } else if "teaagent." <= name {
        added := ModulesBelow(name, modules);
      }
      expanded := expanded + added;
      assert names - todo == done + {name};
      forall m ensures m in expanded <==> exists q | q in names - todo :: Targets(modules, q, m) {
        assert m in added <==> Targets(modules, name, m);
        if m in before {
          var q :| q in done && Targets(modules, q, m);
          assert q in names - todo;
        }
      }
    }
    assert names - todo == names;
  }

  /** The scan `startswith(prefix)` over all modules. */
  method ModulesBelow(prefix: Name, modules: set<Name>) returns (found: set<Name>)
    ensures found == set m | m in modules && Below(prefix, m)
  {
    found := {};
    var todo := modules;
    while todo != {}
      invariant todo <= modules
      invariant found == set m | m in modules - todo && Below(prefix, m)
    {
      var m :| m in todo;
      todo := todo - {m};
      if Below(prefix, m) {
        found := found + {m};
      }
    }
  }

  // ---------------------------------------------------------------- reachability

  /** Closed: contains every root and everything its members import. */
  ghost predicate IsClosed(p: Package, s: set<Name>) {
    && (forall m | IsRoot(p.imports.Keys, m) :: m in s)
    && (forall m, n | m in s && Imports(p, m, n) :: n in s)
  }

  /** The least set with the two closure properties. */
  ghost predicate IsReachableSet(p: Package, s: set<Name>) {
    && s <= p.imports.Keys && IsClosed(p, s)
    && forall t: set<Name> | IsClosed(p, t) :: s <= t
  }

  /** A chain of imports that starts at a root. */
  ghost predicate ImportPath(p: Package, path: seq<Name>) {
    && path != [] && IsRoot(p.imports.Keys, path[0])
    && forall i | 0 <= i < |path| - 1 :: Imports(p, path[i], path[i + 1])
  }

  /** Everything on an import path from a root is reachable. */
  lemma {:induction false} PathIsReachable(p: Package, s: set<Name>, path: seq<Name>)
    requires IsReachableSet(p, s) && ImportPath(p, path)
    ensures path[|path| - 1] in s
  {
    if |path| > 1 {
      var init := path[..|path| - 1];
      assert ImportPath(p, init) by {
        forall i | 0 <= i < |init| - 1 ensures Imports(p, init[i], init[i + 1]) {
          assert Imports(p, path[i], path[i + 1]);
        }
      }
      PathIsReachable(p, s, init);
      assert Imports(p, path[|path| - 2], path[|path| - 1]);
    }
  }

  ghost predicate OnPath(p: Package, m: Name) {
    exists path :: ImportPath(p, path) && path[|path| - 1] == m
  }

  lemma PathExtends(p: Package, m: Name, n: Name)
    requires OnPath(p, m) && Imports(p, m, n)
    ensures OnPath(p, n)
  {
    var path :| ImportPath(p, path) && path[|path| - 1] == m;
    assert ImportPath(p, path + [n]);
    assert (path + [n])[|path|] == n;
  }

  /** The reachable set is exactly what import paths from the roots lead to. */
  lemma ReachableIffOnPath(p: Package, s: set<Name>)
    requires IsReachableSet(p, s)
    ensures forall m :: m in s <==> OnPath(p, m)
  {
    forall m | OnPath(p, m) ensures m in s {
      var path :| ImportPath(p, path) && path[|path| - 1] == m;
      PathIsReachable(p, s, path);
    }
    var t := set m | m in p.imports.Keys && OnPath(p, m);
    forall m | IsRoot(p.imports.Keys, m) ensures m in t {
      assert ImportPath(p, [m]) && [m][|[m]| - 1] == m;
    }
    forall m, n | m in t && Imports(p, m, n) ensures n in t {
      PathExtends(p, m, n);
    }
    assert IsClosed(p, t);
  }

  /** The roots present in the package, as the first loop queues them. */
  method StartQueue(modules: set<Name>) returns (queue: seq<Name>, seen: set<Name>)
    ensures forall m :: m in seen <==> IsRoot(modules, m)
    ensures forall m :: m in seen <==>
              m in modules && exists root | root in ENTRY_ROOTS ::
                m == root || (root !in modules && root + "." <= m)
    ensures forall m :: m in queue <==> m in seen
  {
    queue, seen := [], {};
    for k := 0 to |ENTRY_ROOTS|
      invariant forall m :: m in seen <==>
                            m in modules && exists i | 0 <= i < k :: StartsAt(modules, ENTRY_ROOTS[i], m)
      invariant forall m :: m in queue <==> m in seen
    {
      var root := ENTRY_ROOTS[k];
      var found := {root};
      if root !in modules {
        found := ModulesBelow(root, modules);
      }
      forall m ensures m in found <==> m in modules && StartsAt(modules, root, m) {
      }
      queue := Enqueue(queue, found);
      seen := seen + found;
    }
  }

  /** Appending the members of a set, in some order. */
  method Enqueue(queue: seq<Name>, items: set<Name>) returns (q: seq<Name>)
    ensures queue <= q && forall m :: m in q <==> m in queue || m in items
    ensures items == {} ==> q == queue
  {
    q := queue;
    var todo := items;
    while todo != {}
      invariant todo <= items && queue <= q
      invariant forall m :: m in q <==> m in queue || m in items - todo
      invariant items == {} ==> q == queue
    {
      var m :| m in todo;
      todo := todo - {m};
      q := q + [m];
    }
  }

  /** The worklist: it terminates and finds exactly the least closed set of modules. */
  method ReachableModules(p: Package) returns (seen: set<Name>)
    ensures IsReachableSet(p, seen)
  {
    var queue;
    queue, seen := StartQueue(p.imports.Keys);
    while queue != []
      invariant seen <= p.imports.Keys
      invariant forall m | m in queue :: m in seen
      invariant forall m | IsRoot(p.imports.Keys, m) :: m in seen
      invariant forall m, n | m in seen && m !in queue && Imports(p, m, n) :: n in seen
      invariant forall t: set<Name> | IsClosed(p, t) :: seen <= t
      decreases p.imports.Keys - seen, |queue|
    {
      var current := queue[0];
      var rest := queue[1..];
      queue := rest;
      var targets := ExpandToModules(p.imports[current], p.imports.Keys);
      assert forall n :: n in targets <==> Imports(p, current, n);
      var added := targets - seen;
      if added != {} {
        ghost var n :| n in added;
        assert n in p.imports.Keys - seen && n !in p.imports.Keys - (seen + added);
      }
      seen := seen + added;
      queue := Enqueue(queue, added);
    }
  }

  // ---------------------------------------------------------------- the report

  datatype Report = Report(
    reachable: set<Name>, unreachable: set<Name>, unlabeled: set<Name>,
    missingRoots: set<Name>, unwiredWatch: set<Name>)

  /** A root that is neither a module nor a package with modules in it. */
  predicate Missing(modules: set<Name>, root: Name) {
    root !in modules && !exists m | m in modules :: Below(root, m)
  }

  /** The report's `unlabeled` is empty exactly when every known watched module is reachable or labelled,
      and `missingRoots` holds exactly the mandatory roots from which no module can start. */
  method AnalyzeWiring(p: Package) returns (r: Report)
    ensures IsReachableSet(p, r.reachable) && r.unreachable == p.imports.Keys - r.reachable
    ensures forall m :: m in r.unwiredWatch <==> m in WATCH_MODULES && m in p.imports && m !in r.reachable
    ensures r.unlabeled == r.unwiredWatch - p.labelled
    ensures r.unlabeled == {} <==>
            forall m | m in WATCH_MODULES && m in p.imports :: m in r.reachable || m in p.labelled
    ensures forall root :: root in r.missingRoots <==>
              root in ENTRY_ROOTS && root !in OPTIONAL_ROOTS && Missing(p.imports.Keys, root)
  {
    var reachable := ReachableModules(p);
    var modules := p.imports.Keys;
    var watch := set m | m in WATCH_MODULES && m in modules && m !in reachable;
    var unlabeled := {};
    var todo := watch;
    while todo != {}
      invariant todo <= watch && unlabeled == (watch - todo) - p.labelled
    {
      var m :| m in todo;
      todo := todo - {m};
      if m !in p.labelled {
        unlabeled := unlabeled + {m};
      }
    }
    assert forall m :: m in unlabeled <==> m in watch && m !in p.labelled;
    assert unlabeled != {} ==> exists m :: m in unlabeled;
    var missing := set root | root in ENTRY_ROOTS && Missing(modules, root);
    r := Report(reachable, modules - reachable, unlabeled, missing - OPTIONAL_ROOTS, watch);
  }
}
