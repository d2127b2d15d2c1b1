/** Rewriting legacy imports in place, bottom to top (scripts/migrate_imports.py). */
module MigrateImports {
  import opened Json
  import opened Strings

  datatype Alias = Alias(name: string, asname: Option<string>)

  /** A `from module import names` statement on lines lineno..endLineno (1-based, inclusive). */
  datatype Import = Import(moduleName: string, names: seq<Alias>, lineno: int, endLineno: int)

  const TYPES_SYMBOLS: set<string> := {
    "AgentHarnessError", "AuditDurabilityError", "BudgetExceededError", "ConfigError", "DenialReasonCode",
    "ErrorCategory", "InvalidToolDecision", "RunCancelledError", "ToolExecutionError", "ToolPermissionError",
    "ToolValidationError", "ToolAnnotations", "ToolDefinition", "ToolRateLimit", "ToolRegistry", "RunBudget",
    "FinalAnswer", "RunResult", "ToolRequest", "AuditEvent", "AuditLogger", "ChainVerificationResult",
    "compute_event_hash", "verify_audit_chain", "ApprovalRequest", "JITApprovalState", "PermissionMode"}

  const APPROVAL_SYMBOLS: set<string> := {
    "ApprovalManager", "ApprovalQueueStore", "CentralizedApprovalQueue", "ApprovalStoreManager",
    "DiffApprovalHandler", "JITApprovalManager", "JITApprovalServer", "MultiSigQuorumConfig",
    "MultiSigQuorumManager", "PeerSignature", "PermissionModeEnforcer", "format_denial_message",
    "parse_permission_mode", "ApprovalHandler"}

  const LEGACY_MODULES: set<string> := {
    "teaagent.errors", "teaagent.tools", "teaagent.budget", "teaagent.runner._types", "teaagent.audit",
    "teaagent.audit_chain", "teaagent.approval_manager", "teaagent.jit_approval_server",
    "teaagent.approval_ui", "teaagent.approval_backend", "teaagent.approval_selectors", "teaagent.policy",
    "teaagent.subagents._approval_queue", "teaagent.subagents._approval_queue_store"}

  // ---------------------------------------------------------------- the three output groups

  function FullName(a: Alias): string {
    if a.asname.Some? && a.asname.value != "" then a.name + " as " + a.asname.value else a.name
  }

  datatype Group = Types | Approval | Legacy

  function GroupOf(a: Alias): Group {
    if a.name in TYPES_SYMBOLS then Types else if a.name in APPROVAL_SYMBOLS then Approval else Legacy
  }

  /** The full names of one group, in statement order. */
  function NamesIn(names: seq<Alias>, g: Group): seq<string> {
    if names == [] then []
    else
      var n := |names| - 1;
      NamesIn(names[..n], g) + if GroupOf(names[n]) == g then [FullName(names[n])] else []
  }

  function FullNames(names: seq<Alias>): seq<string> {
    if names == [] then [] else FullNames(names[..|names| - 1]) + [FullName(names[|names| - 1])]
  }

  /** The loop that separates a statement's names. */
  method Separate(names: seq<Alias>) returns (types: seq<string>, approval: seq<string>, legacy: seq<string>)
    ensures types == NamesIn(names, Types) && approval == NamesIn(names, Approval) && legacy == NamesIn(names, Legacy)
  {
    types, approval, legacy := [], [], [];
    for i := 0 to |names|
      invariant types == NamesIn(names[..i], Types)
      invariant approval == NamesIn(names[..i], Approval)
      invariant legacy == NamesIn(names[..i], Legacy)
    {
      assert names[..i + 1][..i] == names[..i];
      if names[i].name in TYPES_SYMBOLS {
        types := types + [FullName(names[i])];
      } else if names[i].name in APPROVAL_SYMBOLS {
        approval := approval + [FullName(names[i])];
      } else {
        legacy := legacy + [FullName(names[i])];
      }
    }
    assert names[..|names|] == names;
  }

  /** No name is lost, duplicated or renamed by the separation, aliases included. */
  lemma {:induction false} NamesAreConserved(names: seq<Alias>)
    ensures multiset(NamesIn(names, Types)) + multiset(NamesIn(names, Approval)) + multiset(NamesIn(names, Legacy))
            == multiset(FullNames(names))
  {
    if names != [] {
      NamesAreConserved(names[..|names| - 1]);
    }
  }

  function Join(parts: seq<string>): string {
    if parts == [] then "" else if |parts| == 1 then parts[0] else parts[0] + ", " + Join(parts[1..])
  }

  /** One output statement, unless its group is empty. */
  function Statement(moduleName: string, names: seq<string>): seq<string> {
    if names == [] then [] else ["from " + moduleName + " import " + Join(Sorted(names)) + "\n"]
  }

  function NewImports(imp: Import): seq<string> {
    Statement("teaagent.types", NamesIn(imp.names, Types)) +
    Statement("teaagent.approval", NamesIn(imp.names, Approval)) +
    Statement(imp.moduleName, NamesIn(imp.names, Legacy))
  }

  /** The leading white space of a line. */
  function Indent(line: string): string {
    if line != "" && line[0] in [' ', '\t', '\n', '\r', '\U{000B}', '\U{000C}'] then [line[0]] + Indent(line[1..])
    else ""
  }

  function Indented(indent: string, stmts: seq<string>): seq<string> {
    seq(|stmts|, i requires 0 <= i < |stmts| => indent + stmts[i])
  }

  // ---------------------------------------------------------------- splicing

  predicate InFile(lines: seq<string>, imp: Import) {
    1 <= imp.lineno <= imp.endLineno <= |lines|
  }

  /** The lines that replace a statement; its indentation is read from its first line. */
  function Replacement(lines: seq<string>, imp: Import): seq<string>
    requires 1 <= imp.lineno <= |lines|
  {
    Indented(Indent(lines[imp.lineno - 1]), NewImports(imp))
  }

  /** `lines[start:end] = replacement`. */
  function Splice(lines: seq<string>, imp: Import): seq<string>
    requires InFile(lines, imp)
  {
    lines[..imp.lineno - 1] + Replacement(lines, imp) + lines[imp.endLineno..]
  }

  /** Statements in file order whose line ranges do not overlap. */
  ghost predicate Disjoint(lines: seq<string>, imps: seq<Import>) {
    && (forall i | 0 <= i < |imps| :: InFile(lines, imps[i]))
    && (forall i, j | 0 <= i < j < |imps| :: imps[i].endLineno < imps[j].lineno)
  }

  /** The reference: one pass from line `from` on, copying lines and replacing ranges, all in the
      coordinates of the original file. */
  ghost function OnePass(lines: seq<string>, imps: seq<Import>, from: nat): seq<string>
    requires Disjoint(lines, imps) && from <= |lines| && (imps != [] ==> from < imps[0].lineno)
    decreases |imps|
  {
    if imps == [] then lines[from..]
    else
      lines[from..imps[0].lineno - 1] + Replacement(lines, imps[0]) + OnePass(lines, imps[1..], imps[0].endLineno)
  }

  /** The pass over the whole file. */
  ghost function Rewrite(lines: seq<string>, imps: seq<Import>): seq<string>
    requires Disjoint(lines, imps)
  {
    OnePass(lines, imps, 0)
  }

  lemma SpliceKeepsHead(lines: seq<string>, last: Import, imp: Import, from: nat)
    requires InFile(lines, last) && InFile(lines, imp) && from < imp.lineno && imp.endLineno < last.lineno
    ensures InFile(Splice(lines, last), imp) && Replacement(Splice(lines, last), imp) == Replacement(lines, imp)
    ensures Splice(lines, last)[from..imp.lineno - 1] == lines[from..imp.lineno - 1]
  {
    hide NewImports, Indented, Indent;
    var lines' := Splice(lines, last);
    var k := last.lineno - 1;
    assert lines'[..k] == lines[..k];
    assert lines'[imp.lineno - 1] == lines'[..k][imp.lineno - 1];
    assert lines'[from..imp.lineno - 1] == lines'[..k][from..imp.lineno - 1];
    assert lines[from..imp.lineno - 1] == lines[..k][from..imp.lineno - 1];
  }

  lemma SpliceStaysDisjoint(lines: seq<string>, imps: seq<Import>)
    requires Disjoint(lines, imps) && imps != []
    ensures Disjoint(Splice(lines, imps[|imps| - 1]), imps[..|imps| - 1])
  {
    var last := imps[|imps| - 1];
    forall i | 0 <= i < |imps| - 1 ensures InFile(Splice(lines, last), imps[i]) {
      SpliceKeepsHead(lines, last, imps[i], 0);
    }
  }

  lemma PassUnfolds(lines: seq<string>, imps: seq<Import>, from: nat)
    requires Disjoint(lines, imps) && imps != [] && from < imps[0].lineno
    ensures OnePass(lines, imps, from) ==
            lines[from..imps[0].lineno - 1] + Replacement(lines, imps[0]) +
            OnePass(lines, imps[1..], imps[0].endLineno)
  {
  }

  lemma PassCopies(lines: seq<string>, imps: seq<Import>, from: nat)
    requires imps == [] && from <= |lines|
    ensures OnePass(lines, imps, from) == lines[from..]
  {
  }

  /** Splicing the last range first leaves the pass over the earlier ones as it was. */
  lemma {:induction false} SpliceLast(lines: seq<string>, imps: seq<Import>, from: nat)
    requires Disjoint(lines, imps) && imps != [] && from < imps[0].lineno
    ensures var n := |imps| - 1; var lines' := Splice(lines, imps[n]);
            && Disjoint(lines', imps[..n]) && from <= |lines'|
            && OnePass(lines', imps[..n], from) == OnePass(lines, imps, from)
    decreases |imps|
  {
    hide Splice, Replacement, OnePass;
    var n := |imps| - 1;
    var last := imps[n];
    SpliceStaysDisjoint(lines, imps);
    PassUnfolds(lines, imps, from);
    if n == 0 {
      PassOverLast(lines, last, from);
      PassCopies(lines, imps[1..], last.endLineno);
      PassCopies(Splice(lines, last), imps[..n], from);
    } else {
      SpliceKeepsHead(lines, last, imps[0], from);
      SpliceLast(lines, imps[1..], imps[0].endLineno);
      assert imps[1..][..n - 1] == imps[..n][1..];
      PassUnfolds(Splice(lines, last), imps[..n], from);
    }
  }

  lemma PassOverLast(lines: seq<string>, imp: Import, from: nat)
    requires InFile(lines, imp) && from < imp.lineno
    ensures from <= |Splice(lines, imp)|
    ensures Splice(lines, imp)[from..] ==
            lines[from..imp.lineno - 1] + Replacement(lines, imp) + lines[imp.endLineno..]
  {
    hide Replacement;
    DropInSum(lines[..imp.lineno - 1], Replacement(lines, imp), lines[imp.endLineno..], from);
    assert lines[..imp.lineno - 1][from..] == lines[from..imp.lineno - 1];
  }

  lemma DropInSum<T>(a: seq<T>, b: seq<T>, c: seq<T>, k: nat)
    requires k <= |a|
    ensures (a + b + c)[k..] == a[k..] + b + c
  {
  }

  /** How far the ranges that end before line index k push that line down. */
  ghost function Shift(lines: seq<string>, imps: seq<Import>, k: int): int
    requires Disjoint(lines, imps)
  {
    if imps == [] || imps[0].lineno - 1 > k then 0
    else
      |Replacement(lines, imps[0])| - (imps[0].endLineno - imps[0].lineno + 1) + Shift(lines, imps[1..], k)
  }

  ghost predicate Outside(imps: seq<Import>, k: int) {
    forall i | 0 <= i < |imps| :: k < imps[i].lineno - 1 || imps[i].endLineno <= k
  }

  /** Every line outside the ranges is kept, in its shifted place. */
  lemma {:induction false} OutsideLinesAreKept(lines: seq<string>, imps: seq<Import>, from: nat, k: nat)
    requires Disjoint(lines, imps) && Outside(imps, k) && from <= k < |lines|
    requires imps != [] ==> from < imps[0].lineno
    ensures var at := k - from + Shift(lines, imps, k);
            0 <= at < |OnePass(lines, imps, from)| && OnePass(lines, imps, from)[at] == lines[k]
    decreases |imps|
  {
    hide Replacement;
    if imps != [] && imps[0].lineno - 1 <= k {
      assert imps[0].endLineno <= k;
      OutsideLinesAreKept(lines, imps[1..], imps[0].endLineno, k);
    }
  }

  /** If two statements share a line, the later splice overwrites the first line the earlier one wrote: the
      condition that ranges do not overlap is needed. */
  lemma SharedLineIsOverwritten(lines: seq<string>, a: Import, b: Import)
    requires InFile(lines, a) && a.lineno == a.endLineno == b.lineno == b.endLineno && NewImports(a) != []
    ensures var once := Splice(lines, a);
            InFile(once, b) &&
            Splice(once, b) ==
            lines[..a.lineno - 1] + Replacement(once, b) + Replacement(lines, a)[1..] + lines[a.lineno..]
  {
    hide Indent, NewImports;
    var once, r := Splice(lines, a), Replacement(lines, a);
    assert once[a.lineno..] == r[1..] + lines[a.lineno..];
    assert once[..a.lineno - 1] == lines[..a.lineno - 1];
  }

  // ---------------------------------------------------------------- the whole rewrite

  /** The new statements for one import, built from the three groups, with its original indentation. */
  method BuildReplacement(lines: seq<string>, imp: Import) returns (r: seq<string>)
    requires 1 <= imp.lineno <= |lines|
    ensures r == Replacement(lines, imp)
  {
    var types, approval, legacy := Separate(imp.names);
    var first, second, third := [], [], [];
    if types != [] {
      first := ["from " + "teaagent.types" + " import " + Join(Sorted(types)) + "\n"];
    }
    if approval != [] {
      second := ["from " + "teaagent.approval" + " import " + Join(Sorted(approval)) + "\n"];
    }
    if legacy != [] {
      third := ["from " + imp.moduleName + " import " + Join(Sorted(legacy)) + "\n"];
    }
    assert first == Statement("teaagent.types", types);
    assert second == Statement("teaagent.approval", approval);
    assert third == Statement(imp.moduleName, legacy);
    var indent := Indent(lines[imp.lineno - 1]);
    r := Indented(indent, first + second + third);
  }

  predicate NeedsMigration(imp: Import) {
    imp.moduleName in LEGACY_MODULES && exists i | 0 <= i < |imp.names| :: GroupOf(imp.names[i]) != Legacy
  }

  /** The statements to replace, in the order of the syntax-tree walk. */
  function ToReplace(walk: seq<Import>): seq<Import> {
    if walk == [] then []
    else ToReplace(walk[..|walk| - 1]) + if NeedsMigration(walk[|walk| - 1]) then [walk[|walk| - 1]] else []
  }

  predicate Descending(imps: seq<Import>) {
    forall i, j | 0 <= i < j < |imps| :: imps[i].lineno >= imps[j].lineno
  }

  /** The statements that start on line l, in their order. */
  function AtLine(imps: seq<Import>, l: int): seq<Import> {
    if imps == [] then []
    else AtLine(imps[..|imps| - 1], l) + if imps[|imps| - 1].lineno == l then [imps[|imps| - 1]] else []
  }

  /** From the last line up, statements of one line in their original order: the one result a stable sort
      can have (StableSortIsUnique). */
  ghost predicate IsStableSort(sorted: seq<Import>, imps: seq<Import>) {
    && Descending(sorted) && multiset(sorted) == multiset(imps)
    && forall l :: AtLine(sorted, l) == AtLine(imps, l)
  }

  lemma {:induction false} AtLineConcat(a: seq<Import>, b: seq<Import>, l: int)
    ensures AtLine(a + b, l) == AtLine(a, l) + AtLine(b, l)
  {
    if b == [] {
      assert a + b == a;
    } else {
      assert (a + b)[..|a + b| - 1] == a + b[..|b| - 1];
      AtLineConcat(a, b[..|b| - 1], l);
    }
  }

  lemma {:induction false} NoneAtLine(imps: seq<Import>, l: int)
    requires forall i | 0 <= i < |imps| :: imps[i].lineno != l
    ensures AtLine(imps, l) == []
  {
    if imps != [] {
      NoneAtLine(imps[..|imps| - 1], l);
    }
  }

  lemma {:induction false} SomeAtLine(imps: seq<Import>, i: nat)
    requires i < |imps|
    ensures AtLine(imps, imps[i].lineno) != []
  {
    if i < |imps| - 1 {
      SomeAtLine(imps[..|imps| - 1], i);
    }
  }

  /** The last statement of a descending list starts no later than any statement of another list that has the
      same statements on every line. */
  lemma LowestLine(s: seq<Import>, t: seq<Import>)
    requires Descending(s) && s != [] && t != [] && forall l :: AtLine(s, l) == AtLine(t, l)
    ensures s[|s| - 1].lineno <= t[|t| - 1].lineno
  {
    var l := t[|t| - 1].lineno;
    SomeAtLine(t, |t| - 1);
    if forall i | 0 <= i < |s| :: s[i].lineno != l {
      NoneAtLine(s, l);
    }
  }

  lemma {:induction false} SameLinesSameList(s: seq<Import>, t: seq<Import>)
    requires Descending(s) && Descending(t) && forall l :: AtLine(s, l) == AtLine(t, l)
    ensures s == t
  {
    hide AtLine;
    if s != [] {
      SomeAtLine(s, |s| - 1);
    }
    if t != [] {
      SomeAtLine(t, |t| - 1);
    }
    NoLine();
    if s != [] && t != [] {
      LowestLine(s, t);
      LowestLine(t, s);
      var s', t', x, y := s[..|s| - 1], t[..|t| - 1], s[|s| - 1], t[|t| - 1];
      assert s == s' + [x] && t == t' + [y];
      SameLast(s', x, t', y);
      SameLinesSameList(s', t');
    }
  }

  lemma NoLine()
    ensures forall l :: AtLine([], l) == []
  {
  }

  lemma SameLast(s: seq<Import>, x: Import, t: seq<Import>, y: Import)
    requires x.lineno == y.lineno && forall l :: AtLine(s + [x], l) == AtLine(t + [y], l)
    ensures x == y && forall l :: AtLine(s, l) == AtLine(t, l)
  {
    hide AtLine;
    AtLineSnoc(s, x, x.lineno);
    AtLineSnoc(t, y, x.lineno);
    SnocIsInjective(AtLine(s, x.lineno), x, AtLine(t, x.lineno), y);
    forall l | l != x.lineno ensures AtLine(s, l) == AtLine(t, l) {
      AtLineSnoc(s, x, l);
      AtLineSnoc(t, y, l);
    }
  }

  lemma AtLineSnoc(s: seq<Import>, x: Import, l: int)
    ensures AtLine(s + [x], l) == if x.lineno == l then AtLine(s, l) + [x] else AtLine(s, l)
  {
    assert (s + [x])[..|s|] == s;
  }

  lemma SnocIsInjective<T>(a: seq<T>, x: T, b: seq<T>, y: T)
    requires a + [x] == b + [y]
    ensures a == b && x == y
  {
    assert (a + [x])[|a|] == x && (b + [y])[|b|] == y;
    assert (a + [x])[..|a|] == a && (b + [y])[..|b|] == b;
  }

  lemma StableSortIsUnique(s: seq<Import>, t: seq<Import>, imps: seq<Import>)
    requires IsStableSort(s, imps) && IsStableSort(t, imps)
    ensures s == t
  {
    SameLinesSameList(s, t);
  }

  /** Inserting a statement behind all those of its line keeps the order on every line. */
  lemma InsertIsStable(s: seq<Import>, k: nat, x: Import, l: int)
    requires k <= |s| && forall j | k <= j < |s| :: s[j].lineno < x.lineno
    ensures AtLine(s[..k] + [x] + s[k..], l) == AtLine(s + [x], l)
  {
    hide AtLine;
    AtLineConcat(s[..k] + [x], s[k..], l);
    AtLineConcat(s[..k], [x], l);
    AtLineConcat(s, [x], l);
    AtLineConcat(s[..k], s[k..], l);
    assert s == s[..k] + s[k..];
    if l == x.lineno {
      NoneAtLine(s[k..], l);
    } else {
      NoneAtLine([x], l);
    }
  }

  lemma InsertKeepsAll<T>(s: seq<T>, k: nat, x: T)
    requires k <= |s|
    ensures multiset(s[..k] + [x] + s[k..]) == multiset(s) + multiset{x}
  {
    assert s == s[..k] + s[k..];
  }

  lemma InsertDescending(s: seq<Import>, k: nat, x: Import)
    requires Descending(s) && k <= |s|
    requires (k > 0 ==> s[k - 1].lineno >= x.lineno) && forall j | k <= j < |s| :: s[j].lineno < x.lineno
    ensures Descending(s[..k] + [x] + s[k..])
  {
  }

  lemma InsertSorts(s: seq<Import>, k: nat, x: Import, imps: seq<Import>)
    requires IsStableSort(s, imps) && k <= |s|
    requires (k > 0 ==> s[k - 1].lineno >= x.lineno) && forall j | k <= j < |s| :: s[j].lineno < x.lineno
    ensures IsStableSort(s[..k] + [x] + s[k..], imps + [x])
  {
    hide AtLine, Descending;
    InsertKeepsAll(s, k, x);
    InsertDescending(s, k, x);
    forall l ensures AtLine(s[..k] + [x] + s[k..], l) == AtLine(imps + [x], l) {
      InsertIsStable(s, k, x, l);
      AtLineConcat(s, [x], l);
      AtLineConcat(imps, [x], l);
    }
  }

  lemma SortedNone(imps: seq<Import>)
    requires imps == []
    ensures IsStableSort([], imps)
  {
  }

  /** `sort(key=lineno, reverse=True)`, which keeps statements of one line in their order. */
  method SortDescending(imps: seq<Import>) returns (sorted: seq<Import>)
    ensures IsStableSort(sorted, imps)
  {
    hide IsStableSort;
    sorted := [];
    SortedNone(imps[..0]);
    for i := 0 to |imps|
      invariant IsStableSort(sorted, imps[..i])
    {
      var k := |sorted|;
      while k > 0 && sorted[k - 1].lineno < imps[i].lineno
        invariant 0 <= k <= |sorted|
        invariant forall j | k <= j < |sorted| :: sorted[j].lineno < imps[i].lineno
      {
        k := k - 1;
      }
      InsertSorts(sorted, k, imps[i], imps[..i]);
      assert imps[..i + 1] == imps[..i] + [imps[i]];
      sorted := sorted[..k] + [imps[i]] + sorted[k..];
    }
    assert imps[..|imps|] == imps;
  }

  ghost function Reverse(imps: seq<Import>): seq<Import> {
    if imps == [] then [] else Reverse(imps[1..]) + [imps[0]]
  }

  lemma {:induction false} ReverseAt(imps: seq<Import>, k: nat)
    requires k < |imps|
    ensures |Reverse(imps)| == |imps| && Reverse(imps)[k] == imps[|imps| - 1 - k]
  {
    if |imps| > 1 {
      ReverseAt(imps[1..], if k < |imps| - 1 then k else 0);
    }
  }

  /** The statements lie in the file and no two of them share a line. */
  ghost predicate Apart(lines: seq<string>, imps: seq<Import>) {
    && (forall imp | imp in imps :: InFile(lines, imp))
    && (forall i, j | 0 <= i < j < |imps| ::
          imps[i].endLineno < imps[j].lineno || imps[j].endLineno < imps[i].lineno)
  }

  /** Statements in the file, each with something to replace it. */
  ghost predicate Replaceable(lines: seq<string>, imps: seq<Import>) {
    forall imp | imp in imps :: InFile(lines, imp) && NewImports(imp) != []
  }

  /** `lines[start:end] = replacement` where the end may lie beyond the list and is clipped to its length. */
  function SpliceClipped(lines: seq<string>, imp: Import): seq<string>
    requires 1 <= imp.lineno <= |lines| && imp.lineno <= imp.endLineno
  {
    lines[..imp.lineno - 1] + Replacement(lines, imp) +
    lines[if imp.endLineno <= |lines| then imp.endLineno else |lines|..]
  }

  /** One splice after the other, each in the lines the earlier ones left; None stands for an IndexError. */
  function SpliceEach(lines: seq<string>, imps: seq<Import>): Option<seq<string>> {
    if imps == [] then Some(lines)
    else
      var n := |imps| - 1;
      match SpliceEach(lines, imps[..n])
      case None => None
      case Some(out) =>
        if 1 <= imps[n].lineno <= |out| && imps[n].lineno <= imps[n].endLineno then Some(SpliceClipped(out, imps[n]))
        else None
  }

  lemma EachSnoc(lines: seq<string>, imps: seq<Import>, i: nat, out: seq<string>)
    requires i < |imps| && SpliceEach(lines, imps[..i]) == Some(out)
    requires 1 <= imps[i].lineno <= |out| && imps[i].lineno <= imps[i].endLineno
    ensures SpliceEach(lines, imps[..i + 1]) == Some(SpliceClipped(out, imps[i]))
  {
    assert imps[..i + 1][..i] == imps[..i];
  }

  method SpliceOne(lines: seq<string>, imp: Import) returns (out: seq<string>)
    requires 1 <= imp.lineno <= |lines| && imp.lineno <= imp.endLineno
    ensures out == SpliceClipped(lines, imp)
  {
    hide Replacement;
    var r := BuildReplacement(lines, imp);
    var end := if imp.endLineno <= |lines| then imp.endLineno else |lines|;
    out := lines[..imp.lineno - 1] + r + lines[end..];
  }

  lemma ClippedIsSplice(lines: seq<string>, imp: Import)
    requires 1 <= imp.lineno <= |lines| && imp.lineno <= imp.endLineno
    ensures NewImports(imp) != [] ==> |SpliceClipped(lines, imp)| >= imp.lineno
    ensures InFile(lines, imp) ==> SpliceClipped(lines, imp) == Splice(lines, imp)
  {
    hide Replacement, NewImports;
    ReplacementIsLong(lines, imp);
  }

  /** The splice loop: one splice after the other, whatever lines the statements share. When no two of them
      share a line, replacing the ranges in place from the bottom up gives the one-pass result in original
      coordinates. */
  method SpliceAll(lines: seq<string>, imps: seq<Import>) returns (out: seq<string>)
    requires Descending(imps) && Replaceable(lines, imps)
    ensures SpliceEach(lines, imps) == Some(out)
    ensures Apart(lines, imps) ==> Disjoint(lines, Reverse(imps)) && out == Rewrite(lines, Reverse(imps))
  {
    hide Splice, OnePass, Rewrite, Replacement, Disjoint, NewImports, SpliceEach, SpliceClipped, Reverse;
    out := lines;
    ghost var apart, rest := Apart(lines, imps), Reverse(imps);
    hide Apart;
    EachOfNone(lines, imps[..0]);
    if apart {
      ReversedDisjoint(lines, imps);
    }
    assert forall k | 0 <= k < |imps| :: imps[k] in imps;
    assert imps[0..] == imps;
    for i := 0 to |imps|
      invariant forall k | i <= k < |imps| :: imps[k].lineno <= |out|
      invariant SpliceEach(lines, imps[..i]) == Some(out)
      invariant rest == Reverse(imps[i..])
      invariant apart ==> Disjoint(lines, Reverse(imps)) && Disjoint(out, rest) &&
                          Rewrite(out, rest) == Rewrite(lines, Reverse(imps))
    {
      assert imps[i] in imps;
      rest := DropLast(imps, i);
      if apart {
        SpliceFromTop(out, rest, imps[i]);
      }
      ClippedIsSplice(out, imps[i]);
      EachSnoc(lines, imps, i, out);
      out := SpliceOne(out, imps[i]);
    }
    assert imps[..|imps|] == imps;
    ReverseNothing(imps[|imps|..]);
    if apart {
      RewriteNothing(out, rest);
    }
  }

  lemma ReverseNothing(imps: seq<Import>)
    requires imps == []
    ensures Reverse(imps) == []
  {
  }

  lemma DropLast(imps: seq<Import>, i: nat) returns (earlier: seq<Import>)
    requires i < |imps|
    ensures earlier == Reverse(imps[i + 1..]) && Reverse(imps[i..]) == earlier + [imps[i]]
  {
    assert imps[i..][1..] == imps[i + 1..];
    earlier := Reverse(imps[i + 1..]);
  }

  lemma EachOfNone(lines: seq<string>, imps: seq<Import>)
    requires imps == []
    ensures SpliceEach(lines, imps) == Some(lines)
  {
  }

  lemma ReplacementIsLong(lines: seq<string>, imp: Import)
    requires 1 <= imp.lineno <= |lines|
    ensures |Replacement(lines, imp)| == |NewImports(imp)|
  {
  }

  lemma RewriteNothing(lines: seq<string>, imps: seq<Import>)
    requires imps == []
    ensures Disjoint(lines, imps) && Rewrite(lines, imps) == lines
  {
    assert lines[0..] == lines;
  }

  lemma SpliceFromTop(lines: seq<string>, earlier: seq<Import>, last: Import)
    requires Disjoint(lines, earlier + [last])
    ensures InFile(lines, last) && Disjoint(Splice(lines, last), earlier)
    ensures Rewrite(Splice(lines, last), earlier) == Rewrite(lines, earlier + [last])
  {
    hide OnePass, Splice;
    var imps := earlier + [last];
    assert imps[..|earlier|] == earlier && imps[|earlier|] == last;
    SpliceLast(lines, imps, 0);
  }

  lemma ReversedDisjoint(lines: seq<string>, imps: seq<Import>)
    requires Descending(imps) && Apart(lines, imps)
    ensures |Reverse(imps)| == |imps| && Disjoint(lines, Reverse(imps))
  {
    var asc := Reverse(imps);
    if imps != [] {
      ReverseAt(imps, 0);
    }
    forall k | 0 <= k < |imps| ensures asc[k] == imps[|imps| - 1 - k] && asc[k] in imps {
      ReverseAt(imps, k);
    }
  }

  lemma ApartUnderSorting(lines: seq<string>, imps: seq<Import>, sorted: seq<Import>)
    requires Apart(lines, imps) && multiset(sorted) == multiset(imps)
    ensures Apart(lines, sorted)
  {
    forall imp | imp in sorted ensures InFile(lines, imp) {
      assert imp in multiset(imps);
    }
    forall i, j | 0 <= i < j < |sorted|
      ensures sorted[i].endLineno < sorted[j].lineno || sorted[j].endLineno < sorted[i].lineno
    {
      var a, b := TwoOccurrences(imps, sorted, i, j);
      assert InFile(lines, imps[a]) && InFile(lines, imps[b]);
    }
  }

  lemma RemoveOne<T>(s: seq<T>, k: nat)
    requires k < |s|
    ensures multiset(s[..k] + s[k + 1..]) == multiset(s) - multiset{s[k]}
  {
    assert s == s[..k] + [s[k]] + s[k + 1..];
  }

  lemma Occurrence<T>(s: seq<T>, t: seq<T>, i: nat) returns (a: nat)
    requires multiset(s) == multiset(t) && i < |t|
    ensures a < |s| && s[a] == t[i]
  {
    assert t[i] in multiset(s);
    a :| a < |s| && s[a] == t[i];
  }

  /** Two places of a permutation come from two places of the original. */
  lemma TwoOccurrences<T>(s: seq<T>, t: seq<T>, i: nat, j: nat) returns (a: nat, b: nat)
    requires multiset(s) == multiset(t) && i < j < |t|
    ensures a < |s| && b < |s| && a != b && s[a] == t[i] && s[b] == t[j]
  {
    a := Occurrence(s, t, i);
    var rest, rest' := s[..a] + s[a + 1..], t[..i] + t[i + 1..];
    RemoveOne(s, a);
    RemoveOne(t, i);
    assert rest'[j - 1] == t[j];
    assert t[j] in multiset(rest');
    assert t[j] in multiset(rest);
    var c :| 0 <= c < |rest| && rest[c] == t[j];
    b := if c < a then c else c + 1;
  }

  /** The one-pass rewrite of the given statements, in file order. */
  ghost predicate IsOnePass(lines: seq<string>, imps: seq<Import>, out: seq<string>) {
    exists asc :: multiset(asc) == multiset(imps) && Disjoint(lines, asc) && out == Rewrite(lines, asc)
  }

  /** The loop over the syntax tree that keeps the statements to replace. */
  method Collect(walk: seq<Import>) returns (toReplace: seq<Import>)
    ensures toReplace == ToReplace(walk)
    ensures toReplace == [] <==> forall i | 0 <= i < |walk| :: !NeedsMigration(walk[i])
  {
    toReplace := [];
    for i := 0 to |walk|
      invariant toReplace == ToReplace(walk[..i])
      invariant toReplace == [] <==> forall k | 0 <= k < i :: !NeedsMigration(walk[k])
    {
      assert walk[..i + 1][..i] == walk[..i];
      if NeedsMigration(walk[i]) {
        toReplace := toReplace + [walk[i]];
      }
    }
    assert walk[..|walk|] == walk;
  }

  lemma {:induction false} GroupIsUsed(names: seq<Alias>, i: nat)
    requires i < |names|
    ensures NamesIn(names, GroupOf(names[i])) != []
  {
    if i < |names| - 1 {
      GroupIsUsed(names[..|names| - 1], i);
    }
  }

  lemma MigrationWrites(imp: Import)
    requires NeedsMigration(imp)
    ensures NewImports(imp) != []
  {
    var i :| 0 <= i < |imp.names| && GroupOf(imp.names[i]) != Legacy;
    GroupIsUsed(imp.names, i);
  }

  lemma {:induction false} ToReplaceIsReplaceable(lines: seq<string>, walk: seq<Import>)
    requires forall imp | imp in walk :: InFile(lines, imp)
    ensures Replaceable(lines, ToReplace(walk))
  {
    hide NewImports, NeedsMigration;
    if walk != [] {
      var last := walk[|walk| - 1];
      ToReplaceIsReplaceable(lines, walk[..|walk| - 1]);
      assert last in walk;
      if NeedsMigration(last) {
        MigrationWrites(last);
      }
    }
  }

  lemma ReplaceableUnderSorting(lines: seq<string>, imps: seq<Import>, sorted: seq<Import>)
    requires Replaceable(lines, imps) && multiset(sorted) == multiset(imps)
    ensures Replaceable(lines, sorted)
  {
    forall imp | imp in sorted ensures InFile(lines, imp) && NewImports(imp) != [] {
      assert imp in multiset(imps);
    }
  }

  /** `migrate_file` on the lines of a file and the import statements of its syntax tree, in walk order;
      None if nothing is to be replaced. The result is one splice after the other in stable order from the
      last line up; when no two statements to replace share a line, it is their one-pass rewrite. */
  method MigrateLines(lines: seq<string>, walk: seq<Import>) returns (out: Option<seq<string>>)
    requires forall imp | imp in walk :: InFile(lines, imp)  // as the parser numbers them
    ensures out.None? <==> forall i | 0 <= i < |walk| :: !NeedsMigration(walk[i])
    ensures out.Some? ==> exists sorted :: IsStableSort(sorted, ToReplace(walk)) && SpliceEach(lines, sorted) == out
    ensures out.Some? && Apart(lines, ToReplace(walk)) ==> IsOnePass(lines, ToReplace(walk), out.value)
  {
    hide Rewrite, NeedsMigration, Apart, Disjoint, Replaceable, SpliceEach, AtLine;
    ToReplaceIsReplaceable(lines, walk);
    var toReplace := Collect(walk);
    if toReplace == [] {
      return None;
    }
    var sorted := SortDescending(toReplace);
    ReplaceableUnderSorting(lines, toReplace, sorted);
    var result := SpliceAll(lines, sorted);
    if Apart(lines, toReplace) {
      ApartUnderSorting(lines, toReplace, sorted);
      ReverseKeeps(sorted);
      assert IsOnePass(lines, toReplace, result) by {
        assert result == Rewrite(lines, Reverse(sorted));
      }
    }
    out := Some(result);
  }

  lemma {:induction false} ReverseKeeps(imps: seq<Import>)
    ensures multiset(Reverse(imps)) == multiset(imps)
  {
    if imps != [] {
      ReverseKeeps(imps[1..]);
      assert imps == [imps[0]] + imps[1..];
    }
  }
}
