/** What a migrated file says (scripts/migrate_imports.py): which statements are replaced, by which text, and
    where the text stands. */
module MigrationText {
  import opened Json
  import opened MigrateImports
  import opened Sequences
  import opened Strings

  // ---------------------------------------------------------------- which statements

  /** A statement is migrated if its module is a legacy one and it names a canonical symbol. */
  lemma NeedsMigrationIff(imp: Import)
    ensures NeedsMigration(imp) <==>
              && imp.moduleName in LEGACY_MODULES
              && exists i | 0 <= i < |imp.names| ::
                   imp.names[i].name in TYPES_SYMBOLS || imp.names[i].name in APPROVAL_SYMBOLS
  {
  }

  lemma {:induction false} ToReplaceConcat(a: seq<Import>, b: seq<Import>)
    ensures ToReplace(a + b) == ToReplace(a) + ToReplace(b)
  {
    if b == [] {
      assert a + b == a;
    } else {
      assert (a + b)[..|a + b| - 1] == a + b[..|b| - 1];
      ToReplaceConcat(a, b[..|b| - 1]);
    }
  }

  /** Exactly the statements that need it are replaced, each as often as it is met. (Their order is that of the
      walk, ToReplaceConcat.) */
  lemma {:induction false} ToReplaceExactly(walk: seq<Import>, imp: Import)
    ensures multiset(ToReplace(walk))[imp] == if NeedsMigration(imp) then multiset(walk)[imp] else 0
  {
    hide NeedsMigration;
    if walk != [] {
      var n := |walk| - 1;
      ToReplaceExactly(walk[..n], imp);
      assert walk == walk[..n] + [walk[n]];
    }
  }

  // ---------------------------------------------------------------- the text

  /** The name as the statement writes it, with its alias. */
  predicate SpelledAs(a: Alias, s: string) {
    s == if a.asname.Some? && a.asname.value != "" then a.name + " as " + a.asname.value else a.name
  }

  ghost function PlacesIn(names: seq<Alias>, g: Group, s: string): set<int> {
    set i | 0 <= i < |names| && GroupOf(names[i]) == g && FullName(names[i]) == s
  }

  lemma PlacesInSnoc(names: seq<Alias>, a: Alias, g: Group, s: string)
    ensures PlacesIn(names + [a], g, s) ==
            PlacesIn(names, g, s) + if GroupOf(a) == g && FullName(a) == s then {|names|} else {}
    ensures |names| !in PlacesIn(names, g, s)
  {
    hide GroupOf, FullName;
    var all := names + [a];
    assert all[|names|] == a && forall i | 0 <= i < |names| :: all[i] == names[i];
  }

  lemma NamesInSnoc(names: seq<Alias>, a: Alias, g: Group, s: string)
    ensures multiset(NamesIn(names + [a], g))[s] ==
            multiset(NamesIn(names, g))[s] + if GroupOf(a) == g && FullName(a) == s then 1 else 0
  {
    hide GroupOf, FullName;
    assert (names + [a])[..|names|] == names;
  }

  lemma {:induction false} TimesInGroup(names: seq<Alias>, g: Group, s: string)
    ensures multiset(NamesIn(names, g))[s] == |PlacesIn(names, g, s)|
  {
    if names == [] {
      assert PlacesIn(names, g, s) == {};
    } else {
      hide PlacesIn, GroupOf, FullName, NamesIn;
      var n := |names| - 1;
      assert names == names[..n] + [names[n]];
      TimesInGroup(names[..n], g, s);
      PlacesInSnoc(names[..n], names[n], g, s);
      NamesInSnoc(names[..n], names[n], g, s);
    }
  }

  /** White space as it can stand in front of a statement. */
  predicate IsSpace(c: char) {
    c in {' ', '\t', '\n', '\r', '\U{000B}', '\U{000C}'}
  }

  lemma {:induction false} IndentIs(line: string)
    ensures IsIndent(line, Indent(line))
  {
    if line != "" && IsSpace(line[0]) {
      IndentIs(line[1..]);
      HeadAndTail(line);
    }
  }

  /** One line that imports the listed names, none if there are none. */
  function Written(indent: string, moduleName: string, names: seq<string>): seq<string> {
    if names == [] then [] else [indent + "from " + moduleName + " import " + Join(names) + "\n"]
  }

  /** Where the statement has the name as a type symbol. */
  ghost function TypePlaces(names: seq<Alias>, s: string): set<int> {
    set i | 0 <= i < |names| && names[i].name in TYPES_SYMBOLS && SpelledAs(names[i], s)
  }

  /** Where it has the name as an approval symbol that is no type symbol. */
  ghost function ApprovalPlaces(names: seq<Alias>, s: string): set<int> {
    set i | 0 <= i < |names| &&
            names[i].name !in TYPES_SYMBOLS && names[i].name in APPROVAL_SYMBOLS && SpelledAs(names[i], s)
  }

  /** Where it has the name as neither. */
  ghost function OtherPlaces(names: seq<Alias>, s: string): set<int> {
    set i | 0 <= i < |names| &&
            names[i].name !in TYPES_SYMBOLS && names[i].name !in APPROVAL_SYMBOLS && SpelledAs(names[i], s)
  }

  lemma PlacesAre(names: seq<Alias>, s: string)
    ensures PlacesIn(names, Types, s) == TypePlaces(names, s)
    ensures PlacesIn(names, Approval, s) == ApprovalPlaces(names, s)
    ensures PlacesIn(names, Legacy, s) == OtherPlaces(names, s)
  {
  }

  /** The sorted names of one group, and the line that imports them. */
  lemma TextOfGroup(indent: string, moduleName: string, names: seq<Alias>, g: Group) returns (l: seq<string>)
    ensures Indented(indent, Statement(moduleName, NamesIn(names, g))) == Written(indent, moduleName, l)
    ensures InOrder(l) && forall s :: multiset(l)[s] == |PlacesIn(names, g, s)|
  {
    hide NamesIn, Join, PlacesIn, InOrder, Sorted;
    var group := NamesIn(names, g);
    l := Sorted(group);
    SortedSorts(group);
    assert |multiset(l)| == |l| && |multiset(group)| == |group|;
    forall s ensures multiset(l)[s] == |PlacesIn(names, g, s)| {
      TimesInGroup(names, g, s);
    }
    LineIs(indent, moduleName, l);
  }

  lemma LineIs(indent: string, moduleName: string, l: seq<string>)
    ensures indent + ("from " + moduleName + " import " + Join(l) + "\n") ==
            indent + "from " + moduleName + " import " + Join(l) + "\n"
  {
  }

  lemma IndentedConcat(indent: string, a: seq<string>, b: seq<string>, c: seq<string>)
    ensures Indented(indent, a + b + c) == Indented(indent, a) + Indented(indent, b) + Indented(indent, c)
  {
  }

  /** The line's leading white space. */
  predicate IsIndent(line: string, indent: string) {
    && indent <= line && (forall i | 0 <= i < |indent| :: IsSpace(line[i]))
    && (|indent| < |line| ==> !IsSpace(line[|indent|]))
  }

  /** The text that replaces a statement: its names in sorted order, each in the place of its own kind and with
      its alias, as often as the statement has it. A name that is both a type and an approval symbol comes from
      the types; one that is neither stays with the original module. */
  lemma ReplacementText(lines: seq<string>, imp: Import)
    returns (indent: string, types: seq<string>, approval: seq<string>, others: seq<string>)
    requires 1 <= imp.lineno <= |lines|
    ensures Replacement(lines, imp) ==
            Written(indent, "teaagent.types", types) + Written(indent, "teaagent.approval", approval) +
            Written(indent, imp.moduleName, others)
    ensures IsIndent(lines[imp.lineno - 1], indent) && InOrder(types) && InOrder(approval) && InOrder(others)
    ensures forall s :: multiset(types)[s] == |TypePlaces(imp.names, s)|
    ensures forall s :: multiset(approval)[s] == |ApprovalPlaces(imp.names, s)|
    ensures forall s :: multiset(others)[s] == |OtherPlaces(imp.names, s)|
  {
    hide NamesIn, Indent, PlacesIn, TypePlaces, ApprovalPlaces, OtherPlaces, Statement, InOrder, Indented, Written;
    var names := imp.names;
    indent := Indent(lines[imp.lineno - 1]);
    IndentIs(lines[imp.lineno - 1]);
    types := TextOfGroup(indent, "teaagent.types", names, Types);
    approval := TextOfGroup(indent, "teaagent.approval", names, Approval);
    others := TextOfGroup(indent, imp.moduleName, names, Legacy);
    IndentedConcat(indent, Statement("teaagent.types", NamesIn(names, Types)),
                   Statement("teaagent.approval", NamesIn(names, Approval)),
                   Statement(imp.moduleName, NamesIn(names, Legacy)));
    forall s ensures multiset(types)[s] == |TypePlaces(names, s)| &&
                     multiset(approval)[s] == |ApprovalPlaces(names, s)| &&
                     multiset(others)[s] == |OtherPlaces(names, s)|
    {
      PlacesAre(names, s);
    }
  }

  /** No name is lost or added: the three places are all the places where the statement has it. */
  lemma TextKeepsNames(names: seq<Alias>, s: string)
    ensures |TypePlaces(names, s)| + |ApprovalPlaces(names, s)| + |OtherPlaces(names, s)| ==
            |set i | 0 <= i < |names| && SpelledAs(names[i], s)|
  {
    var a, b, c := TypePlaces(names, s), ApprovalPlaces(names, s), OtherPlaces(names, s);
    assert (set i | 0 <= i < |names| && SpelledAs(names[i], s)) == a + b + c;
    assert a !! b && (a + b) !! c;
  }

  // ---------------------------------------------------------------- reading the list of names back

  /** The parts of a text between one ", " and the next. */
  function SplitNames(t: string): (parts: seq<string>)
    ensures parts != []
  {
    if t == "" then [""]
    else if ", " <= t then [""] + SplitNames(t[2..])
    else
      var rest := SplitNames(t[1..]);
      [[t[0]] + rest[0]] + rest[1..]
  }

  lemma SplitStep(c: char, t: string)
    requires c != ','
    ensures SplitNames([c] + t) == [[c] + SplitNames(t)[0]] + SplitNames(t)[1..]
  {
    var all := [c] + t;
    assert all[0] == c && all[1..] == t;
  }

  lemma SplitAtComma(t: string)
    ensures SplitNames(", " + t) == [""] + SplitNames(t)
  {
    var all := ", " + t;
    assert all[2..] == t && ", " <= all;
  }

  lemma {:induction false} SplitOne(name: string, rest: string)
    requires forall i | 0 <= i < |name| :: name[i] != ','
    requires SplitNames(rest)[0] == ""
    ensures SplitNames(name + rest) == [name] + SplitNames(rest)[1..]
  {
    hide SplitNames;
    if name == "" {
      assert name + rest == rest;
      HeadAndTail(SplitNames(rest));
    } else {
      SplitOne(name[1..], rest);
      SplitStep(name[0], name[1..] + rest);
      HeadAndTail(name);
      Regroup([name[0]], name[1..], rest);
      var tail := [name[1..]] + SplitNames(rest)[1..];
      assert tail[0] == name[1..] && tail[1..] == SplitNames(rest)[1..];
    }
  }

  /** The names of a statement can be read back from its text: a joined list splits into its parts. */
  lemma {:induction false} SplitJoined(parts: seq<string>)
    requires parts != [] && forall k | 0 <= k < |parts| :: forall i | 0 <= i < |parts[k]| :: parts[k][i] != ','
    ensures SplitNames(Join(parts)) == parts
  {
    if |parts| == 1 {
      SplitOne(parts[0], "");
      assert parts[0] + "" == parts[0];
    } else {
      var more := Join(parts[1..]);
      SplitJoined(parts[1..]);
      SplitAtComma(more);
      SplitOne(parts[0], ", " + more);
      hide SplitNames;
      assert Join(parts) == parts[0] + (", " + more);
      assert ([""] + SplitNames(more))[1..] == SplitNames(more);
      HeadAndTail(parts);
    }
  }

  // ---------------------------------------------------------------- where the text stands

  lemma IndexInSum<T>(a: seq<T>, b: seq<T>, c: seq<T>)
    ensures forall k | 0 <= k < |b| :: (a + b + c)[|a| + k] == b[k]
    ensures forall k | 0 <= k < |c| :: (a + b + c)[|a| + |b| + k] == c[k]
  {
  }

  lemma ShiftUnfolds(lines: seq<string>, imps: seq<Import>, k: int)
    requires Disjoint(lines, imps) && imps != []
    ensures Shift(lines, imps, k) ==
            if imps[0].lineno - 1 > k then 0
            else |Replacement(lines, imps[0])| - (imps[0].endLineno - imps[0].lineno + 1) + Shift(lines, imps[1..], k)
  {
  }

  /** Every replaced range stands, with its new lines, at its shifted place, and nothing else is added. */
  lemma {:induction false} RangesAreReplaced(lines: seq<string>, imps: seq<Import>, from: nat, i: nat, k: nat)
    requires Disjoint(lines, imps) && from <= |lines| && i < |imps| && from < imps[0].lineno
    requires k < |Replacement(lines, imps[i])|
    ensures var at := imps[i].lineno - 1 - from + Shift(lines, imps, imps[i].lineno - 2) + k;
            && 0 <= at < |OnePass(lines, imps, from)|
            && OnePass(lines, imps, from)[at] == Replacement(lines, imps[i])[k]
    decreases |imps|
  {
    hide Replacement, OnePass, Shift;
    PassUnfolds(lines, imps, from);
    ShiftUnfolds(lines, imps, imps[i].lineno - 2);
    IndexInSum(lines[from..imps[0].lineno - 1], Replacement(lines, imps[0]),
               OnePass(lines, imps[1..], imps[0].endLineno));
    if i > 0 {
      assert imps[0].endLineno < imps[i].lineno;
      RangesAreReplaced(lines, imps[1..], imps[0].endLineno, i - 1, k);
    }
  }

  lemma {:induction false} LengthAfter(lines: seq<string>, imps: seq<Import>, from: nat)
    requires Disjoint(lines, imps) && from <= |lines| && (imps != [] ==> from < imps[0].lineno)
    ensures |OnePass(lines, imps, from)| == |lines| - from + Shift(lines, imps, |lines|)
    decreases |imps|
  {
    hide Replacement;
    if imps != [] {
      LengthAfter(lines, imps[1..], imps[0].endLineno);
    }
  }
}
