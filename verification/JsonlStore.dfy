/** The JSONL store as an insertion-ordered map (teaagent/abstract_store.py). */
module JsonlStore {
  import opened Json
  import opened Sequences
  import opened Utf8
  import opened TextLines

  /** `json.dumps` of a value, `json.loads` of a stripped line (None: blank or not JSON), and which values are
      JSON, with literals that stand for numbers. */
  datatype Codec = Codec(dump: Json -> Text, parse: Text -> Option<Json>, isJson: Json -> bool)

  /** Printing a JSON value is undone by parsing and never breaks the line; only JSON values are read. */
  ghost predicate Faithful(c: Codec) {
    && (forall j | c.isJson(j) :: c.parse(c.dump(j)) == Some(j))
    && (forall j, i | c.isJson(j) && 0 <= i < |c.dump(j)| :: !IsBreak(c.dump(j)[i]))
    && (forall t | c.parse(t).Some? :: c.isJson(c.parse(t).value))
    && c.parse([]) == None
  }

  // ---------------------------------------------------------------- insertion-ordered maps

  datatype Entry = Entry(key: string, value: Json)

  /** A Python dictionary, in insertion order. */
  type Dict = seq<Entry>

  ghost predicate Distinct(d: Dict) {
    forall i, j | 0 <= i < j < |d| :: d[i].key != d[j].key
  }

  function Lookup(d: Dict, k: string): Option<Json> {
    if d == [] then None else if d[0].key == k then Some(d[0].value) else Lookup(d[1..], k)
  }

  /** `d[k] = v`: an existing key keeps its place. */
  function Put(d: Dict, k: string, v: Json): Dict {
    if d == [] then [Entry(k, v)]
    else if d[0].key == k then [Entry(k, v)] + d[1..]
    else [d[0]] + Put(d[1..], k, v)
  }

  /** `del d[k]`. */
  function Remove(d: Dict, k: string): Dict {
    if d == [] then [] else if d[0].key == k then d[1..] else [d[0]] + Remove(d[1..], k)
  }

  function Keys(d: Dict): seq<string> {
    seq(|d|, i requires 0 <= i < |d| => d[i].key)
  }

  // ---------------------------------------------------------------- the file

  datatype Settings = Settings(codec: Codec, readonly: bool, keyField: string)

  /** `_read_all` over the lines; None stands for the AttributeError of a line that is not an object. */
  function ReadLines(s: Settings, lines: seq<Text>): Option<Dict> {
    if lines == [] then Some([])
    else
      var n := |lines| - 1;
      match ReadLines(s, lines[..n])
      case None => None
      case Some(d) =>
        match s.codec.parse(lines[n])
        case None => Some(d)
        case Some(JObj(o)) => if Get(o, s.keyField).JStr? then Some(Put(d, Get(o, s.keyField).s, JObj(o))) else Some(d)
        case Some(_) => None
  }

  /** The dictionary a file holds; an absent file holds the empty one. */
  function ReadFile(s: Settings, file: Option<Text>): Option<Dict> {
    if file.None? then Some([]) else ReadLines(s, SplitLines(file.value))
  }

  function JoinLines(lines: seq<Text>): Text {
    if lines == [] then [] else if |lines| == 1 then lines[0] else lines[0] + [10] + JoinLines(lines[1..])
  }

  function Printed(s: Settings, d: Dict): seq<Text> {
    seq(|d|, i requires 0 <= i < |d| => s.codec.dump(d[i].value))
  }

  /** `_write_all`: one printed value per line; the empty store is a lone line feed. */
  function WriteText(s: Settings, d: Dict): Text {
    JoinLines(Printed(s, d)) + [10]
  }

  /** Every entry is its printed value and a line feed, and the empty store a line feed alone. */
  lemma {:induction false} WriteTextIs(s: Settings, d: Dict, e: Entry)
    ensures WriteText(s, []) == [10]
    ensures WriteText(s, d + [e]) == (if d == [] then [] else WriteText(s, d)) + s.codec.dump(e.value) + [10]
  {
    assert Printed(s, []) == [];
    assert Printed(s, d + [e]) == Printed(s, d) + [s.codec.dump(e.value)];
    JoinSnoc(Printed(s, d), s.codec.dump(e.value));
    if d == [] {
      assert Printed(s, d) == [] && [] + s.codec.dump(e.value) == s.codec.dump(e.value);
    }
  }

  lemma {:induction false} JoinSnoc(lines: seq<Text>, t: Text)
    ensures JoinLines(lines + [t]) == (if lines == [] then [] else JoinLines(lines) + [10]) + t
  {
    if |lines| > 1 {
      JoinSnoc(lines[1..], t);
      assert (lines + [t])[1..] == lines[1..] + [t];
    } else if |lines| == 1 {
      assert (lines + [t])[1..] == [t];
    }
  }

  /** The value is an object that holds its own key. */
  predicate Carries(s: Settings, k: string, v: Json) {
    v.JObj? && Get(v.fields, s.keyField) == JStr(k)
  }

  predicate Storable(s: Settings, k: string, v: Json) {
    s.codec.isJson(v) && Carries(s, k, v)
  }

  predicate AllCarry(s: Settings, d: Dict) {
    forall i | 0 <= i < |d| :: Storable(s, d[i].key, d[i].value)
  }

  // ---------------------------------------------------------------- re-reading what was written

  lemma {:induction false} SplitJoined(lines: seq<Text>)
    requires lines != [] && forall i | 0 <= i < |lines| :: forall k | 0 <= k < |lines[i]| :: !IsBreak(lines[i][k])
    ensures SplitLines(JoinLines(lines) + [10]) == lines
  {
    var rest := if |lines| == 1 then [] else JoinLines(lines[1..]) + [10];
    assert JoinLines(lines) + [10] == lines[0] + ([10] + rest);
    LineThenFeed(lines[0], rest);
    if |lines| > 1 {
      SplitJoined(lines[1..]);
    }
  }

  lemma {:induction false} PutAppends(d: Dict, k: string, v: Json)
    requires forall i | 0 <= i < |d| :: d[i].key != k
    ensures Put(d, k, v) == d + [Entry(k, v)]
  {
    if d != [] {
      PutAppends(d[1..], k, v);
      assert d == [d[0]] + d[1..];
    }
  }

  lemma ReadOneMore(s: Settings, d: Dict, e: Entry)
    requires Faithful(s.codec) && Storable(s, e.key, e.value) && ReadLines(s, Printed(s, d)) == Some(d)
    ensures ReadLines(s, Printed(s, d + [e])) == Some(Put(d, e.key, e.value))
  {
    hide Put;
    assert Printed(s, d + [e]) == Printed(s, d) + [s.codec.dump(e.value)];
    assert (Printed(s, d) + [s.codec.dump(e.value)])[..|d|] == Printed(s, d);
  }

  lemma {:induction false} ReadPrinted(s: Settings, d: Dict)
    requires Faithful(s.codec) && AllCarry(s, d) && Distinct(d)
    ensures ReadLines(s, Printed(s, d)) == Some(d)
  {
    if d != [] {
      hide ReadLines, Printed, Put, Faithful;
      var n := |d| - 1;
      assert d == d[..n] + [d[n]];
      ReadPrinted(s, d[..n]);
      PutAppends(d[..n], d[n].key, d[n].value);
      ReadOneMore(s, d[..n], d[n]);
    }
  }

  /** Reading back a written dictionary whose values carry their keys gives the same entries in the same
      order, the empty dictionary included. */
  lemma RoundTrip(s: Settings, d: Dict)
    requires Faithful(s.codec) && AllCarry(s, d) && Distinct(d)
    ensures ReadFile(s, Some(WriteText(s, d))) == Some(d)
  {
    if d == [] {
      assert Printed(s, d) == [] && WriteText(s, d) == [10];
      assert SplitLines([10]) == [[]];
      assert ReadLines(s, [[]][..0]) == Some([]);
    } else {
      SplitJoined(Printed(s, d));
      ReadPrinted(s, d);
    }
  }

  // ---------------------------------------------------------------- the dictionary laws used

  lemma InTail(d: Dict, e: Entry)
    requires Distinct(d) && d != [] && e in d[1..]
    ensures e in d && e.key != d[0].key
  {
    var i :| 0 <= i < |d| - 1 && d[1..][i] == e;
    assert d[i + 1] == e;
  }

  lemma ConsDistinct(e: Entry, t: Dict)
    requires Distinct(t) && forall f | f in t :: f.key != e.key
    ensures Distinct([e] + t)
  {
    forall j | 0 <= j < |t| ensures t[j].key != e.key {
      assert t[j] in t;
    }
  }

  lemma {:induction false} PutKeeps(s: Settings, d: Dict, k: string, v: Json)
    requires Distinct(d)
    ensures Distinct(Put(d, k, v)) && Entry(k, v) in Put(d, k, v)
    ensures forall e | e in Put(d, k, v) :: (e in d && e.key != k) || e == Entry(k, v)
  {
    if d != [] {
      forall e | e in d[1..] ensures e in d && e.key != d[0].key {
        InTail(d, e);
      }
      if d[0].key == k {
        ConsDistinct(Entry(k, v), d[1..]);
      } else {
        PutKeeps(s, d[1..], k, v);
        ConsDistinct(d[0], Put(d[1..], k, v));
      }
    }
  }

  lemma {:induction false} RemoveKeeps(d: Dict, k: string)
    requires Distinct(d)
    ensures Distinct(Remove(d, k))
    ensures forall e :: e in Remove(d, k) <==> e in d && e.key != k
  {
    if d != [] {
      HeadAndTail(d);
      forall e | e in d[1..] ensures e in d && e.key != d[0].key {
        InTail(d, e);
      }
      if d[0].key != k {
        RemoveKeeps(d[1..], k);
        ConsDistinct(d[0], Remove(d[1..], k));
      }
    }
  }

  lemma PutRemoveCons(d: Dict, k: string, v: Json)
    requires d != [] && d[0].key != k
    ensures Put(d, k, v) == [d[0]] + Put(d[1..], k, v) && Remove(d, k) == [d[0]] + Remove(d[1..], k)
  {
  }

  lemma ConsSums(a: Dict, e: Dict, b: Dict)
    requires a != []
    ensures [a[0]] + (a[1..] + e + b) == a + e + b && [a[0]] + (a[1..] + b) == a + b
  {
    HeadAndTail(a);
  }

  /** Updates keep the insertion order: an existing key is overwritten or removed where it stands (a new
      one goes to the end, PutAppends). */
  lemma {:induction false} UpdatesKeepOrder(a: Dict, e: Entry, b: Dict, v: Json)
    requires forall f | f in a :: f.key != e.key
    ensures Put(a + [e] + b, e.key, v) == a + [Entry(e.key, v)] + b
    ensures Remove(a + [e] + b, e.key) == a + b
  {
    var d := a + [e] + b;
    if a == [] {
      assert d == [e] + b && d[1..] == b;
    } else {
      hide Put, Remove;
      UpdatesKeepOrder(a[1..], e, b, v);
      HeadOfSum(a, [e]);
      HeadOfSum(a + [e], b);
      PutRemoveCons(d, e.key, v);
      ConsSums(a, [Entry(e.key, v)], b);
    }
  }

  /** What each update does to every lookup. */
  lemma {:induction false} LookupLaws(d: Dict, k: string, v: Json, q: string)
    requires Distinct(d)
    ensures Lookup(Put(d, k, v), q) == if q == k then Some(v) else Lookup(d, q)
    ensures Lookup(Remove(d, k), q) == if q == k then None else Lookup(d, q)
  {
    if d != [] {
      if d[0].key == k {
        forall e | e in d[1..] ensures e.key != k {
          InTail(d, e);
        }
        NotAKey(d[1..], k);
      } else {
        LookupLaws(d[1..], k, v, q);
      }
    }
  }

  lemma {:induction false} NotAKey(d: Dict, k: string)
    requires forall e | e in d :: e.key != k
    ensures Lookup(d, k).None? && k !in Keys(d)
  {
    if d != [] {
      NotAKey(d[1..], k);
      assert Keys(d) == [d[0].key] + Keys(d[1..]);
    }
  }

  /** Whatever a file holds, the dictionary read from it has distinct keys and values that carry them. */
  lemma {:induction false} ReadIsSound(s: Settings, lines: seq<Text>)
    requires Faithful(s.codec) && ReadLines(s, lines).Some?
    ensures Distinct(ReadLines(s, lines).value) && AllCarry(s, ReadLines(s, lines).value)
  {
    if lines != [] {
      var n := |lines| - 1;
      ReadIsSound(s, lines[..n]);
      var d := ReadLines(s, lines[..n]).value;
      var parsed := s.codec.parse(lines[n]);
      if parsed.Some? && Get(parsed.value.fields, s.keyField).JStr? {
        PutCarries(s, d, Get(parsed.value.fields, s.keyField).s, parsed.value);
      }
    }
  }

  lemma PutCarries(s: Settings, d: Dict, k: string, v: Json)
    requires Distinct(d) && AllCarry(s, d) && Storable(s, k, v)
    ensures Distinct(Put(d, k, v)) && AllCarry(s, Put(d, k, v))
  {
    PutKeeps(s, d, k, v);
    forall i | 0 <= i < |Put(d, k, v)| ensures Storable(s, Put(d, k, v)[i].key, Put(d, k, v)[i].value) {
      assert Put(d, k, v)[i] in Put(d, k, v);
    }
  }

  lemma RemoveCarries(s: Settings, d: Dict, k: string)
    requires Distinct(d) && AllCarry(s, d)
    ensures Distinct(Remove(d, k)) && AllCarry(s, Remove(d, k))
  {
    RemoveKeeps(d, k);
    forall i | 0 <= i < |Remove(d, k)| ensures Storable(s, Remove(d, k)[i].key, Remove(d, k)[i].value) {
      assert Remove(d, k)[i] in Remove(d, k);
    }
  }

  lemma {:induction false} LookupFinds(d: Dict, k: string, v: Json)
    requires Distinct(d)
    ensures Lookup(d, k) == Some(v) <==> Entry(k, v) in d
    ensures Lookup(d, k).None? <==> k !in Keys(d)
  {
    if d != [] {
      LookupFinds(d[1..], k, v);
      assert d == [d[0]] + d[1..];
      assert Keys(d) == [d[0].key] + Keys(d[1..]);
      if d[0].key == k {
        forall e | e in d[1..] ensures e.key != k {
          InTail(d, e);
        }
      }
    }
  }

  // ---------------------------------------------------------------- the store object

  datatype Answer<T> = Done(value: T) | ReadonlyError | ReadError

  class Store {
    const settings: Settings
    var file: Option<Text>

    constructor (settings: Settings, file: Option<Text>)
      ensures this.settings == settings && this.file == file
    {
      this.settings, this.file := settings, file;
    }

    /** `_read_all`: the loop that fills the dictionary. */
    method ReadAll() returns (r: Option<Dict>)
      ensures r == ReadFile(settings, file)
    {
      if file.None? {
        return Some([]);
      }
      var lines := SplitLines(file.value);
      var result: Dict := [];
      for i := 0 to |lines|
        invariant ReadLines(settings, lines[..i]) == Some(result)
      {
        assert lines[..i + 1][..i] == lines[..i];
        match settings.codec.parse(lines[i]) {
          case None =>
          case Some(JObj(o)) =>
            if Get(o, settings.keyField).JStr? {
              result := Put(result, Get(o, settings.keyField).s, JObj(o));
            }
          case Some(_) =>
            ReadStops(settings, lines, i + 1);
            return None;
        }
      }
      assert lines[..|lines|] == lines;
      return Some(result);
    }

    method Save(key: string, value: Json) returns (r: Answer<()>)
      modifies this
      ensures (r, file) == SaveTo(settings, old(file), key, value)
    {
      if settings.readonly {
        return ReadonlyError;
      }
      var entries := ReadAll();
      if entries.None? {
        return ReadError;
      }
      file := Some(WriteText(settings, Put(entries.value, key, value)));
      return Done(());
    }

    method Delete(key: string) returns (r: Answer<bool>)
      modifies this
      ensures (r, file) == DeleteFrom(settings, old(file), key)
    {
      if settings.readonly {
        return ReadonlyError;
      }
      var entries := ReadAll();
      if entries.None? {
        return ReadError;
      }
      if Lookup(entries.value, key).None? {
        return Done(false);
      }
      file := Some(WriteText(settings, Remove(entries.value, key)));
      return Done(true);
    }

    method Clear() returns (r: Answer<()>)
      modifies this
      ensures (r, file) == ClearAll(settings, old(file))
    {
      if settings.readonly {
        return ReadonlyError;
      }
      file := Some(WriteText(settings, []));
      return Done(());
    }

    method Load(key: string) returns (r: Answer<Option<Json>>)
      ensures r == LoadFrom(settings, file, key)
    {
      var entries := ReadAll();
      r := if entries.None? then ReadError else Done(Lookup(entries.value, key));
    }

    method Exists(key: string) returns (r: Answer<bool>)
      ensures r == ExistsIn(settings, file, key)
    {
      var entries := ReadAll();
      r := if entries.None? then ReadError else Done(Lookup(entries.value, key).Some?);
    }

    method ListKeys() returns (r: Answer<seq<string>>)
      ensures r == KeysOf(settings, file)
    {
      var entries := ReadAll();
      r := if entries.None? then ReadError else Done(Keys(entries.value));
    }
  }

  lemma {:induction false} ReadStops(s: Settings, lines: seq<Text>, n: nat)
    requires n <= |lines| && ReadLines(s, lines[..n]).None?
    ensures ReadLines(s, lines).None?
  {
    if n < |lines| {
      assert lines[..|lines| - 1][..n] == lines[..n];
      ReadStops(s, lines[..|lines| - 1], n);
    } else {
      assert lines[..n] == lines;
    }
  }

  function SaveTo(s: Settings, file: Option<Text>, key: string, value: Json): (Answer<()>, Option<Text>) {
    if s.readonly then (ReadonlyError, file)
    else
      match ReadFile(s, file)
      case None => (ReadError, file)
      case Some(d) => (Done(()), Some(WriteText(s, Put(d, key, value))))
  }

  function DeleteFrom(s: Settings, file: Option<Text>, key: string): (Answer<bool>, Option<Text>) {
    if s.readonly then (ReadonlyError, file)
    else
      match ReadFile(s, file)
      case None => (ReadError, file)
      case Some(d) =>
        if Lookup(d, key).None? then (Done(false), file) else (Done(true), Some(WriteText(s, Remove(d, key))))
  }

  function ClearAll(s: Settings, file: Option<Text>): (Answer<()>, Option<Text>) {
    if s.readonly then (ReadonlyError, file) else (Done(()), Some(WriteText(s, [])))
  }

  function LoadFrom(s: Settings, file: Option<Text>, key: string): Answer<Option<Json>> {
    match ReadFile(s, file) case None => ReadError case Some(d) => Done(Lookup(d, key))
  }

  function ExistsIn(s: Settings, file: Option<Text>, key: string): Answer<bool> {
    match ReadFile(s, file) case None => ReadError case Some(d) => Done(Lookup(d, key).Some?)
  }

  function KeysOf(s: Settings, file: Option<Text>): Answer<seq<string>> {
    match ReadFile(s, file) case None => ReadError case Some(d) => Done(Keys(d))
  }

  // ---------------------------------------------------------------- any sequence of operations

  datatype Op = SaveOp(key: string, value: Json) | DeleteOp(key: string) | ClearOp

  function FileAfter(s: Settings, file: Option<Text>, op: Op): Option<Text> {
    match op
    case SaveOp(k, v) => SaveTo(s, file, k, v).1
    case DeleteOp(k) => DeleteFrom(s, file, k).1
    case ClearOp => ClearAll(s, file).1
  }

  function DictAfter(d: Dict, op: Op): Dict {
    match op
    case SaveOp(k, v) => Put(d, k, v)
    case DeleteOp(k) => Remove(d, k)
    case ClearOp => []
  }

  function RunFile(s: Settings, file: Option<Text>, ops: seq<Op>): Option<Text> {
    if ops == [] then file else FileAfter(s, RunFile(s, file, ops[..|ops| - 1]), ops[|ops| - 1])
  }

  function RunDict(d: Dict, ops: seq<Op>): Dict {
    if ops == [] then d else DictAfter(RunDict(d, ops[..|ops| - 1]), ops[|ops| - 1])
  }

  lemma {:induction false} RemoveAbsent(d: Dict, k: string)
    requires Lookup(d, k).None?
    ensures Remove(d, k) == d
  {
    if d != [] {
      RemoveAbsent(d[1..], k);
      assert d == [d[0]] + d[1..];
    }
  }

  lemma OpAgrees(s: Settings, file: Option<Text>, d: Dict, op: Op)
    requires Faithful(s.codec) && !s.readonly && ReadFile(s, file) == Some(d) && Distinct(d) && AllCarry(s, d)
    requires op.SaveOp? ==> Storable(s, op.key, op.value)
    ensures ReadFile(s, FileAfter(s, file, op)) == Some(DictAfter(d, op))
    ensures Distinct(DictAfter(d, op)) && AllCarry(s, DictAfter(d, op))
  {
    match op
    case SaveOp(k, v) =>
      PutCarries(s, d, k, v);
      RoundTrip(s, Put(d, k, v));
    case DeleteOp(k) =>
      RemoveCarries(s, d, k);
      if Lookup(d, k).None? {
        RemoveAbsent(d, k);
      } else {
        RoundTrip(s, Remove(d, k));
      }
    case ClearOp =>
      RoundTrip(s, []);
  }

  lemma {:induction false} RunAgrees(s: Settings, file: Option<Text>, ops: seq<Op>)
    requires Faithful(s.codec) && !s.readonly && ReadFile(s, file).Some?
    requires forall i | 0 <= i < |ops| && ops[i].SaveOp? :: Storable(s, ops[i].key, ops[i].value)
    ensures var d := RunDict(ReadFile(s, file).value, ops);
            ReadFile(s, RunFile(s, file, ops)) == Some(d) && Distinct(d) && AllCarry(s, d)
  {
    if ops == [] {
      if file.Some? {
        ReadIsSound(s, SplitLines(file.value));
      }
    } else {
      var n := |ops| - 1;
      RunAgrees(s, file, ops[..n]);
      OpAgrees(s, RunFile(s, file, ops[..n]), RunDict(ReadFile(s, file).value, ops[..n]), ops[n]);
    }
  }

  /** For values that carry their own key, any sequence of saves, deletes and clears, on any file that can
      be read at all, makes the three queries agree with an insertion-ordered map. */
  lemma StoreIsAMap(s: Settings, file: Option<Text>, ops: seq<Op>, key: string)
    requires Faithful(s.codec) && !s.readonly && ReadFile(s, file).Some?
    requires forall i | 0 <= i < |ops| && ops[i].SaveOp? :: Storable(s, ops[i].key, ops[i].value)
    ensures var d := RunDict(ReadFile(s, file).value, ops); var after := RunFile(s, file, ops);
            && LoadFrom(s, after, key) == Done(Lookup(d, key))
            && ExistsIn(s, after, key) == Done(key in Keys(d))
            && KeysOf(s, after) == Done(seq(|d|, i requires 0 <= i < |d| => d[i].key))
  {
    RunAgrees(s, file, ops);
    LookupFinds(RunDict(ReadFile(s, file).value, ops), key, JNull);
  }

  // ---------------------------------------------------------------- the answers

  /** A readonly store refuses every change and keeps its file; so does an unreadable one, except to `clear`. */
  lemma RefusalsKeepTheFile(s: Settings, file: Option<Text>, key: string, value: Json)
    ensures s.readonly ==>
              && SaveTo(s, file, key, value) == (ReadonlyError, file)
              && DeleteFrom(s, file, key) == (ReadonlyError, file)
              && ClearAll(s, file) == (ReadonlyError, file)
    ensures !s.readonly && ReadFile(s, file).None? ==>
              SaveTo(s, file, key, value) == (ReadError, file) && DeleteFrom(s, file, key) == (ReadError, file)
    ensures !s.readonly ==> SaveTo(s, file, key, value).0 != ReadonlyError &&
                            DeleteFrom(s, file, key).0 != ReadonlyError && ClearAll(s, file).0 == Done(())
  {
  }

  /** `delete` tells whether the key was there: true exactly if `exists` said so, and then it says so no more;
      false leaves the file as it was. Other keys are not touched. */
  lemma DeleteTells(s: Settings, file: Option<Text>, key: string, other: string)
    requires Faithful(s.codec) && !s.readonly && ReadFile(s, file).Some?
    ensures var (r, after) := DeleteFrom(s, file, key);
            && r == ExistsIn(s, file, key) && ExistsIn(s, after, key) == Done(false)
            && (r == Done(false) ==> after == file)
            && (other != key ==> LoadFrom(s, after, other) == LoadFrom(s, file, other))
  {
    var d := ReadFile(s, file).value;
    RunAgrees(s, file, []);
    OpAgrees(s, file, d, DeleteOp(key));
    LookupLaws(d, key, JNull, key);
    LookupLaws(d, key, JNull, other);
  }

  /** The line is not JSON, or an object without a string under the key field. */
  predicate Skipped(s: Settings, t: Text) {
    var parsed := s.codec.parse(t);
    parsed.None? || (parsed.value.JObj? &&
                     !(s.keyField in parsed.value.fields && parsed.value.fields[s.keyField].JStr?))
  }

  lemma ReadSnoc(s: Settings, a: seq<Text>, t: Text)
    ensures Skipped(s, t) ==> ReadLines(s, a + [t]) == ReadLines(s, a)
  {
    assert (a + [t])[..|a|] == a;
  }

  lemma SameStart(s: Settings, a: seq<Text>, b: seq<Text>, t: Text)
    requires ReadLines(s, a) == ReadLines(s, b)
    ensures ReadLines(s, a + [t]) == ReadLines(s, b + [t])
  {
    assert (a + [t])[..|a|] == a && (b + [t])[..|b|] == b;
  }

  /** Lines that hold no entry change nothing, wherever they stand. */
  lemma {:induction false} SkippedLinesDoNotCount(s: Settings, a: seq<Text>, t: Text, b: seq<Text>)
    requires Skipped(s, t)
    ensures ReadLines(s, a + [t] + b) == ReadLines(s, a + b)
  {
    hide ReadLines, Skipped;
    if b == [] {
      ReadSnoc(s, a, t);
      assert a + [t] + b == a + [t] && a + b == a;
    } else {
      var n := |b| - 1;
      SkippedLinesDoNotCount(s, a, t, b[..n]);
      SameStart(s, a + [t] + b[..n], a + b[..n], b[n]);
      assert a + [t] + b == (a + [t] + b[..n]) + [b[n]] && a + b == (a + b[..n]) + [b[n]];
    }
  }

  /** Reading raises exactly if some line is JSON but no object. */
  lemma {:induction false} ReadRaisesIff(s: Settings, lines: seq<Text>)
    ensures ReadLines(s, lines).None? <==>
              exists i | 0 <= i < |lines| :: s.codec.parse(lines[i]).Some? && !s.codec.parse(lines[i]).value.JObj?
  {
    if lines != [] {
      var n := |lines| - 1;
      ReadRaisesIff(s, lines[..n]);
      assert forall i | 0 <= i < n :: lines[..n][i] == lines[i];
    }
  }

  /** The last line that carries a key has the say over it. */
  lemma LastLineWins(s: Settings, lines: seq<Text>, t: Text, key: string, q: string)
    requires Faithful(s.codec) && ReadLines(s, lines).Some?
    requires s.codec.parse(t).Some? && Carries(s, key, s.codec.parse(t).value)
    ensures ReadLines(s, lines + [t]).Some?
    ensures Lookup(ReadLines(s, lines + [t]).value, q) ==
            if q == key then s.codec.parse(t) else Lookup(ReadLines(s, lines).value, q)
  {
    assert (lines + [t])[..|lines|] == lines;
    ReadIsSound(s, lines);
    LookupLaws(ReadLines(s, lines).value, key, s.codec.parse(t).value, q);
  }

  // ---------------------------------------------------------------- values that do not carry their key

  lemma {:induction false} ReadNeverKeys(s: Settings, d: Dict, key: string)
    requires Faithful(s.codec)
    requires forall i | 0 <= i < |d| :: s.codec.isJson(d[i].value) && !Carries(s, key, d[i].value)
    ensures ReadLines(s, Printed(s, d)).Some? ==> Lookup(ReadLines(s, Printed(s, d)).value, key).None?
  {
    if d != [] {
      var n := |d| - 1;
      ReadNeverKeys(s, d[..n], key);
      assert Printed(s, d)[..n] == Printed(s, d[..n]);
      if ReadLines(s, Printed(s, d)).Some? && Get(d[n].value.fields, s.keyField).JStr? {
        PutElsewhere(ReadLines(s, Printed(s, d[..n])).value, Get(d[n].value.fields, s.keyField).s, d[n].value, key);
      }
    }
  }

  lemma {:induction false} PutElsewhere(d: Dict, k: string, v: Json, key: string)
    requires k != key && Lookup(d, key).None?
    ensures Lookup(Put(d, k, v), key).None?
  {
    if d != [] && d[0].key != k {
      PutElsewhere(d[1..], k, v, key);
    }
  }

  /** A saved value can be loaded again under its key exactly when it carries that key; any other value is
      dropped, filed under the key it carries, or makes the file unreadable. */
  lemma LoadAfterSaveIff(s: Settings, file: Option<Text>, key: string, value: Json)
    requires Faithful(s.codec) && !s.readonly && ReadFile(s, file).Some? && s.codec.isJson(value)
    ensures LoadFrom(s, SaveTo(s, file, key, value).1, key) == Done(Some(value)) <==> Carries(s, key, value)
  {
    var d := ReadFile(s, file).value;
    if file.Some? {
      ReadIsSound(s, SplitLines(file.value));
    }
    PutKeeps(s, d, key, value);
    var d' := Put(d, key, value);
    if Carries(s, key, value) {
      PutCarries(s, d, key, value);
      RoundTrip(s, d');
      LookupFinds(d', key, value);
    } else {
      forall i | 0 <= i < |d'| ensures s.codec.isJson(d'[i].value) && !Carries(s, key, d'[i].value) {
        assert d'[i] in d';
      }
      assert d' != [];
      SplitJoined(Printed(s, d'));
      ReadNeverKeys(s, d', key);
    }
  }
}
