/** Redaction of audit payloads (the `redact_*` functions of teaagent/audit.py). */
module Redaction {
  import opened Json
  import opened Strings

  const REDACTED := "[redacted]"
  const TRUNCATED := "[truncated]"
  const MAX_AUDIT_STRING_LENGTH := 20000

  const SENSITIVE_KEY_PARTS: seq<string> := [
    "api_key", "authorization", "credential", "password", "secret", "token"]
  const SENSITIVE_ARGUMENT_KEYS: set<string> := {"command", "content", "new", "old"}
  const SENSITIVE_RESULT_KEYS: set<string> := {"content", "stderr", "stdout", "text"}

  /** The foreign string operations: the pattern substitutions of `redact_sensitive_string`, and `lower`. */
  datatype Rules = Rules(scrub: string -> string, lower: string -> string)

  function Underscored(s: string): string {
    if s == "" then "" else [if s[0] == '-' then '_' else s[0]] + Underscored(s[1..])
  }

  lemma {:induction false} UnderscoredIs(s: string)
    ensures |Underscored(s)| == |s|
    ensures forall i | 0 <= i < |s| :: Underscored(s)[i] == if s[i] == '-' then '_' else s[i]
  {
    if s != "" {
      UnderscoredIs(s[1..]);
    }
  }

  predicate HasWord(r: Rules, key: string, word: string) {
    Contains(Underscored(r.lower(key)), word)
  }

  predicate IsSensitiveKey(r: Rules, key: string) {
    exists i | 0 <= i < |SENSITIVE_KEY_PARTS| :: HasWord(r, key, SENSITIVE_KEY_PARTS[i])
  }

  /** A key is sensitive as soon as its lowered, underscored form contains one of the six words. */
  lemma SensitiveWords(r: Rules, key: string)
    ensures IsSensitiveKey(r, key) <==>
            exists word | word in {"api_key", "authorization", "credential", "password", "secret", "token"} ::
              HasWord(r, key, word)
  {
    var words, p := {"api_key", "authorization", "credential", "password", "secret", "token"}, SENSITIVE_KEY_PARTS;
    assert p[0] == "api_key" && p[1] == "authorization" && p[2] == "credential";
    assert p[3] == "password" && p[4] == "secret" && p[5] == "token";
    if IsSensitiveKey(r, key) {
      var i :| 0 <= i < |p| && HasWord(r, key, p[i]);
      assert p[i] in words;
    }
    if exists word | word in words :: HasWord(r, key, word) {
      var word :| word in words && HasWord(r, key, word);
      var i :| 0 <= i < |p| && p[i] == word;
      assert HasWord(r, key, SENSITIVE_KEY_PARTS[i]);
    }
  }

  predicate IsPrimitive(v: Json) {
    v.JNull? || v.JBool? || v.JNum?
  }

  function Bounded(s: string): string {
    if |s| > MAX_AUDIT_STRING_LENGTH then s[..MAX_AUDIT_STRING_LENGTH] + TRUNCATED else s
  }

  /** `redact_tool_argument_value` and `redact_tool_result_value`, which differ in their key sets only. */
  function RedactTool(r: Rules, keys: set<string>, key: string, v: Json): Json
    decreases v
  {
    if IsPrimitive(v) then v
    else if IsSensitiveKey(r, key) || key in keys then JStr(REDACTED)
    else
      match v
      case JObj(o) => JObj(map k | k in o :: RedactTool(r, keys, k, o[k]))
      case JArr(items) => JArr(seq(|items|, i requires 0 <= i < |items| => RedactTool(r, keys, "", items[i])))
      case JStr(s) => JStr(Bounded(r.scrub(s)))
      case _ => v
  }

  function RedactAuditValue(r: Rules, key: string, v: Json): Json
    decreases v
  {
    if IsSensitiveKey(r, key) && v.JStr? then JStr(REDACTED)
    else
      match v
      case JObj(o) =>
        if key == "arguments" then JObj(map k | k in o :: RedactTool(r, SENSITIVE_ARGUMENT_KEYS, k, o[k]))
        else JObj(map k | k in o :: RedactAuditValue(r, k, o[k]))
      case JArr(items) => JArr(seq(|items|, i requires 0 <= i < |items| => RedactAuditValue(r, "", items[i])))
      case JStr(s) => JStr(Bounded(r.scrub(s)))
      case _ => v
  }

  function RedactAuditPayload(r: Rules, payload: Fields): Fields {
    map k | k in payload ::
      if k == "result" && payload[k].JObj? then
        JObj(map c | c in payload[k].fields :: RedactTool(r, SENSITIVE_RESULT_KEYS, c, payload[k].fields[c]))
      else RedactAuditValue(r, k, payload[k])
  }

  // ---------------------------------------------------------------- places in a tree

  datatype Step = Key(name: string) | Index(i: nat)

  function Child(v: Json, st: Step): Option<Json> {
    match st
    case Key(k) => if v.JObj? && k in v.fields then Some(v.fields[k]) else None
    case Index(i) => if v.JArr? && i < |v.items| then Some(v.items[i]) else None
  }

  function At(v: Json, path: seq<Step>): Option<Json> {
    if path == [] then Some(v)
    else
      match Child(v, path[0])
      case None => None
      case Some(c) => At(c, path[1..])
  }

  /** Which rules govern a value: the audit rules, or the tool rules with one of the key sets. */
  datatype Mode = Audit | Tool(keys: set<string>)

  /** The governing rules and the key a value is reached by. */
  datatype Place = Place(mode: Mode, key: string)

  function Redact(r: Rules, p: Place, v: Json): Json {
    match p.mode
    case Audit => RedactAuditValue(r, p.key, v)
    case Tool(keys) => RedactTool(r, keys, p.key, v)
  }

  /** The value is replaced as a whole because of its key. */
  predicate Replaced(r: Rules, p: Place, v: Json) {
    match p.mode
    case Audit => IsSensitiveKey(r, p.key) && v.JStr?
    case Tool(keys) => (IsSensitiveKey(r, p.key) || p.key in keys) && !IsPrimitive(v)
  }

  /** The place of a child: an `arguments` object switches to the argument rules, list items have no key. */
  function Inner(p: Place, v: Json, st: Step): Place {
    Place(
      if p.mode.Audit? && p.key == "arguments" && v.JObj? then Tool(SENSITIVE_ARGUMENT_KEYS) else p.mode,
      if st.Key? then st.name else "")
  }

  function PlaceAt(p: Place, v: Json, path: seq<Step>): Place
    requires At(v, path).Some?
    decreases |path|
  {
    if path == [] then p else PlaceAt(Inner(p, v, path[0]), Child(v, path[0]).value, path[1..])
  }

  /** Some value above the path's end is replaced as a whole. */
  predicate Hidden(r: Rules, p: Place, v: Json, path: seq<Step>)
    requires At(v, path).Some?
    decreases |path|
  {
    path != [] &&
    (Replaced(r, p, v) || Hidden(r, Inner(p, v, path[0]), Child(v, path[0]).value, path[1..]))
  }

  // ---------------------------------------------------------------- redaction, place by place

  /** What happens to one value, children aside: it is replaced, or it keeps its kind, its keys or its
      length; a string is scrubbed and bounded, a primitive untouched. */
  lemma RedactNode(r: Rules, p: Place, v: Json)
    ensures var w := Redact(r, p, v);
            if Replaced(r, p, v) then w == JStr(REDACTED)
            else
              match v
              case JObj(o) => w.JObj? && w.fields.Keys == o.Keys
              case JArr(items) => w.JArr? && |w.items| == |items|
              case JStr(s) => w == JStr(Bounded(r.scrub(s))) && |w.s| <= MAX_AUDIT_STRING_LENGTH + |TRUNCATED|
              case _ => w == v
  {
  }

  lemma RedactChild(r: Rules, p: Place, v: Json, st: Step)
    ensures Child(Redact(r, p, v), st) ==
            if Replaced(r, p, v) || Child(v, st).None? then None
            else Some(Redact(r, Inner(p, v, st), Child(v, st).value))
  {
    RedactNode(r, p, v);
  }

  /** The redacted tree has a value exactly at the places of the original that are not hidden, and there it
      is the redaction of the original value by the rules of that place. */
  lemma {:induction false} RedactAt(r: Rules, p: Place, v: Json, path: seq<Step>)
    ensures At(Redact(r, p, v), path) ==
            if At(v, path).None? || Hidden(r, p, v, path) then None
            else Some(Redact(r, PlaceAt(p, v, path), At(v, path).value))
    decreases |path|
  {
    if path != [] {
      RedactChild(r, p, v, path[0]);
      if Child(v, path[0]).Some? {
        RedactAt(r, Inner(p, v, path[0]), Child(v, path[0]).value, path[1..]);
      }
    }
  }

  lemma {:induction false} PlaceOfLast(p: Place, v: Json, path: seq<Step>, st: Step)
    requires At(v, path + [st]).Some?
    ensures At(v, path).Some? && PlaceAt(p, v, path + [st]).key == if st.Key? then st.name else ""
    ensures PlaceAt(p, v, path + [st]) == Inner(PlaceAt(p, v, path), At(v, path).value, st)
    decreases |path|
  {
    if path == [] {
      assert path + [st] == [st] && [st][1..] == [];
    } else {
      assert (path + [st])[1..] == path[1..] + [st];
      PlaceOfLast(Inner(p, v, path[0]), Child(v, path[0]).value, path[1..], st);
    }
  }

  /** Wherever a string sat directly under a sensitive key, under any rules, the output shows `[redacted]`
      or nothing. */
  lemma SensitiveStringsAreRedacted(r: Rules, p: Place, v: Json, path: seq<Step>, key: string)
    requires IsSensitiveKey(r, key)
    requires At(v, path + [Key(key)]).Some? && At(v, path + [Key(key)]).value.JStr?
    ensures At(Redact(r, p, v), path + [Key(key)]) in {None, Some(JStr(REDACTED))}
  {
    RedactAt(r, p, v, path + [Key(key)]);
    PlaceOfLast(p, v, path, Key(key));
  }

  lemma {:induction false} ToolRulesStay(p: Place, v: Json, path: seq<Step>)
    requires p.mode.Tool? && At(v, path).Some?
    ensures PlaceAt(p, v, path).mode == p.mode
    decreases |path|
  {
    if path != [] {
      ToolRulesStay(Inner(p, v, path[0]), Child(v, path[0]).value, path[1..]);
    }
  }

  lemma {:induction false} PlaceThrough(p: Place, v: Json, a: seq<Step>, b: seq<Step>)
    requires At(v, a + b).Some?
    ensures At(v, a).Some? && At(At(v, a).value, b) == At(v, a + b)
    ensures PlaceAt(p, v, a + b) == PlaceAt(PlaceAt(p, v, a), At(v, a).value, b)
    decreases |a|
  {
    if a == [] {
      assert a + b == b;
    } else {
      assert (a + b)[1..] == a[1..] + b;
      PlaceThrough(Inner(p, v, a[0]), Child(v, a[0]).value, a[1..], b);
    }
  }

  /** At every depth inside an `arguments` object that the audit rules reach, a value that is not a
      primitive and sits under `command`, `content`, `new` or `old` (or a sensitive key) shows as
      `[redacted]` or not at all. */
  lemma ArgumentsAreRedacted(r: Rules, p: Place, v: Json, path: seq<Step>, below: seq<Step>, key: string)
    requires At(v, path + (below + [Key(key)])).Some?
    requires !IsPrimitive(At(v, path + (below + [Key(key)])).value)
    requires At(v, path).Some? && At(v, path).value.JObj? && PlaceAt(p, v, path) == Place(Audit, "arguments")
    requires key in {"command", "content", "new", "old"} || IsSensitiveKey(r, key)
    ensures At(Redact(r, p, v), path + (below + [Key(key)])) in {None, Some(JStr(REDACTED))}
  {
    var full, rest := path + (below + [Key(key)]), below + [Key(key)];
    RedactAt(r, p, v, full);
    PlaceThrough(p, v, path, rest);
    var args, at := At(v, path).value, PlaceAt(p, v, path);
    assert Inner(at, args, rest[0]).mode == Tool(SENSITIVE_ARGUMENT_KEYS);
    ToolRulesStay(Inner(at, args, rest[0]), Child(args, rest[0]).value, rest[1..]);
    PlaceOfLast(at, args, below, Key(key));
  }

  /** A payload is redacted field by field: an object under `result` by the result rules, which apply to
      everything below it, and any other field by the audit rules. */
  lemma PayloadAt(r: Rules, payload: Fields, k: string, path: seq<Step>)
    requires k in payload && path != [] && path[0].Key?
    ensures RedactAuditPayload(r, payload).Keys == payload.Keys
    ensures k == "result" && payload[k].JObj? && path[0].name in payload[k].fields ==>
              At(RedactAuditPayload(r, payload)[k], path) ==
              At(Redact(r, Place(Tool(SENSITIVE_RESULT_KEYS), path[0].name), payload[k].fields[path[0].name]),
                 path[1..])
    ensures !(k == "result" && payload[k].JObj?) ==>
              RedactAuditPayload(r, payload)[k] == Redact(r, Place(Audit, k), payload[k])
  {
  }

  /** At every depth inside an object under `result`, a value that is not a primitive and sits under
      `content`, `stderr`, `stdout` or `text` (or a sensitive key) shows as `[redacted]` or not at all. */
  lemma ResultsAreRedacted(r: Rules, payload: Fields, path: seq<Step>, key: string)
    requires "result" in payload && payload["result"].JObj?
    requires At(payload["result"], path + [Key(key)]).Some?
    requires !IsPrimitive(At(payload["result"], path + [Key(key)]).value)
    requires key in {"content", "stderr", "stdout", "text"} || IsSensitiveKey(r, key)
    ensures At(RedactAuditPayload(r, payload)["result"], path + [Key(key)]) in {None, Some(JStr(REDACTED))}
  {
    var full := path + [Key(key)];
    var child := Child(payload["result"], full[0]).value;
    var p := Place(Tool(SENSITIVE_RESULT_KEYS), full[0].name);
    PayloadAt(r, payload, "result", full);
    RedactAt(r, p, child, full[1..]);
    if path != [] {
      assert full[1..] == path[1..] + [Key(key)];
      PlaceOfLast(p, child, path[1..], Key(key));
      ToolRulesStay(p, child, full[1..]);
    }
  }

  // ---------------------------------------------------------------- what redaction leaves alone

  /** The key a step goes by; a list item has none. */
  function KeyOf(st: Step): string {
    if st.Key? then st.name else ""
  }

  /** What a leaf shows if nothing hides or replaces it: a string scrubbed, and cut after 20,000 characters with
      a marker behind them; any other value as it is. */
  predicate ShownAs(r: Rules, leaf: Json, shown: Option<Json>) {
    shown == Some(
      if leaf.JStr? then
        var t := r.scrub(leaf.s);
        JStr(if |t| <= 20000 then t else t[..20000] + "[truncated]")
      else leaf)
  }

  predicate IsLeaf(v: Json) {
    v.JNull? || v.JBool? || v.JNum? || v.JStr?
  }

  predicate IsSpared(r: Rules, keys: set<string>, key: string) {
    !IsSensitiveKey(r, key) && key !in keys
  }

  /** No key on the way down to the leaf is sensitive or in the set; the leaf's own key counts for a string only. */
  predicate Spared(r: Rules, keys: set<string>, path: seq<Step>, leaf: Json) {
    forall i | 0 <= i < |path| && (i < |path| - 1 || leaf.JStr?) :: IsSpared(r, keys, KeyOf(path[i]))
  }

  lemma SparedBelow(r: Rules, keys: set<string>, path: seq<Step>, leaf: Json)
    requires Spared(r, keys, path, leaf) && path != []
    ensures Spared(r, keys, path[1..], leaf)
    ensures |path| > 1 || leaf.JStr? ==> IsSpared(r, keys, KeyOf(path[0]))
  {
    hide IsSpared;
    forall i | 0 <= i < |path| - 1 && (i < |path| - 2 || leaf.JStr?) ensures IsSpared(r, keys, KeyOf(path[1..][i])) {
      assert path[1..][i] == path[i + 1];
    }
  }

  /** Under tool rules a leaf shows if no key down to it is sensitive or in the key set. */
  lemma {:induction false} ToolLeafShows(r: Rules, keys: set<string>, key: string, v: Json, path: seq<Step>)
    requires At(v, path).Some? && IsLeaf(At(v, path).value) && Spared(r, keys, path, At(v, path).value)
    requires path != [] || At(v, path).value.JStr? ==> IsSpared(r, keys, key)
    ensures ShownAs(r, At(v, path).value, At(Redact(r, Place(Tool(keys), key), v), path))
    decreases |path|
  {
    hide IsSensitiveKey;
    var p := Place(Tool(keys), key);
    if path != [] {
      RedactChild(r, p, v, path[0]);
      assert Inner(p, v, path[0]) == Place(Tool(keys), KeyOf(path[0]));
      SparedBelow(r, keys, path, At(v, path).value);
      ToolLeafShows(r, keys, KeyOf(path[0]), Child(v, path[0]).value, path[1..]);
    }
  }

  /** The key a value is reached by: the payload's, or that of the last step. */
  function LastKey(key: string, path: seq<Step>): string {
    if path == [] then key else KeyOf(path[|path| - 1])
  }

  /** Nothing on the way is reached by `arguments`. */
  predicate NoArguments(key: string, path: seq<Step>) {
    (path != [] ==> key != "arguments") && forall i | 0 <= i < |path| - 1 :: KeyOf(path[i]) != "arguments"
  }

  /** Under the audit rules a leaf outside of `arguments` shows unless it is a string directly under a sensitive
      key, however sensitive the keys further up are. */
  lemma {:induction false} AuditLeafShows(r: Rules, key: string, v: Json, path: seq<Step>)
    requires At(v, path).Some? && IsLeaf(At(v, path).value) && NoArguments(key, path)
    requires At(v, path).value.JStr? ==> !IsSensitiveKey(r, LastKey(key, path))
    ensures ShownAs(r, At(v, path).value, At(Redact(r, Place(Audit, key), v), path))
    decreases |path|
  {
    hide IsSensitiveKey;
    var p := Place(Audit, key);
    if path != [] {
      RedactChild(r, p, v, path[0]);
      assert Inner(p, v, path[0]) == Place(Audit, KeyOf(path[0]));
      assert NoArguments(KeyOf(path[0]), path[1..]) by {
        assert |path| > 1 ==> KeyOf(path[0]) != "arguments";
        forall i | 0 <= i < |path| - 2 ensures KeyOf(path[1..][i]) != "arguments" {
          assert path[1..][i] == path[i + 1];
        }
      }
      AuditLeafShows(r, KeyOf(path[0]), Child(v, path[0]).value, path[1..]);
    }
  }

  /** A payload keeps its harmless leaves: one outside of an object under `result`, and of `arguments`, unless it
      is a string directly under a sensitive key, and one inside of `result` if no key from there down is sensitive
      or one of those that hide tool output (its own key counts for a string only). */
  lemma HarmlessLeavesShow(r: Rules, payload: Fields, k: string, path: seq<Step>)
    requires k in payload && At(payload[k], path).Some? && IsLeaf(At(payload[k], path).value)
    requires if k == "result" && payload[k].JObj?
             then Spared(r, {"content", "stderr", "stdout", "text"}, path, At(payload[k], path).value)
             else NoArguments(k, path) && (At(payload[k], path).value.JStr? ==> !IsSensitiveKey(r, LastKey(k, path)))
    ensures k in RedactAuditPayload(r, payload)
    ensures ShownAs(r, At(payload[k], path).value, At(RedactAuditPayload(r, payload)[k], path))
  {
    hide IsSensitiveKey, ShownAs;
    if k == "result" && payload[k].JObj? {
      PayloadAt(r, payload, k, path);
      SparedBelow(r, SENSITIVE_RESULT_KEYS, path, At(payload[k], path).value);
      ToolLeafShows(r, SENSITIVE_RESULT_KEYS, KeyOf(path[0]), payload[k].fields[path[0].name], path[1..]);
    } else {
      AuditLeafShows(r, k, payload[k], path);
    }
  }

  /** The same inside an `arguments` object that the audit rules reach at `path`. */
  lemma {:induction false} HarmlessArgumentsShow(r: Rules, key: string, v: Json, path: seq<Step>, below: seq<Step>)
    requires At(v, path + below).Some? && IsLeaf(At(v, path + below).value) && below != []
    requires At(v, path).Some? && At(v, path).value.JObj?
    requires NoArguments(key, path) && LastKey(key, path) == "arguments"
    requires Spared(r, {"command", "content", "new", "old"}, below, At(v, path + below).value)
    ensures ShownAs(r, At(v, path + below).value, At(Redact(r, Place(Audit, key), v), path + below))
    decreases |path|
  {
    hide IsSensitiveKey, ShownAs;
    var p, full := Place(Audit, key), path + below;
    RedactChild(r, p, v, full[0]);
    if path == [] {
      assert full == below;
      SparedBelow(r, SENSITIVE_ARGUMENT_KEYS, below, At(v, full).value);
      ToolLeafShows(r, SENSITIVE_ARGUMENT_KEYS, KeyOf(below[0]), Child(v, below[0]).value, below[1..]);
    } else {
      assert full[1..] == path[1..] + below && full[0] == path[0];
      assert NoArguments(KeyOf(path[0]), path[1..]) by {
        assert |path| > 1 ==> KeyOf(path[0]) != "arguments";
        forall i | 0 <= i < |path| - 2 ensures KeyOf(path[1..][i]) != "arguments" {
          assert path[1..][i] == path[i + 1];
        }
      }
      HarmlessArgumentsShow(r, KeyOf(path[0]), Child(v, path[0]).value, path[1..], below);
    }
  }

  // ---------------------------------------------------------------- redacting twice

  ghost predicate ScrubsOnce(r: Rules) {
    forall s :: r.scrub(r.scrub(s)) == r.scrub(s)
  }

  /** No string in the tree is long enough to be cut. */
  ghost predicate NoneTruncated(r: Rules, v: Json) {
    forall path: seq<Step> | At(v, path).Some? && At(v, path).value.JStr? ::
      |r.scrub(At(v, path).value.s)| <= MAX_AUDIT_STRING_LENGTH
  }

  lemma NoneTruncatedBelow(r: Rules, v: Json, st: Step)
    requires NoneTruncated(r, v) && Child(v, st).Some?
    ensures NoneTruncated(r, Child(v, st).value)
  {
    var c := Child(v, st).value;
    forall path: seq<Step> | At(c, path).Some? && At(c, path).value.JStr?
      ensures |r.scrub(At(c, path).value.s)| <= MAX_AUDIT_STRING_LENGTH
    {
      assert ([st] + path)[1..] == path;
      assert At(v, [st] + path) == At(c, path);
    }
  }

  /** Redaction is idempotent if string scrubbing is and nothing is truncated. */
  lemma {:induction false} RedactTwice(r: Rules, p: Place, v: Json)
    requires ScrubsOnce(r) && NoneTruncated(r, v)
    ensures Redact(r, p, Redact(r, p, v)) == Redact(r, p, v)
    decreases v
  {
    var w := Redact(r, p, v);
    RedactNode(r, p, v);
    RedactNode(r, p, w);
    if !Replaced(r, p, v) {
      match v
      case JObj(o) =>
        forall k | k in o ensures Redact(r, p, w).fields[k] == w.fields[k] {
          NoneTruncatedBelow(r, v, Key(k));
          RedactChild(r, p, v, Key(k));
          RedactChild(r, p, w, Key(k));
          RedactTwice(r, Inner(p, v, Key(k)), o[k]);
        }
      case JArr(items) =>
        forall i: nat | i < |items| ensures Redact(r, p, w).items[i] == w.items[i] {
          NoneTruncatedBelow(r, v, Index(i));
          RedactChild(r, p, v, Index(i));
          RedactChild(r, p, w, Index(i));
          RedactTwice(r, Inner(p, v, Index(i)), items[i]);
        }
      case JStr(s) =>
        assert At(v, []) == Some(v);
      case _ =>
    }
  }
}
