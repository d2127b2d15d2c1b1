/** Replay verification of the hash-chained audit log (teaagent/audit_chain.py). */
module AuditChain {
  import opened Json

  const GENESIS := "genesis"

  /** The bytes of a per-run secret. */
  type Key = seq<int>

  /** One line of the log after JSON parsing, once white space around the whole text is stripped; None is a
      line that is not JSON, a blank one among them. */
  type Line = Option<Json>

  /** The six hashed fields, in place of their canonical JSON text. */
  datatype Content = Content(
    eventId: Json, eventType: Json, runId: Json, createdAt: Json, payload: Json, prevHash: Json)

  /** What the timestamp parser makes of a value. It raises on a number that is no date, 1e20 or NaN say. */
  datatype TimeReading = NotATime | AtTime(time: int) | TimeRaises

  /** The foreign functions: the digest of canonical content, the HMAC, and the timestamp parser. */
  datatype Crypto = Crypto(
    digest: Content -> string,
    mac: (string, Key) -> string,
    readTime: Json -> TimeReading)

  /** A collision-free digest that never prints the genesis sentinel. */
  ghost predicate Ideal(c: Crypto) {
    && (forall x, y {:trigger c.digest(x), c.digest(y)} :: c.digest(x) == c.digest(y) ==> x == y)
    && (forall x {:trigger c.digest(x)} :: c.digest(x) != GENESIS)
  }

  datatype Config = Config(crypto: Crypto, key: Option<Key>, strict: bool, allowLegacyReset: bool)

  predicate RejectsLegacy(cfg: Config) {
    cfg.strict && !cfg.allowLegacyReset
  }

  // ---------------------------------------------------------------- one event

  predicate IsLegacy(o: Fields) {
    "prev_hash" !in o || "hash" !in o
  }

  predicate HasContent(o: Fields) {
    && "event_id" in o && "event_type" in o && "run_id" in o
    && "created_at" in o && "payload" in o && "prev_hash" in o
  }

  function ContentOf(o: Fields): Content
    requires HasContent(o)
  {
    Content(o["event_id"], o["event_type"], o["run_id"], o["created_at"], o["payload"], o["prev_hash"])
  }

  /** None stands for the KeyError of an object that lacks one of the six fields. */
  function ComputeEventHash(c: Crypto, o: Fields): Option<string> {
    if HasContent(o) then Some(c.digest(ContentOf(o))) else None
  }

  datatype Category =
    | JsonParseError | MissingFields | PrevHashMismatch | HashMismatch | HmacMismatch | TimestampRegression

  datatype Failure = Failure(lineNumber: nat, eventNumber: nat, category: Category)

  /** Raises stands for the AttributeError of signing a stored hash that is not a string. */
  datatype Single = Single(next: Option<Json>, found: seq<Category>) | Raises

  /** The anchor `_verify_single_event` hands on; JSON null and Python's None are one value. */
  function NextAnchor(stored: Json): Option<Json> {
    if stored == JNull then None else Some(stored)
  }

  function VerifySingleEvent(cfg: Config, o: Fields, prev: Json): Single {
    if IsLegacy(o) then
      if RejectsLegacy(cfg) then Single(None, [MissingFields]) else Single(Some(JStr(GENESIS)), [])
    else
      var link := if o["prev_hash"] != prev then [PrevHashMismatch] else [];
      match ComputeEventHash(cfg.crypto, o)
      case None => Single(None, link + [MissingFields])
      case Some(expected) =>
        var stored := o["hash"];
        var body := link + if stored != JStr(expected) then [HashMismatch] else [];
        if cfg.key.None? || "chain_hmac" !in o then Single(NextAnchor(stored), body)
        else if !stored.JStr? then Raises
        else if o["chain_hmac"] != JStr(cfg.crypto.mac(stored.s, cfg.key.value)) then
          Single(NextAnchor(stored), body + [HmacMismatch])
        else Single(NextAnchor(stored), body)
  }

  /** The anchor after a line: the stored hash, or a hash recomputed over the running anchor. */
  function Advance(cfg: Config, o: Fields, prev: Json, next: Option<Json>): Json {
    if next.Some? then next.value
    else
      match ComputeEventHash(cfg.crypto, o["prev_hash" := prev])
      case Some(h) => JStr(h)
      case None => prev
  }

  /** The verifier reads a timestamp only if it is present and not null. */
  function ReadTime(c: Crypto, o: Fields): TimeReading {
    if Get(o, "created_at") == JNull then NotATime else c.readTime(o["created_at"])
  }

  function TimeOf(c: Crypto, o: Fields): Option<int> {
    match ReadTime(c, o) case AtTime(t) => Some(t) case _ => None
  }

  predicate Regresses(now: Option<int>, last: Option<int>) {
    now.Some? && last.Some? && now.value < last.value
  }

  // ---------------------------------------------------------------- the replay as a fold

  datatype Scan = Scan(prev: Json, last: Option<int>, failures: seq<Failure>)

  /** Halted: a line was not JSON and the loop returned early. Crashed: an exception escaped. */
  datatype Progress = Going(scan: Scan) | Halted(failures: seq<Failure>, count: nat) | Crashed

  function Annotate(found: seq<Category>, number: nat): seq<Failure> {
    if found == [] then []
    else Annotate(found[..|found| - 1], number) + [Failure(number, number, found[|found| - 1])]
  }

  /** The categories one object adds, in the order the loop appends them. */
  function Found(cfg: Config, single: Single, last: Option<int>, o: Fields): seq<Category>
    requires single.Single?
  {
    single.found + if Regresses(TimeOf(cfg.crypto, o), last) then [TimestampRegression] else []
  }

  function StepLine(cfg: Config, s: Scan, line: Line, i: nat): Progress {
    match line
    case None => Halted(s.failures + [Failure(i + 1, i, JsonParseError)], i + 1)
    case Some(j) =>
      if !j.JObj? then Crashed
      else
        var o := j.fields;
        var single := VerifySingleEvent(cfg, o, s.prev);
        if single.Raises? || ReadTime(cfg.crypto, o).TimeRaises? then Crashed
        else
          var now := TimeOf(cfg.crypto, o);
          Going(Scan(
                  Advance(cfg, o, s.prev, single.next),
                  if now.Some? then now else s.last,
                  s.failures + Annotate(Found(cfg, single, s.last, o), i + 1)))
  }

  const START := Scan(JStr(GENESIS), None, [])

  function Replay(cfg: Config, lines: seq<Line>): Progress {
    if lines == [] then Going(START)
    else
      var n := |lines| - 1;
      match Replay(cfg, lines[..n])
      case Going(s) => StepLine(cfg, s, lines[n], n)
      case stopped => stopped
  }

  function Count(failures: seq<Failure>, c: Category): nat {
    if failures == [] then 0
    else Count(failures[..|failures| - 1], c) + if failures[|failures| - 1].category == c then 1 else 0
  }

  predicate LegacyLine(line: Line) {
    line.Some? && line.value.JObj? && IsLegacy(line.value.fields)
  }

  predicate AllObjects(lines: seq<Line>) {
    forall i | 0 <= i < |lines| :: lines[i].Some? && lines[i].value.JObj?
  }

  function LegacyLines(lines: seq<Line>): nat {
    if lines == [] then 0
    else LegacyLines(lines[..|lines| - 1]) + if LegacyLine(lines[|lines| - 1]) then 1 else 0
  }

  // ---------------------------------------------------------------- what acceptance means

  predicate Sealed(c: Crypto, o: Fields) {
    HasContent(o) && "hash" in o && o["hash"] == JStr(c.digest(ContentOf(o)))
  }

  predicate Signed(cfg: Config, o: Fields) {
    cfg.key.Some? && "chain_hmac" in o && "hash" in o && o["hash"].JStr? ==>
      o["chain_hmac"] == JStr(cfg.crypto.mac(o["hash"].s, cfg.key.value))
  }

  /** The anchor in front of line i: genesis at the start and after a legacy line, else the hash before. */
  function Anchor(lines: seq<Line>, i: nat): Json
    requires i <= |lines|
  {
    if i == 0 || lines[i - 1].None? || !lines[i - 1].value.JObj? || IsLegacy(lines[i - 1].value.fields)
    then JStr(GENESIS)
    else lines[i - 1].value.fields["hash"]
  }

  predicate Chained(cfg: Config, line: Line, anchor: Json) {
    && line.Some? && line.value.JObj?
    && Sealed(cfg.crypto, line.value.fields)
    && line.value.fields["prev_hash"] == anchor
    && Signed(cfg, line.value.fields)
  }

  predicate LineOk(cfg: Config, lines: seq<Line>, i: nat)
    requires i < |lines|
  {
    if LegacyLine(lines[i]) then !RejectsLegacy(cfg) else Chained(cfg, lines[i], Anchor(lines, i))
  }

  function LineTime(c: Crypto, line: Line): Option<int> {
    if line.Some? && line.value.JObj? then TimeOf(c, line.value.fields) else None
  }

  /** Reading the line's timestamp does not raise. */
  predicate TimeReads(c: Crypto, line: Line) {
    line.Some? && line.value.JObj? ==> !ReadTime(c, line.value.fields).TimeRaises?
  }

  /** No timestamp raises, and the readable ones never decrease, whatever lies between them. */
  ghost predicate TimesSorted(c: Crypto, lines: seq<Line>) {
    && (forall i | 0 <= i < |lines| :: TimeReads(c, lines[i]))
    && forall i, j | 0 <= i < j < |lines| && LineTime(c, lines[i]).Some? && LineTime(c, lines[j]).Some? ::
      LineTime(c, lines[i]).value <= LineTime(c, lines[j]).value
  }

  ghost predicate Accepted(cfg: Config, lines: seq<Line>) {
    && (forall i | 0 <= i < |lines| :: LineOk(cfg, lines, i))
    && TimesSorted(cfg.crypto, lines)
  }

  /** A chain that starts at the given anchor, read from its first line on. */
  predicate IsChain(cfg: Config, lines: seq<Line>, anchor: Json) {
    lines == [] ||
    (Chained(cfg, lines[0], anchor) && IsChain(cfg, lines[1..], lines[0].value.fields["hash"]))
  }

  ghost predicate Clean(p: Progress) {
    p.Going? && p.scan.failures == []
  }

  // ---------------------------------------------------------------- the replay decides acceptance

  function LastTime(c: Crypto, lines: seq<Line>): Option<int> {
    if lines == [] then None
    else if LineTime(c, lines[|lines| - 1]).Some? then LineTime(c, lines[|lines| - 1])
    else LastTime(c, lines[..|lines| - 1])
  }

  lemma {:induction false} LastTimeIsLatest(c: Crypto, lines: seq<Line>)
    requires TimesSorted(c, lines)
    ensures LastTime(c, lines).None? ==> forall i | 0 <= i < |lines| :: LineTime(c, lines[i]).None?
    ensures LastTime(c, lines).Some? ==>
              && (exists i | 0 <= i < |lines| :: LineTime(c, lines[i]) == LastTime(c, lines))
              && (forall i | 0 <= i < |lines| && LineTime(c, lines[i]).Some? ::
                    LineTime(c, lines[i]).value <= LastTime(c, lines).value)
  {
    if lines != [] {
      LastTimeIsLatest(c, lines[..|lines| - 1]);
    }
  }

  lemma SortedSnoc(c: Crypto, lines: seq<Line>, line: Line)
    requires TimesSorted(c, lines)
    ensures TimesSorted(c, lines + [line]) <==>
              TimeReads(c, line) && !Regresses(LineTime(c, line), LastTime(c, lines))
  {
    LastTimeIsLatest(c, lines);
    var all := lines + [line];
    assert all[|lines|] == line;
    if TimesSorted(c, all) && LastTime(c, lines).Some? {
      var i :| 0 <= i < |lines| && LineTime(c, lines[i]) == LastTime(c, lines);
      assert all[i] == lines[i] && all[|lines|] == line;
    }
  }

  /** One line in terms of the acceptance conditions, and the state after a clean one. */
  lemma StepIsClean(cfg: Config, s: Scan, line: Line, i: nat)
    ensures Clean(StepLine(cfg, s, line, i)) <==>
              && s.failures == []
              && (if LegacyLine(line) then !RejectsLegacy(cfg) else Chained(cfg, line, s.prev))
              && TimeReads(cfg.crypto, line) && !Regresses(LineTime(cfg.crypto, line), s.last)
    ensures Clean(StepLine(cfg, s, line, i)) ==>
              && StepLine(cfg, s, line, i).scan.prev == Anchor([line], 1)
              && StepLine(cfg, s, line, i).scan.last ==
                 if LineTime(cfg.crypto, line).Some? then LineTime(cfg.crypto, line) else s.last
  {
  }

  lemma TimesSortedSnoc(c: Crypto, lines: seq<Line>, line: Line)
    ensures TimesSorted(c, lines + [line]) <==>
              TimesSorted(c, lines) && TimeReads(c, line) && !Regresses(LineTime(c, line), LastTime(c, lines))
  {
    var all := lines + [line];
    if TimesSorted(c, all) {
      forall i | 0 <= i < |lines| ensures TimeReads(c, lines[i]) {
        assert all[i] == lines[i];
      }
      forall i, j | 0 <= i < j < |lines| && LineTime(c, lines[i]).Some? && LineTime(c, lines[j]).Some?
        ensures LineTime(c, lines[i]).value <= LineTime(c, lines[j]).value
      {
        assert all[i] == lines[i] && all[j] == lines[j];
      }
    }
    if TimesSorted(c, lines) {
      SortedSnoc(c, lines, line);
    }
  }

  lemma LineOkSnoc(cfg: Config, lines: seq<Line>, line: Line, i: nat)
    requires i < |lines|
    ensures LineOk(cfg, lines + [line], i) <==> LineOk(cfg, lines, i)
  {
    assert (lines + [line])[i] == lines[i];
    assert Anchor(lines + [line], i) == Anchor(lines, i);
  }

  lemma AcceptedSnoc(cfg: Config, lines: seq<Line>, line: Line)
    ensures Accepted(cfg, lines + [line]) <==>
              && Accepted(cfg, lines)
              && LineOk(cfg, lines + [line], |lines|)
              && TimeReads(cfg.crypto, line) && !Regresses(LineTime(cfg.crypto, line), LastTime(cfg.crypto, lines))
  {
    hide LineOk, TimesSorted, Regresses, LastTime, TimeReads;
    forall i: nat | i < |lines| ensures LineOk(cfg, lines + [line], i) <==> LineOk(cfg, lines, i) {
      LineOkSnoc(cfg, lines, line, i);
    }
    TimesSortedSnoc(cfg.crypto, lines, line);
  }

  /** The replay finishes without a failure exactly on the accepted logs, and then holds their tip. */
  lemma {:induction false} ReplayDecides(cfg: Config, lines: seq<Line>)
    ensures Clean(Replay(cfg, lines)) <==> Accepted(cfg, lines)
    ensures Accepted(cfg, lines) ==>
              Replay(cfg, lines).scan == Scan(Anchor(lines, |lines|), LastTime(cfg.crypto, lines), [])
    ensures Replay(cfg, lines).Halted? ==> Replay(cfg, lines).failures != []
  {
    if lines != [] {
      var n := |lines| - 1;
      ReplayDecides(cfg, lines[..n]);
      assert lines == lines[..n] + [lines[n]];
      AcceptedSnoc(cfg, lines[..n], lines[n]);
      assert Anchor(lines, n) == Anchor(lines[..n], n);
      if Replay(cfg, lines[..n]).Going? {
        StepIsClean(cfg, Replay(cfg, lines[..n]).scan, lines[n], n);
      }
    }
  }

  // ---------------------------------------------------------------- when the verifier raises

  /** The line is JSON, but not an object, or it carries a signature over a hash that is no string, or a
      number that is no timestamp. */
  predicate RaisesOn(cfg: Config, line: Line) {
    && line.Some?
    && (line.value.JObj? ==>
          var o := line.value.fields;
          || ReadTime(cfg.crypto, o).TimeRaises?
          || (cfg.key.Some? && "chain_hmac" in o && HasContent(o) && "hash" in o && !o["hash"].JStr?))
  }

  /** Some line raises, and the loop gets to it: every line before it is JSON. */
  ghost predicate RaisesIn(cfg: Config, lines: seq<Line>) {
    exists i | 0 <= i < |lines| :: RaisesOn(cfg, lines[i]) && forall k | 0 <= k < i :: lines[k].Some?
  }

  /** The anchor, the clock and earlier failures have no say in whether a line raises. */
  lemma StepRaisesIff(cfg: Config, s: Scan, line: Line, i: nat)
    ensures StepLine(cfg, s, line, i).Crashed? <==> RaisesOn(cfg, line)
    ensures StepLine(cfg, s, line, i).Halted? <==> line.None?
  {
  }

  lemma RaisesSnoc(cfg: Config, lines: seq<Line>, line: Line)
    ensures RaisesIn(cfg, lines + [line]) <==>
              RaisesIn(cfg, lines) || (RaisesOn(cfg, line) && forall k | 0 <= k < |lines| :: lines[k].Some?)
  {
    hide RaisesOn;
    var all := lines + [line];
    assert all[|lines|] == line && forall k | 0 <= k < |lines| :: all[k] == lines[k];
  }

  lemma {:induction false} ReplayRaisesIff(cfg: Config, lines: seq<Line>)
    ensures Replay(cfg, lines).Crashed? <==> RaisesIn(cfg, lines)
    ensures Replay(cfg, lines).Going? ==> forall k | 0 <= k < |lines| :: lines[k].Some?
    ensures Replay(cfg, lines).Halted? ==> exists k | 0 <= k < |lines| :: lines[k].None?
  {
    if lines != [] {
      hide StepLine, RaisesOn, RaisesIn;
      var n := |lines| - 1;
      ReplayRaisesIff(cfg, lines[..n]);
      if Replay(cfg, lines[..n]).Going? {
        StepRaisesIff(cfg, Replay(cfg, lines[..n]).scan, lines[n], n);
      }
      assert lines == lines[..n] + [lines[n]];
      RaisesSnoc(cfg, lines[..n], lines[n]);
      assert forall k | 0 <= k < n :: lines[..n][k] == lines[k];
    }
  }

  // ---------------------------------------------------------------- a line that is not JSON

  /** The n-th line is the first that is not JSON, and no line before it raises. */
  ghost predicate FirstNotJson(cfg: Config, lines: seq<Line>, n: nat) {
    n < |lines| && lines[n].None? && forall k | 0 <= k < n :: lines[k].Some? && !RaisesOn(cfg, lines[k])
  }

  lemma {:induction false} GoesOn(cfg: Config, lines: seq<Line>)
    requires forall k | 0 <= k < |lines| :: lines[k].Some? && !RaisesOn(cfg, lines[k])
    ensures Replay(cfg, lines).Going?
  {
    if lines != [] {
      hide StepLine, RaisesOn;
      var n := |lines| - 1;
      GoesOn(cfg, lines[..n]);
      StepRaisesIff(cfg, Replay(cfg, lines[..n]).scan, lines[n], n);
    }
  }

  /** The replay keeps what it found before the first line that is not JSON, adds one failure for that line
      and looks at nothing behind it. */
  lemma StopsAtBadLine(cfg: Config, lines: seq<Line>, n: nat)
    requires FirstNotJson(cfg, lines, n)
    ensures Replay(cfg, lines[..n]).Going?
    ensures Replay(cfg, lines) == Halted(
              Replay(cfg, lines[..n]).scan.failures + [Failure(n + 1, n, JsonParseError)], n + 1)
  {
    GoesOn(cfg, lines[..n]);
    assert lines[..n + 1][..n] == lines[..n];
    StoppedStays(cfg, lines, n + 1);
  }

  // ---------------------------------------------------------------- the loop

  datatype Report = Report(
    valid: bool, eventCount: nat, failures: seq<Failure>,
    hashMismatches: nat, prevHashMismatches: nat, timestampRegressions: nat, legacyEvents: nat)

  /** Raised stands for an exception that leaves the verifier: a line that is JSON but not an object,
      a stored hash that cannot be signed, or a number that is no timestamp. */
  datatype Outcome = Returned(report: Report) | Raised

  lemma {:induction false} CountConcat(a: seq<Failure>, b: seq<Failure>, c: Category)
    ensures Count(a + b, c) == Count(a, c) + Count(b, c)
  {
    if b == [] {
      assert a + b == a;
    } else {
      assert (a + b)[..|a + b| - 1] == a + b[..|b| - 1];
      CountConcat(a, b[..|b| - 1], c);
    }
  }

  /** A stopped replay stays stopped. */
  lemma {:induction false} StoppedStays(cfg: Config, lines: seq<Line>, n: nat)
    requires n <= |lines| && !Replay(cfg, lines[..n]).Going?
    ensures Replay(cfg, lines) == Replay(cfg, lines[..n])
  {
    if n < |lines| {
      assert lines[..|lines| - 1][..n] == lines[..n];
      StoppedStays(cfg, lines[..|lines| - 1], n);
    } else {
      assert lines[..n] == lines;
    }
  }

  /** The three totals the report carries agree with the listed failures. */
  predicate TotalsAgree(failures: seq<Failure>, hashes: nat, links: nat, regressions: nat) {
    && hashes == Count(failures, HashMismatch)
    && links == Count(failures, PrevHashMismatch)
    && regressions == Count(failures, TimestampRegression)
  }

  lemma TotalsAdd(a: seq<Failure>, b: seq<Failure>, h: nat, l: nat, t: nat, h': nat, l': nat, t': nat)
    requires TotalsAgree(a, h, l, t) && TotalsAgree(b, h', l', t')
    ensures TotalsAgree(a + b, h + h', l + l', t + t')
  {
    CountConcat(a, b, HashMismatch);
    CountConcat(a, b, PrevHashMismatch);
    CountConcat(a, b, TimestampRegression);
  }

  lemma ReplayStep(cfg: Config, lines: seq<Line>, i: nat)
    requires i < |lines| && Replay(cfg, lines[..i]).Going?
    ensures Replay(cfg, lines[..i + 1]) == StepLine(cfg, Replay(cfg, lines[..i]).scan, lines[i], i)
    ensures !Replay(cfg, lines[..i + 1]).Going? ==> Replay(cfg, lines) == Replay(cfg, lines[..i + 1])
    ensures LegacyLines(lines[..i + 1]) == LegacyLines(lines[..i]) + if LegacyLine(lines[i]) then 1 else 0
  {
    assert lines[..i + 1][..i] == lines[..i];
    if !Replay(cfg, lines[..i + 1]).Going? {
      StoppedStays(cfg, lines, i + 1);
    }
  }

  /** Number one line's failures and count the three categories that have totals. */
  method Tally(found: seq<Category>, number: nat)
    returns (noted: seq<Failure>, hashes: nat, links: nat, regressions: nat)
    ensures noted == Annotate(found, number)
    ensures TotalsAgree(noted, hashes, links, regressions)
  {
    noted, hashes, links, regressions := [], 0, 0, 0;
    for k := 0 to |found|
      invariant noted == Annotate(found[..k], number)
      invariant TotalsAgree(noted, hashes, links, regressions)
    {
      var f := Failure(number, number, found[k]);
      assert found[..k + 1][..k] == found[..k];
      assert (noted + [f])[..|noted|] == noted;
      noted := noted + [f];
      if f.category == HashMismatch {
        hashes := hashes + 1;
      } else if f.category == PrevHashMismatch {
        links := links + 1;
      } else if f.category == TimestampRegression {
        regressions := regressions + 1;
      }
    }
    assert found[..|found|] == found;
  }

  /** The loop body for one parsed object; None if it raises. */
  method VerifyLine(cfg: Config, o: Fields, i: nat, s: Scan, hashes: nat, links: nat, regressions: nat)
    returns (next: Option<Scan>, hashes': nat, links': nat, regressions': nat)
    requires TotalsAgree(s.failures, hashes, links, regressions)
    ensures StepLine(cfg, s, Some(JObj(o)), i) == if next.Some? then Going(next.value) else Crashed
    ensures next.Some? ==> TotalsAgree(next.value.failures, hashes', links', regressions')
  {
    var single := VerifySingleEvent(cfg, o, s.prev);
    if single.Raises? || ReadTime(cfg.crypto, o).TimeRaises? {
      return None, hashes, links, regressions;
    }
    var noted, h, l, t := Tally(Found(cfg, single, s.last, o), i + 1);
    TotalsAdd(s.failures, noted, hashes, links, regressions, h, l, t);
    hashes', links', regressions' := hashes + h, links + l, regressions + t;
    var now := TimeOf(cfg.crypto, o);
    var last := if now.Some? then now else s.last;
    next := Some(Scan(Advance(cfg, o, s.prev, single.next), last, s.failures + noted));
  }

  /** A report that lists the failures of the replay, with agreeing totals. */
  predicate Reports(cfg: Config, lines: seq<Line>, r: Report) {
    && r.valid == (r.failures == [])
    && (match Replay(cfg, lines)
        case Going(s) => r.failures == s.failures && r.eventCount == |lines|
        case Halted(failures, count) => r.failures == failures && r.eventCount == count
        case Crashed => false)
    && TotalsAgree(r.failures, r.hashMismatches, r.prevHashMismatches, r.timestampRegressions)
    && r.eventCount <= |lines|
    && r.legacyEvents == LegacyLines(lines[..r.eventCount])
  }

  /** What a report holds when a line is not JSON: all that was reported for the lines before it, with their
      totals, and then that line, numbered n + 1 as a line and n as an event. Nothing behind it counts. */
  lemma BadLineReport(cfg: Config, lines: seq<Line>, n: nat, whole: Report, before: Report)
    requires FirstNotJson(cfg, lines, n)
    requires Reports(cfg, lines, whole) && Reports(cfg, lines[..n], before)
    ensures !whole.valid && whole.eventCount == n + 1
    ensures whole.failures == before.failures + [Failure(n + 1, n, JsonParseError)]
    ensures whole.hashMismatches == before.hashMismatches && whole.prevHashMismatches == before.prevHashMismatches
    ensures whole.timestampRegressions == before.timestampRegressions && whole.legacyEvents == before.legacyEvents
  {
    StopsAtBadLine(cfg, lines, n);
    var last := [Failure(n + 1, n, JsonParseError)];
    CountConcat(before.failures, last, HashMismatch);
    CountConcat(before.failures, last, PrevHashMismatch);
    CountConcat(before.failures, last, TimestampRegression);
    assert lines[..n][..n] == lines[..n] && lines[..n + 1][..n] == lines[..n];
  }

  function PlacesOf(failures: seq<Failure>, c: Category): set<int> {
    set i | 0 <= i < |failures| && failures[i].category == c
  }

  lemma PlacesSnoc(failures: seq<Failure>, f: Failure, c: Category)
    ensures PlacesOf(failures + [f], c) == PlacesOf(failures, c) + if f.category == c then {|failures|} else {}
  {
    var all := failures + [f];
    assert all[|failures|] == f && forall i | 0 <= i < |failures| :: all[i] == failures[i];
  }

  /** A total is the number of listed failures of its category. */
  lemma {:induction false} CountIsCardinality(failures: seq<Failure>, c: Category)
    ensures Count(failures, c) == |set i | 0 <= i < |failures| && failures[i].category == c|
  {
    assert PlacesOf(failures, c) == set i | 0 <= i < |failures| && failures[i].category == c;
    CountPlaces(failures, c);
  }

  lemma {:induction false} CountPlaces(failures: seq<Failure>, c: Category)
    ensures Count(failures, c) == |PlacesOf(failures, c)|
  {
    if failures == [] {
      assert PlacesOf(failures, c) == {};
    } else {
      hide PlacesOf;
      var n := |failures| - 1;
      assert failures == failures[..n] + [failures[n]];
      CountPlaces(failures[..n], c);
      PlacesSnoc(failures[..n], failures[n], c);
      NotAPlace(failures[..n], c, n);
    }
  }

  lemma NotAPlace(failures: seq<Failure>, c: Category, n: nat)
    requires n >= |failures|
    ensures n !in PlacesOf(failures, c)
  {
  }

  function LegacyPlaces(lines: seq<Line>): set<int> {
    set i | 0 <= i < |lines| && lines[i].Some? && lines[i].value.JObj? &&
            ("prev_hash" !in lines[i].value.fields || "hash" !in lines[i].value.fields)
  }

  lemma LegacySnoc(lines: seq<Line>, line: Line)
    ensures LegacyPlaces(lines + [line]) == LegacyPlaces(lines) + if LegacyLine(line) then {|lines|} else {}
    ensures |lines| !in LegacyPlaces(lines)
  {
    var all := lines + [line];
    assert all[|lines|] == line && forall i | 0 <= i < |lines| :: all[i] == lines[i];
  }

  /** The legacy total is the number of objects among the lines that lack `prev_hash` or `hash`. */
  lemma {:induction false} LegacyIsCardinality(lines: seq<Line>)
    ensures LegacyLines(lines) == |LegacyPlaces(lines)|
  {
    if lines == [] {
      assert LegacyPlaces(lines) == {};
    } else {
      hide LegacyPlaces, LegacyLine;
      var n := |lines| - 1;
      assert lines == lines[..n] + [lines[n]];
      LegacyIsCardinality(lines[..n]);
      LegacySnoc(lines[..n], lines[n]);
    }
  }

  /** The verifier's loop over the parsed lines. */
  method ReplayLoop(cfg: Config, lines: seq<Line>) returns (out: Outcome)
    ensures out.Raised? <==> Replay(cfg, lines).Crashed?
    ensures out.Returned? ==> Reports(cfg, lines, out.report)
  {
    var prev: Json := JStr(GENESIS);
    var last: Option<int> := None;
    var failures: seq<Failure> := [];
    var eventIdx := 0;
    var hashes, links, regressions, legacy := 0, 0, 0, 0;
    for i := 0 to |lines|
      invariant eventIdx == i
      invariant Replay(cfg, lines[..i]) == Going(Scan(prev, last, failures))
      invariant TotalsAgree(failures, hashes, links, regressions)
      invariant legacy == LegacyLines(lines[..i])
    {
      ReplayStep(cfg, lines, i);
      if lines[i].None? {
        var f := Failure(i + 1, eventIdx, JsonParseError);
        TotalsAdd(failures, [f], hashes, links, regressions, 0, 0, 0);
        failures := failures + [f];
        eventIdx := eventIdx + 1;
        return Returned(Report(false, eventIdx, failures, hashes, links, regressions, legacy));
      }
      if !lines[i].value.JObj? {
        return Raised;
      }
      var o := lines[i].value.fields;
      eventIdx := eventIdx + 1;
      var next, h, l, t := VerifyLine(cfg, o, i, Scan(prev, last, failures), hashes, links, regressions);
      if next.None? {
        return Raised;
      }
      hashes, links, regressions := h, l, t;
      if IsLegacy(o) {
        legacy := legacy + 1;
      }
      prev, last, failures := next.value.prev, next.value.last, next.value.failures;
    }
    assert lines[..|lines|] == lines;
    return Returned(Report(failures == [], eventIdx, failures, hashes, links, regressions, legacy));
  }

  /** The verifier on a file, None if there is none. Its totals agree with the failures it lists, and
      its report is valid exactly on the accepted logs. */
  method VerifyAuditChain(cfg: Config, file: Option<seq<Line>>) returns (out: Outcome)
    ensures file.None? ==> out == Returned(Report(true, 0, [], 0, 0, 0, 0))
    ensures file.Some? ==>
              && (out.Raised? <==> RaisesIn(cfg, file.value))
              && (out.Returned? ==> Reports(cfg, file.value, out.report))
              && (out.Returned? && out.report.valid <==> Accepted(cfg, file.value))
  {
    if file.None? || file.value == [] {
      return Returned(Report(true, 0, [], 0, 0, 0, 0));
    }
    ReplayDecides(cfg, file.value);
    ReplayRaisesIff(cfg, file.value);
    out := ReplayLoop(cfg, file.value);
  }
}
