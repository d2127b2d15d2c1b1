/** What the strict replay reports after an accepted log is disturbed at one place: a line removed, a line
    without chain fields put in, or a stored hash rewritten. The anchor recovers at the next stored hash, so
    the damage stays local. */
module ChainTampering {
  import opened Json
  import opened Sequences
  import opened AuditChain
  import opened ChainTheorems

  // ---------------------------------------------------------------- a chain met with the wrong state

  /** Every readable time in the tail is at or after t, and they do not decrease. */
  ghost predicate TimesFrom(c: Crypto, tail: seq<Line>, t: Option<int>) {
    && TimesSorted(c, tail)
    && forall j | 0 <= j < |tail| && LineTime(c, tail[j]).Some? && t.Some? :: t.value <= LineTime(c, tail[j]).value
  }

  /** The time the replay remembers after a line. */
  function TimeAfter(c: Crypto, line: Line, last: Option<int>): Option<int> {
    if LineTime(c, line).Some? then LineTime(c, line) else last
  }

  lemma TimesAfterHead(c: Crypto, tail: seq<Line>, t: Option<int>)
    requires TimesSorted(c, tail) && tail != []
    ensures TimeReads(c, tail[0]) && TimesSorted(c, tail[1..])
    ensures LineTime(c, tail[0]).Some? ==> TimesFrom(c, tail[1..], LineTime(c, tail[0]))
    ensures TimesFrom(c, tail, t) ==>
              !Regresses(LineTime(c, tail[0]), t) && TimesFrom(c, tail[1..], TimeAfter(c, tail[0], t))
  {
    var rest := tail[1..];
    assert forall j | 0 <= j < |rest| :: rest[j] == tail[j + 1];
  }

  /** A regression is reported on the first line with a readable time, if that is before `last`. */
  function LateReports(c: Crypto, tail: seq<Line>, last: Option<int>, n: nat): seq<Failure> {
    if tail == [] then []
    else if LineTime(c, tail[0]).None? then LateReports(c, tail[1..], last, n + 1)
    else if Regresses(LineTime(c, tail[0]), last) then [Failure(n + 1, n + 1, TimestampRegression)]
    else []
  }

  lemma {:induction false} InOrderIsSilent(c: Crypto, tail: seq<Line>, last: Option<int>, n: nat)
    requires TimesFrom(c, tail, last)
    ensures LateReports(c, tail, last, n) == []
  {
    if tail != [] {
      TimesAfterHead(c, tail, last);
      if LineTime(c, tail[0]).None? {
        InOrderIsSilent(c, tail[1..], last, n + 1);
      }
    }
  }

  function LinkReport(broken: bool, n: nat): seq<Failure> {
    if broken then [Failure(n + 1, n + 1, PrevHashMismatch)] else []
  }

  function TimeReport(late: bool, n: nat): seq<Failure> {
    if late then [Failure(n + 1, n + 1, TimestampRegression)] else []
  }

  /** A sealed line met with any anchor and any last time. */
  lemma ChainedStep(cfg: Config, s: Scan, line: Line, anchor: Json, i: nat)
    requires Chained(cfg, line, anchor) && TimeReads(cfg.crypto, line)
    ensures StepLine(cfg, s, line, i) == Going(Scan(
              StoredHash(line), TimeAfter(cfg.crypto, line, s.last),
              s.failures + LinkReport(anchor != s.prev, i) +
              TimeReport(Regresses(LineTime(cfg.crypto, line), s.last), i)))
  {
    var o := line.value.fields;
    var single := VerifySingleEvent(cfg, o, s.prev);
    var link := if anchor != s.prev then [PrevHashMismatch] else [];
    assert single == Single(Some(StoredHash(line)), link);
    var late := Regresses(LineTime(cfg.crypto, line), s.last);
    assert Found(cfg, single, s.last, o) == link + if late then [TimestampRegression] else [];
    AnnotateTwo(anchor != s.prev, late, i);
    Regroup(s.failures, LinkReport(anchor != s.prev, i), TimeReport(late, i));
  }

  lemma AnnotateTwo(broken: bool, late: bool, i: nat)
    ensures var found := (if broken then [PrevHashMismatch] else []) + (if late then [TimestampRegression] else []);
            Annotate(found, i + 1) == LinkReport(broken, i) + TimeReport(late, i)
  {
    assert [PrevHashMismatch, TimestampRegression][..1] == [PrevHashMismatch];
    assert [PrevHashMismatch] + [TimestampRegression] == [PrevHashMismatch, TimestampRegression];
    assert Annotate([PrevHashMismatch], i + 1) == [Failure(i + 1, i + 1, PrevHashMismatch)];
    assert Annotate([TimestampRegression], i + 1) == [Failure(i + 1, i + 1, TimestampRegression)];
  }

  lemma AppendOne(cfg: Config, lines: seq<Line>, line: Line)
    requires Replay(cfg, lines).Going?
    ensures Replay(cfg, lines + [line]) == StepLine(cfg, Replay(cfg, lines).scan, line, |lines|)
  {
    assert (lines + [line])[..|lines|] == lines;
  }

  lemma ChainParts(cfg: Config, tail: seq<Line>, anchor: Json)
    requires IsChain(cfg, tail, anchor) && tail != []
    ensures Chained(cfg, tail[0], anchor) && IsChain(cfg, tail[1..], StoredHash(tail[0]))
  {
  }

  lemma AppendHead(lines: seq<Line>, tail: seq<Line>)
    requires tail != []
    ensures lines + tail == (lines + [tail[0]]) + tail[1..]
  {
  }

  /** A chain with times in order, replayed after any lines: one broken link on its first line if the anchor
      left there is not the one it starts from, and one regression if the last time is late for it. */
  lemma {:induction false} DisturbedTail(cfg: Config, lines: seq<Line>, tail: seq<Line>, anchor: Json)
    requires Replay(cfg, lines).Going? && IsChain(cfg, tail, anchor) && TimesSorted(cfg.crypto, tail)
    ensures Replay(cfg, lines + tail).Going?
    ensures Replay(cfg, lines + tail).scan.failures ==
            Replay(cfg, lines).scan.failures +
            LinkReport(tail != [] && anchor != Replay(cfg, lines).scan.prev, |lines|) +
            LateReports(cfg.crypto, tail, Replay(cfg, lines).scan.last, |lines|)
    decreases |tail|
  {
    hide Chained, Replay, StepLine, IsChain, StoredHash, TimesSorted, TimesFrom, LineTime;
    var s := Replay(cfg, lines).scan;
    if tail == [] {
      assert lines + tail == lines;
      assert s.failures + [] + [] == s.failures;
    } else {
      var head, rest := tail[0], tail[1..];
      TimesAfterHead(cfg.crypto, tail, s.last);
      ChainParts(cfg, tail, anchor);
      AppendOne(cfg, lines, head);
      ChainedStep(cfg, s, head, anchor, |lines|);
      AppendHead(lines, tail);
      DisturbedTail(cfg, lines + [head], rest, StoredHash(head));
      if LineTime(cfg.crypto, head).Some? {
        InOrderIsSilent(cfg.crypto, rest, LineTime(cfg.crypto, head), |lines| + 1);
      }
      var link := LinkReport(anchor != s.prev, |lines|);
      NoMoreReports(s.failures + link, TimeReport(Regresses(LineTime(cfg.crypto, head), s.last), |lines|),
                    LateReports(cfg.crypto, rest, TimeAfter(cfg.crypto, head, s.last), |lines| + 1));
    }
  }

  lemma NoMoreReports(a: seq<Failure>, b: seq<Failure>, c: seq<Failure>)
    ensures b == [] ==> a + b + [] + c == a + c
    ensures c == [] ==> a + b + [] + c == a + b
  {
  }

  // ---------------------------------------------------------------- parts of an accepted log

  lemma TailIsChain(cfg: Config, log: seq<Line>, k: nat)
    requires RejectsLegacy(cfg) && Accepted(cfg, log) && k <= |log|
    ensures IsChain(cfg, log[k..], Anchor(log, k))
  {
    var tail := log[k..];
    forall j | 0 <= j < |tail| ensures LinkedAt(cfg, tail, Anchor(log, k), j) {
      assert LineOk(cfg, log, k + j);
      assert k + j == 0 || LineOk(cfg, log, k + j - 1);
    }
    ChainIsLinked(cfg, tail, Anchor(log, k));
  }

  /** The tail from index m on, seen from the last time before index k. */
  lemma TailTimes(cfg: Config, log: seq<Line>, k: nat, m: nat)
    requires Accepted(cfg, log) && k <= m <= |log|
    ensures TimesFrom(cfg.crypto, log[m..], LastTime(cfg.crypto, log[..k]))
  {
    var c := cfg.crypto;
    assert forall j | 0 <= j < |log| - m :: log[m..][j] == log[m + j];
    AcceptedPrefix(cfg, log, k);
    LastTimeIsLatest(c, log[..k]);
    if LastTime(c, log[..k]).Some? {
      var i :| 0 <= i < k && LineTime(c, log[..k][i]) == LastTime(c, log[..k]);
      assert log[..k][i] == log[i];
    }
  }

  /** In an accepted log no line stores the hash it links to. */
  lemma {:induction false} HashesMoveOn(cfg: Config, log: seq<Line>, i: nat)
    requires Ideal(cfg.crypto) && RejectsLegacy(cfg) && Accepted(cfg, log) && i < |log|
    ensures StoredHash(log[i]) != Anchor(log, i)
  {
    assert LineOk(cfg, log, i);
    if i > 0 {
      assert LineOk(cfg, log, i - 1);
      HashesMoveOn(cfg, log, i - 1);
    }
  }

  /** The prefix of an accepted log as the replay leaves it. */
  lemma PrefixScan(cfg: Config, log: seq<Line>, k: nat)
    requires RejectsLegacy(cfg) && Accepted(cfg, log) && k <= |log|
    ensures Replay(cfg, log[..k]) == Going(Scan(Anchor(log, k), LastTime(cfg.crypto, log[..k]), []))
  {
    AcceptedPrefix(cfg, log, k);
    ReplayDecides(cfg, log[..k]);
    assert Anchor(log[..k], k) == Anchor(log, k);
  }

  lemma AnchorAfter(cfg: Config, log: seq<Line>, i: nat)
    requires RejectsLegacy(cfg) && Accepted(cfg, log) && i < |log|
    ensures Chained(cfg, log[i], Anchor(log, i)) && Anchor(log, i + 1) == StoredHash(log[i])
    ensures TimeReads(cfg.crypto, log[i])
  {
    assert LineOk(cfg, log, i);
  }

  // ---------------------------------------------------------------- a removed line

  /** Removing one line other than the last from a strictly accepted log yields exactly one failure: a
      broken link on the line that followed. (Removing the last leaves an accepted prefix.) */
  lemma RemovalIsOneBrokenLink(cfg: Config, log: seq<Line>, i: nat)
    requires Ideal(cfg.crypto) && RejectsLegacy(cfg) && Accepted(cfg, log) && i + 1 < |log|
    ensures Replay(cfg, log[..i] + log[i + 1..]).Going?
    ensures Replay(cfg, log[..i] + log[i + 1..]).scan.failures == [Failure(i + 1, i + 1, PrevHashMismatch)]
  {
    hide StepLine, TimesSorted, Replay, IsChain, LastTime, Anchor, Accepted, Chained;
    PrefixScan(cfg, log, i);
    HashesMoveOn(cfg, log, i);
    AnchorAfter(cfg, log, i);
    TailIsChain(cfg, log, i + 1);
    TailTimes(cfg, log, i, i + 1);
    InOrderIsSilent(cfg.crypto, log[i + 1..], LastTime(cfg.crypto, log[..i]), i);
    DisturbedTail(cfg, log[..i], log[i + 1..], StoredHash(log[i]));
    assert [] + LinkReport(true, i) + [] == LinkReport(true, i);
  }

  // ---------------------------------------------------------------- a line without chain fields

  /** The line has the hashed fields other than the link. */
  predicate HasOtherFields(o: Fields) {
    "event_id" in o && "event_type" in o && "run_id" in o && "created_at" in o && "payload" in o
  }

  /** The anchor recomputed from a bare line differs from the one before it exactly if the line has the
      five fields a hash can be computed from. */
  lemma BareLineAnchor(cfg: Config, log: seq<Line>, i: nat, o: Fields)
    requires Ideal(cfg.crypto) && RejectsLegacy(cfg) && Accepted(cfg, log) && i <= |log|
    ensures Advance(cfg, o, Anchor(log, i), None) != Anchor(log, i) <==> HasOtherFields(o)
  {
    if HasOtherFields(o) && i > 0 {
      assert LineOk(cfg, log, i - 1);
      HashesMoveOn(cfg, log, i - 1);
      var content := ContentOf(log[i - 1].value.fields);
      assert Anchor(log, i) == JStr(cfg.crypto.digest(content)) && content.prevHash == Anchor(log, i - 1);
    }
  }

  lemma BareLineStep(cfg: Config, s: Scan, o: Fields, i: nat)
    requires RejectsLegacy(cfg) && IsLegacy(o) && !ReadTime(cfg.crypto, o).TimeRaises?
    ensures StepLine(cfg, s, Some(JObj(o)), i) == Going(Scan(
              Advance(cfg, o, s.prev, None), TimeAfter(cfg.crypto, Some(JObj(o)), s.last),
              s.failures + [Failure(i + 1, i + 1, MissingFields)] +
              TimeReport(Regresses(TimeOf(cfg.crypto, o), s.last), i)))
  {
    var single := VerifySingleEvent(cfg, o, s.prev);
    var late := Regresses(TimeOf(cfg.crypto, o), s.last);
    assert Found(cfg, single, s.last, o) == [MissingFields] + if late then [TimestampRegression] else [];
    assert ([MissingFields] + [TimestampRegression])[..1] == [MissingFields];
    assert Annotate([MissingFields], i + 1) == [Failure(i + 1, i + 1, MissingFields)];
    Regroup(s.failures, [Failure(i + 1, i + 1, MissingFields)], TimeReport(late, i));
  }

  /** A line without chain fields put anywhere into a strictly accepted log: one missing-fields failure, and
      a regression if its time is before the latest so far; one broken link after it exactly if a line
      follows and the bare line has the other five hashed fields, so that a new anchor was computed from it;
      and one regression on the first later line with a time, if the bare line's time is after that. A
      timestamp that raises makes the verifier raise. */
  lemma BareLineStaysLocal(cfg: Config, log: seq<Line>, i: nat, o: Fields)
    requires Ideal(cfg.crypto) && RejectsLegacy(cfg) && Accepted(cfg, log) && i <= |log| && IsLegacy(o)
    ensures var p := Replay(cfg, log[..i] + [Some(JObj(o))] + log[i..]);
            var latest := LastTime(cfg.crypto, log[..i]);
            if ReadTime(cfg.crypto, o).TimeRaises? then p.Crashed?
            else
              && p.Going?
              && p.scan.failures ==
                 [Failure(i + 1, i + 1, MissingFields)] +
                 TimeReport(Regresses(TimeOf(cfg.crypto, o), latest), i) +
                 LinkReport(i < |log| && HasOtherFields(o), i + 1) +
                 LateReports(cfg.crypto, log[i..], TimeOf(cfg.crypto, o), i + 1)
  {
    hide StepLine, TimesSorted, Replay, IsChain, LastTime, Anchor, Accepted, Advance, LateReports;
    var bare: Line := Some(JObj(o));
    var before := log[..i] + [bare];
    PrefixScan(cfg, log, i);
    AppendOne(cfg, log[..i], bare);
    var s := Replay(cfg, log[..i]).scan;
    if ReadTime(cfg.crypto, o).TimeRaises? {
      StepRaisesIff(cfg, s, bare, i);
      StoppedBefore(cfg, before, log[i..]);
    } else {
      BareLineStep(cfg, s, o, i);
      BareLineAnchor(cfg, log, i, o);
      TailIsChain(cfg, log, i);
      TailTimes(cfg, log, i, i);
      DisturbedTail(cfg, before, log[i..], Anchor(log, i));
      assert log[i..] != [] <==> i < |log|;
      if TimeOf(cfg.crypto, o).None? {
        InOrderIsSilent(cfg.crypto, log[i..], s.last, i + 1);
        NoTimeIsSilent(cfg.crypto, log[i..], i + 1);
      }
      assert [] + [Failure(i + 1, i + 1, MissingFields)] == [Failure(i + 1, i + 1, MissingFields)];
    }
  }

  lemma {:induction false} NoTimeIsSilent(c: Crypto, tail: seq<Line>, n: nat)
    ensures LateReports(c, tail, None, n) == []
  {
    if tail != [] {
      NoTimeIsSilent(c, tail[1..], n + 1);
    }
  }

  lemma StoppedBefore(cfg: Config, lines: seq<Line>, tail: seq<Line>)
    requires !Replay(cfg, lines).Going?
    ensures Replay(cfg, lines + tail) == Replay(cfg, lines)
  {
    assert (lines + tail)[..|lines|] == lines;
    StoppedStays(cfg, lines + tail, |lines|);
  }

  // ---------------------------------------------------------------- a rewritten stored hash

  /** The line's signature is looked at. */
  predicate Signs(cfg: Config, o: Fields) {
    cfg.key.Some? && "chain_hmac" in o
  }

  /** What the line with the rewritten hash reports itself. */
  function HashEditFound(cfg: Config, o: Fields, h: Json): seq<Category>
    requires Signs(cfg, o) ==> h.JStr?
  {
    [HashMismatch] +
    if Signs(cfg, o) && o["chain_hmac"] != JStr(cfg.crypto.mac(h.s, cfg.key.value)) then [HmacMismatch] else []
  }

  /** Rewriting the stored hash leaves everything else the verifier looks at. */
  lemma HashEditKeeps(c: Crypto, o: Fields, h: Json)
    requires HasContent(o) && "hash" in o
    ensures var e := o["hash" := h];
            && !IsLegacy(e) && HasContent(e) && ContentOf(e) == ContentOf(o) && ReadTime(c, e) == ReadTime(c, o)
            && e["prev_hash" := o["prev_hash"]] == e
  {
  }

  lemma HashEditSingle(cfg: Config, o: Fields, h: Json, prev: Json)
    requires Chained(cfg, Some(JObj(o)), prev) && h != o["hash"] && (Signs(cfg, o) ==> h.JStr?)
    ensures VerifySingleEvent(cfg, o["hash" := h], prev) == Single(NextAnchor(h), HashEditFound(cfg, o, h))
  {
    hide ContentOf;
    HashEditKeeps(cfg.crypto, o, h);
    assert [] + [HashMismatch] == [HashMismatch];
  }

  /** A null hash makes the loop recompute it, from the content that was not touched. */
  lemma HashEditAnchor(cfg: Config, o: Fields, h: Json, prev: Json)
    requires Chained(cfg, Some(JObj(o)), prev)
    ensures Advance(cfg, o["hash" := h], prev, NextAnchor(h)) == if h == JNull then o["hash"] else h
  {
    hide ContentOf;
    HashEditKeeps(cfg.crypto, o, h);
  }

  lemma HashEditStep(cfg: Config, s: Scan, o: Fields, h: Json, i: nat)
    requires Chained(cfg, Some(JObj(o)), s.prev) && h != o["hash"] && (Signs(cfg, o) ==> h.JStr?)
    requires !Regresses(TimeOf(cfg.crypto, o), s.last) && !ReadTime(cfg.crypto, o).TimeRaises?
    ensures StepLine(cfg, s, Some(JObj(o["hash" := h])), i) == Going(Scan(
              if h == JNull then o["hash"] else h, TimeAfter(cfg.crypto, Some(JObj(o)), s.last),
              s.failures + Annotate(HashEditFound(cfg, o, h), i + 1)))
  {
    HashEditKeeps(cfg.crypto, o, h);
    hide VerifySingleEvent, Advance, ReadTime, HasContent, ContentOf, HashEditFound, Annotate, Regresses;
    HashEditSingle(cfg, o, h, s.prev);
    HashEditAnchor(cfg, o, h, s.prev);
    assert HashEditFound(cfg, o, h) + [] == HashEditFound(cfg, o, h);
  }

  /** Rewriting one stored hash of a strictly accepted log: one hash mismatch (and one HMAC mismatch, if the
      signature is looked at and differs) on that line, and one broken link on the next line unless the new
      value is null, because the anchor is then recomputed from the untouched content. A signed line whose
      hash is no string makes the verifier raise. */
  lemma RewrittenHashStaysLocal(cfg: Config, log: seq<Line>, i: nat, o: Fields, h: Json)
    requires RejectsLegacy(cfg) && Accepted(cfg, log) && i < |log|
    requires log[i] == Some(JObj(o)) && h != StoredHash(log[i])
    ensures var p := Replay(cfg, log[..i] + [Some(JObj(o["hash" := h]))] + log[i + 1..]);
            if Signs(cfg, o) && !h.JStr? then p.Crashed?
            else
              && p.Going?
              && p.scan.failures ==
                 Annotate(HashEditFound(cfg, o, h), i + 1) + LinkReport(i + 1 < |log| && h != JNull, i + 1)
  {
    hide VerifySingleEvent, StepLine, TimesSorted, Replay, IsChain, LastTime, Accepted, Annotate, HashEditFound;
    var edited: Line := Some(JObj(o["hash" := h]));
    var before := log[..i] + [edited];
    PrefixScan(cfg, log, i);
    AnchorAfter(cfg, log, i);
    var s := Replay(cfg, log[..i]).scan;
    AppendOne(cfg, log[..i], edited);
    if Signs(cfg, o) && !h.JStr? {
      StepRaisesIff(cfg, s, edited, i);
      StoppedBefore(cfg, before, log[i + 1..]);
    } else {
      TailTimes(cfg, log, i, i);
      assert log[i..][0] == log[i] && log[i..][1..] == log[i + 1..];
      TimesAfterHead(cfg.crypto, log[i..], s.last);
      HashEditStep(cfg, s, o, h, i);
      TailIsChain(cfg, log, i + 1);
      DisturbedTail(cfg, before, log[i + 1..], StoredHash(log[i]));
      InOrderIsSilent(cfg.crypto, log[i + 1..], TimeAfter(cfg.crypto, log[i], s.last), i + 1);
      assert [] + Annotate(HashEditFound(cfg, o, h), i + 1) == Annotate(HashEditFound(cfg, o, h), i + 1);
    }
  }

  // ---------------------------------------------------------------- other edits of one line

  /** The lines behind an edited one, from whatever anchor it left. */
  lemma AfterEdit(cfg: Config, log: seq<Line>, i: nat, before: seq<Line>)
    requires RejectsLegacy(cfg) && Accepted(cfg, log) && i < |log| && |before| == i + 1 && Replay(cfg, before).Going?
    requires TimesFrom(cfg.crypto, log[i + 1..], Replay(cfg, before).scan.last)
    ensures var p := Replay(cfg, before + log[i + 1..]); var s := Replay(cfg, before).scan;
            && p.Going?
            && p.scan.failures == s.failures + LinkReport(i + 1 < |log| && s.prev != StoredHash(log[i]), i + 1)
  {
    hide StepLine, TimesSorted, Replay, IsChain, Anchor, Accepted, Chained, StoredHash;
    var s, tail := Replay(cfg, before).scan, log[i + 1..];
    AnchorAfter(cfg, log, i);
    TailIsChain(cfg, log, i + 1);
    DisturbedTail(cfg, before, tail, StoredHash(log[i]));
    InOrderIsSilent(cfg.crypto, tail, s.last, i + 1);
    var link := LinkReport(tail != [] && StoredHash(log[i]) != s.prev, i + 1);
    assert s.failures + link + [] == s.failures + link;
  }

  /** The replay of a log whose i-th line was replaced, given what the new line does to the scan. */
  lemma ReplacedLine(
      cfg: Config, log: seq<Line>, i: nat, edited: Line, prev: Json, last: Option<int>, own: seq<Failure>)
    requires RejectsLegacy(cfg) && Accepted(cfg, log) && i < |log|
    requires last == LastTime(cfg.crypto, log[..i]) ||
             last == TimeAfter(cfg.crypto, log[i], LastTime(cfg.crypto, log[..i]))
    requires StepLine(cfg, Scan(Anchor(log, i), LastTime(cfg.crypto, log[..i]), []), edited, i) ==
             Going(Scan(prev, last, own))
    ensures var p := Replay(cfg, log[..i] + [edited] + log[i + 1..]);
            && p.Going?
            && p.scan.failures == own + LinkReport(i + 1 < |log| && prev != StoredHash(log[i]), i + 1)
  {
    hide StepLine, TimesSorted, Replay, IsChain, LastTime, Anchor, Accepted, StoredHash;
    PrefixScan(cfg, log, i);
    AppendOne(cfg, log[..i], edited);
    TailTimes(cfg, log, i, i + 1);
    TailTimes(cfg, log, i, i);
    assert log[i..][0] == log[i] && log[i..][1..] == log[i + 1..];
    TimesAfterHead(cfg.crypto, log[i..], LastTime(cfg.crypto, log[..i]));
    AfterEdit(cfg, log, i, log[..i] + [edited]);
  }

  lemma AcceptedLine(cfg: Config, log: seq<Line>, i: nat, o: Fields)
    requires RejectsLegacy(cfg) && Accepted(cfg, log) && i < |log| && log[i] == Some(JObj(o))
    ensures Chained(cfg, Some(JObj(o)), Anchor(log, i)) && !ReadTime(cfg.crypto, o).TimeRaises?
    ensures !Regresses(TimeOf(cfg.crypto, o), LastTime(cfg.crypto, log[..i]))
    ensures "hash" in o && StoredHash(log[i]) == o["hash"]
  {
    AnchorAfter(cfg, log, i);
    TailTimes(cfg, log, i, i);
    assert log[i..][0] == log[i];
  }

  lemma SignatureStep(cfg: Config, s: Scan, o: Fields, h: Json, i: nat)
    requires Chained(cfg, Some(JObj(o)), s.prev) && cfg.key.Some? && "chain_hmac" in o && h != o["chain_hmac"]
    requires !Regresses(TimeOf(cfg.crypto, o), s.last) && !ReadTime(cfg.crypto, o).TimeRaises? && s.failures == []
    ensures StepLine(cfg, s, Some(JObj(o["chain_hmac" := h])), i) == Going(Scan(
              o["hash"], TimeAfter(cfg.crypto, Some(JObj(o)), s.last), [Failure(i + 1, i + 1, HmacMismatch)]))
  {
    var e := o["chain_hmac" := h];
    assert ContentOf(e) == ContentOf(o);
    var single := VerifySingleEvent(cfg, e, s.prev);
    assert single == Single(Some(o["hash"]), [HmacMismatch]);
    assert Found(cfg, single, s.last, e) == [HmacMismatch];
    assert Annotate([HmacMismatch], i + 1) == [Failure(i + 1, i + 1, HmacMismatch)];
    assert [] + [Failure(i + 1, i + 1, HmacMismatch)] == [Failure(i + 1, i + 1, HmacMismatch)];
  }

  /** Rewriting a signature gives exactly one HMAC mismatch, if the key is known. */
  lemma RewrittenSignature(cfg: Config, log: seq<Line>, i: nat, o: Fields, h: Json)
    requires RejectsLegacy(cfg) && Accepted(cfg, log) && i < |log| && log[i] == Some(JObj(o))
    requires cfg.key.Some? && "chain_hmac" in o && h != o["chain_hmac"]
    ensures var p := Replay(cfg, log[..i] + [Some(JObj(o["chain_hmac" := h]))] + log[i + 1..]);
            p.Going? && p.scan.failures == [Failure(i + 1, i + 1, HmacMismatch)]
  {
    hide StepLine, Replay, Accepted, Chained, Anchor, LastTime, StoredHash;
    var s := Scan(Anchor(log, i), LastTime(cfg.crypto, log[..i]), []);
    AcceptedLine(cfg, log, i, o);
    SignatureStep(cfg, s, o, h, i);
    ReplacedLine(cfg, log, i, Some(JObj(o["chain_hmac" := h])), o["hash"], TimeAfter(cfg.crypto, log[i], s.last),
               [Failure(i + 1, i + 1, HmacMismatch)]);
    NothingAdded([Failure(i + 1, i + 1, HmacMismatch)]);
  }

  lemma NothingAdded(own: seq<Failure>)
    ensures own + [] == own
  {
  }

  lemma LinkStep(cfg: Config, s: Scan, o: Fields, h: Json, i: nat)
    requires Ideal(cfg.crypto) && Chained(cfg, Some(JObj(o)), s.prev) && h != o["prev_hash"]
    requires !Regresses(TimeOf(cfg.crypto, o), s.last) && !ReadTime(cfg.crypto, o).TimeRaises? && s.failures == []
    ensures StepLine(cfg, s, Some(JObj(o["prev_hash" := h])), i) == Going(Scan(
              o["hash"], TimeAfter(cfg.crypto, Some(JObj(o)), s.last),
              [Failure(i + 1, i + 1, PrevHashMismatch), Failure(i + 1, i + 1, HashMismatch)]))
  {
    var e, both := o["prev_hash" := h], [PrevHashMismatch, HashMismatch];
    assert ContentOf(e).prevHash != ContentOf(o).prevHash;
    assert cfg.crypto.digest(ContentOf(e)) != cfg.crypto.digest(ContentOf(o));
    var single := VerifySingleEvent(cfg, e, s.prev);
    assert single == Single(Some(o["hash"]), both);
    assert Found(cfg, single, s.last, e) == both;
    assert both[..1] == [PrevHashMismatch];
    assert Annotate([PrevHashMismatch], i + 1) == [Failure(i + 1, i + 1, PrevHashMismatch)];
  }

  /** Rewriting a link gives a broken link and a hash mismatch, the link being hashed too, on that line only:
      its stored hash carries the chain on. */
  lemma RewrittenLink(cfg: Config, log: seq<Line>, i: nat, o: Fields, h: Json)
    requires Ideal(cfg.crypto) && RejectsLegacy(cfg) && Accepted(cfg, log) && i < |log| && log[i] == Some(JObj(o))
    requires h != Anchor(log, i)
    ensures var p := Replay(cfg, log[..i] + [Some(JObj(o["prev_hash" := h]))] + log[i + 1..]);
            && p.Going?
            && p.scan.failures == [Failure(i + 1, i + 1, PrevHashMismatch), Failure(i + 1, i + 1, HashMismatch)]
  {
    var s := Scan(Anchor(log, i), LastTime(cfg.crypto, log[..i]), []);
    AcceptedLine(cfg, log, i, o);
    hide StepLine, Replay, Accepted, Anchor, LastTime, StoredHash, Sealed, Signed, Ideal;
    LinkStep(cfg, s, o, h, i);
    var own := [Failure(i + 1, i + 1, PrevHashMismatch), Failure(i + 1, i + 1, HashMismatch)];
    ReplacedLine(cfg, log, i, Some(JObj(o["prev_hash" := h])), o["hash"], TimeAfter(cfg.crypto, log[i], s.last), own);
    NothingAdded(own);
  }

  /** Without one of its chain fields the line's hash is recomputed from what is left; without another hashed
      field it cannot be, and the anchor stays where it was. */
  lemma DropStep(cfg: Config, s: Scan, o: Fields, key: string, i: nat)
    requires RejectsLegacy(cfg) && Chained(cfg, Some(JObj(o)), s.prev) && s.failures == []
    requires key in {"event_id", "event_type", "run_id", "created_at", "payload", "prev_hash", "hash"}
    requires !Regresses(TimeOf(cfg.crypto, o), s.last) && !ReadTime(cfg.crypto, o).TimeRaises?
    ensures StepLine(cfg, s, Some(JObj(o - {key})), i) == Going(Scan(
              if key in {"prev_hash", "hash"} then o["hash"] else s.prev,
              if key == "created_at" then s.last else TimeAfter(cfg.crypto, Some(JObj(o)), s.last),
              [Failure(i + 1, i + 1, MissingFields)]))
  {
    var e := o - {key};
    DropContent(o, key);
    assert ReadTime(cfg.crypto, e) == if key == "created_at" then NotATime else ReadTime(cfg.crypto, o);
    hide ContentOf, HasContent;
    var single := VerifySingleEvent(cfg, e, s.prev);
    assert single == Single(None, [MissingFields]);
    assert Found(cfg, single, s.last, e) == [MissingFields];
    assert Annotate([MissingFields], i + 1) == [Failure(i + 1, i + 1, MissingFields)];
    assert [] + [Failure(i + 1, i + 1, MissingFields)] == [Failure(i + 1, i + 1, MissingFields)];
  }

  lemma DropContent(o: Fields, key: string)
    requires HasContent(o) && "hash" in o
    requires key in {"event_id", "event_type", "run_id", "created_at", "payload", "prev_hash", "hash"}
    ensures var e := o - {key}; var f := e["prev_hash" := o["prev_hash"]];
            && (IsLegacy(e) <==> key in {"prev_hash", "hash"})
            && (key in {"prev_hash", "hash"} ==> HasContent(f) && ContentOf(f) == ContentOf(o))
            && (key !in {"prev_hash", "hash"} ==> !HasContent(e) && !HasContent(f) && e["prev_hash"] == o["prev_hash"])
  {
  }

  /** Removing a field from one line gives exactly one missing-fields failure, and one broken link on the next
      line exactly if the field is hashed but no chain field. */
  lemma DroppedField(cfg: Config, log: seq<Line>, i: nat, o: Fields, key: string)
    requires Ideal(cfg.crypto) && RejectsLegacy(cfg) && Accepted(cfg, log) && i < |log| && log[i] == Some(JObj(o))
    requires key in {"event_id", "event_type", "run_id", "created_at", "payload", "prev_hash", "hash"}
    ensures var p := Replay(cfg, log[..i] + [Some(JObj(o - {key}))] + log[i + 1..]);
            && p.Going?
            && p.scan.failures == [Failure(i + 1, i + 1, MissingFields)] +
                                  LinkReport(i + 1 < |log| && key !in {"prev_hash", "hash"}, i + 1)
  {
    hide StepLine, Replay, Accepted, Chained, Anchor, LastTime, StoredHash, Ideal;
    var s := Scan(Anchor(log, i), LastTime(cfg.crypto, log[..i]), []);
    AcceptedLine(cfg, log, i, o);
    HashesMoveOn(cfg, log, i);
    DropStep(cfg, s, o, key, i);
    ReplacedLine(cfg, log, i, Some(JObj(o - {key})), if key in {"prev_hash", "hash"} then o["hash"] else s.prev,
               if key == "created_at" then s.last else TimeAfter(cfg.crypto, log[i], s.last),
               [Failure(i + 1, i + 1, MissingFields)]);
  }
}
