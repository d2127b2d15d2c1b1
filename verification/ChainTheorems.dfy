/** What acceptance by the replay verifier guarantees about a log. */
module ChainTheorems {
  import opened Json
  import opened AuditChain

  // ---------------------------------------------------------------- acceptance as chains

  function StoredHash(line: Line): Json {
    if line.Some? && line.value.JObj? then Get(line.value.fields, "hash") else JNull
  }

  lemma {:induction false} ChainSnoc(cfg: Config, lines: seq<Line>, line: Line, anchor: Json)
    ensures IsChain(cfg, lines + [line], anchor) <==>
              && IsChain(cfg, lines, anchor)
              && Chained(cfg, line, if lines == [] then anchor else StoredHash(lines[|lines| - 1]))
  {
    if lines == [] {
      assert lines + [line] == [line];
    } else {
      assert (lines + [line])[1..] == lines[1..] + [line];
      if Chained(cfg, lines[0], anchor) {
        ChainSnoc(cfg, lines[1..], line, StoredHash(lines[0]));
      }
    }
  }

  predicate LinkedAt(cfg: Config, lines: seq<Line>, anchor: Json, i: nat)
    requires i < |lines|
  {
    Chained(cfg, lines[i], if i == 0 then anchor else StoredHash(lines[i - 1]))
  }

  /** Every line is linked to the one before, the first to the anchor. */
  ghost predicate LinkedFrom(cfg: Config, lines: seq<Line>, anchor: Json) {
    forall i | 0 <= i < |lines| :: LinkedAt(cfg, lines, anchor, i)
  }

  lemma {:induction false} ChainIsLinked(cfg: Config, lines: seq<Line>, anchor: Json)
    ensures IsChain(cfg, lines, anchor) <==> LinkedFrom(cfg, lines, anchor)
  {
    if lines != [] {
      var n := |lines| - 1;
      assert lines == lines[..n] + [lines[n]];
      ChainIsLinked(cfg, lines[..n], anchor);
      ChainSnoc(cfg, lines[..n], lines[n], anchor);
      if LinkedFrom(cfg, lines, anchor) {
        assert LinkedAt(cfg, lines, anchor, n);
        forall i | 0 <= i < n ensures LinkedAt(cfg, lines[..n], anchor, i) {
          assert LinkedAt(cfg, lines, anchor, i);
        }
      }
      if LinkedFrom(cfg, lines[..n], anchor) && LinkedAt(cfg, lines, anchor, n) {
        forall i | 0 <= i < n ensures LinkedAt(cfg, lines, anchor, i) {
          assert LinkedAt(cfg, lines[..n], anchor, i);
        }
      }
    }
  }

  /** In strict mode the accepted logs are the chains from genesis with sorted timestamps. */
  lemma StrictAcceptsChains(cfg: Config, lines: seq<Line>)
    requires RejectsLegacy(cfg)
    ensures Accepted(cfg, lines) <==> IsChain(cfg, lines, JStr(GENESIS)) && TimesSorted(cfg.crypto, lines)
  {
    ChainIsLinked(cfg, lines, JStr(GENESIS));
    if Accepted(cfg, lines) {
      forall i | 0 <= i < |lines| ensures LinkedAt(cfg, lines, JStr(GENESIS), i) {
        assert LineOk(cfg, lines, i);
        assert i == 0 || LineOk(cfg, lines, i - 1);
      }
    }
    if LinkedFrom(cfg, lines, JStr(GENESIS)) {
      forall i | 0 <= i < |lines| ensures LineOk(cfg, lines, i) {
        assert LinkedAt(cfg, lines, JStr(GENESIS), i);
        assert i == 0 || LinkedAt(cfg, lines, JStr(GENESIS), i - 1);
      }
    }
  }

  /** lines[a..b] holds no legacy line and cannot be extended on either side. */
  ghost predicate MaximalRun(lines: seq<Line>, a: nat, b: nat) {
    && a < b <= |lines|
    && (forall i | a <= i < b :: !LegacyLine(lines[i]))
    && (a == 0 || LegacyLine(lines[a - 1]))
    && (b == |lines| || LegacyLine(lines[b]))
  }

  lemma RunAround(lines: seq<Line>, i: nat) returns (a: nat, b: nat)
    requires i < |lines| && !LegacyLine(lines[i])
    ensures MaximalRun(lines, a, b) && a <= i < b
  {
    a, b := i, i + 1;
    while a > 0 && !LegacyLine(lines[a - 1])
      invariant a <= i && forall k | a <= k <= i :: !LegacyLine(lines[k])
    {
      a := a - 1;
    }
    while b < |lines| && !LegacyLine(lines[b])
      invariant i < b <= |lines| && forall k | a <= k < b :: !LegacyLine(lines[k])
    {
      b := b + 1;
    }
  }

  ghost predicate RunsAreChains(cfg: Config, lines: seq<Line>) {
    forall a: nat, b: nat | MaximalRun(lines, a, b) :: IsChain(cfg, lines[a..b], JStr(GENESIS))
  }

  lemma RunOfAccepted(cfg: Config, lines: seq<Line>, a: nat, b: nat)
    requires Accepted(cfg, lines) && MaximalRun(lines, a, b)
    ensures IsChain(cfg, lines[a..b], JStr(GENESIS))
  {
    forall i | 0 <= i < b - a ensures LinkedAt(cfg, lines[a..b], JStr(GENESIS), i) {
      assert LineOk(cfg, lines, a + i);
      assert i == 0 || LineOk(cfg, lines, a + i - 1);
    }
    ChainIsLinked(cfg, lines[a..b], JStr(GENESIS));
  }

  lemma LineOfRun(cfg: Config, lines: seq<Line>, i: nat)
    requires AllObjects(lines) && RunsAreChains(cfg, lines) && i < |lines| && !LegacyLine(lines[i])
    ensures LineOk(cfg, lines, i)
  {
    var a, b := RunAround(lines, i);
    ChainIsLinked(cfg, lines[a..b], JStr(GENESIS));
    assert LinkedAt(cfg, lines[a..b], JStr(GENESIS), i - a);
    assert a == i || LinkedAt(cfg, lines[a..b], JStr(GENESIS), i - a - 1);
  }

  /** In legacy-reset mode a log of objects is accepted exactly when every maximal run between legacy
      lines is a chain from genesis and the timestamps are sorted across the whole log. */
  lemma ResetAcceptsRuns(cfg: Config, lines: seq<Line>)
    requires !RejectsLegacy(cfg) && AllObjects(lines)
    ensures Accepted(cfg, lines) <==> RunsAreChains(cfg, lines) && TimesSorted(cfg.crypto, lines)
  {
    if Accepted(cfg, lines) {
      forall a: nat, b: nat | MaximalRun(lines, a, b) ensures IsChain(cfg, lines[a..b], JStr(GENESIS)) {
        RunOfAccepted(cfg, lines, a, b);
      }
    }
    if RunsAreChains(cfg, lines) {
      forall i | 0 <= i < |lines| ensures LineOk(cfg, lines, i) {
        if !LegacyLine(lines[i]) {
          LineOfRun(cfg, lines, i);
        }
      }
    }
  }

  // ---------------------------------------------------------------- tamper evidence

  ghost predicate SameChainFields(a: Line, b: Line) {
    && a.Some? && a.value.JObj? && HasContent(a.value.fields) && "hash" in a.value.fields
    && b.Some? && b.value.JObj? && HasContent(b.value.fields) && "hash" in b.value.fields
    && ContentOf(a.value.fields) == ContentOf(b.value.fields)
    && a.value.fields["hash"] == b.value.fields["hash"]
  }

  ghost predicate SameChain(a: seq<Line>, b: seq<Line>) {
    |a| == |b| && forall i | 0 <= i < |a| :: SameChainFields(a[i], b[i])
  }

  lemma AcceptedPrefix(cfg: Config, lines: seq<Line>, n: nat)
    requires Accepted(cfg, lines) && n <= |lines|
    ensures Accepted(cfg, lines[..n])
  {
    forall i | 0 <= i < n ensures LineOk(cfg, lines[..n], i) {
      assert LineOk(cfg, lines, i);
      assert Anchor(lines[..n], i) == Anchor(lines, i);
    }
  }

  lemma StrictLast(cfg: Config, lines: seq<Line>)
    requires RejectsLegacy(cfg) && Accepted(cfg, lines) && lines != []
    ensures Chained(cfg, lines[|lines| - 1], Anchor(lines[..|lines| - 1], |lines| - 1))
    ensures Anchor(lines, |lines|) == StoredHash(lines[|lines| - 1])
    ensures Accepted(cfg, lines[..|lines| - 1])
  {
    assert LineOk(cfg, lines, |lines| - 1);
    assert Anchor(lines, |lines| - 1) == Anchor(lines[..|lines| - 1], |lines| - 1);
    AcceptedPrefix(cfg, lines, |lines| - 1);
  }

  /** Equal hashes mean equal hashed content, and so equal links. */
  lemma SameHashSameLine(cfg: Config, cfg': Config, x: Line, y: Line, anchor: Json, anchor': Json)
    requires Ideal(cfg.crypto) && cfg'.crypto == cfg.crypto
    requires Chained(cfg, x, anchor) && Chained(cfg', y, anchor') && StoredHash(x) == StoredHash(y)
    ensures SameChainFields(x, y) && anchor == anchor'
  {
    var p, q := ContentOf(x.value.fields), ContentOf(y.value.fields);
    assert cfg.crypto.digest(p) == cfg.crypto.digest(q);
  }

  /** The first line never stores the hash it starts from. */
  lemma TipIsNotGenesis(cfg: Config, x: Line, anchor: Json)
    requires Ideal(cfg.crypto) && Chained(cfg, x, anchor)
    ensures StoredHash(x) != JStr(GENESIS)
  {
  }

  /** Two logs accepted in strict mode with the same tip hold the same chain, line by line. The two
      verifications may use different keys. */
  lemma {:induction false} SameTipSameChain(cfg: Config, cfg': Config, a: seq<Line>, b: seq<Line>)
    requires Ideal(cfg.crypto) && cfg'.crypto == cfg.crypto && RejectsLegacy(cfg) && RejectsLegacy(cfg')
    requires Accepted(cfg, a) && Accepted(cfg', b)
    requires Anchor(a, |a|) == Anchor(b, |b|)
    ensures SameChain(a, b)
    decreases |a|
  {
    hide Accepted, Chained, SameChainFields, StoredHash, Ideal;
    if a != [] {
      StrictLast(cfg, a);
      TipIsNotGenesis(cfg, a[|a| - 1], Anchor(a[..|a| - 1], |a| - 1));
    }
    if b != [] {
      StrictLast(cfg', b);
      TipIsNotGenesis(cfg', b[|b| - 1], Anchor(b[..|b| - 1], |b| - 1));
    }
    if a != [] && b != [] {
      var m, n := |a| - 1, |b| - 1;
      SameHashSameLine(cfg, cfg', a[m], b[n], Anchor(a[..m], m), Anchor(b[..n], n));
      SameTipSameChain(cfg, cfg', a[..m], b[..n]);
      assert forall i | 0 <= i < m :: a[..m][i] == a[i] && b[..m][i] == b[i];
    }
  }

  /** Any change to a strictly accepted log that keeps its tip but alters a hashed field, the number of
      lines or their order is reported. */
  lemma {:induction false} TamperingIsReported(cfg: Config, log: seq<Line>, forged: seq<Line>)
    requires Ideal(cfg.crypto) && RejectsLegacy(cfg) && Accepted(cfg, log)
    requires Anchor(forged, |forged|) == Anchor(log, |log|) && !SameChain(log, forged)
    ensures !Clean(Replay(cfg, forged))
  {
    ReplayDecides(cfg, forged);
    if Accepted(cfg, forged) {
      SameTipSameChain(cfg, cfg, log, forged);
    }
  }

  // ---------------------------------------------------------------- edits in place

  /** The line was edited in its event id, type, run id or payload, and nowhere the chain looks. */
  ghost predicate SilentEdit(a: Line, b: Line) {
    && a.Some? && a.value.JObj? && b.Some? && b.value.JObj?
    && HasContent(a.value.fields) && HasContent(b.value.fields)
    && "hash" in a.value.fields && "hash" in b.value.fields
    && a.value.fields["hash"] == b.value.fields["hash"]
    && Get(a.value.fields, "chain_hmac") == Get(b.value.fields, "chain_hmac")
    && ("chain_hmac" in a.value.fields <==> "chain_hmac" in b.value.fields)
    && a.value.fields["created_at"] == b.value.fields["created_at"]
    && a.value.fields["prev_hash"] == b.value.fields["prev_hash"]
    && ContentOf(a.value.fields) != ContentOf(b.value.fields)
  }

  ghost predicate EditedLog(a: seq<Line>, b: seq<Line>) {
    |a| == |b| && forall i | 0 <= i < |a| :: a[i] == b[i] || SilentEdit(a[i], b[i])
  }

  /** One hash mismatch per edited line, in file order. */
  ghost function EditReports(a: seq<Line>, b: seq<Line>): seq<Failure>
    requires |a| == |b|
  {
    if a == [] then []
    else
      var n := |a| - 1;
      EditReports(a[..n], b[..n]) + if a[n] == b[n] then [] else [Failure(n + 1, n + 1, HashMismatch)]
  }

  /** Failures do not influence what later lines report. */
  lemma StepIgnoresFailures(cfg: Config, s: Scan, line: Line, i: nat)
    requires s.failures == [] && Clean(StepLine(cfg, s, line, i))
    ensures forall fs :: StepLine(cfg, Scan(s.prev, s.last, fs), line, i) ==
                         Going(StepLine(cfg, s, line, i).scan.(failures := fs))
  {
    forall fs
      ensures StepLine(cfg, Scan(s.prev, s.last, fs), line, i) ==
              Going(StepLine(cfg, s, line, i).scan.(failures := fs))
    {
      var o := line.value.fields;
      var single := VerifySingleEvent(cfg, o, s.prev);
      assert Annotate(Found(cfg, single, s.last, o), i + 1) == [];
      assert fs + [] == fs;
    }
  }

  lemma StepReportsEdit(cfg: Config, s: Scan, a: Line, b: Line, i: nat, fs: seq<Failure>)
    requires Ideal(cfg.crypto) && s.failures == [] && Clean(StepLine(cfg, s, a, i)) && SilentEdit(a, b)
    ensures StepLine(cfg, Scan(s.prev, s.last, fs), b, i) ==
            Going(StepLine(cfg, s, a, i).scan.(failures := fs + [Failure(i + 1, i + 1, HashMismatch)]))
  {
    var o := b.value.fields;
    StepIsClean(cfg, s, a, i);
    assert cfg.crypto.digest(ContentOf(a.value.fields)) != cfg.crypto.digest(ContentOf(o));
    var single := VerifySingleEvent(cfg, o, s.prev);
    assert single == Single(Some(o["hash"]), [HashMismatch]);
    assert Annotate([HashMismatch], i + 1) == [Failure(i + 1, i + 1, HashMismatch)];
  }

  /** Editing the unlinked content of any set of lines of an accepted log yields exactly one failure
      per edited line, because the stored hash carries the chain on. */
  lemma {:induction false} EditsAreIsolated(cfg: Config, a: seq<Line>, b: seq<Line>)
    requires Ideal(cfg.crypto) && Accepted(cfg, a) && EditedLog(a, b)
    ensures Replay(cfg, a).Going?
    ensures Replay(cfg, b) == Going(Replay(cfg, a).scan.(failures := EditReports(a, b)))
  {
    ReplayDecides(cfg, a);
    if a != [] {
      var n := |a| - 1;
      AcceptedPrefix(cfg, a, n);
      ReplayDecides(cfg, a[..n]);
      EditsAreIsolated(cfg, a[..n], b[..n]);
      var s := Replay(cfg, a[..n]).scan;
      var fs := EditReports(a[..n], b[..n]);
      if a[n] == b[n] {
        StepIgnoresFailures(cfg, s, a[n], n);
        assert EditReports(a, b) == fs;
      } else {
        StepReportsEdit(cfg, s, a[n], b[n], n, fs);
      }
    }
  }

  lemma {:induction false} SingleReport(a: seq<Line>, b: seq<Line>, i: nat)
    requires |a| == |b| && i < |a| && a[i] != b[i]
    requires forall k | 0 <= k < |a| && k != i :: a[k] == b[k]
    ensures EditReports(a, b) == [Failure(i + 1, i + 1, HashMismatch)]
  {
    var n := |a| - 1;
    if i < n {
      SingleReport(a[..n], b[..n], i);
    } else {
      NoReport(a[..n], b[..n]);
    }
  }

  lemma {:induction false} NoReport(a: seq<Line>, b: seq<Line>)
    requires a == b
    ensures EditReports(a, b) == []
  {
    if a != [] {
      NoReport(a[..|a| - 1], b[..|b| - 1]);
    }
  }

  /** The one-line case: exactly one failure, a hash mismatch on the edited line. */
  lemma OneEditOneFailure(cfg: Config, log: seq<Line>, i: nat, edited: Line)
    requires Ideal(cfg.crypto) && Accepted(cfg, log) && i < |log| && SilentEdit(log[i], edited)
    ensures Replay(cfg, log[i := edited]).Going?
    ensures Replay(cfg, log[i := edited]).scan.failures == [Failure(i + 1, i + 1, HashMismatch)]
  {
    EditsAreIsolated(cfg, log, log[i := edited]);
    SingleReport(log, log[i := edited], i);
  }
}
