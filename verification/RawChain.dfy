/** The two older verifiers of teaagent/audit.py, which read absent fields as null. */
module RawChain {
  import opened Json
  import opened AuditChain

  datatype RawError = LinkError(index: nat) | HashError(index: nat)

  function RawContent(o: Fields): Content {
    Content(Get(o, "event_id"), Get(o, "event_type"), Get(o, "run_id"),
            Get(o, "created_at"), Get(o, "payload"), Get(o, "prev_hash"))
  }

  /** The anchor after an event: its stored hash unless that is falsy, else the recomputed one. */
  function RawAnchor(c: Crypto, events: seq<Fields>): Json {
    if events == [] then JStr(GENESIS)
    else
      var last := events[|events| - 1];
      if Truthy(Get(last, "hash")) then Get(last, "hash") else JStr(c.digest(RawContent(last)))
  }

  function RawErrorsAt(c: Crypto, prev: Json, o: Fields, i: nat): seq<RawError> {
    (if Get(o, "prev_hash") != prev then [LinkError(i)] else []) +
    (if Get(o, "hash") != JStr(c.digest(RawContent(o))) then [HashError(i)] else [])
  }

  function RawErrors(c: Crypto, events: seq<Fields>): seq<RawError> {
    if events == [] then []
    else
      var n := |events| - 1;
      RawErrors(c, events[..n]) + RawErrorsAt(c, RawAnchor(c, events[..n]), events[n], n)
  }

  /** The loop of `_verify_raw_chain`, which `verify_chain_integrity` repeats. */
  method VerifyRawChain(c: Crypto, events: seq<Fields>) returns (errors: seq<RawError>)
    ensures errors == RawErrors(c, events)
  {
    errors := [];
    var prev: Json := JStr(GENESIS);
    for i := 0 to |events|
      invariant errors == RawErrors(c, events[..i])
      invariant prev == RawAnchor(c, events[..i])
    {
      assert events[..i + 1][..i] == events[..i];
      var eventHash := Get(events[i], "hash");
      var eventPrev := Get(events[i], "prev_hash");
      if eventPrev != prev {
        errors := errors + [LinkError(i)];
      }
      var computed := c.digest(RawContent(events[i]));
      if eventHash != JStr(computed) {
        errors := errors + [HashError(i)];
      }
      prev := if Truthy(eventHash) then eventHash else JStr(computed);
    }
    assert events[..|events|] == events;
  }

  /** What the event in front leaves as anchor: its stored hash unless that is falsy, else the recomputed one. */
  function LeftBy(c: Crypto, o: Fields): Json {
    if Truthy(Get(o, "hash")) then Get(o, "hash") else JStr(c.digest(RawContent(o)))
  }

  lemma AnchorIs(c: Crypto, events: seq<Fields>)
    ensures RawAnchor(c, events) == if events == [] then JStr("genesis") else LeftBy(c, events[|events| - 1])
  {
  }

  lemma InSum(a: seq<RawError>, b: seq<RawError>, e: RawError)
    ensures e in a + b <==> e in a || e in b
  {
  }

  lemma ErrorsOfOne(c: Crypto, prev: Json, o: Fields, n: nat, e: RawError)
    ensures e in RawErrorsAt(c, prev, o, n) <==>
            || (e == LinkError(n) && Get(o, "prev_hash") != prev)
            || (e == HashError(n) && Get(o, "hash") != JStr(c.digest(RawContent(o))))
  {
    hide RawContent;
  }

  lemma ErrorsOfLast(c: Crypto, events: seq<Fields>, e: RawError)
    requires events != []
    ensures var n := |events| - 1;
            e in RawErrors(c, events) <==>
            || e in RawErrors(c, events[..n])
            || (e == LinkError(n) &&
                Get(events[n], "prev_hash") != if n == 0 then JStr("genesis") else LeftBy(c, events[n - 1]))
            || (e == HashError(n) && Get(events[n], "hash") != JStr(c.digest(RawContent(events[n]))))
  {
    hide RawContent, RawErrorsAt, RawAnchor, LeftBy;
    var n := |events| - 1;
    AnchorIs(c, events[..n]);
    ErrorsOfOne(c, RawAnchor(c, events[..n]), events[n], n, e);
    InSum(RawErrors(c, events[..n]), RawErrorsAt(c, RawAnchor(c, events[..n]), events[n], n), e);
  }

  /** What each error of the older loops says: the link differs from what the event before left, or the hash from
      the recomputed one. */
  lemma {:induction false} RawErrorsIff(c: Crypto, events: seq<Fields>, i: nat)
    ensures LinkError(i) in RawErrors(c, events) <==>
              i < |events| &&
              Get(events[i], "prev_hash") != if i == 0 then JStr("genesis") else LeftBy(c, events[i - 1])
    ensures HashError(i) in RawErrors(c, events) <==>
              i < |events| && Get(events[i], "hash") != JStr(c.digest(RawContent(events[i])))
  {
    if events != [] {
      hide RawErrors, RawContent, Truthy, LeftBy;
      RawErrorsIff(c, events[..|events| - 1], i);
      ErrorsOfLast(c, events, LinkError(i));
      ErrorsOfLast(c, events, HashError(i));
    }
  }

  /** The errors come in file order, the link of an event before its hash, none twice. */
  ghost predicate InFileOrder(errors: seq<RawError>) {
    forall i, j | 0 <= i < j < |errors| ::
      errors[i].index < errors[j].index ||
      (errors[i].index == errors[j].index && errors[i].LinkError? && errors[j].HashError?)
  }

  lemma OrderConcat(a: seq<RawError>, b: seq<RawError>, n: nat)
    requires InFileOrder(a) && InFileOrder(b)
    requires (forall i | 0 <= i < |a| :: a[i].index < n) && (forall i | 0 <= i < |b| :: b[i].index == n)
    ensures InFileOrder(a + b) && forall i | 0 <= i < |a + b| :: (a + b)[i].index <= n
  {
  }

  lemma {:induction false} RawErrorsInOrder(c: Crypto, events: seq<Fields>)
    ensures InFileOrder(RawErrors(c, events))
    ensures forall i | 0 <= i < |RawErrors(c, events)| :: RawErrors(c, events)[i].index < |events|
  {
    if events != [] {
      var n := |events| - 1;
      RawErrorsInOrder(c, events[..n]);
      OrderConcat(RawErrors(c, events[..n]), RawErrorsAt(c, RawAnchor(c, events[..n]), events[n], n), n);
    }
  }

  function Dicts(lines: seq<Line>): seq<Fields>
    requires AllObjects(lines)
  {
    seq(|lines|, i requires 0 <= i < |lines| => lines[i].value.fields)
  }

  /** Failed stands for the caught exception: a line that is not JSON, or not an object. */
  datatype Integrity = NoFile | Failed | Checked(total: nat, errors: seq<RawError>)

  /** `verify_chain_integrity` over the non-blank lines of a file; valid means Checked with no error. */
  method VerifyChainIntegrity(c: Crypto, file: Option<seq<Line>>) returns (r: Integrity)
    ensures r.NoFile? <==> file.None?
    ensures r.Failed? <==> file.Some? && !AllObjects(file.value)
    ensures r.Checked? ==> r.total == |file.value| && r.errors == RawErrors(c, Dicts(file.value))
  {
    if file.None? {
      return NoFile;
    }
    if !AllObjects(file.value) {
      return Failed;
    }
    var errors := VerifyRawChain(c, Dicts(file.value));
    return Checked(|file.value|, errors);
  }

  // ---------------------------------------------------------------- agreement with the strict replay

  predicate Integral(c: Category) {
    c != MissingFields && c != PrevHashMismatch && c != HashMismatch
  }

  predicate AllIntegral(failures: seq<Failure>) {
    failures == [] || (Integral(failures[|failures| - 1].category) && AllIntegral(failures[..|failures| - 1]))
  }

  /** The replay ran to the end and reported no missing field, no broken link and no wrong hash. */
  predicate Intact(p: Progress) {
    p.Going? && AllIntegral(p.scan.failures)
  }

  lemma {:induction false} IntegralConcat(a: seq<Failure>, b: seq<Failure>)
    ensures AllIntegral(a + b) <==> AllIntegral(a) && AllIntegral(b)
  {
    if b == [] {
      assert a + b == a;
    } else {
      assert (a + b)[..|a + b| - 1] == a + b[..|b| - 1];
      IntegralConcat(a, b[..|b| - 1]);
    }
  }

  lemma {:induction false} IntegralAnnotated(found: seq<Category>, number: nat)
    ensures AllIntegral(Annotate(found, number)) <==> forall c | c in found :: Integral(c)
  {
    if found != [] {
      var n := |found| - 1;
      IntegralAnnotated(found[..n], number);
      IntegralConcat(Annotate(found[..n], number), [Failure(number, number, found[n])]);
      assert found == found[..n] + [found[n]];
    }
  }

  /** On one object the two loops look for the same faults. */
  lemma SameFaults(cfg: Config, prev: Json, o: Fields)
    requires RejectsLegacy(cfg)
    ensures var single := VerifySingleEvent(cfg, o, prev);
            (single.Single? && forall c | c in single.found :: Integral(c)) <==>
            HasContent(o) && RawErrorsAt(cfg.crypto, prev, o, 0) == []
  {
    var single := VerifySingleEvent(cfg, o, prev);
    if HasContent(o) {
      assert RawContent(o) == ContentOf(o);
    }
    if single.Single? && !(HasContent(o) && RawErrorsAt(cfg.crypto, prev, o, 0) == []) {
      assert MissingFields in single.found || PrevHashMismatch in single.found || HashMismatch in single.found;
    }
  }

  lemma FoundIntegral(cfg: Config, s: Scan, o: Fields, single: Single, i: nat)
    requires single.Single?
    ensures AllIntegral(s.failures + Annotate(Found(cfg, single, s.last, o), i + 1)) <==>
              AllIntegral(s.failures) && forall c | c in single.found :: Integral(c)
  {
    var found := Found(cfg, single, s.last, o);
    IntegralAnnotated(found, i + 1);
    IntegralConcat(s.failures, Annotate(found, i + 1));
  }

  lemma StepIsIntact(cfg: Config, s: Scan, o: Fields, i: nat)
    requires RejectsLegacy(cfg)
    ensures Intact(StepLine(cfg, s, Some(JObj(o)), i)) <==>
              && AllIntegral(s.failures) && HasContent(o) && !ReadTime(cfg.crypto, o).TimeRaises?
              && RawErrorsAt(cfg.crypto, s.prev, o, i) == []
    ensures Intact(StepLine(cfg, s, Some(JObj(o)), i)) ==>
              StepLine(cfg, s, Some(JObj(o)), i).scan.prev == JStr(cfg.crypto.digest(RawContent(o)))
  {
    SameFaults(cfg, s.prev, o);
    var single := VerifySingleEvent(cfg, o, s.prev);
    if single.Single? {
      FoundIntegral(cfg, s, o, single, i);
    }
  }

  /** What the strict replay looks at and the older loops do not: the hashed fields are all there, and
      no timestamp makes the verifier raise. */
  ghost predicate AllContent(c: Crypto, events: seq<Fields>) {
    forall i | 0 <= i < |events| :: HasContent(events[i]) && !ReadTime(c, events[i]).TimeRaises?
  }

  lemma AllContentSnoc(c: Crypto, events: seq<Fields>, o: Fields)
    ensures AllContent(c, events + [o]) <==>
              AllContent(c, events) && HasContent(o) && !ReadTime(c, o).TimeRaises?
  {
    var all := events + [o];
    assert all[|events|] == o && forall i | 0 <= i < |events| :: all[i] == events[i];
  }

  /** The older loops on one more event. */
  lemma RawSnoc(c: Crypto, events: seq<Fields>, o: Fields)
    requires forall x :: c.digest(x) != ""
    ensures RawErrors(c, events + [o]) == RawErrors(c, events) + RawErrorsAt(c, RawAnchor(c, events), o, |events|)
    ensures RawErrorsAt(c, RawAnchor(c, events), o, |events|) == [] ==>
              RawAnchor(c, events + [o]) == JStr(c.digest(RawContent(o)))
  {
    assert (events + [o])[..|events|] == events;
  }

  /** On any log of objects, the strict replay finds the chain intact exactly when the older loops report
      no error, every line carries the hashed fields and no timestamp raises; those loops check neither. */
  lemma {:induction false} OlderVerifiersAgree(cfg: Config, lines: seq<Line>)
    requires RejectsLegacy(cfg) && AllObjects(lines)
    requires forall x :: cfg.crypto.digest(x) != ""
    ensures Intact(Replay(cfg, lines)) <==>
              && RawErrors(cfg.crypto, Dicts(lines)) == []
              && AllContent(cfg.crypto, Dicts(lines))
    ensures Intact(Replay(cfg, lines)) ==> Replay(cfg, lines).scan.prev == RawAnchor(cfg.crypto, Dicts(lines))
  {
    if lines != [] {
      hide StepLine, HasContent, RawErrors, RawErrorsAt, RawAnchor, RawContent, AllContent, ReadTime, AllIntegral;
      var n := |lines| - 1;
      var events, o := Dicts(lines[..n]), lines[n].value.fields;
      OlderVerifiersAgree(cfg, lines[..n]);
      assert Dicts(lines) == events + [o];
      AllContentSnoc(cfg.crypto, events, o);
      RawSnoc(cfg.crypto, events, o);
      if Replay(cfg, lines[..n]).Going? {
        assert lines[n] == Some(JObj(o));
        StepIsIntact(cfg, Replay(cfg, lines[..n]).scan, o, n);
      }
    } else {
      assert Dicts(lines) == [];
    }
  }

  /** The older loops accept a line that lacks a hashed field, if its hash was taken over null. */
  lemma OlderVerifiersMissAbsentFields(c: Crypto)
    requires forall x :: c.digest(x) != ""
    ensures exists o: Fields :: !HasContent(o) && RawErrors(c, [o]) == []
  {
    var h := c.digest(Content(JNull, JNull, JNull, JNull, JNull, JStr(GENESIS)));
    var o: Fields := map["prev_hash" := JStr(GENESIS), "hash" := JStr(h)];
    assert RawErrors(c, [o][..0]) == [];
    assert RawErrors(c, [o]) == [];
  }
}
