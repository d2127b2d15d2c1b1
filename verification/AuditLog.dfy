/** The append side of the audit log: `AuditLogger.record` and its disk-error state (teaagent/audit.py). */
module AuditLog {
  import opened Json
  import opened AuditChain
  import opened Strings

  const COOLDOWN: real := 30.0

  datatype AuditEvent = AuditEvent(
    eventType: string, runId: string, payload: Json, eventId: string, createdAt: string)

  /** Where an OSError interrupts the disk write: taking the lock or reading the tip, opening the file,
      flushing a line that has landed, or leaving the lock. */
  datatype Fault = NoFault | AtLock | AtOpen | AtSync | AtUnlock

  /** One call of `record`, with the answers of its environment. `payload` is the payload after level
      filtering and redaction, `onDisk` what is written (the same, below level L3); `opening` and
      `inside` are the two readings of `utc_now`, `gateAt` and `failAt` those of `time.monotonic`. */
  datatype Call = Call(
    eventType: string, runId: string, payload: Json, onDisk: Json, eventId: string,
    opening: string, inside: string, gateAt: real, failAt: real,
    errorId: string, errorStamp: string, errorPayload: Json, fault: Fault)

  datatype State = State(
    prevHash: Json, lastStamp: Option<string>,
    diskError: bool, lastErrorAt: real, failures: nat, events: seq<AuditEvent>)

  datatype Recorded = Logged(event: AuditEvent) | DurabilityError

  // ---------------------------------------------------------------- reading the tip

  datatype Tip = Tip(hash: string, createdAt: Option<string>)

  function StringOf(j: Json): Option<string> {
    if j.JStr? then Some(j.s) else None
  }

  predicate IsHashed(line: Line) {
    line.Some? && line.value.JObj? && Get(line.value.fields, "hash").JStr? && Get(line.value.fields, "hash").s != ""
  }

  /** The last line that is an object with a non-empty string hash. */
  function ChainTip(lines: seq<Line>): Tip {
    if lines == [] then Tip(GENESIS, None)
    else
      var last := lines[|lines| - 1];
      if IsHashed(last) then Tip(Get(last.value.fields, "hash").s, StringOf(Get(last.value.fields, "created_at")))
      else ChainTip(lines[..|lines| - 1])
  }

  const NEW_STATE := State(JStr(GENESIS), None, false, 0.0, 0, [])

  /** `'hash' in entry` or `entry['hash']` is a TypeError, for an entry that is not an object. */
  predicate LookupRaises(j: Json) {
    match j
    case JObj(_) => false
    case JArr(items) => JStr("hash") in items
    case JStr(s) => Contains(s, "hash")
    case _ => true
  }

  /** What a new logger takes over from an existing file: the last line that has a hash field. None stands for
      the exception of a later line that is JSON but cannot be looked into. */
  function Recover(lines: seq<Line>): Option<State> {
    if lines == [] then Some(NEW_STATE)
    else
      var last := lines[|lines| - 1];
      if last.Some? && LookupRaises(last.value) then None
      else if last.Some? && last.value.JObj? && "hash" in last.value.fields then
        var o := last.value.fields;
        Some(NEW_STATE.(prevHash := o["hash"], lastStamp := StringOf(Get(o, "created_at"))))
      else Recover(lines[..|lines| - 1])
  }

  /** The tip is read off the last line that is an object whose `hash` is a string other than "". */
  lemma {:induction false} TipIsLastHashed(lines: seq<Line>, o: Fields, rest: seq<Line>)
    requires "hash" in o && o["hash"].JStr? && o["hash"].s != ""
    requires forall i | 0 <= i < |rest| && rest[i].Some? && rest[i].value.JObj? ::
               "hash" in rest[i].value.fields ==>
               !rest[i].value.fields["hash"].JStr? || rest[i].value.fields["hash"].s == ""
    ensures ChainTip(lines + [Some(JObj(o))] + rest) ==
            Tip(o["hash"].s, if "created_at" in o && o["created_at"].JStr? then Some(o["created_at"].s) else None)
  {
    var all := lines + [Some(JObj(o))] + rest;
    if rest == [] {
      assert all == lines + [Some(JObj(o))];
    } else {
      var n := |rest| - 1;
      TipIsLastHashed(lines, o, rest[..n]);
      assert all[..|all| - 1] == lines + [Some(JObj(o))] + rest[..n] && all[|all| - 1] == rest[n];
    }
  }

  /** The line neither has a hash field nor makes the search raise. */
  predicate Passed(line: Line) {
    || line.None?
    || (line.value.JObj? && "hash" !in line.value.fields)
    || (line.value.JArr? && JStr("hash") !in line.value.items)
    || (line.value.JStr? && !Contains(line.value.s, "hash"))
  }

  /** A new logger searches from the end and passes over lines without a hash field. An object with one gives
      tip and stamp; any other JSON value raises; without either the logger starts from genesis. */
  lemma {:induction false} RecoverFrom(lines: seq<Line>, j: Json, rest: seq<Line>)
    requires !Passed(Some(j)) && forall i | 0 <= i < |rest| :: Passed(rest[i])
    ensures j.JObj? ==>
              Recover(lines + [Some(j)] + rest) == Some(State(
                j.fields["hash"],
                if "created_at" in j.fields && j.fields["created_at"].JStr? then Some(j.fields["created_at"].s)
                else None,
                false, 0.0, 0, []))
    ensures !j.JObj? ==> Recover(lines + [Some(j)] + rest).None?
  {
    var all := lines + [Some(j)] + rest;
    if rest == [] {
      assert all == lines + [Some(j)];
    } else {
      var n := |rest| - 1;
      RecoverFrom(lines, j, rest[..n]);
      assert all[..|all| - 1] == lines + [Some(j)] + rest[..n] && all[|all| - 1] == rest[n];
    }
  }

  lemma {:induction false} RecoverNothing(lines: seq<Line>)
    requires forall i | 0 <= i < |lines| :: Passed(lines[i])
    ensures Recover(lines) == Some(State(JStr("genesis"), None, false, 0.0, 0, []))
  {
    if lines != [] {
      RecoverNothing(lines[..|lines| - 1]);
    }
  }

  // ---------------------------------------------------------------- the steps of one call

  /** `disk_error` is None: no error, or its cooldown is over. */
  predicate MayWrite(st: State, now: real) {
    !st.diskError || now - st.lastErrorAt >= COOLDOWN
  }

  function EntryContent(call: Call, created: string, prev: string): Content {
    Content(JStr(call.eventId), JStr(call.eventType), JStr(call.runId), JStr(created), call.onDisk, JStr(prev))
  }

  /** The line `record` writes. */
  function Entry(c: Crypto, key: Key, call: Call, created: string, prev: string): Line {
    var hash := c.digest(EntryContent(call, created, prev));
    Some(JObj(map[
                "event_id" := JStr(call.eventId), "event_type" := JStr(call.eventType),
                "run_id" := JStr(call.runId), "created_at" := JStr(created),
                "payload" := call.onDisk, "prev_hash" := JStr(prev),
                "hash" := JStr(hash), "chain_hmac" := JStr(c.mac(hash, key))]))
  }

  /** The later of the logger's own last stamp and the tip's. */
  function Latest(own: Option<string>, tip: Option<string>): Option<string> {
    if tip.Some? && (own.None? || Before(own.value, tip.value)) then tip else own
  }

  function Clamp(now: string, floor: Option<string>): string {
    if floor.Some? && floor.value != "" && Before(now, floor.value) then floor.value else now
  }

  datatype Written = Written(state: State, lines: seq<Line>, created: string, ok: bool)

  /** The part of `record` that runs under the file lock. */
  function WriteLocked(c: Crypto, key: Key, st: State, lines: seq<Line>, call: Call): Written {
    if call.fault.AtLock? then Written(st, lines, call.opening, false)
    else
      var tip := ChainTip(lines);
      var created := Clamp(call.inside, Latest(st.lastStamp, tip.createdAt));
      var stamped := st.(lastStamp := Some(created));
      if call.fault.AtOpen? then Written(stamped, lines, created, false)
      else
        var landed := lines + [Entry(c, key, call, created, tip.hash)];
        if call.fault.AtSync? then Written(stamped, landed, created, false)
        else
          var hash := c.digest(EntryContent(call, created, tip.hash));
          Written(stamped.(prevHash := JStr(hash)), landed, created, call.fault.NoFault?)
  }

  function EventOf(call: Call, created: string): AuditEvent {
    AuditEvent(call.eventType, call.runId, call.payload, call.eventId, created)
  }

  function ErrorEvent(call: Call): AuditEvent {
    AuditEvent("_disk_write_error", call.runId, call.errorPayload, call.errorId, call.errorStamp)
  }

  /** The bookkeeping after the lock is released. */
  function Settle(compliance: bool, st: State, call: Call, created: string, ok: bool): (State, Recorded) {
    var event := EventOf(call, created);
    if ok then
      (st.(diskError := false, lastErrorAt := 0.0, failures := 0, events := st.events + [event]), Logged(event))
    else
      var failed := st.(diskError := true, lastErrorAt := call.failAt, failures := st.failures + 1,
                        events := st.events + [ErrorEvent(call)]);
      if compliance || failed.failures >= 3 then (failed, DurabilityError)
      else (failed.(events := failed.events + [event]), Logged(event))
  }

  /** A call that does not touch the disk. */
  function KeepInMemory(st: State, call: Call): (State, Recorded) {
    var created := Clamp(call.opening, st.lastStamp);
    var event := EventOf(call, created);
    (st.(lastStamp := Some(created), events := st.events + [event]), Logged(event))
  }

  datatype Logger = Logger(crypto: Crypto, key: Key, compliance: bool)

  /** A whole uninterrupted call on a logger that has a file. */
  function RecordStep(l: Logger, st: State, lines: seq<Line>, call: Call): (State, seq<Line>, Recorded) {
    if MayWrite(st, call.gateAt) then
      var w := WriteLocked(l.crypto, l.key, st, lines, call);
      var (st', r) := Settle(l.compliance, w.state, call, w.created, w.ok);
      (st', w.lines, r)
    else
      var (st', r) := KeepInMemory(st, call);
      (st', lines, r)
  }

  // ---------------------------------------------------------------- the logger object

  class LogFile {
    var lines: seq<Line>
    constructor ()
      ensures lines == []
    {
      lines := [];
    }
  }

  class AuditLogger {
    const file: LogFile?
    const config: Logger
    var prevHash: Json
    var lastStamp: Option<string>
    var diskError: bool
    var lastErrorAt: real
    var consecutiveFailures: nat
    var events: seq<AuditEvent>

    ghost function View(): State
      reads this
    {
      State(prevHash, lastStamp, diskError, lastErrorAt, consecutiveFailures, events)
    }

    constructor (file: LogFile?, config: Logger, prevHash: Json, lastStamp: Option<string>)
      ensures this.file == file && this.config == config
      ensures View() == NEW_STATE.(prevHash := prevHash, lastStamp := lastStamp)
    {
      this.file, this.config, this.prevHash, this.lastStamp := file, config, prevHash, lastStamp;
      diskError, lastErrorAt, consecutiveFailures, events := false, 0.0, 0, [];
    }

    /** `AuditLogger(...)`: a new logger recovers its cached tip from the last line with a hash, searched from
        the end; null if the search raises. */
    static method Open(file: LogFile?, config: Logger) returns (logger: AuditLogger?)
      ensures logger == null <==> file != null && Recover(file.lines).None?
      ensures logger != null ==>
                && fresh(logger) && logger.file == file && logger.config == config
                && Some(logger.View()) == if file == null then Some(NEW_STATE) else Recover(file.lines)
    {
      var prevHash, lastStamp := JStr(GENESIS), None;
      if file != null {
        var i := |file.lines|;
        assert file.lines[..i] == file.lines;
        while i > 0
          invariant i <= |file.lines|
          invariant Recover(file.lines) == Recover(file.lines[..i])
        {
          i := i - 1;
          assert file.lines[..i + 1][..i] == file.lines[..i];
          var line := file.lines[i];
          if line.Some? && LookupRaises(line.value) {
            return null;
          }
          if line.Some? && line.value.JObj? && "hash" in line.value.fields {
            prevHash := line.value.fields["hash"];
            lastStamp := StringOf(Get(line.value.fields, "created_at"));
            logger := new AuditLogger(file, config, prevHash, lastStamp);
            return;
          }
        }
      }
      logger := new AuditLogger(file, config, prevHash, lastStamp);
    }

    /** The critical section: re-read the tip, clamp the timestamp, link, write. The result is the
        timestamp in effect and whether the section ended without an error. */
    method WriteUnderLock(call: Call) returns (created: string, ok: bool)
      requires file != null
      modifies this, file
      ensures Written(View(), file.lines, created, ok) ==
              WriteLocked(config.crypto, config.key, old(View()), old(file.lines), call)
    {
      created := call.opening;
      if call.fault.AtLock? {
        return created, false;
      }
      var tip := ChainTip(file.lines);
      if tip.createdAt.Some? && (lastStamp.None? || Before(lastStamp.value, tip.createdAt.value)) {
        lastStamp := tip.createdAt;
      }
      created := call.inside;
      if lastStamp.Some? && lastStamp.value != "" && Before(created, lastStamp.value) {
        created := lastStamp.value;
      }
      lastStamp := Some(created);
      if call.fault.AtOpen? {
        return created, false;
      }
      var hash := config.crypto.digest(EntryContent(call, created, tip.hash));
      file.lines := file.lines + [Entry(config.crypto, config.key, call, created, tip.hash)];
      if call.fault.AtSync? {
        return created, false;
      }
      prevHash := JStr(hash);
      ok := call.fault.NoFault?;
    }

    method Record(call: Call) returns (r: Recorded)
      modifies this, file
      ensures file == null ==> (View(), r) == KeepInMemory(old(View()), call)
      ensures file != null ==>
                (View(), file.lines, r) == RecordStep(config, old(View()), old(file.lines), call)
    {
      if file != null && (!diskError || call.gateAt - lastErrorAt >= COOLDOWN) {
        var created, ok := WriteUnderLock(call);
        if ok {
          diskError, lastErrorAt, consecutiveFailures := false, 0.0, 0;
        } else {
          diskError, lastErrorAt, consecutiveFailures := true, call.failAt, consecutiveFailures + 1;
          events := events + [ErrorEvent(call)];
          if config.compliance || consecutiveFailures >= 3 {
            return DurabilityError;
          }
        }
        events := events + [EventOf(call, created)];
        return Logged(EventOf(call, created));
      }
      var created := call.opening;
      if lastStamp.Some? && lastStamp.value != "" && Before(created, lastStamp.value) {
        created := lastStamp.value;
      }
      lastStamp := Some(created);
      events := events + [EventOf(call, created)];
      return Logged(EventOf(call, created));
    }
  }
}
