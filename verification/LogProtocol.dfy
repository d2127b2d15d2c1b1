/** Any number of loggers appending to one file: every interleaving leaves a log that verifies. */
module LogProtocol {
  import opened Json
  import opened AuditChain
  import opened AuditLog
  import opened Strings

  /** `stamp` prints a clock reading between the first and the last date the clock knows. */
  datatype Clock = Clock(stamp: int -> string, first: int, last: int)

  /** Printed readings parse back, compare like their times, and are not empty; the digest is never the
      empty string. */
  ghost predicate Sound(c: Crypto, clock: Clock) {
    && (forall t, u | clock.first <= t <= clock.last && clock.first <= u <= clock.last ::
          Before(clock.stamp(t), clock.stamp(u)) <==> t < u)
    && (forall t | clock.first <= t <= clock.last ::
          clock.stamp(t) != "" && c.readTime(JStr(clock.stamp(t))) == AtTime(t))
    && (forall x :: c.digest(x) != "")
  }

  ghost predicate IsStamp(clock: Clock, s: string) {
    exists t | clock.first <= t <= clock.last :: s == clock.stamp(t)
  }

  ghost predicate ClockCall(clock: Clock, call: Call) {
    IsStamp(clock, call.opening) && IsStamp(clock, call.inside)
  }

  ghost predicate StampedState(clock: Clock, st: State) {
    st.lastStamp.Some? ==> IsStamp(clock, st.lastStamp.value)
  }

  function Strict(c: Crypto, key: Option<Key>): Config {
    Config(c, key, true, false)
  }

  ghost predicate StampedLine(clock: Clock, line: Line) {
    && line.Some? && line.value.JObj?
    && Get(line.value.fields, "created_at").JStr?
    && IsStamp(clock, Get(line.value.fields, "created_at").s)
  }

  /** A log that strict verification accepts, with the key and without it, stamped by the clock. */
  ghost predicate GoodLog(c: Crypto, key: Key, clock: Clock, lines: seq<Line>) {
    && Accepted(Strict(c, Some(key)), lines)
    && forall i | 0 <= i < |lines| :: StampedLine(clock, lines[i])
  }

  // ---------------------------------------------------------------- one append

  lemma TipOfGoodLog(c: Crypto, key: Key, clock: Clock, lines: seq<Line>)
    requires Sound(c, clock) && GoodLog(c, key, clock, lines)
    ensures JStr(ChainTip(lines).hash) == Anchor(lines, |lines|)
    ensures ChainTip(lines).createdAt.None? <==> LastTime(c, lines).None?
    ensures ChainTip(lines).createdAt.Some? ==>
              && IsStamp(clock, ChainTip(lines).createdAt.value)
              && LastTime(c, lines).Some?
              && c.readTime(JStr(ChainTip(lines).createdAt.value)) == AtTime(LastTime(c, lines).value)
  {
    if lines != [] {
      assert LineOk(Strict(c, Some(key)), lines, |lines| - 1);
      assert StampedLine(clock, lines[|lines| - 1]);
    }
  }

  /** Any entry `record` writes is sealed and signed; only its link and its time can be wrong. */
  lemma EntryIsChained(
      c: Crypto, key: Key, call: Call, created: string, prev: string, anchor: Json)
    ensures var entry := Entry(c, key, call, created, prev);
            && !LegacyLine(entry)
            && (Chained(Strict(c, Some(key)), entry, anchor) <==> JStr(prev) == anchor)
            && entry.Some? && entry.value.JObj? && ReadTime(c, entry.value.fields) == c.readTime(JStr(created))
  {
    var entry := Entry(c, key, call, created, prev);
    assert ContentOf(entry.value.fields) == EntryContent(call, created, prev);
  }

  /** Stamps compare like the times they are read back as. */
  lemma StampsCompare(c: Crypto, clock: Clock, a: string, b: string)
    requires Sound(c, clock) && IsStamp(clock, a) && IsStamp(clock, b)
    ensures c.readTime(JStr(a)).AtTime? && c.readTime(JStr(b)).AtTime?
    ensures Before(a, b) <==> c.readTime(JStr(a)).time < c.readTime(JStr(b)).time
  {
  }

  /** An entry of this code is accepted at the end of a good log exactly when it is linked to the tip
      and not stamped before it; a link to any other hash, such as a stale cached one, forks the chain. */
  lemma AppendAcceptedIff(
      c: Crypto, key: Key, clock: Clock, lines: seq<Line>, call: Call, created: string, prev: string)
    requires Sound(c, clock) && GoodLog(c, key, clock, lines) && IsStamp(clock, created)
    ensures Accepted(Strict(c, Some(key)), lines + [Entry(c, key, call, created, prev)]) <==>
              && prev == ChainTip(lines).hash
              && !(ChainTip(lines).createdAt.Some? && Before(created, ChainTip(lines).createdAt.value))
  {
    hide Sound, IsStamp, Accepted, Chained, LegacyLine, Entry, ChainTip, LastTime, Before;
    var entry := Entry(c, key, call, created, prev);
    var tip := ChainTip(lines);
    TipOfGoodLog(c, key, clock, lines);
    AcceptedSnoc(Strict(c, Some(key)), lines, entry);
    assert (lines + [entry])[|lines|] == entry && Anchor(lines + [entry], |lines|) == Anchor(lines, |lines|);
    EntryIsChained(c, key, call, created, prev, Anchor(lines, |lines|));
    StampsCompare(c, clock, created, if tip.createdAt.Some? then tip.createdAt.value else created);
  }

  lemma ClampStamps(c: Crypto, clock: Clock, now: string, floor: Option<string>)
    requires Sound(c, clock) && IsStamp(clock, now) && (floor.Some? ==> IsStamp(clock, floor.value))
    ensures IsStamp(clock, Clamp(now, floor))
    ensures floor.Some? ==> !Before(Clamp(now, floor), floor.value)
  {
  }

  lemma LatestIsFloor(c: Crypto, clock: Clock, now: string, own: Option<string>, tip: Option<string>)
    requires Sound(c, clock) && IsStamp(clock, now)
    requires (own.Some? ==> IsStamp(clock, own.value)) && (tip.Some? ==> IsStamp(clock, tip.value))
    ensures IsStamp(clock, Clamp(now, Latest(own, tip)))
    ensures tip.Some? ==> !Before(Clamp(now, Latest(own, tip)), tip.value)
  {
    ClampStamps(c, clock, now, Latest(own, tip));
  }

  lemma StampedSnoc(clock: Clock, lines: seq<Line>, line: Line)
    requires (forall i | 0 <= i < |lines| :: StampedLine(clock, lines[i])) && StampedLine(clock, line)
    ensures forall i | 0 <= i < |lines + [line]| :: StampedLine(clock, (lines + [line])[i])
  {
  }

  lemma EntryIsStamped(c: Crypto, key: Key, clock: Clock, call: Call, created: string, prev: string)
    requires IsStamp(clock, created)
    ensures StampedLine(clock, Entry(c, key, call, created, prev))
  {
  }

  /** The critical section keeps the log good, wherever it fails. */
  lemma WriteKeepsGood(c: Crypto, key: Key, clock: Clock, st: State, lines: seq<Line>, call: Call)
    requires Sound(c, clock) && GoodLog(c, key, clock, lines) && StampedState(clock, st) && ClockCall(clock, call)
    ensures GoodLog(c, key, clock, WriteLocked(c, key, st, lines, call).lines)
    ensures StampedState(clock, WriteLocked(c, key, st, lines, call).state)
  {
    hide Sound, IsStamp, Entry, ChainTip, Before, Clamp, Latest, Accepted;
    if !call.fault.AtLock? {
      var tip := ChainTip(lines);
      var created := Clamp(call.inside, Latest(st.lastStamp, tip.createdAt));
      TipOfGoodLog(c, key, clock, lines);
      LatestIsFloor(c, clock, call.inside, st.lastStamp, tip.createdAt);
      AppendAcceptedIff(c, key, clock, lines, call, created, tip.hash);
      EntryIsStamped(c, key, clock, call, created, tip.hash);
      StampedSnoc(clock, lines, Entry(c, key, call, created, tip.hash));
    }
  }

  // ---------------------------------------------------------------- interleaved loggers

  /** Where a logger is inside `record`: outside, waiting for the lock, or past it. */
  datatype Job = Idle | AwaitingLock(call: Call) | PastLock(call: Call, created: string, ok: bool)

  datatype Thread = Thread(compliance: bool, state: State, job: Job)

  datatype System = System(lines: seq<Line>, threads: map<int, Thread>)

  /** The atomic steps of the shared system. A step that does not apply leaves it unchanged. */
  datatype Step =
    | Join(id: int, compliance: bool)   // a logger is constructed on the file
    | Enter(id: int, call: Call)        // a call starts and passes or fails the disk-error gate
    | Write(id: int)                    // the section under the file lock
    | Finish(id: int)                   // the bookkeeping after the lock

  function NextThread(c: Crypto, key: Key, t: Thread, lines: seq<Line>, step: Step): (Thread, seq<Line>)
    requires !step.Join?
  {
    match step
    case Enter(_, call) =>
      if !t.job.Idle? then (t, lines)
      else if MayWrite(t.state, call.gateAt) then (t.(job := AwaitingLock(call)), lines)
      else (t.(state := KeepInMemory(t.state, call).0), lines)
    case Write(_) =>
      if !t.job.AwaitingLock? then (t, lines)
      else
        var w := WriteLocked(c, key, t.state, lines, t.job.call);
        (t.(state := w.state, job := PastLock(t.job.call, w.created, w.ok)), w.lines)
    case Finish(_) =>
      if !t.job.PastLock? then (t, lines)
      else (Thread(t.compliance, Settle(t.compliance, t.state, t.job.call, t.job.created, t.job.ok).0, Idle), lines)
  }

  function Next(c: Crypto, key: Key, sys: System, step: Step): System {
    if step.Join? then
      if step.id in sys.threads || Recover(sys.lines).None? then sys
      else sys.(threads := sys.threads[step.id := Thread(step.compliance, Recover(sys.lines).value, Idle)])
    else if step.id !in sys.threads then sys
    else
      var (t, lines) := NextThread(c, key, sys.threads[step.id], sys.lines, step);
      System(lines, sys.threads[step.id := t])
  }

  function Run(c: Crypto, key: Key, sys: System, steps: seq<Step>): System {
    if steps == [] then sys
    else Next(c, key, Run(c, key, sys, steps[..|steps| - 1]), steps[|steps| - 1])
  }

  ghost predicate GoodThread(clock: Clock, t: Thread) {
    StampedState(clock, t.state) && (t.job.AwaitingLock? ==> ClockCall(clock, t.job.call))
  }

  ghost predicate GoodSystem(c: Crypto, key: Key, clock: Clock, sys: System) {
    && GoodLog(c, key, clock, sys.lines)
    && forall id | id in sys.threads :: GoodThread(clock, sys.threads[id])
  }

  ghost predicate ClockSteps(clock: Clock, steps: seq<Step>) {
    forall i | 0 <= i < |steps| && steps[i].Enter? :: ClockCall(clock, steps[i].call)
  }

  lemma {:induction false} RecoverIsStamped(clock: Clock, lines: seq<Line>)
    requires forall i | 0 <= i < |lines| :: StampedLine(clock, lines[i])
    ensures Recover(lines).Some? && StampedState(clock, Recover(lines).value)
  {
    if lines != [] {
      assert StampedLine(clock, lines[|lines| - 1]);
      RecoverIsStamped(clock, lines[..|lines| - 1]);
    }
  }

  lemma NextKeepsGood(c: Crypto, key: Key, clock: Clock, sys: System, step: Step)
    requires Sound(c, clock) && GoodSystem(c, key, clock, sys)
    requires step.Enter? ==> ClockCall(clock, step.call)
    ensures GoodSystem(c, key, clock, Next(c, key, sys, step))
  {
    match step
    case Join(_, _) => RecoverIsStamped(clock, sys.lines);
    case Enter(id, call) =>
      if id in sys.threads {
        ClampStamps(c, clock, call.opening, sys.threads[id].state.lastStamp);
      }
    case Write(id) =>
      if id in sys.threads && sys.threads[id].job.AwaitingLock? {
        WriteKeepsGood(c, key, clock, sys.threads[id].state, sys.lines, sys.threads[id].job.call);
      }
    case Finish(id) =>
  }

  lemma {:induction false} RunKeepsGood(c: Crypto, key: Key, clock: Clock, sys: System, steps: seq<Step>)
    requires Sound(c, clock) && GoodSystem(c, key, clock, sys) && ClockSteps(clock, steps)
    ensures GoodSystem(c, key, clock, Run(c, key, sys, steps))
  {
    if steps != [] {
      var n := |steps| - 1;
      assert ClockSteps(clock, steps[..n]);
      RunKeepsGood(c, key, clock, sys, steps[..n]);
      NextKeepsGood(c, key, clock, Run(c, key, sys, steps[..n]), steps[n]);
    }
  }

  lemma KeyIsOptional(c: Crypto, key: Key, lines: seq<Line>)
    requires Accepted(Strict(c, Some(key)), lines)
    ensures Accepted(Strict(c, None), lines)
  {
    forall i | 0 <= i < |lines| ensures LineOk(Strict(c, None), lines, i) {
      assert LineOk(Strict(c, Some(key)), lines, i);
    }
  }

  /** Every run of any loggers on one key and one good file (an empty one, say), with arbitrary clocks
      and faults before or after a line lands, leaves a log in which strict verification finds no
      failure, with the key and without it. */
  lemma EveryInterleavingVerifies(c: Crypto, key: Key, clock: Clock, start: seq<Line>, steps: seq<Step>)
    requires Sound(c, clock) && ClockSteps(clock, steps)
    requires start == [] || GoodLog(c, key, clock, start)
    ensures var log := Run(c, key, System(start, map[]), steps).lines;
            Clean(Replay(Strict(c, Some(key)), log)) && Clean(Replay(Strict(c, None), log))
  {
    RunKeepsGood(c, key, clock, System(start, map[]), steps);
    var log := Run(c, key, System(start, map[]), steps).lines;
    KeyIsOptional(c, key, log);
    ReplayDecides(Strict(c, Some(key)), log);
    ReplayDecides(Strict(c, None), log);
  }

  /** A line of the log is never changed or removed: the file of an earlier moment is a prefix. */
  lemma {:induction false} LogOnlyGrows(c: Crypto, key: Key, sys: System, steps: seq<Step>)
    ensures sys.lines <= Run(c, key, sys, steps).lines
  {
    if steps != [] {
      LogOnlyGrows(c, key, sys, steps[..|steps| - 1]);
    }
  }

  /** Without interference the three steps of a call are the whole call. */
  lemma ThreeStepsAreOneCall(l: Logger, sys: System, id: int, call: Call)
    requires id in sys.threads && sys.threads[id].job.Idle? && sys.threads[id].compliance == l.compliance
    ensures var sys' := Next(l.crypto, l.key, Next(l.crypto, l.key, Next(l.crypto, l.key, sys,
                        Enter(id, call)), Write(id)), Finish(id));
            var (st, lines, _) := RecordStep(l, sys.threads[id].state, sys.lines, call);
            sys' == System(lines, sys.threads[id := Thread(l.compliance, st, Idle)])
  {
  }
}
