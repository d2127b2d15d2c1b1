/** What one logger does call by call, told by its history alone: when it tries the disk, what lands, when it
    raises, and which events memory holds (`AuditLogger.record`, teaagent/audit.py). */
module LoggerMemory {
  import opened Json
  import opened AuditChain
  import opened AuditLog
  import opened DiskFaults
  import opened Sequences
  import opened Strings

  // ---------------------------------------------------------------- one call

  /** A call tries the disk unless the last attempt failed less than 30 seconds ago. */
  predicate Tries(attempts: seq<Attempt>, call: Call) {
    attempts == [] || attempts[|attempts| - 1].ok || call.gateAt - attempts[|attempts| - 1].failAt >= 30.0
  }

  /** The state remembers the last attempt, whatever the clock does. */
  ghost predicate Recalls(h: History) {
    && (h.state.diskError <==> h.attempts != [] && !h.attempts[|h.attempts| - 1].ok)
    && (h.state.diskError ==> h.state.lastErrorAt == h.attempts[|h.attempts| - 1].failAt)
    && h.state.failures == Trailing(h.attempts)
  }

  lemma TakeRecalls(l: Logger, h: History, turn: Turn)
    requires !h.raised && Recalls(h)
    ensures Recalls(Take(l, h, turn))
  {
    var a := Attempt(turn.call.gateAt, turn.call.failAt, turn.call.fault.NoFault?);
    TakeEffect(l, h, turn);
    TrailingSnoc(h.attempts, a);
    hide Take, Trailing;
  }

  lemma {:induction false} PlayRecalls(l: Logger, start: seq<Line>, turns: seq<Turn>)
    requires Recover(start).Some?
    ensures Recalls(Play(l, start, turns))
  {
    OpenedIsIdle(start);
    if turns != [] {
      PlayRecalls(l, start, turns[..|turns| - 1]);
      if !Play(l, start, turns[..|turns| - 1]).raised {
        TakeRecalls(l, Play(l, start, turns[..|turns| - 1]), turns[|turns| - 1]);
      }
    }
  }

  /** The line holds what the call says, with the payload as it goes to disk, stamped `created`. */
  predicate HoldsCall(line: Line, call: Call, created: string) {
    && line.Some? && line.value.JObj?
    && line.value.fields.Keys == {"event_id", "event_type", "run_id", "created_at", "payload", "prev_hash", "hash",
                                  "chain_hmac"}
    && line.value.fields["event_id"] == JStr(call.eventId)
    && line.value.fields["event_type"] == JStr(call.eventType)
    && line.value.fields["run_id"] == JStr(call.runId)
    && line.value.fields["created_at"] == JStr(created)
    && line.value.fields["payload"] == call.onDisk
  }

  /** The stamp of a call: the clock's reading, or the later of the logger's last stamp and the tip's if that is
      after it. A call that fails at the lock keeps the reading it came with. */
  predicate StampOf(h: History, turn: Turn, created: string) {
    var call := turn.call;
    if !Tries(h.attempts, call) then
      if h.state.lastStamp.Some? && Before(call.opening, h.state.lastStamp.value)
      then created == h.state.lastStamp.value else created == call.opening
    else if call.fault.AtLock? then created == call.opening
    else
      && !Before(created, call.inside)
      && (h.state.lastStamp.Some? ==> !Before(created, h.state.lastStamp.value))
      && (ChainTip(turn.lines).createdAt.Some? ==> !Before(created, ChainTip(turn.lines).createdAt.value))
      && (created == call.inside || h.state.lastStamp == Some(created) ||
          ChainTip(turn.lines).createdAt == Some(created))
  }

  /** The call fails at the lock, and so does not leave its stamp as the logger's last one. */
  predicate Locked(h: History, call: Call) {
    Tries(h.attempts, call) && call.fault.AtLock?
  }

  lemma {:induction false} NotBeforeItself(a: string)
    ensures !Before(a, a)
  {
    if a != "" {
      NotBeforeItself(a[1..]);
    }
  }

  lemma ClampIsLatest(now: string, own: Option<string>, tip: Option<string>)
    ensures var created := Clamp(now, Latest(own, tip));
            && !Before(created, now)
            && (own.Some? ==> !Before(created, own.value)) && (tip.Some? ==> !Before(created, tip.value))
            && (created == now || own == Some(created) || tip == Some(created))
  {
    hide Before;
    var floor, created := Latest(own, tip), Clamp(now, Latest(own, tip));
    NotBeforeItself(created);
    NothingBeforeEmpty(now);
    if own.Some? {
      NothingBeforeEmpty(own.value);
      NotBeforeItself(own.value);
    }
    if tip.Some? {
      NothingBeforeEmpty(tip.value);
      NotBeforeItself(tip.value);
    }
    if floor.Some? {
      NothingBeforeEmpty(floor.value);
      // The floor is neither before the own stamp nor before the tip's, and the stamp not before the floor.
      if Before(now, floor.value) {
        BeforeAsymmetric(now, floor.value);
      }
      if own.Some? && tip.Some? && Before(own.value, tip.value) {
        BeforeAsymmetric(own.value, tip.value);
      }
      if own.Some? {
        NotBeforeTransitive(own.value, floor.value, created);
      }
      if tip.Some? {
        NotBeforeTransitive(tip.value, floor.value, created);
      }
    }
  }

  lemma NothingBeforeEmpty(a: string)
    ensures !Before(a, "")
  {
  }

  /** Everything one call does, from the attempts made so far: whether it tries the disk, what lands there, when
      it raises, and what it leaves in memory. */
  lemma OneCall(l: Logger, h: History, turn: Turn) returns (created: string)
    requires !h.raised && Recalls(h)
    ensures var h', call := Take(l, h, turn), turn.call;
            var tried := Tries(h.attempts, call);
            var failed := tried && !call.fault.NoFault?;
            && StampOf(h, turn, created)
            && h'.attempts == h.attempts + (if tried then [Attempt(call.gateAt, call.failAt, !failed)] else [])
            && (h'.raised <==> failed && (l.compliance || Trailing(h'.attempts) >= 3))
            && h'.state.events == h.state.events +
               (if failed
                then [AuditEvent("_disk_write_error", call.runId, call.errorPayload, call.errorId, call.errorStamp)]
                else []) +
               (if h'.raised then []
                else [AuditEvent(call.eventType, call.runId, call.payload, call.eventId, created)])
            && h'.state.lastStamp == (if Locked(h, call) then h.state.lastStamp else Some(created))
            && (if tried && !call.fault.AtLock? && !call.fault.AtOpen?
                then |h'.landed| == |h.landed| + 1 && h'.landed[..|h.landed|] == h.landed
                     && HoldsCall(h'.landed[|h.landed|], call, created)
                else h'.landed == h.landed)
  {
    var call := turn.call;
    if Tries(h.attempts, call) {
      created := TriedCall(l, h, turn);
    } else {
      created := KeptCall(l, h, turn);
    }
  }

  lemma KeptCall(l: Logger, h: History, turn: Turn) returns (created: string)
    requires !h.raised && Recalls(h) && !Tries(h.attempts, turn.call)
    ensures var h', call := Take(l, h, turn), turn.call;
            && StampOf(h, turn, created)
            && h'.attempts == h.attempts && h'.landed == h.landed && !h'.raised
            && h'.state.events == h.state.events +
                                  [AuditEvent(call.eventType, call.runId, call.payload, call.eventId, created)]
            && h'.state.lastStamp == Some(created)
  {
    hide Before;
    var call := turn.call;
    created := Clamp(call.opening, h.state.lastStamp);
    NothingBeforeEmpty(call.opening);
  }

  lemma TriedCall(l: Logger, h: History, turn: Turn) returns (created: string)
    requires !h.raised && Recalls(h) && Tries(h.attempts, turn.call)
    ensures var h', call := Take(l, h, turn), turn.call;
            var failed := !call.fault.NoFault?;
            && StampOf(h, turn, created)
            && h'.attempts == h.attempts + [Attempt(call.gateAt, call.failAt, !failed)]
            && (h'.raised <==> failed && (l.compliance || Trailing(h'.attempts) >= 3))
            && h'.state.events == h.state.events +
               (if failed
                then [AuditEvent("_disk_write_error", call.runId, call.errorPayload, call.errorId, call.errorStamp)]
                else []) +
               (if h'.raised then []
                else [AuditEvent(call.eventType, call.runId, call.payload, call.eventId, created)])
            && h'.state.lastStamp == (if call.fault.AtLock? then h.state.lastStamp else Some(created))
            && (if !call.fault.AtLock? && !call.fault.AtOpen?
                then |h'.landed| == |h.landed| + 1 && h'.landed[..|h.landed|] == h.landed
                     && HoldsCall(h'.landed[|h.landed|], call, created)
                else h'.landed == h.landed)
  {
    hide Before, Trailing, ChainTip, Clamp, Latest, Entry, HoldsCall;
    var call := turn.call;
    var w := WriteLocked(l.crypto, l.key, h.state, turn.lines, call);
    created := w.created;
    var tip := ChainTip(turn.lines);
    ClampIsLatest(call.inside, h.state.lastStamp, tip.createdAt);
    TrailingSnoc(h.attempts, Attempt(call.gateAt, call.failAt, call.fault.NoFault?));
    if !call.fault.AtLock? && !call.fault.AtOpen? {
      EntryHoldsCall(l, call, created, tip.hash);
      var entry := Entry(l.crypto, l.key, call, created, tip.hash);
      assert w.lines == turn.lines + [entry] && w.lines[|turn.lines|..] == [entry];
    }
  }

  lemma EntryHoldsCall(l: Logger, call: Call, created: string, prev: string)
    ensures HoldsCall(Entry(l.crypto, l.key, call, created, prev), call, created)
  {
  }

  /** What a call answers: the event it leaves last in memory, unless it raises. */
  lemma AnswerIsLastEvent(l: Logger, st: State, lines: seq<Line>, call: Call)
    ensures var (st', _, r) := RecordStep(l, st, lines, call);
            r.Logged? ==> st'.events != [] && r.event == st'.events[|st'.events| - 1]
    ensures var (st', r) := KeepInMemory(st, call);
            r.Logged? && st'.events != [] && r.event == st'.events[|st'.events| - 1]
  {
  }

  /** The hash a logger caches is that of the line it landed, once that line is safe on disk. */
  lemma CachedHash(l: Logger, st: State, lines: seq<Line>, call: Call)
    ensures var w := WriteLocked(l.crypto, l.key, st, lines, call);
            if call.fault.NoFault? || call.fault.AtUnlock?
            then |w.lines| == |lines| + 1 && w.lines[|lines|].Some? && w.lines[|lines|].value.JObj? &&
                 "hash" in w.lines[|lines|].value.fields && w.state.prevHash == w.lines[|lines|].value.fields["hash"]
            else w.state.prevHash == st.prevHash
  {
  }

  // ---------------------------------------------------------------- a whole run

  /** How a call ended: kept in memory or written, failed at the lock, or failed behind it. */
  datatype End = Fine | FailedAtLock | FailedLater

  function EndOf(attempts: seq<Attempt>, call: Call): End {
    if !Tries(attempts, call) || call.fault.NoFault? then Fine
    else if call.fault.AtLock? then FailedAtLock
    else FailedLater
  }

  /** What memory holds after calls with these ends and stamps: one event per call, in call order, and directly
      before the event of a failed attempt the error event. */
  function Story(turns: seq<Turn>, ends: seq<End>, stamps: seq<string>): seq<AuditEvent>
    requires |turns| == |ends| == |stamps|
  {
    if turns == [] then []
    else
      var n := |turns| - 1;
      var call := turns[n].call;
      Story(turns[..n], ends[..n], stamps[..n]) +
      (if ends[n].Fine? then []
       else [AuditEvent("_disk_write_error", call.runId, call.errorPayload, call.errorId, call.errorStamp)]) +
      [AuditEvent(call.eventType, call.runId, call.payload, call.eventId, stamps[n])]
  }

  /** The i-th call ended as its attempts so far and its fault say. */
  ghost predicate EndsFit(l: Logger, start: seq<Line>, turns: seq<Turn>, ends: seq<End>)
    requires Recover(start).Some? && |turns| == |ends|
  {
    forall i | 0 <= i < |turns| :: ends[i] == EndOf(Play(l, start, turns[..i]).attempts, turns[i].call)
  }

  /** Stamps of calls that did not fail at the lock never go backwards. */
  ghost predicate LockFreeSorted(ends: seq<End>, stamps: seq<string>)
    requires |ends| == |stamps|
  {
    forall i, j | 0 <= i < j < |ends| && !ends[i].FailedAtLock? && !ends[j].FailedAtLock? ::
      !Before(stamps[j], stamps[i])
  }

  /** The logger's last stamp is not before any stamp of a call that did not fail at the lock. */
  ghost predicate LastIsLatest(st: State, ends: seq<End>, stamps: seq<string>)
    requires |ends| == |stamps|
  {
    forall i | 0 <= i < |ends| && !ends[i].FailedAtLock? ::
      st.lastStamp.Some? && !Before(st.lastStamp.value, stamps[i])
  }

  lemma StampsSnoc(st: State, st': State, ends: seq<End>, stamps: seq<string>, end: End, stamp: string)
    requires |ends| == |stamps| && LockFreeSorted(ends, stamps) && LastIsLatest(st, ends, stamps)
    requires st'.lastStamp == if end.FailedAtLock? then st.lastStamp else Some(stamp)
    requires !end.FailedAtLock? && st.lastStamp.Some? ==> !Before(stamp, st.lastStamp.value)
    ensures LockFreeSorted(ends + [end], stamps + [stamp]) && LastIsLatest(st', ends + [end], stamps + [stamp])
  {
    hide Before;
    var n, es, ss := |ends|, ends + [end], stamps + [stamp];
    NotBeforeItself(stamp);
    if !end.FailedAtLock? {
      forall i | 0 <= i < n && !ends[i].FailedAtLock? ensures !Before(stamp, stamps[i]) {
        NotBeforeTransitive(stamps[i], st.lastStamp.value, stamp);
      }
    }
    assert es[n] == end && ss[n] == stamp;
    assert forall i | 0 <= i < n :: es[i] == ends[i] && ss[i] == stamps[i];
  }

  lemma StampMoves(h: History, turn: Turn, created: string)
    requires StampOf(h, turn, created) && !Locked(h, turn.call)
    ensures h.state.lastStamp.Some? ==> !Before(created, h.state.lastStamp.value)
  {
    if h.state.lastStamp.Some? {
      NotBeforeItself(h.state.lastStamp.value);
    }
  }

  lemma EndsSnoc(l: Logger, start: seq<Line>, turns: seq<Turn>, ends: seq<End>, turn: Turn)
    requires Recover(start).Some? && |turns| == |ends| && EndsFit(l, start, turns, ends)
    ensures EndsFit(l, start, turns + [turn], ends + [EndOf(Play(l, start, turns).attempts, turn.call)])
  {
    hide Play, EndOf;
    var all, es := turns + [turn], ends + [EndOf(Play(l, start, turns).attempts, turn.call)];
    assert all[..|turns|] == turns && all[|turns|] == turn;
    forall i | 0 <= i < |turns| ensures es[i] == EndOf(Play(l, start, all[..i]).attempts, all[i].call) {
      assert all[..i] == turns[..i] && all[i] == turns[i] && es[i] == ends[i];
    }
  }

  lemma StorySnoc(turns: seq<Turn>, ends: seq<End>, stamps: seq<string>, turn: Turn, end: End, stamp: string)
    requires |turns| == |ends| == |stamps|
    ensures Story(turns + [turn], ends + [end], stamps + [stamp]) ==
            Story(turns, ends, stamps) +
            (if end.Fine? then []
             else [AuditEvent("_disk_write_error", turn.call.runId, turn.call.errorPayload, turn.call.errorId,
                              turn.call.errorStamp)]) +
            [AuditEvent(turn.call.eventType, turn.call.runId, turn.call.payload, turn.call.eventId, stamp)]
  {
    assert (turns + [turn])[..|turns|] == turns && (ends + [end])[..|ends|] == ends;
    assert (stamps + [stamp])[..|stamps|] == stamps;
  }

  /** The ends and stamps tell what memory holds after the turns. */
  ghost predicate Tells(l: Logger, start: seq<Line>, turns: seq<Turn>, ends: seq<End>, stamps: seq<string>)
    requires Recover(start).Some?
  {
    && |ends| == |stamps| == |turns| && EndsFit(l, start, turns, ends)
    && Play(l, start, turns).state.events == Story(turns, ends, stamps)
    && LockFreeSorted(ends, stamps) && LastIsLatest(Play(l, start, turns).state, ends, stamps)
  }

  lemma PlaySnoc(l: Logger, start: seq<Line>, turns: seq<Turn>, turn: Turn)
    requires Recover(start).Some?
    ensures Play(l, start, turns + [turn]) == Take(l, Play(l, start, turns), turn)
  {
    assert (turns + [turn])[..|turns|] == turns;
  }

  /** One more call that does not raise. */
  lemma TellsSnoc(
      l: Logger, start: seq<Line>, turns: seq<Turn>, turn: Turn, ends: seq<End>, stamps: seq<string>)
    returns (end: End, stamp: string)
    requires Recover(start).Some? && !Play(l, start, turns + [turn]).raised && Tells(l, start, turns, ends, stamps)
    ensures Tells(l, start, turns + [turn], ends + [end], stamps + [stamp])
  {
    var h := Play(l, start, turns);
    PlaySnoc(l, start, turns, turn);
    PlayRecalls(l, start, turns);
    hide Play, Take, Story, EndsFit, LockFreeSorted, LastIsLatest, Trailing, StampOf, HoldsCall, Recalls;
    NotRaisedBefore(l, h, turn);
    stamp := OneCall(l, h, turn);
    end := EndOf(h.attempts, turn.call);
    if !end.FailedAtLock? {
      StampMoves(h, turn, stamp);
    }
    StampsSnoc(h.state, Take(l, h, turn).state, ends, stamps, end, stamp);
    EndsSnoc(l, start, turns, ends, turn);
    StorySnoc(turns, ends, stamps, turn, end, stamp);
  }

  /** Up to the first raise memory holds exactly one event per call, in call order and with the call's id, type,
      run and payload, and one error event directly before the event of each failed attempt. */
  lemma {:induction false} MemoryTellsTheRun(l: Logger, start: seq<Line>, turns: seq<Turn>)
    returns (ends: seq<End>, stamps: seq<string>)
    requires Recover(start).Some? && !Play(l, start, turns).raised
    ensures |ends| == |stamps| == |turns|
    ensures EndsFit(l, start, turns, ends)
    ensures Play(l, start, turns).state.events == Story(turns, ends, stamps)
    ensures LockFreeSorted(ends, stamps) && LastIsLatest(Play(l, start, turns).state, ends, stamps)
  {
    if turns == [] {
      ends, stamps := [], [];
      OpenedIsIdle(start);
    } else {
      var n := |turns| - 1;
      assert turns == turns[..n] + [turns[n]];
      PlaySnoc(l, start, turns[..n], turns[n]);
      NotRaisedBefore(l, Play(l, start, turns[..n]), turns[n]);
      hide Play, Take, Story, EndsFit, LockFreeSorted, LastIsLatest;
      var es, ss := MemoryTellsTheRun(l, start, turns[..n]);
      var end, stamp := TellsSnoc(l, start, turns[..n], turns[n], es, ss);
      ends, stamps := es + [end], ss + [stamp];
    }
  }

  lemma NotRaisedBefore(l: Logger, h: History, turn: Turn)
    ensures h.raised ==> Take(l, h, turn).raised
  {
  }

  // ---------------------------------------------------------------- when stamps go backwards

  ghost predicate SortedStamps(stamps: seq<string>) {
    forall i, j | 0 <= i < j < |stamps| :: !Before(stamps[j], stamps[i])
  }

  /** The stamp of every call that failed at the lock lies between its neighbours'. */
  ghost predicate LockFaultsFit(ends: seq<End>, stamps: seq<string>)
    requires |ends| == |stamps|
  {
    forall i | 0 <= i < |ends| - 1 && (ends[i].FailedAtLock? || ends[i + 1].FailedAtLock?) ::
      !Before(stamps[i + 1], stamps[i])
  }

  lemma {:induction false} AdjacentSorts(stamps: seq<string>, i: nat, j: nat)
    requires forall k | 0 <= k < |stamps| - 1 :: !Before(stamps[k + 1], stamps[k])
    requires i < j < |stamps|
    ensures !Before(stamps[j], stamps[i])
    decreases j
  {
    if i < j - 1 {
      AdjacentSorts(stamps, i, j - 1);
      assert !Before(stamps[j - 1 + 1], stamps[j - 1]);
      NotBeforeTransitive(stamps[i], stamps[j - 1], stamps[j]);
    } else {
      assert !Before(stamps[i + 1], stamps[i]);
    }
  }

  /** The events of the calls are in time order, whatever the clocks read, exactly if each call that failed at the
      lock fits in: its stamp is the reading it came with, which nothing clamps. Without such a call they always
      are. */
  lemma StampsSortedIff(ends: seq<End>, stamps: seq<string>)
    requires |ends| == |stamps| && LockFreeSorted(ends, stamps)
    ensures SortedStamps(stamps) <==> LockFaultsFit(ends, stamps)
    ensures (forall i | 0 <= i < |ends| :: !ends[i].FailedAtLock?) ==> SortedStamps(stamps)
  {
    hide Before;
    if LockFaultsFit(ends, stamps) {
      forall k | 0 <= k < |stamps| - 1 ensures !Before(stamps[k + 1], stamps[k]) {
        assert ends[k].FailedAtLock? || ends[k + 1].FailedAtLock? || !Before(stamps[k + 1], stamps[k]);
      }
      forall i, j | 0 <= i < j < |stamps| ensures !Before(stamps[j], stamps[i]) {
        AdjacentSorts(stamps, i, j);
      }
    }
  }

  /** Two calls whose events are out of order: the second fails at the lock, having read an earlier clock. */
  lemma LockFaultCanGoBack(l: Logger, first: Call, second: Call)
    requires !l.compliance && first.fault.NoFault? && second.fault.AtLock?
    requires first.inside == "b" && second.opening == "a"
    ensures var events := Play(l, [], [Turn([], first), Turn([], second)]).state.events;
            |events| == 3 && events[0].createdAt == "b" && events[2].createdAt == "a"
  {
    var one, two := Turn([], first), Turn([], second);
    PlaySnoc(l, [], [], one);
    PlaySnoc(l, [], [one], two);
    NothingPlayed(l);
    assert [] + [one] == [one] && [one] + [two] == [one, two];
    hide Play, Take, Recalls;
    FirstLands(l, Play(l, [], []), one);
    LockFails(l, Play(l, [], [one]), two);
  }

  lemma FirstLands(l: Logger, h: History, turn: Turn)
    requires h == History(NEW_STATE, [], [], false) && turn.lines == [] && turn.call.fault.NoFault?
    ensures var h' := Take(l, h, turn);
            && !h'.raised && Recalls(h') && |h'.attempts| == 1 && h'.attempts[0].ok
            && |h'.state.events| == 1 && h'.state.events[0].createdAt == turn.call.inside
  {
    NothingTipped();
    TakeRecalls(l, h, turn);
    hide Take, HoldsCall, Before, ChainTip;
    var created := OneCall(l, h, turn);
  }

  lemma LockFails(l: Logger, h: History, turn: Turn)
    requires !l.compliance && !h.raised && Recalls(h) && |h.attempts| == 1 && h.attempts[0].ok
    requires turn.call.fault.AtLock? && |h.state.events| == 1
    ensures var events := Take(l, h, turn).state.events;
            |events| == 3 && events[0] == h.state.events[0] && events[2].createdAt == turn.call.opening
  {
    TrailingSnoc(h.attempts, Attempt(turn.call.gateAt, turn.call.failAt, false));
    assert h.attempts[0] == h.attempts[|h.attempts| - 1];
    AllWell(h.attempts);
    hide Take, HoldsCall, Before, ChainTip, Recalls, Trailing;
    var created := OneCall(l, h, turn);
  }

  lemma NothingPlayed(l: Logger)
    ensures Recover([]).Some? && Play(l, [], []) == History(NEW_STATE, [], [], false)
  {
  }

  lemma NothingTipped()
    ensures ChainTip([]).createdAt.None?
  {
  }

  lemma AllWell(attempts: seq<Attempt>)
    requires attempts != [] && attempts[|attempts| - 1].ok
    ensures Trailing(attempts) == 0
  {
  }

  // ---------------------------------------------------------------- a logger without a file

  /** A logger that has no file, after a sequence of calls. */
  function Remember(calls: seq<Call>): State {
    if calls == [] then NEW_STATE else KeepInMemory(Remember(calls[..|calls| - 1]), calls[|calls| - 1]).0
  }

  function MemoryOf(calls: seq<Call>, stamps: seq<string>): seq<AuditEvent>
    requires |calls| == |stamps|
  {
    seq(|calls|, i requires 0 <= i < |calls| =>
      AuditEvent(calls[i].eventType, calls[i].runId, calls[i].payload, calls[i].eventId, stamps[i]))
  }

  /** It holds exactly one event per call, in call order, with stamps that never go backwards and are never before
      the call's clock reading. */
  lemma {:induction false} MemoryOnly(calls: seq<Call>) returns (stamps: seq<string>)
    ensures |stamps| == |calls| && Remember(calls).events == MemoryOf(calls, stamps) && SortedStamps(stamps)
    ensures forall i | 0 <= i < |calls| :: !Before(stamps[i], calls[i].opening)
    ensures calls != [] ==> Remember(calls).lastStamp == Some(stamps[|stamps| - 1])
    ensures calls == [] ==> Remember(calls).lastStamp.None?
  {
    hide Before;
    if calls == [] {
      stamps := [];
    } else {
      var n := |calls| - 1;
      var ss := MemoryOnly(calls[..n]);
      var last := Remember(calls[..n]).lastStamp;
      var created := Clamp(calls[n].opening, last);
      ClampIsLatest(calls[n].opening, last, None);
      stamps := ss + [created];
      forall i, j | 0 <= i < j < |stamps| ensures !Before(stamps[j], stamps[i]) {
        if j == n && i < n - 1 {
          NotBeforeTransitive(ss[i], ss[n - 1], created);
        }
      }
      assert MemoryOf(calls, stamps) == MemoryOf(calls[..n], ss) + [EventOf(calls[n], created)];
    }
  }
}
