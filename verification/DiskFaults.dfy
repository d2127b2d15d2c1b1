/** One logger below level L3 over a whole run with disk faults, up to its first raise. */
module DiskFaults {
  import opened Json
  import opened AuditChain
  import opened AuditLog

  /** One call, and the file as the logger finds it under the lock (other loggers may have written). */
  datatype Turn = Turn(lines: seq<Line>, call: Call)

  datatype Attempt = Attempt(gateAt: real, failAt: real, ok: bool)

  /** The logger's state with the disk attempts made and the lines landed so far. After a raise the
      history stands still. */
  datatype History = History(state: State, attempts: seq<Attempt>, landed: seq<Line>, raised: bool)

  /** A logger just opened on a file. */
  function Opened(start: seq<Line>): History
    requires Recover(start).Some?
  {
    History(Recover(start).value, [], [], false)
  }

  function Take(l: Logger, h: History, turn: Turn): History {
    if h.raised then h
    else
      var (st, lines, r) := RecordStep(l, h.state, turn.lines, turn.call);
      var attempts :=
        if !MayWrite(h.state, turn.call.gateAt) then h.attempts
        else h.attempts + [Attempt(turn.call.gateAt, turn.call.failAt, turn.call.fault.NoFault?)];
      var landed := if |lines| > |turn.lines| then h.landed + lines[|turn.lines|..] else h.landed;
      History(st, attempts, landed, r.DurabilityError?)
  }

  /** A run of calls by a logger opened on `start`. */
  function Play(l: Logger, start: seq<Line>, turns: seq<Turn>): History
    requires Recover(start).Some?
  {
    if turns == [] then Opened(start) else Take(l, Play(l, start, turns[..|turns| - 1]), turns[|turns| - 1])
  }

  /** A new logger has no disk error and no events, whatever it recovered. */
  lemma {:induction false} OpenedIsIdle(start: seq<Line>)
    requires Recover(start).Some?
    ensures Recover(start).value == NEW_STATE.(
              prevHash := Recover(start).value.prevHash, lastStamp := Recover(start).value.lastStamp)
  {
    if start != [] && Recover(start) == Recover(start[..|start| - 1]) {
      OpenedIsIdle(start[..|start| - 1]);
    }
  }

  function Trailing(attempts: seq<Attempt>): nat {
    if attempts == [] || attempts[|attempts| - 1].ok then 0 else Trailing(attempts[..|attempts| - 1]) + 1
  }

  /** The monotonic clock does not run backwards within a call or from one call to the next. */
  ghost predicate ClockAdvances(turns: seq<Turn>) {
    && (forall i | 0 <= i < |turns| :: turns[i].call.gateAt <= turns[i].call.failAt)
    && (forall i, j | 0 <= i < j < |turns| :: turns[i].call.failAt <= turns[j].call.gateAt)
  }

  // ---------------------------------------------------------------- cooldown and counter

  /** Every attempt starts at least one cooldown after every failed attempt before it. */
  ghost predicate Cooled(attempts: seq<Attempt>) {
    forall i, j | 0 <= i < j < |attempts| && !attempts[i].ok :: attempts[j].gateAt - attempts[i].failAt >= COOLDOWN
  }

  ghost predicate ThreeFail(attempts: seq<Attempt>) {
    exists i | 0 <= i < |attempts| - 2 :: !attempts[i].ok && !attempts[i + 1].ok && !attempts[i + 2].ok
  }

  /** The attempts lie in the past, one after the other. */
  ghost predicate InPast(attempts: seq<Attempt>, now: real) {
    && (forall i | 0 <= i < |attempts| :: attempts[i].gateAt <= attempts[i].failAt <= now)
    && (forall i, j | 0 <= i < j < |attempts| :: attempts[i].failAt <= attempts[j].gateAt)
  }

  /** The state remembers exactly the last attempt, and all attempts lie in the past. */
  ghost predicate Remembers(h: History, now: real) {
    && (h.state.diskError <==> h.attempts != [] && !h.attempts[|h.attempts| - 1].ok)
    && (h.state.diskError ==> h.state.lastErrorAt == h.attempts[|h.attempts| - 1].failAt)
    && h.state.failures == Trailing(h.attempts)
    && InPast(h.attempts, now)
  }

  lemma PastSnoc(attempts: seq<Attempt>, now: real, a: Attempt)
    requires InPast(attempts, now) && now <= a.gateAt <= a.failAt
    ensures InPast(attempts + [a], a.failAt)
  {
    var n, all := |attempts|, attempts + [a];
    assert forall i | 0 <= i < n :: all[i] == attempts[i];
  }

  lemma PastStays(attempts: seq<Attempt>, now: real, later: real)
    requires InPast(attempts, now) && now <= later
    ensures InPast(attempts, later)
  {
  }

  /** An attempt one cooldown after the last one, if that failed, is one cooldown after every failure. */
  lemma CooledSnoc(attempts: seq<Attempt>, now: real, a: Attempt)
    requires Cooled(attempts) && InPast(attempts, now) && now <= a.gateAt
    requires attempts != [] && !attempts[|attempts| - 1].ok ==>
               a.gateAt - attempts[|attempts| - 1].failAt >= COOLDOWN
    ensures Cooled(attempts + [a])
  {
    var n, all := |attempts|, attempts + [a];
    forall i, j | 0 <= i < j < |all| && !all[i].ok ensures all[j].gateAt - all[i].failAt >= COOLDOWN {
      if j < n {
        assert attempts[j].gateAt - attempts[i].failAt >= COOLDOWN;
      } else if i < n - 1 {
        // The attempt before waited for this failure, and the new one starts later still.
        assert attempts[n - 1].gateAt - attempts[i].failAt >= COOLDOWN;
        assert attempts[n - 1].gateAt <= attempts[n - 1].failAt <= now;
      }
    }
  }

  /** What an attempt, or a call without one, does to the disk state and the list of attempts. */
  ghost predicate Effect(h: History, h': History, tried: bool, a: Attempt) {
    if tried then
      && h'.attempts == h.attempts + [a]
      && h'.state.diskError == !a.ok
      && h'.state.failures == (if a.ok then 0 else h.state.failures + 1)
      && (!a.ok ==> h'.state.lastErrorAt == a.failAt)
    else
      && h'.attempts == h.attempts && h'.state.diskError == h.state.diskError
      && h'.state.failures == h.state.failures && h'.state.lastErrorAt == h.state.lastErrorAt
  }

  lemma TakeEffect(l: Logger, h: History, turn: Turn)
    requires !h.raised
    ensures Effect(h, Take(l, h, turn), MayWrite(h.state, turn.call.gateAt),
                   Attempt(turn.call.gateAt, turn.call.failAt, turn.call.fault.NoFault?))
  {
  }

  lemma TrailingSnoc(attempts: seq<Attempt>, a: Attempt)
    ensures Trailing(attempts + [a]) == if a.ok then 0 else Trailing(attempts) + 1
  {
    assert (attempts + [a])[..|attempts|] == attempts;
  }

  lemma EffectRemembers(h: History, h': History, a: Attempt, now: real)
    requires Remembers(h, now) && Cooled(h.attempts) && now <= a.gateAt <= a.failAt
    requires Effect(h, h', MayWrite(h.state, a.gateAt), a)
    ensures Remembers(h', a.failAt) && Cooled(h'.attempts)
  {
    hide Cooled, InPast, Trailing;
    if MayWrite(h.state, a.gateAt) {
      CooledSnoc(h.attempts, now, a);
      PastSnoc(h.attempts, now, a);
      TrailingSnoc(h.attempts, a);
    } else {
      PastStays(h.attempts, now, a.failAt);
    }
  }

  lemma {:induction false} TakeRemembers(l: Logger, h: History, turn: Turn, now: real)
    requires !h.raised && Remembers(h, now) && Cooled(h.attempts)
    requires now <= turn.call.gateAt <= turn.call.failAt
    ensures Remembers(Take(l, h, turn), turn.call.failAt) && Cooled(Take(l, h, turn).attempts)
  {
    TakeEffect(l, h, turn);
    EffectRemembers(h, Take(l, h, turn),
                    Attempt(turn.call.gateAt, turn.call.failAt, turn.call.fault.NoFault?), now);
  }

  lemma RememberedLater(h: History, now: real, later: real)
    requires Remembers(h, now) && (now <= later || h.attempts == [])
    ensures Remembers(h, later)
  {
  }

  lemma RaisedStands(l: Logger, h: History, turn: Turn)
    requires h.raised
    ensures Take(l, h, turn) == h
  {
  }

  lemma OpenedRemembers(start: seq<Line>)
    requires Recover(start).Some?
    ensures Cooled(Opened(start).attempts) && Remembers(Opened(start), 0.0) && Opened(start).attempts == []
  {
    OpenedIsIdle(start);
  }

  lemma {:induction false} PlayRemembers(l: Logger, start: seq<Line>, turns: seq<Turn>)
    requires Recover(start).Some?
    requires ClockAdvances(turns)
    ensures Cooled(Play(l, start, turns).attempts)
    ensures Remembers(Play(l, start, turns), if turns == [] then 0.0 else turns[|turns| - 1].call.failAt)
  {
    hide Take, Cooled, Remembers, Recover, Opened;
    OpenedRemembers(start);
    if turns != [] {
      var n := |turns| - 1;
      assert ClockAdvances(turns[..n]);
      PlayRemembers(l, start, turns[..n]);
      var h := Play(l, start, turns[..n]);
      var last := if n == 0 then 0.0 else turns[n - 1].call.failAt;
      assert n > 0 ==> turns[n - 1].call.failAt <= turns[n].call.gateAt;
      if h.raised {
        RaisedStands(l, h, turns[n]);
        StartsUnraised(start);
        RememberedLater(h, last, turns[n].call.failAt);
      } else {
        RememberedLater(h, last, turns[n].call.gateAt);
        TakeRemembers(l, h, turns[n], turns[n].call.gateAt);
      }
    }
  }

  lemma StartsUnraised(start: seq<Line>)
    requires Recover(start).Some?
    ensures !Opened(start).raised
  {
  }

  lemma {:induction false} LongTrail(attempts: seq<Attempt>, i: nat)
    requires i <= |attempts| && forall k | i <= k < |attempts| :: !attempts[k].ok
    ensures Trailing(attempts) >= |attempts| - i
  {
    if i < |attempts| {
      LongTrail(attempts[..|attempts| - 1], i);
    }
  }

  ghost predicate AllOk(attempts: seq<Attempt>) {
    forall i | 0 <= i < |attempts| :: attempts[i].ok
  }

  lemma ThirdFailureTrails(attempts: seq<Attempt>, last: Attempt)
    requires !ThreeFail(attempts) && ThreeFail(attempts + [last])
    ensures !last.ok && Trailing(attempts) >= 2
  {
    var a := attempts + [last];
    var i :| 0 <= i < |a| - 2 && !a[i].ok && !a[i + 1].ok && !a[i + 2].ok;
    LongTrail(attempts, i);
  }

  lemma {:induction false} TakeFew(l: Logger, h: History, turn: Turn)
    requires !h.raised && h.state.failures == Trailing(h.attempts)
    requires !ThreeFail(h.attempts) && (l.compliance ==> AllOk(h.attempts))
    ensures !Take(l, h, turn).raised ==>
              !ThreeFail(Take(l, h, turn).attempts) && (l.compliance ==> AllOk(Take(l, h, turn).attempts))
  {
    var last := Attempt(turn.call.gateAt, turn.call.failAt, turn.call.fault.NoFault?);
    if MayWrite(h.state, turn.call.gateAt) && ThreeFail(h.attempts + [last]) {
      ThirdFailureTrails(h.attempts, last);
    }
  }

  /** Until the first raise no three attempts fail in a row, and in compliance mode none fails. */
  lemma {:induction false} FewFailures(l: Logger, start: seq<Line>, turns: seq<Turn>)
    requires Recover(start).Some?
    requires ClockAdvances(turns) && !Play(l, start, turns).raised
    ensures !ThreeFail(Play(l, start, turns).attempts)
    ensures l.compliance ==> AllOk(Play(l, start, turns).attempts)
  {
    OpenedIsIdle(start);
    if turns != [] {
      var n := |turns| - 1;
      assert ClockAdvances(turns[..n]);
      FewFailures(l, start, turns[..n]);
      PlayRemembers(l, start, turns[..n]);
      TakeFew(l, Play(l, start, turns[..n]), turns[n]);
    }
  }

  // ---------------------------------------------------------------- the file against memory

  /** The line holds the event. */
  predicate Holds(line: Line, e: AuditEvent) {
    && line.Some? && line.value.JObj?
    && Get(line.value.fields, "event_id") == JStr(e.eventId)
    && Get(line.value.fields, "event_type") == JStr(e.eventType)
    && Get(line.value.fields, "run_id") == JStr(e.runId)
    && Get(line.value.fields, "created_at") == JStr(e.createdAt)
    && Get(line.value.fields, "payload") == e.payload
  }

  /** The lines hold, in order, some of the events. */
  predicate Subsequence(lines: seq<Line>, events: seq<AuditEvent>) {
    if lines == [] then true
    else if events == [] then false
    else
      var m, n := |lines| - 1, |events| - 1;
      || (Holds(lines[m], events[n]) && Subsequence(lines[..m], events[..n]))
      || Subsequence(lines, events[..n])
  }

  lemma SubsequenceGrows(lines: seq<Line>, events: seq<AuditEvent>, e: AuditEvent)
    requires Subsequence(lines, events)
    ensures Subsequence(lines, events + [e])
  {
    assert (events + [e])[..|events|] == events;
  }

  lemma SubsequenceMatches(lines: seq<Line>, events: seq<AuditEvent>, line: Line, e: AuditEvent)
    requires Subsequence(lines, events) && Holds(line, e)
    ensures Subsequence(lines + [line], events + [e])
  {
    assert (events + [e])[..|events|] == events && (lines + [line])[..|lines|] == lines;
  }

  /** What a call adds to the file is at most one line, holding the event with the call's timestamp. */
  lemma {:induction false} WriteAddsOne(l: Logger, st: State, lines: seq<Line>, call: Call)
    requires call.onDisk == call.payload
    ensures var w := WriteLocked(l.crypto, l.key, st, lines, call);
            && w.state.events == st.events
            && (w.lines == lines ||
                (exists line :: w.lines == lines + [line] && Holds(line, EventOf(call, w.created))))
  {
    var w := WriteLocked(l.crypto, l.key, st, lines, call);
    if w.lines != lines {
      var line := Entry(l.crypto, l.key, call, w.created, ChainTip(lines).hash);
      assert w.lines == lines + [line] && Holds(line, EventOf(call, w.created));
    }
  }

  lemma {:induction false} TakeKeepsOrder(l: Logger, h: History, turn: Turn)
    requires turn.call.onDisk == turn.call.payload
    requires !h.raised && Subsequence(h.landed, h.state.events)
    ensures !Take(l, h, turn).raised ==> Subsequence(Take(l, h, turn).landed, Take(l, h, turn).state.events)
    ensures Take(l, h, turn).raised ==>
              && Subsequence(h.landed, Take(l, h, turn).state.events)
              && h.landed <= Take(l, h, turn).landed && |Take(l, h, turn).landed| <= |h.landed| + 1
  {
    var h' := Take(l, h, turn);
    if MayWrite(h.state, turn.call.gateAt) {
      var w := WriteLocked(l.crypto, l.key, h.state, turn.lines, turn.call);
      var event := EventOf(turn.call, w.created);
      WriteAddsOne(l, h.state, turn.lines, turn.call);
      SubsequenceGrows(h.landed, h.state.events, ErrorEvent(turn.call));
      var events := if w.ok then h.state.events else h.state.events + [ErrorEvent(turn.call)];
      assert !h'.raised ==> h'.state.events == events + [event];
      if w.lines == turn.lines {
        SubsequenceGrows(h.landed, events, event);
      } else {
        var line :| w.lines == turn.lines + [line] && Holds(line, event);
        assert w.lines[|turn.lines|..] == [line];
        SubsequenceMatches(h.landed, events, line, event);
      }
    } else {
      SubsequenceGrows(h.landed, h.state.events, EventOf(turn.call, Clamp(turn.call.opening, h.state.lastStamp)));
    }
  }

  /** Up to its first raise, the lines this logger landed are in file order a subsequence of its
      in-memory events. */
  lemma {:induction false} LandedLinesAreEvents(l: Logger, start: seq<Line>, turns: seq<Turn>)
    requires Recover(start).Some?
    requires forall i | 0 <= i < |turns| :: turns[i].call.onDisk == turns[i].call.payload
    requires !Play(l, start, turns).raised
    ensures Subsequence(Play(l, start, turns).landed, Play(l, start, turns).state.events)
  {
    OpenedIsIdle(start);
    if turns != [] {
      var n := |turns| - 1;
      LandedLinesAreEvents(l, start, turns[..n]);
      TakeKeepsOrder(l, Play(l, start, turns[..n]), turns[n]);
    }
  }

  /** The call that raises can leave one line in the file that memory does not hold, and no more. */
  lemma {:induction false} RaiseForgetsAtMostOneLine(l: Logger, start: seq<Line>, turns: seq<Turn>)
    requires Recover(start).Some?
    requires forall i | 0 <= i < |turns| :: turns[i].call.onDisk == turns[i].call.payload
    requires Play(l, start, turns).raised
    ensures exists m: nat :: m <= |Play(l, start, turns).landed| <= m + 1 &&
                             Subsequence(Play(l, start, turns).landed[..m], Play(l, start, turns).state.events)
  {
    if turns != [] {
      var n := |turns| - 1;
      var h := Play(l, start, turns[..n]);
      if h.raised {
        RaiseForgetsAtMostOneLine(l, start, turns[..n]);
      } else {
        LandedLinesAreEvents(l, start, turns[..n]);
        TakeKeepsOrder(l, h, turns[n]);
        assert Play(l, start, turns).landed[..|h.landed|] == h.landed;
      }
    }
  }

  /** The three disk properties of a run that has not raised yet. */
  lemma {:induction false} DiskDiscipline(l: Logger, start: seq<Line>, turns: seq<Turn>)
    requires Recover(start).Some?
    requires ClockAdvances(turns) && !Play(l, start, turns).raised
    ensures forall i, j | 0 <= i < j < |Play(l, start, turns).attempts| && !Play(l, start, turns).attempts[i].ok ::
              Play(l, start, turns).attempts[j].gateAt - Play(l, start, turns).attempts[i].failAt >= 30.0
    ensures Play(l, start, turns).state.failures == Trailing(Play(l, start, turns).attempts)
    ensures !ThreeFail(Play(l, start, turns).attempts)
    ensures l.compliance ==> AllOk(Play(l, start, turns).attempts)
  {
    PlayRemembers(l, start, turns);
    FewFailures(l, start, turns);
  }
}
