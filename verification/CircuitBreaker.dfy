/** The per-endpoint circuit breaker of the federated agent registry (teaagent/agentcard.py). */
module CircuitBreaker {
  import opened Json

  datatype Config = Config(threshold: int, resetTimeout: real)

  /** The fields of an `_EndpointCircuit`. */
  datatype Circuit = Circuit(failures: int, openedAt: Option<real>)

  const CLOSED := Circuit(0, None)

  /** One visit of an endpoint by a refresh: the clock when it is considered, and how a contact would end:
      with a card or an error, and the clock then. */
  datatype Reply = Card(card: string) | Error(message: string)
  datatype Visit = Visit(startAt: real, reply: Reply, endAt: real)

  predicate IsOpen(c: Circuit, resetTimeout: real, now: real) {
    c.openedAt.Some? && now - c.openedAt.value < resetTimeout
  }

  predicate Skips(cfg: Option<Config>, c: Circuit, now: real) {
    cfg.Some? && IsOpen(c, cfg.value.resetTimeout, now)
  }

  function AfterFailure(c: Circuit, threshold: int, now: real): Circuit {
    Circuit(c.failures + 1, if c.failures + 1 >= threshold then Some(now) else c.openedAt)
  }

  function AfterVisit(cfg: Option<Config>, c: Circuit, v: Visit): Circuit {
    if Skips(cfg, c, v.startAt) then c
    else if v.reply.Card? then CLOSED
    else if cfg.Some? then AfterFailure(c, cfg.value.threshold, v.endAt)
    else c
  }

  // ---------------------------------------------------------------- the objects

  class EndpointCircuit {
    var failures: int
    var openedAt: Option<real>

    ghost function View(): Circuit
      reads this
    {
      Circuit(failures, openedAt)
    }

    constructor ()
      ensures View() == CLOSED
    {
      failures, openedAt := 0, None;
    }

    predicate Open(resetTimeout: real, now: real)
      reads this
      ensures Open(resetTimeout, now) == IsOpen(View(), resetTimeout, now)
    {
      openedAt.Some? && now - openedAt.value < resetTimeout
    }

    method RecordFailure(threshold: int, now: real)
      modifies this
      ensures View() == AfterFailure(old(View()), threshold, now)
    {
      failures := failures + 1;
      if failures >= threshold {
        openedAt := Some(now);
      }
    }

    method RecordSuccess()
      modifies this
      ensures View() == CLOSED
    {
      failures := 0;
      openedAt := None;
    }
  }

  /** `setdefault`: an endpoint seen for the first time has a closed circuit. */
  function At(circuits: map<string, Circuit>, url: string): Circuit {
    if url in circuits then circuits[url] else CLOSED
  }

  datatype Refreshed = Refreshed(circuits: map<string, Circuit>, errors: seq<string>, cards: seq<string>)

  /** A refresh over the endpoints, visited in order; an endpoint listed twice is visited twice. */
  function RefreshAll(
      cfg: Option<Config>, circuits: map<string, Circuit>, endpoints: seq<string>, visits: seq<Visit>): Refreshed
    requires |visits| == |endpoints|
  {
    if endpoints == [] then Refreshed(circuits, [], [])
    else
      var n := |endpoints| - 1;
      var r := RefreshAll(cfg, circuits, endpoints[..n], visits[..n]);
      var url, v := endpoints[n], visits[n];
      var c := At(r.circuits, url);
      var contacted := !Skips(cfg, c, v.startAt);
      Refreshed(
        r.circuits[url := AfterVisit(cfg, c, v)],
        if contacted && v.reply.Error? then r.errors + [url + ": " + v.reply.message] else r.errors,
        if contacted && v.reply.Card? then r.cards + [v.reply.card] else r.cards)
  }

  class FederatedAgentRegistry {
    const endpoints: seq<string>
    const config: Option<Config>
    var circuits: map<string, EndpointCircuit>
    var cache: seq<string>

    /** No two endpoints share a circuit object. */
    ghost predicate Valid()
      reads this
    {
      forall u, v | u in circuits && v in circuits && u != v :: circuits[u] != circuits[v]
    }

    ghost function View(): map<string, Circuit>
      reads this, circuits.Values
    {
      map u | u in circuits :: circuits[u].View()
    }

    constructor (endpoints: seq<string>, config: Option<Config>)
      ensures this.endpoints == endpoints && this.config == config
      ensures Valid() && View() == map[] && cache == []
    {
      this.endpoints, this.config := endpoints, config;
      circuits, cache := map[], [];
    }

    /** The circuit of an endpoint, created closed on first use. */
    method SetDefault(url: string) returns (circuit: EndpointCircuit)
      requires Valid()
      modifies this`circuits
      ensures Valid() && url in circuits && circuit == circuits[url]
      ensures View() == old(View())[url := At(old(View()), url)]
      ensures forall u | u in circuits :: circuits[u] in old(circuits.Values) || fresh(circuits[u])
    {
      if url !in circuits {
        var c := new EndpointCircuit();
        circuits := circuits[url := c];
      }
      circuit := circuits[url];
    }

    /** The rest of one endpoint's turn in the loop of a refresh, on its circuit. */
    method VisitCircuit(circuit: EndpointCircuit, v: Visit) returns (contacted: bool)
      modifies circuit
      ensures circuit.View() == AfterVisit(config, old(circuit.View()), v)
      ensures contacted == !Skips(config, old(circuit.View()), v.startAt)
    {
      if config.Some? && circuit.Open(config.value.resetTimeout, v.startAt) {
        return false;
      }
      if v.reply.Card? {
        circuit.RecordSuccess();
      } else if config.Some? {
        circuit.RecordFailure(config.value.threshold, v.endAt);
      }
      return true;
    }

    method VisitEndpoint(url: string, v: Visit) returns (contacted: bool)
      requires Valid()
      modifies this`circuits, circuits.Values
      ensures Valid() && cache == old(cache)
      ensures View() == old(View())[url := AfterVisit(config, At(old(View()), url), v)]
      ensures contacted == !Skips(config, At(old(View()), url), v.startAt)
      ensures forall u | u in circuits :: circuits[u] in old(circuits.Values) || fresh(circuits[u])
    {
      hide AfterVisit, Skips;
      ghost var before := At(View(), url);
      var circuit := SetDefault(url);
      assert circuit.View() == View()[url] == before;
      contacted := VisitCircuit(circuit, v);
    }

    method Refresh(visits: seq<Visit>) returns (errors: seq<string>)
      requires Valid() && |visits| == |endpoints|
      modifies this, circuits.Values
      ensures Valid()
      ensures Refreshed(View(), errors, cache) == RefreshAll(config, old(View()), endpoints, visits)
      ensures forall u | u in circuits :: circuits[u] in old(circuits.Values) || fresh(circuits[u])
    {
      errors := [];
      var cards := [];
      for i := 0 to |endpoints|
        invariant Valid()
        invariant Refreshed(View(), errors, cards) == RefreshAll(config, old(View()), endpoints[..i], visits[..i])
        invariant forall u | u in circuits :: circuits[u] in old(circuits.Values) || fresh(circuits[u])
      {
        assert endpoints[..i + 1][..i] == endpoints[..i] && visits[..i + 1][..i] == visits[..i];
        var contacted := VisitEndpoint(endpoints[i], visits[i]);
        if contacted {
          match visits[i].reply {
            case Card(card) => cards := cards + [card];
            case Error(message) => errors := errors + [endpoints[i] + ": " + message];
          }
        }
      }
      assert endpoints[..|endpoints|] == endpoints && visits[..|visits|] == visits;
      cache := cards;
    }

    /** `circuit_state`: true for 'open', false for 'closed'. */
    predicate StateIsOpen(url: string, now: real)
      requires Valid()
      reads this, circuits.Values
      ensures StateIsOpen(url, now) == Skips(config, At(View(), url), now)
    {
      url in circuits && config.Some? && circuits[url].Open(config.value.resetTimeout, now)
    }
  }

  // ---------------------------------------------------------------- endpoints are independent

  /** One refresh of a run. */
  datatype Round = Round(endpoints: seq<string>, visits: seq<Visit>)

  function VisitsOf(url: string, endpoints: seq<string>, visits: seq<Visit>): seq<Visit>
    requires |visits| == |endpoints|
  {
    if endpoints == [] then []
    else
      var n := |endpoints| - 1;
      VisitsOf(url, endpoints[..n], visits[..n]) + if endpoints[n] == url then [visits[n]] else []
  }

  function After(cfg: Option<Config>, c: Circuit, visits: seq<Visit>): Circuit {
    if visits == [] then c else AfterVisit(cfg, After(cfg, c, visits[..|visits| - 1]), visits[|visits| - 1])
  }

  /** A refresh changes each endpoint's circuit as if its visits were the only ones. */
  lemma {:induction false} EndpointsAreIndependent(
      cfg: Option<Config>, circuits: map<string, Circuit>, endpoints: seq<string>, visits: seq<Visit>, url: string)
    requires |visits| == |endpoints|
    ensures At(RefreshAll(cfg, circuits, endpoints, visits).circuits, url) ==
            After(cfg, At(circuits, url), VisitsOf(url, endpoints, visits))
  {
    if endpoints != [] {
      var n := |endpoints| - 1;
      EndpointsAreIndependent(cfg, circuits, endpoints[..n], visits[..n], url);
      var before := VisitsOf(url, endpoints[..n], visits[..n]);
      assert (before + [visits[n]])[..|before|] == before && before + [] == before;
    }
  }

  /** The i-th endpoint is contacted: its own earlier visits leave it a circuit that does not skip it. */
  predicate Contacted(
      cfg: Option<Config>, circuits: map<string, Circuit>, endpoints: seq<string>, visits: seq<Visit>, i: nat)
    requires i < |visits| == |endpoints|
  {
    var c := After(cfg, At(circuits, endpoints[i]), VisitsOf(endpoints[i], endpoints[..i], visits[..i]));
    cfg.None? || c.openedAt.None? || visits[i].startAt - c.openedAt.value >= cfg.value.resetTimeout
  }

  /** The answers of the contacted endpoints, in order: the errors with the endpoint's address, or the cards. */
  function Answers(
      cfg: Option<Config>, circuits: map<string, Circuit>, endpoints: seq<string>, visits: seq<Visit>, cards: bool)
    : seq<string>
    requires |visits| == |endpoints|
  {
    if endpoints == [] then []
    else
      var n := |endpoints| - 1;
      Answers(cfg, circuits, endpoints[..n], visits[..n], cards) +
      if !Contacted(cfg, circuits, endpoints, visits, n) then []
      else
        match visits[n].reply
        case Card(card) => if cards then [card] else []
        case Error(message) => if cards then [] else [endpoints[n] + ": " + message]
  }

  /** A refresh returns the error of every endpoint that was contacted and failed, and caches the card of every
      one that answered, in endpoint order; what it skips shows in neither. */
  lemma {:induction false} RefreshAnswers(
      cfg: Option<Config>, circuits: map<string, Circuit>, endpoints: seq<string>, visits: seq<Visit>)
    requires |visits| == |endpoints|
    ensures RefreshAll(cfg, circuits, endpoints, visits).errors == Answers(cfg, circuits, endpoints, visits, false)
    ensures RefreshAll(cfg, circuits, endpoints, visits).cards == Answers(cfg, circuits, endpoints, visits, true)
  {
    if endpoints != [] {
      var n := |endpoints| - 1;
      RefreshAnswers(cfg, circuits, endpoints[..n], visits[..n]);
      EndpointsAreIndependent(cfg, circuits, endpoints[..n], visits[..n], endpoints[n]);
      hide VisitsOf, After;
    }
  }

  ghost predicate WellFormed(rounds: seq<Round>) {
    forall i | 0 <= i < |rounds| :: |rounds[i].visits| == |rounds[i].endpoints|
  }

  /** The circuits after a sequence of refreshes. */
  ghost function RefreshRun(
      cfg: Option<Config>, circuits: map<string, Circuit>, rounds: seq<Round>): map<string, Circuit>
    requires WellFormed(rounds)
  {
    if rounds == [] then circuits
    else
      var last := rounds[|rounds| - 1];
      RefreshAll(cfg, RefreshRun(cfg, circuits, rounds[..|rounds| - 1]), last.endpoints, last.visits).circuits
  }

  ghost function AllVisitsOf(url: string, rounds: seq<Round>): seq<Visit>
    requires WellFormed(rounds)
  {
    if rounds == [] then []
    else
      var last := rounds[|rounds| - 1];
      AllVisitsOf(url, rounds[..|rounds| - 1]) + VisitsOf(url, last.endpoints, last.visits)
  }

  lemma {:induction false} AfterConcat(cfg: Option<Config>, c: Circuit, a: seq<Visit>, b: seq<Visit>)
    ensures After(cfg, c, a + b) == After(cfg, After(cfg, c, a), b)
  {
    if b == [] {
      assert a + b == a;
    } else {
      assert (a + b)[..|a + b| - 1] == a + b[..|b| - 1];
      AfterConcat(cfg, c, a, b[..|b| - 1]);
    }
  }

  lemma {:induction false} RunsAreIndependent(
      cfg: Option<Config>, circuits: map<string, Circuit>, rounds: seq<Round>, url: string)
    requires WellFormed(rounds)
    ensures At(RefreshRun(cfg, circuits, rounds), url) == After(cfg, At(circuits, url), AllVisitsOf(url, rounds))
  {
    if rounds != [] {
      var init, last := rounds[..|rounds| - 1], rounds[|rounds| - 1];
      RunsAreIndependent(cfg, circuits, init, url);
      EndpointsAreIndependent(cfg, RefreshRun(cfg, circuits, init), last.endpoints, last.visits, url);
      AfterConcat(cfg, At(circuits, url), AllVisitsOf(url, init), VisitsOf(url, last.endpoints, last.visits));
    }
  }

  // ---------------------------------------------------------------- one endpoint over a whole run

  /** The visits that were not skipped. */
  function Contacts(cfg: Option<Config>, visits: seq<Visit>): seq<Visit> {
    if visits == [] then []
    else
      var n := |visits| - 1;
      Contacts(cfg, visits[..n]) +
      if Skips(cfg, After(cfg, CLOSED, visits[..n]), visits[n].startAt) then [] else [visits[n]]
  }

  /** The length of the trailing run of failures. */
  function FailureRun(contacts: seq<Visit>): nat {
    if contacts == [] || contacts[|contacts| - 1].reply.Card? then 0
    else FailureRun(contacts[..|contacts| - 1]) + 1
  }

  /** The i-th contact opens the circuit: it fails and completes a run of threshold failures or more. */
  predicate Opens(cfg: Config, contacts: seq<Visit>, i: nat)
    requires i < |contacts|
  {
    contacts[i].reply.Error? && FailureRun(contacts[..i + 1]) >= cfg.threshold
  }

  ghost predicate ClockAdvances(visits: seq<Visit>) {
    && (forall i | 0 <= i < |visits| :: visits[i].startAt <= visits[i].endAt)
    && (forall i, j | 0 <= i < j < |visits| :: visits[i].endAt <= visits[j].startAt)
  }

  /** Every contact after an opening starts at least the reset timeout later. */
  ghost predicate Rested(cfg: Config, contacts: seq<Visit>) {
    forall i, j | 0 <= i < j < |contacts| && Opens(cfg, contacts, i) ::
      contacts[j].startAt - contacts[i].endAt >= cfg.resetTimeout
  }

  ghost predicate Tracks(cfg: Config, c: Circuit, contacts: seq<Visit>) {
    && c.failures == FailureRun(contacts)
    && (c.openedAt.Some? <==> FailureRun(contacts) >= cfg.threshold)
    && (c.openedAt.Some? ==> contacts != [] && c.openedAt == Some(contacts[|contacts| - 1].endAt))
  }

  lemma RestedSnoc(cfg: Config, contacts: seq<Visit>, v: Visit, c: Circuit)
    requires cfg.threshold >= 1 && Tracks(cfg, c, contacts) && Rested(cfg, contacts)
    requires !IsOpen(c, cfg.resetTimeout, v.startAt)
    requires forall i | 0 <= i < |contacts| :: contacts[i].endAt <= v.startAt
    requires ClockAdvances(contacts)
    ensures Rested(cfg, contacts + [v])
  {
    var n, all := |contacts|, contacts + [v];
    forall i, j | 0 <= i < j < |all| && Opens(cfg, all, i)
      ensures all[j].startAt - all[i].endAt >= cfg.resetTimeout
    {
      assert all[..i + 1] == contacts[..i + 1];
      assert Opens(cfg, contacts, i);
      if j == n && i == n - 1 {
        assert contacts[..n] == contacts;
      } else if j == n {
        // The contact before this one already rested, and this one starts later still.
        assert contacts[n - 1].startAt - contacts[i].endAt >= cfg.resetTimeout;
      } else {
        assert contacts[j].startAt - contacts[i].endAt >= cfg.resetTimeout;
      }
    }
  }

  lemma TracksSnoc(cfg: Config, contacts: seq<Visit>, v: Visit, c: Circuit)
    requires cfg.threshold >= 1 && Tracks(cfg, c, contacts) && !IsOpen(c, cfg.resetTimeout, v.startAt)
    ensures Tracks(cfg, AfterVisit(Some(cfg), c, v), contacts + [v])
  {
    assert (contacts + [v])[..|contacts|] == contacts;
  }

  lemma {:induction false} ContactsAdvance(cfg: Option<Config>, visits: seq<Visit>)
    requires ClockAdvances(visits)
    ensures ClockAdvances(Contacts(cfg, visits))
    ensures visits != [] ==> forall i | 0 <= i < |Contacts(cfg, visits)| ::
                               Contacts(cfg, visits)[i].endAt <= visits[|visits| - 1].endAt
  {
    if visits != [] {
      var n := |visits| - 1;
      assert ClockAdvances(visits[..n]);
      ContactsAdvance(cfg, visits[..n]);
      var before := Contacts(cfg, visits[..n]);
      assert n > 0 ==> visits[n - 1].endAt <= visits[n].startAt;
    }
  }

  /** Over any run of visits with a non-decreasing clock and a threshold of at least one: the failure count
      is the trailing run of failed contacts, the circuit is open since the last contact exactly when that
      run has reached the threshold, and no contact starts within the reset timeout of an opening. */
  lemma {:induction false} BreakerHolds(cfg: Config, visits: seq<Visit>)
    requires cfg.threshold >= 1 && ClockAdvances(visits)
    ensures Tracks(cfg, After(Some(cfg), CLOSED, visits), Contacts(Some(cfg), visits))
    ensures Rested(cfg, Contacts(Some(cfg), visits))
  {
    if visits != [] {
      var n := |visits| - 1;
      assert ClockAdvances(visits[..n]);
      BreakerHolds(cfg, visits[..n]);
      ContactsAdvance(Some(cfg), visits[..n]);
      var c, contacts := After(Some(cfg), CLOSED, visits[..n]), Contacts(Some(cfg), visits[..n]);
      if IsOpen(c, cfg.resetTimeout, visits[n].startAt) {
        assert contacts + [] == contacts;
      } else {
        assert n > 0 ==> visits[n - 1].endAt <= visits[n].startAt;
        RestedSnoc(cfg, contacts, visits[n], c);
        TracksSnoc(cfg, contacts, visits[n], c);
      }
    }
  }

  /** The same for an endpoint of a registry over any sequence of refreshes. */
  lemma RegistryBreakerHolds(cfg: Config, rounds: seq<Round>, url: string)
    requires WellFormed(rounds) && cfg.threshold >= 1 && ClockAdvances(AllVisitsOf(url, rounds))
    ensures var contacts := Contacts(Some(cfg), AllVisitsOf(url, rounds));
            && Tracks(cfg, At(RefreshRun(Some(cfg), map[], rounds), url), contacts)
            && Rested(cfg, contacts)
  {
    RunsAreIndependent(Some(cfg), map[], rounds, url);
    BreakerHolds(cfg, AllVisitsOf(url, rounds));
  }

  /** Once the timeout of an open circuit is over, the next contact is a trial: if it fails the circuit opens
      again at once, with a new timeout, and if it succeeds the circuit closes. */
  lemma HalfOpenFailureReopens(cfg: Config, visits: seq<Visit>, trial: Visit)
    requires cfg.threshold >= 1 && ClockAdvances(visits)
    requires After(Some(cfg), CLOSED, visits).openedAt.Some?
    requires !IsOpen(After(Some(cfg), CLOSED, visits), cfg.resetTimeout, trial.startAt)
    ensures After(Some(cfg), CLOSED, visits + [trial]) ==
            if trial.reply.Card? then CLOSED
            else Circuit(FailureRun(Contacts(Some(cfg), visits)) + 1, Some(trial.endAt))
  {
    BreakerHolds(cfg, visits);
    assert (visits + [trial])[..|visits|] == visits;
  }

  /** With a threshold below one the count reaches the threshold on a circuit that is not open. */
  lemma ThresholdMustBePositive(cfg: Config)
    ensures cfg.threshold >= 1 <==> Tracks(cfg, CLOSED, [])
  {
  }
}
