/**
 Workers and chain together, as a state machine over all interleavings.

 Any number of nodes start runs on the chain state of the current block, finish them any
 number of blocks later, and drop their payloads into a pool; anybody may drop other
 payloads into it. Payloads are included in any order, any number of times, and any account
 may make any call of the pallet, with any origin. Two assumptions bound the adversary:
 signatures cannot be forged for honest accounts, which only sign what a worker round
 produced, and the root origin whitelists only honest accounts.

 `pool` never shrinks, so replays are covered. `accepted` and the `provenance` of a
 submission are records kept for the proofs; no step depends on them.
 */
module Protocol {
  import opened Wrappers
  import opened Types
  import opened Logarithm
  import opened Calculator
  import opened Worker
  import opened OffchainWorker
  import opened Pallet

  datatype Config = Config(lg: real -> real, tolerance: nat, delay: nat, maxStay: nat, honest: set<Account>)

  datatype Provenance = Forged | FromRound(base: Chain, quotes: seq<Quote>, order: seq<CurrencyPair>)

  datatype Submission = Submission(payload: Payload, signatureValid: bool, provenance: Provenance)

  datatype Node = Node(account: Option<Account>, trigger: TriggerCell, running: Option<Chain>)

  datatype World = World(chain: Chain, nodes: map<nat, Node>, pool: set<Submission>, accepted: seq<Submission>)

  datatype Step =
    | StartRun(node: nat)
    | FinishRun(node: nat, quotes: seq<Quote>, order: seq<CurrencyPair>, poolAccepts: bool)
    | Inject(payload: Payload, signatureValid: bool)
    | Include(submission: Submission)
    | CallMonitored(origin: Origin, operations: seq<ProviderPairOperation>)
    | CallWhitelist(origin: Origin, account: Account)
    | CallBestPaths(origin: Origin, payload: Payload)
    | NextBlock

  ghost predicate Enabled(cfg: Config, w: World, step: Step) {
    match step
    case StartRun(n) => n in w.nodes && w.nodes[n].running == None && ShouldTrigger(w.nodes[n].trigger, w.chain.block)
    case FinishRun(n, quotes, order, _) =>
      && n in w.nodes && w.nodes[n].running.Some?
      && FetchedFrom(quotes, w.nodes[n].running.value.monitored)
      && Enumerates(order, w.nodes[n].running.value.bestPaths.Keys)
    case Inject(payload, signatureValid) => !(signatureValid && payload.public in cfg.honest)
    case Include(s) => s in w.pool
    case CallMonitored(_, _) => true
    case CallWhitelist(origin, account) => origin == Root ==> account in cfg.honest
    // Without origin the call comes through `Include` only, after validation.
    case CallBestPaths(origin, _) => origin != Unsigned
    case NextBlock => true
  }

  ghost function RoundOn(cfg: Config, base: Chain, quotes: seq<Quote>, order: seq<CurrencyPair>, host: Host): Outcome
    requires Enumerates(order, base.bestPaths.Keys)
  {
    Round(base.bestPaths, base.nonce, quotes, cfg.lg, cfg.tolerance, order, host, base.block)
  }

  ghost function Finish(cfg: Config, w: World, n: nat, quotes: seq<Quote>, order: seq<CurrencyPair>,
                        poolAccepts: bool): World
    requires Enabled(cfg, w, FinishRun(n, quotes, order, poolAccepts))
  {
    var node := w.nodes[n];
    var base := node.running.value;
    var outcome := RoundOn(cfg, base, quotes, order, Host(node.account, poolAccepts));
    var trigger := if outcome.Panicked? then node.trigger else At(base.block + cfg.delay);
    var w' := w.(nodes := w.nodes[n := node.(trigger := trigger, running := None)]);
    if outcome.Submitted? then
      w'.(pool := w.pool + {Submission(outcome.payload, true, FromRound(base, quotes, order))})
    else w'
  }

  /** Validation, then dispatch. */
  function Included(cfg: Config, w: World, s: Submission): World {
    if ValidateUnsigned(w.chain, s.payload, s.signatureValid, cfg.maxStay) != Valid then w
    else
      var (chain, r) := AfterSubmitBestPaths(w.chain, Unsigned, s.payload);
      if r.Success? then w.(chain := chain, accepted := w.accepted + [s]) else w
  }

  function Started(w: World, n: nat): World
    requires n in w.nodes
  {
    w.(nodes := w.nodes[n := w.nodes[n].(running := Some(w.chain))])
  }

  function Injected(w: World, payload: Payload, signatureValid: bool): World {
    w.(pool := w.pool + {Submission(payload, signatureValid, Forged)})
  }

  function MonitoredCalled(w: World, origin: Origin, operations: seq<ProviderPairOperation>): World {
    w.(chain := AfterSubmitMonitoredPairs(w.chain, origin, operations).0)
  }

  function WhitelistCalled(w: World, origin: Origin, account: Account): World {
    w.(chain := AfterAddAuthority(w.chain, origin, account).0)
  }

  function BestPathsCalled(w: World, origin: Origin, payload: Payload): World {
    w.(chain := AfterSubmitBestPaths(w.chain, origin, payload).0)
  }

  function BlockPassed(w: World): World {
    w.(chain := w.chain.(block := w.chain.block + 1))
  }

  ghost function Do(cfg: Config, w: World, step: Step): World
    requires Enabled(cfg, w, step)
  {
    match step
    case StartRun(n) => Started(w, n)
    case FinishRun(n, quotes, order, poolAccepts) => Finish(cfg, w, n, quotes, order, poolAccepts)
    case Inject(payload, signatureValid) => Injected(w, payload, signatureValid)
    case Include(s) => Included(cfg, w, s)
    case CallMonitored(origin, operations) => MonitoredCalled(w, origin, operations)
    case CallWhitelist(origin, account) => WhitelistCalled(w, origin, account)
    case CallBestPaths(origin, payload) => BestPathsCalled(w, origin, payload)
    case NextBlock => BlockPassed(w)
  }

  ghost predicate Initial(w: World) {
    && w.chain == Chain(map[], {}, {}, 0, [], 0)
    && (forall n :: n in w.nodes ==> w.nodes[n].running == None)
    && w.pool == {} && w.accepted == []
  }

  // ---------- The invariant ----------

  /** `BestPaths` after the given payloads, from genesis. */
  ghost function Replay(accepted: seq<Submission>): BestPaths {
    if accepted == [] then map[]
    else ApplyChanges(Replay(accepted[..|accepted| - 1]), accepted[|accepted| - 1].payload.changes)
  }

  /** A chain state seen earlier: its nonce tells which `BestPaths` it holds. */
  ghost predicate Seen(accepted: seq<Submission>, c: Chain) {
    c.nonce <= |accepted| && c.bestPaths == Replay(accepted[..c.nonce])
  }

  /** An honest submission is the outcome of a worker round on a chain state seen earlier. */
  ghost predicate Genuine(cfg: Config, accepted: seq<Submission>, s: Submission) {
    s.provenance.FromRound? ==>
      var base, quotes, order := s.provenance.base, s.provenance.quotes, s.provenance.order;
      && Seen(accepted, base)
      && FetchedFrom(quotes, base.monitored) && Enumerates(order, base.bestPaths.Keys)
      && RoundOn(cfg, base, quotes, order, Host(Some(s.payload.public), true)) == Submitted(s.payload)
  }

  ghost predicate Chained(steps: seq<PathStep>, s: Currency, t: Currency) {
    if steps == [] then s == t
    else steps[0].pair.source == s && Chained(steps[1..], steps[0].pair.target, t)
  }

  ghost predicate PathOk(cp: CurrencyPair, path: PricePath) {
    Chained(path.steps, cp.source, cp.target) && path.totalCost == ToFixed(RouteProduct(path.steps))
  }

  ghost predicate PathsOk(m: BestPaths) {
    forall cp :: cp in m ==> PathOk(cp, m[cp])
  }

  /** `path` is, verbatim, what the round behind `s` calculated for `cp`. */
  ghost predicate Delivered(cfg: Config, s: Submission, cp: CurrencyPair, path: PricePath) {
    && s.provenance.FromRound?
    && var r := CalcBestPaths(s.provenance.quotes, cfg.lg);
       r.Success? && cp in r.value && r.value[cp] == path
  }

  ghost predicate AllDelivered(cfg: Config, accepted: seq<Submission>, m: BestPaths) {
    forall cp :: cp in m ==> exists n :: 0 <= n < |accepted| && Delivered(cfg, accepted[n], cp, m[cp])
  }

  ghost predicate LogInv(cfg: Config, w: World) {
    && w.chain.nonce == |w.accepted|
    && w.chain.bestPaths == Replay(w.accepted)
    && (forall n :: 0 <= n < |w.accepted| ==> w.accepted[n].payload.nonce == n)
    && ReplayEvents(w.chain.events) == Costs(w.chain.bestPaths)
    && AllDelivered(cfg, w.accepted, w.chain.bestPaths)
  }

  ghost predicate PoolInv(cfg: Config, w: World) {
    && (forall s :: s in w.pool ==> Genuine(cfg, w.accepted, s))
    && (forall s :: s in w.pool && s.signatureValid && s.payload.public in cfg.honest ==> s.provenance.FromRound?)
    && (forall n :: 0 <= n < |w.accepted| ==> w.accepted[n] in w.pool && w.accepted[n].provenance.FromRound?)
  }

  ghost predicate NodeInv(cfg: Config, w: World) {
    && (forall n :: n in w.nodes && w.nodes[n].running.Some? ==> Seen(w.accepted, w.nodes[n].running.value))
    && w.chain.whitelist <= cfg.honest
  }

  ghost predicate Inv(cfg: Config, w: World) {
    LogInv(cfg, w) && PoolInv(cfg, w) && NodeInv(cfg, w)
  }

  lemma SeenLater(accepted: seq<Submission>, s: Submission, c: Chain)
    requires Seen(accepted, c)
    ensures Seen(accepted + [s], c)
  {
    assert (accepted + [s])[..c.nonce] == accepted[..c.nonce];
  }

  lemma {:induction false} RouteIsChained(quotes: seq<Quote>, steps: seq<PathStep>, s: Currency, t: Currency)
    requires IsRoute(quotes, steps, s, t)
    ensures Chained(steps, s, t)
  {
    if steps != [] { RouteIsChained(quotes, steps[1..], steps[0].pair.target, t); }
  }

  lemma DeliveredPathOk(cfg: Config, s: Submission, cp: CurrencyPair, path: PricePath)
    requires Delivered(cfg, s, cp, path)
    ensures PathOk(cp, path)
  {
    hide CalcBestPaths;
    BestPathsAreRoutes(s.provenance.quotes, cfg.lg, cp);
    RouteIsChained(s.provenance.quotes, path.steps, cp.source, cp.target);
  }

  /** Merging in what a round calculated keeps every path traceable to an accepted round. */
  lemma MergedDelivered(cfg: Config, accepted: seq<Submission>, s: Submission, stored: BestPaths)
    requires AllDelivered(cfg, accepted, stored)
    requires s.provenance.FromRound? && CalcBestPaths(s.provenance.quotes, cfg.lg).Success?
    ensures var latest := CalcBestPaths(s.provenance.quotes, cfg.lg).value;
            AllDelivered(cfg, accepted + [s], Merged(stored, latest, cfg.tolerance))
  {
    hide CalcBestPaths, Outdated;
    var latest := CalcBestPaths(s.provenance.quotes, cfg.lg).value;
    var m, log := Merged(stored, latest, cfg.tolerance), accepted + [s];
    forall cp | cp in m ensures exists n :: 0 <= n < |log| && Delivered(cfg, log[n], cp, m[cp]) {
      if Wanted(stored, latest, cfg.tolerance, cp) {
        assert Delivered(cfg, log[|accepted|], cp, m[cp]);
      } else {
        var n :| 0 <= n < |accepted| && Delivered(cfg, accepted[n], cp, stored[cp]);
        assert log[n] == accepted[n];
      }
    }
  }

  // ---------- What inclusion does ----------

  /** A submission that gets through is genuine and was computed from the current paths. */
  lemma AcceptedIsCurrent(cfg: Config, w: World, s: Submission)
    requires Inv(cfg, w) && s in w.pool && Included(cfg, w, s).accepted != w.accepted
    ensures var w' := Included(cfg, w, s);
            && w'.accepted == w.accepted + [s] && s.payload.nonce == w.chain.nonce
            && s.provenance.FromRound? && Genuine(cfg, w.accepted, s)
            && s.provenance.base.nonce == w.chain.nonce
            && s.provenance.base.bestPaths == w.chain.bestPaths
            && w'.chain.bestPaths == ApplyChanges(w.chain.bestPaths, s.payload.changes)
            && w'.chain.nonce == w.chain.nonce + 1
            && w.chain.block <= s.payload.blockNumber + cfg.maxStay
            && s.payload.public in w.chain.whitelist
  {
    hide Round, CalcBestPaths, FetchedFrom, Enumerates, AllDelivered, ReplayEvents, Costs, Replay, ChangeEvents,
         ApplyChanges, Merged, DividesByZero, DistinctChanges, OnlyUpserts;
    assert s.payload.public in cfg.honest && s.signatureValid;
    assert Genuine(cfg, w.accepted, s) && s.provenance.FromRound?;
    var base := s.provenance.base;
    SubmittedPayload(base.bestPaths, base.nonce, s.provenance.quotes, cfg.lg, cfg.tolerance, s.provenance.order,
                     Host(Some(s.payload.public), true), base.block);
    assert w.accepted[..w.chain.nonce] == w.accepted;
  }

  /**
   No stale difference is ever applied: what an accepted payload was compared with is exactly
   what it is applied to, and the outcome is the merge of the two.
   */
  lemma NoStaleDiff(cfg: Config, w: World, s: Submission)
    requires Inv(cfg, w) && s in w.pool && Included(cfg, w, s).accepted != w.accepted
    ensures s.provenance.FromRound?
    ensures var w', base, latest := Included(cfg, w, s), s.provenance.base, CalcBestPaths(s.provenance.quotes, cfg.lg);
            && base.bestPaths == w.chain.bestPaths
            && latest.Success? && !DividesByZero(w.chain.bestPaths, latest.value)
            && w'.chain.bestPaths == Merged(w.chain.bestPaths, latest.value, cfg.tolerance)
            && FetchedFrom(s.provenance.quotes, base.monitored)
            && DistinctChanges(s.payload.changes) && OnlyUpserts(s.payload.changes)
  {
    hide Inv, Included;
    AcceptedIsCurrent(cfg, w, s);
    var base := s.provenance.base;
    SubmittedPayload(base.bestPaths, base.nonce, s.provenance.quotes, cfg.lg, cfg.tolerance, s.provenance.order,
                     Host(Some(s.payload.public), true), base.block);
  }

  lemma IncludedKeepsLog(cfg: Config, w: World, s: Submission)
    requires Inv(cfg, w) && s in w.pool
    ensures LogInv(cfg, Included(cfg, w, s))
  {
    hide Round, RoundOn, CalcBestPaths, FetchedFrom, Enumerates, AllDelivered, ReplayEvents, Costs,
         ChangeEvents, ApplyChanges, Merged, DividesByZero, DistinctChanges, OnlyUpserts, Genuine, Seen;
    var w' := Included(cfg, w, s);
    if w'.accepted != w.accepted {
      AcceptedIsCurrent(cfg, w, s);
      NoStaleDiff(cfg, w, s);
      MergedDelivered(cfg, w.accepted, s, w.chain.bestPaths);
      assert w'.accepted[..|w'.accepted| - 1] == w.accepted;
      EventsOfInclusion(w.chain, s.payload);
    }
  }

  lemma EventsOfInclusion(chain: Chain, payload: Payload)
    requires chain.nonce == payload.nonce
    requires ReplayEvents(chain.events) == Costs(chain.bestPaths)
    ensures var chain' := AfterSubmitBestPaths(chain, Unsigned, payload).0;
            ReplayEvents(chain'.events) == Costs(chain'.bestPaths)
  {
    EntriesReplayChanges(chain.bestPaths, payload.changes);
    var entries := ChangeEvents(chain.bestPaths, payload.changes);
    if entries != [] {
      var events := chain.events + [BestPricesSubmitted(entries)];
      assert events[..|events| - 1] == chain.events;
    }
  }

  lemma IncludedKeepsPool(cfg: Config, w: World, s: Submission)
    requires Inv(cfg, w) && s in w.pool
    ensures PoolInv(cfg, Included(cfg, w, s)) && NodeInv(cfg, Included(cfg, w, s))
  {
    hide Round, RoundOn, CalcBestPaths, FetchedFrom, Enumerates, AllDelivered, ReplayEvents, Costs, Replay,
         LogInv, ChangeEvents, ApplyChanges, Seen;
    var w' := Included(cfg, w, s);
    if w'.accepted != w.accepted {
      AcceptedIsCurrent(cfg, w, s);
      forall t | t in w.pool ensures Genuine(cfg, w'.accepted, t) {
        assert Genuine(cfg, w.accepted, t);
        if t.provenance.FromRound? { SeenLater(w.accepted, s, t.provenance.base); }
      }
      forall n | n in w.nodes && w.nodes[n].running.Some? ensures Seen(w'.accepted, w.nodes[n].running.value) {
        SeenLater(w.accepted, s, w.nodes[n].running.value);
      }
    }
  }

  // ---------- The other steps ----------

  lemma FinishKeepsInv(cfg: Config, w: World, n: nat, quotes: seq<Quote>, order: seq<CurrencyPair>, poolAccepts: bool)
    requires Inv(cfg, w) && Enabled(cfg, w, FinishRun(n, quotes, order, poolAccepts))
    ensures Inv(cfg, Finish(cfg, w, n, quotes, order, poolAccepts))
  {
    hide Round, CalcBestPaths, FetchedFrom, Enumerates, AllDelivered, ReplayEvents, Costs, Replay, Seen, LogInv;
    var base := w.nodes[n].running.value;
    var outcome := RoundOn(cfg, base, quotes, order, Host(w.nodes[n].account, poolAccepts));
    LogInvOf(cfg, w, Finish(cfg, w, n, quotes, order, poolAccepts));
    assert Seen(w.accepted, base);
    if outcome.Submitted? {
      SubmittedPayload(base.bestPaths, base.nonce, quotes, cfg.lg, cfg.tolerance, order,
                       Host(w.nodes[n].account, poolAccepts), base.block);
      assert Genuine(cfg, w.accepted, Submission(outcome.payload, true, FromRound(base, quotes, order)));
    }
  }

  lemma MonitoredKeepsInv(cfg: Config, w: World, origin: Origin, operations: seq<ProviderPairOperation>)
    requires Inv(cfg, w)
    ensures Inv(cfg, MonitoredCalled(w, origin, operations))
  {
    hide Genuine, AllDelivered, Costs, Replay, Seen, EffectiveOperations, LastOperations, ApplyOperations,
         ReplayEntries;
    var chain := AfterSubmitMonitoredPairs(w.chain, origin, operations).0;
    if chain.events != w.chain.events {
      assert chain.events[..|chain.events| - 1] == w.chain.events;
    }
  }

  lemma WhitelistKeepsInv(cfg: Config, w: World, origin: Origin, account: Account)
    requires Inv(cfg, w) && (origin == Root ==> account in cfg.honest)
    ensures Inv(cfg, WhitelistCalled(w, origin, account))
  {
    hide Genuine, AllDelivered, Costs, Replay, Seen, ReplayEntries;
    var chain := AfterAddAuthority(w.chain, origin, account).0;
    if chain.events != w.chain.events {
      assert chain.events[..|chain.events| - 1] == w.chain.events;
    }
  }

  /** With an origin of its own the call is refused. */
  lemma BestPathsCallRefused(w: World, origin: Origin, payload: Payload)
    requires origin != Unsigned
    ensures BestPathsCalled(w, origin, payload) == w
  {
    SubmitBestPathsRefusals(w.chain, origin, payload);
  }

  lemma StartKeepsInv(cfg: Config, w: World, n: nat)
    requires Inv(cfg, w) && n in w.nodes
    ensures Inv(cfg, Started(w, n))
  {
    hide Genuine, AllDelivered, Costs, Replay, ReplayEvents;
    assert w.accepted[..w.chain.nonce] == w.accepted;
    assert Seen(w.accepted, w.chain);
  }

  lemma InjectKeepsInv(cfg: Config, w: World, payload: Payload, signatureValid: bool)
    requires Inv(cfg, w) && !(signatureValid && payload.public in cfg.honest)
    ensures Inv(cfg, Injected(w, payload, signatureValid))
  {
    hide LogInv, NodeInv, RoundOn, FetchedFrom, Enumerates, Seen;
    LogInvOf(cfg, w, Injected(w, payload, signatureValid));
    NodeInvOf(cfg, w, Injected(w, payload, signatureValid));
  }

  lemma LogInvOf(cfg: Config, w: World, w': World)
    requires LogInv(cfg, w) && w'.accepted == w.accepted
    requires w'.chain == w.chain.(block := w'.chain.block)
    ensures LogInv(cfg, w')
  {
  }

  lemma NodeInvOf(cfg: Config, w: World, w': World)
    requires NodeInv(cfg, w) && w'.accepted == w.accepted && w'.nodes == w.nodes
    requires w'.chain.whitelist == w.chain.whitelist
    ensures NodeInv(cfg, w')
  {
    hide Seen;
  }

  lemma BlockKeepsInv(cfg: Config, w: World)
    requires Inv(cfg, w)
    ensures Inv(cfg, BlockPassed(w))
  {
    hide LogInv, NodeInv, Genuine;
    LogInvOf(cfg, w, BlockPassed(w));
    NodeInvOf(cfg, w, BlockPassed(w));
  }

  /** Every step of every kind keeps the invariant. */
  lemma StepKeepsInv(cfg: Config, w: World, step: Step)
    requires Inv(cfg, w) && Enabled(cfg, w, step)
    ensures Inv(cfg, Do(cfg, w, step))
  {
    hide LogInv, PoolInv, NodeInv, Inv, Finish, Started, Injected, Included, MonitoredCalled, WhitelistCalled,
         BestPathsCalled, BlockPassed, FetchedFrom, Enumerates;
    match step {
      case StartRun(n) => StartKeepsInv(cfg, w, n);
      case FinishRun(n, quotes, order, poolAccepts) => FinishKeepsInv(cfg, w, n, quotes, order, poolAccepts);
      case Inject(payload, signatureValid) => InjectKeepsInv(cfg, w, payload, signatureValid);
      case Include(s) => IncludeKeepsInv(cfg, w, s);
      case CallMonitored(origin, operations) => MonitoredKeepsInv(cfg, w, origin, operations);
      case CallWhitelist(origin, account) => WhitelistKeepsInv(cfg, w, origin, account);
      case CallBestPaths(origin, payload) => BestPathsCallRefused(w, origin, payload);
      case NextBlock => BlockKeepsInv(cfg, w);
    }
  }

  lemma IncludeKeepsInv(cfg: Config, w: World, s: Submission)
    requires Inv(cfg, w) && s in w.pool
    ensures Inv(cfg, Included(cfg, w, s))
  {
    hide LogInv, PoolInv, NodeInv, Included;
    IncludedKeepsLog(cfg, w, s);
    IncludedKeepsPool(cfg, w, s);
  }

  /** `BestPaths` changes only together with the nonce, and the nonce moves by one. */
  lemma PathsMoveWithNonce(cfg: Config, w: World, step: Step)
    requires Enabled(cfg, w, step)
    ensures var w' := Do(cfg, w, step);
            || (w'.chain.nonce == w.chain.nonce && w'.chain.bestPaths == w.chain.bestPaths && w'.accepted == w.accepted)
            || (w'.chain.nonce == w.chain.nonce + 1 && step.Include? && w'.accepted == w.accepted + [step.submission])
  {
    hide RoundOn, FetchedFrom, Enumerates, ApplyChanges, ChangeEvents, WithEvent, ApplyOperations, LastOperations,
         EffectiveOperations, ShouldTrigger;
  }

  // ---------- Runs ----------

  ghost predicate IsRun(cfg: Config, ws: seq<World>, steps: seq<Step>) {
    && |ws| == |steps| + 1
    && Initial(ws[0])
    && forall n :: 0 <= n < |steps| ==> Enabled(cfg, ws[n], steps[n]) && ws[n + 1] == Do(cfg, ws[n], steps[n])
  }

  /** The invariant holds in every state of every run. */
  lemma {:induction false} RunsKeepInv(cfg: Config, ws: seq<World>, steps: seq<Step>, n: nat)
    requires IsRun(cfg, ws, steps) && n < |ws|
    ensures Inv(cfg, ws[n])
  {
    if n > 0 {
      RunsKeepInv(cfg, ws, steps, n - 1);
      StepKeepsInv(cfg, ws[n - 1], steps[n - 1]);
      assert ws[n - 1 + 1] == Do(cfg, ws[n - 1], steps[n - 1]);
    }
  }

  /** The log of accepted payloads only grows. */
  lemma {:induction false} AcceptedGrows(cfg: Config, ws: seq<World>, steps: seq<Step>, a: nat, b: nat)
    requires IsRun(cfg, ws, steps) && a <= b < |ws|
    ensures ws[a].accepted <= ws[b].accepted
  {
    if a < b {
      AcceptedGrows(cfg, ws, steps, a, b - 1);
      PathsMoveWithNonce(cfg, ws[b - 1], steps[b - 1]);
      assert ws[b - 1 + 1] == Do(cfg, ws[b - 1], steps[b - 1]);
    }
  }

  /** Over whole runs the nonce never falls, and states with the same nonce hold the same `BestPaths`. */
  lemma NonceDeterminesPaths(cfg: Config, ws: seq<World>, steps: seq<Step>, a: nat, b: nat)
    requires IsRun(cfg, ws, steps) && a <= b < |ws|
    ensures ws[a].chain.nonce <= ws[b].chain.nonce
    ensures ws[a].chain.nonce == ws[b].chain.nonce ==> ws[a].chain.bestPaths == ws[b].chain.bestPaths
  {
    hide IsRun, Replay, PoolInv, NodeInv;
    RunsKeepInv(cfg, ws, steps, a);
    RunsKeepInv(cfg, ws, steps, b);
    AcceptedGrows(cfg, ws, steps, a, b);
    if |ws[a].accepted| == |ws[b].accepted| {
      assert ws[a].accepted == ws[b].accepted;
    }
  }

  /**
   A genuine submission gets through if and only if no other payload was accepted since its
   round, its signer is whitelisted, and it is not too old; otherwise nothing changes.
   */
  lemma GenuineAcceptedIff(cfg: Config, w: World, s: Submission)
    requires Inv(cfg, w) && s in w.pool && s.provenance.FromRound? && s.signatureValid
    ensures var base, w' := s.provenance.base, Included(cfg, w, s);
            if && base.nonce == w.chain.nonce && s.payload.public in w.chain.whitelist
               && w.chain.block <= base.block + cfg.maxStay
            then w'.accepted == w.accepted + [s]
            else w' == w
  {
    hide Round, CalcBestPaths, FetchedFrom, Enumerates, LogInv, NodeInv, ApplyChanges, ChangeEvents, Seen;
    assert Genuine(cfg, w.accepted, s);
    var base := s.provenance.base;
    SubmittedPayload(base.bestPaths, base.nonce, s.provenance.quotes, cfg.lg, cfg.tolerance, s.provenance.order,
                     Host(Some(s.payload.public), true), base.block);
  }

  /**
   Over whole runs: the accepted nonces are 0, 1, 2, ... without gaps, so no payload takes
   effect twice, and once included a payload is refused ever after.
   */
  lemma NoReplay(cfg: Config, ws: seq<World>, steps: seq<Step>, a: nat, b: nat)
    requires IsRun(cfg, ws, steps) && a <= b < |ws|
    ensures forall x, y :: 0 <= x < y < |ws[b].accepted| ==> ws[b].accepted[x].payload != ws[b].accepted[y].payload
    ensures forall x :: 0 <= x < |ws[b].accepted| ==> ws[b].accepted[x].payload.nonce == x
    ensures forall s :: s in ws[a].accepted ==> Included(cfg, ws[b], s) == ws[b]
  {
    RunsKeepInv(cfg, ws, steps, a);
    RunsKeepInv(cfg, ws, steps, b);
    AcceptedGrows(cfg, ws, steps, a, b);
  }

  /**
   In every reachable state: folding the event log from genesis gives the stored costs; every
   stored path is, verbatim, what the round behind some accepted payload calculated for its
   pair; and it leads from source to target and costs the fixed-point product of its steps.
   */
  lemma ReachableChain(cfg: Config, ws: seq<World>, steps: seq<Step>, n: nat)
    requires IsRun(cfg, ws, steps) && n < |ws|
    ensures var chain := ws[n].chain;
            && ReplayEvents(chain.events) == Costs(chain.bestPaths)
            && AllDelivered(cfg, ws[n].accepted, chain.bestPaths)
            && PathsOk(chain.bestPaths)
  {
    hide Delivered, PathOk, IsRun, ReplayEvents, Costs, Replay, PoolInv, NodeInv;
    RunsKeepInv(cfg, ws, steps, n);
    var m, accepted := ws[n].chain.bestPaths, ws[n].accepted;
    forall cp | cp in m ensures PathOk(cp, m[cp]) {
      var k :| 0 <= k < |accepted| && Delivered(cfg, accepted[k], cp, m[cp]);
      DeliveredPathOk(cfg, accepted[k], cp, m[cp]);
    }
  }

  // ---------- What an accepted round achieves ----------

  /** In every run, whatever is accepted was computed from exactly the paths it is applied to. */
  lemma NothingStaleIsAccepted(cfg: Config, ws: seq<World>, steps: seq<Step>, n: nat)
    requires IsRun(cfg, ws, steps) && n < |steps|
    requires ws[n + 1].chain.bestPaths != ws[n].chain.bestPaths || ws[n + 1].accepted != ws[n].accepted
    ensures steps[n].Include? && steps[n].submission.provenance.FromRound?
    ensures var base, quotes := steps[n].submission.provenance.base, steps[n].submission.provenance.quotes;
            && base.bestPaths == ws[n].chain.bestPaths
            && CalcBestPaths(quotes, cfg.lg).Success?
            && ws[n + 1].chain.bestPaths
               == Merged(ws[n].chain.bestPaths, CalcBestPaths(quotes, cfg.lg).value, cfg.tolerance)
  {
    hide CalcBestPaths, Inv, Merged;
    RunsKeepInv(cfg, ws, steps, n);
    assert ws[n + 1] == Do(cfg, ws[n], steps[n]);
    PathsMoveWithNonce(cfg, ws[n], steps[n]);
    NoStaleDiff(cfg, ws[n], steps[n].submission);
  }

  /**
   At every accepted inclusion of every run: for each route the prices of that round offer,
   the pair of its ends is now stored, and its stored cost is within tolerance of a cost that
   no route of the round exceeds.
   */
  lemma AcceptedRoundTracksOptimum(cfg: Config, ok: real -> bool, ws: seq<World>, steps: seq<Step>, n: nat,
                                   route: seq<PathStep>, cp: CurrencyPair)
    requires IsRun(cfg, ws, steps) && n < |steps| && steps[n].Include?
    requires ws[n + 1].accepted != ws[n].accepted
    requires LogOn(cfg.lg, ok)
    ensures steps[n].submission.provenance.FromRound?
    ensures var quotes := steps[n].submission.provenance.quotes;
            var stored := ws[n + 1].chain.bestPaths;
            PricesOk(quotes, ok) && IsRoute(quotes, route, cp.source, cp.target) && route != [] ==>
              && CalcBestPaths(quotes, cfg.lg).Success?
              && var best := CalcBestPaths(quotes, cfg.lg).value;
              && cp in best && cp in stored
              && ToFixed(RouteProduct(route)) <= best[cp].totalCost
              && Tolerated(stored[cp].totalCost, best[cp].totalCost, cfg.tolerance)
  {
    hide CalcBestPaths, Inv, Merged, LogOn, IsRoute, EveryQuoteMatched;
    var s := steps[n].submission;
    RunsKeepInv(cfg, ws, steps, n);
    assert ws[n + 1] == Do(cfg, ws[n], steps[n]) == Included(cfg, ws[n], s);
    assert s in ws[n].pool;
    NoStaleDiff(cfg, ws[n], s);
    var quotes := s.provenance.quotes;
    FetchedPricesAgree(quotes, s.provenance.base.monitored);
    var best := CalcBestPaths(quotes, cfg.lg).value;
    MergedKeepsTolerance(ws[n].chain.bestPaths, best, cfg.tolerance);
    if PricesOk(quotes, ok) && IsRoute(quotes, route, cp.source, cp.target) && route != [] {
      OnePriceIsMatched(quotes);
      BestPathsAreOptimal(quotes, cfg.lg, ok, route, cp);
    }
  }

  // ---------- What a run achieves ----------

  /** The round on `base` submits something. */
  ghost predicate Submits(cfg: Config, base: Chain, quotes: seq<Quote>, host: Host) {
    && quotes != [] && host.account.Some? && host.poolAccepts
    && var r := CalcBestPaths(quotes, cfg.lg);
    && r.Success? && !DividesByZero(base.bestPaths, r.value) && HasNews(base.bestPaths, r.value, cfg.tolerance)
  }

  /** The round on `base` divides by a stored cost of zero. */
  ghost predicate Panics(cfg: Config, base: Chain, quotes: seq<Quote>) {
    quotes != [] && var r := CalcBestPaths(quotes, cfg.lg); r.Success? && DividesByZero(base.bestPaths, r.value)
  }

  /**
   Finishing a run: the node is idle again and waits for a delay from the block of the run,
   unless the round panicked. A signed submission joins the pool if and only if the round
   submits, and nothing else changes.
   */
  lemma FinishRunEffect(cfg: Config, w: World, n: nat, quotes: seq<Quote>, order: seq<CurrencyPair>, poolAccepts: bool)
    requires Enabled(cfg, w, FinishRun(n, quotes, order, poolAccepts))
    ensures var w', node, base := Do(cfg, w, FinishRun(n, quotes, order, poolAccepts)), w.nodes[n],
                                  w.nodes[n].running.value;
            var host := Host(node.account, poolAccepts);
            && w'.chain == w.chain && w'.accepted == w.accepted
            && w'.nodes.Keys == w.nodes.Keys && (forall k :: k in w.nodes && k != n ==> w'.nodes[k] == w.nodes[k])
            && w'.nodes[n] == Node(node.account, if Panics(cfg, base, quotes) then node.trigger
                                                 else At(base.block + cfg.delay), None)
            && (!Submits(cfg, base, quotes, host) ==> w'.pool == w.pool)
            && (Submits(cfg, base, quotes, host) ==>
                  var o := RoundOn(cfg, base, quotes, order, host);
                  && o.Submitted? && o.payload.public == node.account.value
                  && w'.pool == w.pool + {Submission(o.payload, true, FromRound(base, quotes, order))})
  {
    hide CalcBestPaths, Round, FetchedFrom, Enumerates, DividesByZero, HasNews;
    var base, host := w.nodes[n].running.value, Host(w.nodes[n].account, poolAccepts);
    OutcomeOf(cfg, base, quotes, order, host);
  }

  lemma OutcomeOf(cfg: Config, base: Chain, quotes: seq<Quote>, order: seq<CurrencyPair>, host: Host)
    requires Enumerates(order, base.bestPaths.Keys)
    ensures var o := RoundOn(cfg, base, quotes, order, host);
            && (o.Submitted? <==> Submits(cfg, base, quotes, host))
            && (o.Submitted? ==> host.account == Some(o.payload.public))
            && (o == Panicked <==> Panics(cfg, base, quotes))
  {
    hide CalcBestPaths, Round, Enumerates, HasNews;
    RoundOutcomes(base.bestPaths, base.nonce, quotes, cfg.lg, cfg.tolerance, order, host, base.block);
    if RoundOn(cfg, base, quotes, order, host).Submitted? {
      SubmittedPayload(base.bestPaths, base.nonce, quotes, cfg.lg, cfg.tolerance, order, host, base.block);
    }
  }

  ghost predicate Finishes(step: Step, n: nat) {
    step.FinishRun? && step.node == n
  }

  lemma OtherStepsKeepRun(cfg: Config, w: World, step: Step, n: nat)
    requires Enabled(cfg, w, step) && n in w.nodes && w.nodes[n].running.Some? && !Finishes(step, n)
    ensures var w' := Do(cfg, w, step); n in w'.nodes && w'.nodes[n] == w.nodes[n]
  {
    hide RoundOn, FetchedFrom, Enumerates, AfterSubmitBestPaths, AfterSubmitMonitoredPairs, AfterAddAuthority,
         ValidateUnsigned;
  }

  /** Until it finishes, a run works on the chain state it started from. */
  lemma {:induction false} RunKeepsItsBase(cfg: Config, ws: seq<World>, steps: seq<Step>, n: nat, a: nat, b: nat)
    requires IsRun(cfg, ws, steps) && a < b < |ws| && steps[a] == StartRun(n)
    requires forall m :: a < m < b ==> !Finishes(steps[m], n)
    ensures n in ws[a].nodes && n in ws[b].nodes
    ensures ws[b].nodes[n] == ws[a].nodes[n].(running := Some(ws[a].chain))
  {
    hide FetchedFrom, Enumerates, RoundOn;
    assert Enabled(cfg, ws[b - 1], steps[b - 1]) && ws[b - 1 + 1] == Do(cfg, ws[b - 1], steps[b - 1]);
    if a < b - 1 {
      RunKeepsItsBase(cfg, ws, steps, n, a, b - 1);
      OtherStepsKeepRun(cfg, ws[b - 1], steps[b - 1], n);
    } else {
      assert Do(cfg, ws[a], StartRun(n)) == Started(ws[a], n);
    }
  }

  lemma StepKeepsPool(cfg: Config, w: World, step: Step)
    requires Enabled(cfg, w, step)
    ensures w.pool <= Do(cfg, w, step).pool
  {
    hide RoundOn, FetchedFrom, Enumerates, AfterSubmitBestPaths, AfterSubmitMonitoredPairs, AfterAddAuthority,
         ValidateUnsigned, ShouldTrigger;
  }

  lemma {:induction false} PoolGrows(cfg: Config, ws: seq<World>, steps: seq<Step>, a: nat, b: nat)
    requires IsRun(cfg, ws, steps) && a <= b < |ws|
    ensures ws[a].pool <= ws[b].pool
  {
    hide Enabled, Do, Initial;
    if a < b {
      PoolGrows(cfg, ws, steps, a, b - 1);
      assert Enabled(cfg, ws[b - 1], steps[b - 1]) && ws[b - 1 + 1] == Do(cfg, ws[b - 1], steps[b - 1]);
      StepKeepsPool(cfg, ws[b - 1], steps[b - 1]);
    }
  }

  /**
   What the system is for: in every run, let a node start at `a` and finish at `b` a round
   that submits, and let its submission be included at `c`. If nothing was accepted since
   `a`, the signer is whitelisted and the payload is not too old, then the stored paths become
   the merge of those at `a` with what the round calculated. From `b` on the submission can be
   included at any time.
   */
  lemma UndisturbedRoundArrives(cfg: Config, ws: seq<World>, steps: seq<Step>, n: nat, a: nat, b: nat, c: nat)
    returns (s: Submission)
    requires IsRun(cfg, ws, steps) && a < b < c < |ws|
    requires steps[a] == StartRun(n) && Finishes(steps[b], n)
    requires forall m :: a < m < b ==> !Finishes(steps[m], n)
    requires n in ws[a].nodes
    requires Submits(cfg, ws[a].chain, steps[b].quotes, Host(ws[a].nodes[n].account, steps[b].poolAccepts))
    ensures s.provenance == FromRound(ws[a].chain, steps[b].quotes, steps[b].order) && s.signatureValid
    ensures ws[a].nodes[n].account == Some(s.payload.public)
    ensures Enabled(cfg, ws[c], Include(s))
    ensures && ws[c].accepted == ws[a].accepted && s.payload.public in ws[c].chain.whitelist
            && ws[c].chain.block <= ws[a].chain.block + cfg.maxStay ==>
              var w' := Do(cfg, ws[c], Include(s));
              && w'.accepted == ws[a].accepted + [s]
              && w'.chain.bestPaths
                 == Merged(ws[a].chain.bestPaths, CalcBestPaths(steps[b].quotes, cfg.lg).value, cfg.tolerance)
  {
    hide Round, RoundOn, CalcBestPaths, FetchedFrom, Enumerates, Inv, Included, Merged, DividesByZero, HasNews,
         Panics, IsRun, Genuine;
    StepOfRun(cfg, ws, steps, b);
    s := FinishedRoundIsPooled(cfg, ws, steps, n, a, b);
    PoolGrows(cfg, ws, steps, b + 1, c);
    RunsKeepInv(cfg, ws, steps, a);
    RunsKeepInv(cfg, ws, steps, c);
    NonceIsCount(cfg, ws[a]);
    NonceIsCount(cfg, ws[c]);
    NonceDeterminesPaths(cfg, ws, steps, a, c);
    GenuineAcceptedIff(cfg, ws[c], s);
    if Included(cfg, ws[c], s).accepted != ws[c].accepted {
      NoStaleDiff(cfg, ws[c], s);
    }
  }

  lemma FinishedRoundIsPooled(cfg: Config, ws: seq<World>, steps: seq<Step>, n: nat, a: nat, b: nat)
    returns (s: Submission)
    requires IsRun(cfg, ws, steps) && a < b < |steps|
    requires steps[a] == StartRun(n) && Finishes(steps[b], n)
    requires forall m :: a < m < b ==> !Finishes(steps[m], n)
    requires n in ws[a].nodes
    requires Submits(cfg, ws[a].chain, steps[b].quotes, Host(ws[a].nodes[n].account, steps[b].poolAccepts))
    ensures s.provenance == FromRound(ws[a].chain, steps[b].quotes, steps[b].order) && s.signatureValid
    ensures ws[a].nodes[n].account == Some(s.payload.public)
    ensures b + 1 < |ws| && s in ws[b + 1].pool
  {
    hide RoundOn, CalcBestPaths, FetchedFrom, Enumerates, DividesByZero, HasNews, Panics, IsRun, Do;
    StepOfRun(cfg, ws, steps, b);
    RunKeepsItsBase(cfg, ws, steps, n, a, b);
    var base, quotes, order, poolAccepts := ws[a].chain, steps[b].quotes, steps[b].order, steps[b].poolAccepts;
    FinishRunEffect(cfg, ws[b], n, quotes, order, poolAccepts);
    var o := RoundOn(cfg, base, quotes, order, Host(ws[a].nodes[n].account, poolAccepts));
    s := Submission(o.payload, true, FromRound(base, quotes, order));
  }

  lemma NonceIsCount(cfg: Config, w: World)
    requires Inv(cfg, w)
    ensures w.chain.nonce == |w.accepted|
  {
  }

  lemma StepOfRun(cfg: Config, ws: seq<World>, steps: seq<Step>, n: nat)
    requires IsRun(cfg, ws, steps)
    ensures |ws| == |steps| + 1
    ensures n < |steps| ==> Enabled(cfg, ws[n], steps[n]) && ws[n + 1] == Do(cfg, ws[n], steps[n])
  {
    hide Enabled, Do, Initial;
  }

  // ---------- The rate limit, over runs of the whole system ----------

  /** The node starts no run before block `t`, and none is under way that did. */
  ghost predicate NotBefore(node: Node, t: nat) {
    && node.trigger.At? && node.trigger.block >= t
    && (node.running.Some? ==> node.running.value.block >= node.trigger.block)
  }

  lemma StepKeepsNotBefore(cfg: Config, w: World, step: Step, n: nat, t: nat)
    requires Enabled(cfg, w, step) && n in w.nodes && NotBefore(w.nodes[n], t)
    ensures var w' := Do(cfg, w, step); n in w'.nodes && NotBefore(w'.nodes[n], t)
  {
    hide RoundOn, FetchedFrom, Enumerates, AfterSubmitBestPaths, AfterSubmitMonitoredPairs, AfterAddAuthority,
         ValidateUnsigned;
  }

  lemma {:induction false} RunKeepsNotBefore(cfg: Config, ws: seq<World>, steps: seq<Step>, n: nat, t: nat,
                                             a: nat, b: nat)
    requires IsRun(cfg, ws, steps) && a <= b < |ws| && n in ws[a].nodes && NotBefore(ws[a].nodes[n], t)
    ensures n in ws[b].nodes && NotBefore(ws[b].nodes[n], t)
  {
    hide IsRun, Enabled, Do, NotBefore;
    if a < b {
      StepOfRun(cfg, ws, steps, b - 1);
      RunKeepsNotBefore(cfg, ws, steps, n, t, a, b - 1);
      StepKeepsNotBefore(cfg, ws[b - 1], steps[b - 1], n, t);
    }
  }

  /**
   In every run, whatever the other nodes and the chain do meanwhile: once a node has finished
   a round without panic, each later round it finishes was started a delay after that one.
   */
  lemma NodesAreRateLimited(cfg: Config, ws: seq<World>, steps: seq<Step>, n: nat, a: nat, b: nat)
    requires IsRun(cfg, ws, steps) && a < b < |steps| && Finishes(steps[a], n) && Finishes(steps[b], n)
    ensures n in ws[a].nodes && ws[a].nodes[n].running.Some? && n in ws[b].nodes && ws[b].nodes[n].running.Some?
    ensures var first, later := ws[a].nodes[n].running.value, ws[b].nodes[n].running.value;
            !Panics(cfg, first, steps[a].quotes) ==> later.block >= first.block + cfg.delay
  {
    hide IsRun, Do, Panics, FetchedFrom, Enumerates, RoundOn, Submits;
    StepOfRun(cfg, ws, steps, a);
    StepOfRun(cfg, ws, steps, b);
    FinishRunEffect(cfg, ws[a], n, steps[a].quotes, steps[a].order, steps[a].poolAccepts);
    var first := ws[a].nodes[n].running.value;
    if !Panics(cfg, first, steps[a].quotes) {
      RunKeepsNotBefore(cfg, ws, steps, n, first.block + cfg.delay, a + 1, b);
    }
  }

  // ---------- A run from genesis to an accepted payload ----------

  lemma ExtendRun(cfg: Config, ws: seq<World>, steps: seq<Step>, step: Step)
    returns (ws': seq<World>, steps': seq<Step>)
    requires IsRun(cfg, ws, steps) && Enabled(cfg, ws[|steps|], step)
    ensures steps' == steps + [step] && IsRun(cfg, ws', steps')
    ensures ws' == ws + [Do(cfg, ws[|steps|], step)] && ws'[|steps'|] == Do(cfg, ws[|steps|], step)
  {
    hide Enabled, Do, Initial;
    ws', steps' := ws + [Do(cfg, ws[|steps|], step)], steps + [step];
    forall n | 0 <= n < |steps'|
      ensures Enabled(cfg, ws'[n], steps'[n]) && ws'[n + 1] == Do(cfg, ws'[n], steps'[n])
    {
      if n < |steps| {
        assert ws'[n] == ws[n] && ws'[n + 1] == ws[n + 1] && steps'[n] == steps[n];
      }
    }
  }

  lemma IncludedKeepsRest(cfg: Config, w: World, s: Submission)
    ensures var w' := Included(cfg, w, s);
            && w'.chain == w.chain.(bestPaths := w'.chain.bestPaths, nonce := w'.chain.nonce,
                                    events := w'.chain.events)
            && w'.nodes == w.nodes && w'.pool == w.pool
  {
    hide ApplyChanges, ChangeEvents, WithEvent;
  }

  const ALICE: Account := 7
  const MALLORY: Account := 8
  const WATCHED := {TINY_QUOTES[0].providerPair, TINY_QUOTES[1].providerPair}
  const WATCH := [ProviderPairOperation(TINY_QUOTES[0].providerPair, Add),
                  ProviderPairOperation(TINY_QUOTES[1].providerPair, Add)]
  const FORGERY := Payload([Change(CurrencyPair("a", "c"), None)], 0, 1, MALLORY)

  /** A run of which the first worlds show the set-up by root and the start of Alice's round. */
  ghost predicate IsSetUp(ws: seq<World>) {
    && |ws| >= 5
    && ws[3].chain == ws[4].chain && ws[3].accepted == [] && 0 in ws[3].nodes && ws[3].nodes[0].account == Some(ALICE)
    && var w := ws[4];
    && w.chain.(events := []) == Chain(map[], WATCHED, {ALICE}, 0, [], 1)
    && w.nodes == map[0 := Node(Some(ALICE), Missing, Some(w.chain))]
    && w.pool == {} && w.accepted == []
  }

  lemma SetUp(cfg: Config) returns (ws: seq<World>, steps: seq<Step>)
    requires ALICE in cfg.honest
    ensures steps == [CallMonitored(Root, WATCH), CallWhitelist(Root, ALICE), NextBlock, StartRun(0)]
    ensures IsRun(cfg, ws, steps) && IsSetUp(ws) && |ws| == 5
  {
    hide AfterSubmitMonitoredPairs, FetchedFrom, Enumerates, Finish, AfterSubmitBestPaths;
    ws, steps := [World(Chain(map[], {}, {}, 0, [], 0), map[0 := Node(Some(ALICE), Missing, None)], {}, [])], [];
    assert IsRun(cfg, ws, steps);
    hide IsRun;
    WatchedAfter(ws[0].chain);
    ws, steps := ExtendRun(cfg, ws, steps, CallMonitored(Root, WATCH));
    ws, steps := ExtendRun(cfg, ws, steps, CallWhitelist(Root, ALICE));
    ws, steps := ExtendRun(cfg, ws, steps, NextBlock);
    ws, steps := ExtendRun(cfg, ws, steps, StartRun(0));
  }

  lemma WatchedAfter(chain: Chain)
    requires chain.monitored == {}
    ensures var chain' := AfterSubmitMonitoredPairs(chain, Root, WATCH).0;
            chain' == chain.(monitored := WATCHED, events := chain'.events)
  {
    hide AfterSubmitMonitoredPairs, ApplyOperations;
    var listed, at := SubmitMonitoredPairsEffect(chain, Root, WATCH);
    var m := AfterSubmitMonitoredPairs(chain, Root, WATCH).0.monitored;
    assert IsLastAt(WATCH, 0) && IsLastAt(WATCH, 1);
    assert WATCH[0].providerPair in m && WATCH[1].providerPair in m;
    forall pp | pp !in WATCHED ensures pp !in m {
      assert pp !in PairsOf(WATCH);
    }
    assert m == WATCHED;
  }

  lemma TinyRoundSubmits(cfg: Config, ok: real -> bool, base: Chain)
    requires LogOn(cfg.lg, ok) && ok(Rate(1)) && base.bestPaths == map[]
    ensures Submits(cfg, base, TINY_QUOTES, Host(Some(ALICE), true)) && !Panics(cfg, base, TINY_QUOTES)
    ensures var r := CalcBestPaths(TINY_QUOTES, cfg.lg);
            && r.Success?
            && var m := Merged(base.bestPaths, r.value, cfg.tolerance);
               CurrencyPair("a", "c") in m && m[CurrencyPair("a", "c")].totalCost == 0
  {
    hide CalcBestPaths, LogOn;
    TinyResult(cfg.lg, ok);
    var latest := CalcBestPaths(TINY_QUOTES, cfg.lg).value;
    assert GivesWay(base.bestPaths, latest[CurrencyPair("a", "c")], cfg.tolerance, CurrencyPair("a", "c"));
  }

  /** Alice's round is in the pool, and so is a forged payload, whose inclusion is refused. */
  lemma TinyPool(cfg: Config, ok: real -> bool) returns (ws: seq<World>, steps: seq<Step>, s: Submission)
    requires LogOn(cfg.lg, ok) && ok(Rate(1)) && ALICE in cfg.honest && MALLORY !in cfg.honest
    ensures steps == [CallMonitored(Root, WATCH), CallWhitelist(Root, ALICE), NextBlock, StartRun(0),
                      FinishRun(0, TINY_QUOTES, [], true), Inject(FORGERY, true),
                      Include(Submission(FORGERY, true, Forged))]
    ensures IsRun(cfg, ws, steps) && IsSetUp(ws) && |ws| == 8 && ws[7] == ws[6]
    ensures ws[7] == World(ws[4].chain, map[0 := Node(Some(ALICE), At(1 + cfg.delay), None)],
                           {s, Submission(FORGERY, true, Forged)}, [])
  {
    hide CalcBestPaths, LogOn, AfterSubmitBestPaths, Submits, Panics, IsRun, RoundOn, Finish;
    ws, steps := SetUp(cfg);
    var base := ws[4].chain;
    assert FetchedFrom(TINY_QUOTES, base.monitored) && Enumerates([], base.bestPaths.Keys);
    hide FetchedFrom, Enumerates;
    TinyRoundSubmits(cfg, ok, base);
    FinishRunEffect(cfg, ws[4], 0, TINY_QUOTES, [], true);
    ws, steps := ExtendRun(cfg, ws, steps, FinishRun(0, TINY_QUOTES, [], true));
    s := Submission(RoundOn(cfg, base, TINY_QUOTES, [], Host(Some(ALICE), true)).payload, true,
                    FromRound(base, TINY_QUOTES, []));
    ws, steps := ExtendRun(cfg, ws, steps, Inject(FORGERY, true));
    ws, steps := ExtendRun(cfg, ws, steps, Include(Submission(FORGERY, true, Forged)));
  }

  /**
   The hypotheses on runs can be met, and the machine does something: from genesis, a set-up
   by root, one round and its inclusion lead to stored paths. A payload signed by somebody
   else, although its signature is valid and its nonce current, is refused on the way.
   */
  lemma TinyRun(cfg: Config, ok: real -> bool) returns (ws: seq<World>, steps: seq<Step>, s: Submission)
    requires LogOn(cfg.lg, ok) && ok(Rate(1)) && ALICE in cfg.honest && MALLORY !in cfg.honest
    ensures steps == [CallMonitored(Root, WATCH), CallWhitelist(Root, ALICE), NextBlock, StartRun(0),
                      FinishRun(0, TINY_QUOTES, [], true), Inject(FORGERY, true),
                      Include(Submission(FORGERY, true, Forged)), Include(s)]
    ensures IsRun(cfg, ws, steps)
    ensures ws[7] == ws[6]
    ensures var w, ac := ws[8], CurrencyPair("a", "c");
            && w.accepted == [s] && s.payload.public == ALICE
            && w.pool == {s, Submission(FORGERY, true, Forged)}
            && ac in w.chain.bestPaths && w.chain.bestPaths[ac].totalCost == 0
            && w.chain.nonce == 1 && w.chain.block == 1
            && w.chain.monitored == WATCHED && w.chain.whitelist == {ALICE}
            && w.nodes == map[0 := Node(Some(ALICE), At(1 + cfg.delay), None)]
  {
    hide CalcBestPaths, LogOn, Submits, Panics, IsRun, RoundOn, Merged, Inv, Genuine, Included, FetchedFrom,
         Enumerates;
    ws, steps, s := TinyPool(cfg, ok);
    var base := ws[4].chain;
    TinyRoundSubmits(cfg, ok, base);
    var arriving := UndisturbedRoundArrives(cfg, ws, steps, 0, 3, 4, 7);
    assert arriving == s;
    IncludedKeepsRest(cfg, ws[7], s);
    ws, steps := ExtendRun(cfg, ws, steps, Include(s));
    assert steps[4].quotes == TINY_QUOTES;
    assert ws[8].chain.bestPaths == Merged(base.bestPaths, CalcBestPaths(TINY_QUOTES, cfg.lg).value, cfg.tolerance);
    RunsKeepInv(cfg, ws, steps, 8);
    NonceIsCount(cfg, ws[8]);
  }
}
