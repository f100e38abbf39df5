/**
 One run of the off-chain worker on a node: trigger check, lock, round, next trigger.

 Fetching prices is I/O: the quotes that came back are an argument. So are the node's
 keystore and pool, as a `Host`, and whether the lock could be taken. `lg` is the
 logarithm used by the calculator.
 */
module OffchainWorker {
  import opened Wrappers
  import opened Types
  import opened Logarithm
  import opened Calculator
  import opened Worker

  datatype Outcome =
    | NoPrices
    | CalculationFailed(error: CalculatorError)
    | Panicked
    | NothingToChange
    | NoAccount
    | SubmissionFailed
    | Submitted(payload: Payload)

  /** The signing account in the keystore, if any, and whether the pool takes the transaction. */
  datatype Host = Host(account: Option<Account>, poolAccepts: bool)

  /** At most one quote for each monitored pair, in any order; failed fetches are left out. */
  ghost predicate FetchedFrom(quotes: seq<Quote>, monitored: set<ProviderPair>) {
    && (forall a, b :: 0 <= a < b < |quotes| ==> quotes[a].providerPair != quotes[b].providerPair)
    && (forall q :: q in quotes ==> q.providerPair in monitored)
  }

  /** There is one provider, so the monitored pairs offer one price per currency pair. */
  lemma FetchedPricesAgree(quotes: seq<Quote>, monitored: set<ProviderPair>)
    requires FetchedFrom(quotes, monitored)
    ensures OnePricePerPair(quotes)
  {
    forall q, r | q in quotes && r in quotes && q.providerPair.pair == r.providerPair.pair ensures q.price == r.price {
      assert q.providerPair == r.providerPair;
    }
  }

  /** `fetch_prices_and_update_best_paths`, given the chain state it reads. */
  ghost function Round(stored: BestPaths, nonce: nat, quotes: seq<Quote>, lg: real -> real, tolerance: nat,
                       order: seq<CurrencyPair>, host: Host, block: nat): Outcome
    requires Enumerates(order, stored.Keys)
  {
    if quotes == [] then NoPrices
    else match CalcBestPaths(quotes, lg)
      case Failure(e) => CalculationFailed(e)
      case Success(latest) =>
        if DividesByZero(stored, latest) then Panicked
        else
          var changes := ChangeList(stored, latest, tolerance, order);
          if changes == [] then NothingToChange
          else match host.account
            case None => NoAccount
            case Some(public) =>
              if host.poolAccepts then Submitted(Payload(changes, nonce, block, public)) else SubmissionFailed
  }

  method FetchPricesAndUpdateBestPaths(stored: BestPaths, nonce: nat, quotes: seq<Quote>, lg: real -> real,
                                       tolerance: nat, order: seq<CurrencyPair>, host: Host, block: nat)
    returns (outcome: Outcome)
    requires Enumerates(order, stored.Keys)
    ensures outcome == Round(stored, nonce, quotes, lg, tolerance, order, host, block)
  {
    if quotes == [] {
      return NoPrices;
    }
    var res := ComputeBestPaths(quotes, lg);
    if res.Failure? {
      return CalculationFailed(res.error);
    }
    var selected := SelectChanges(stored, res.value, tolerance, order);
    if selected == None {
      return Panicked;
    }
    if selected.value == [] {
      return NothingToChange;
    }
    match host.account {
      case None => return NoAccount;
      case Some(public) =>
        if !host.poolAccepts {
          return SubmissionFailed;
        }
        return Submitted(Payload(selected.value, nonce, block, public));
    }
  }

  /** Something to tell the chain: a new pair, or one truly and visibly out of tolerance. */
  ghost predicate HasNews(stored: BestPaths, latest: BestPaths, tolerance: nat) {
    exists p :: p in latest && GivesWay(stored, latest[p], tolerance, p)
  }

  lemma NothingToChangeIff(stored: BestPaths, latest: BestPaths, tolerance: nat, order: seq<CurrencyPair>)
    requires Enumerates(order, stored.Keys) && !DividesByZero(stored, latest)
    ensures ChangeList(stored, latest, tolerance, order) == [] <==> !HasNews(stored, latest, tolerance)
  {
    hide ChangeList, Wanted, GivesWay, DividesByZero;
    var changes := ChangeList(stored, latest, tolerance, order);
    ChangeListMembers(stored, latest, tolerance, order);
    forall p
      ensures Wanted(stored, latest, tolerance, p) <==> p in latest && GivesWay(stored, latest[p], tolerance, p)
    {
      WantedIffGivesWay(stored, latest, tolerance, p);
    }
    if changes != [] {
      assert changes[0] in changes;
    }
    if p :| p in latest && GivesWay(stored, latest[p], tolerance, p) {
      assert Change(p, Some(latest[p])) in changes;
    }
  }

  /**
   Each outcome has its exact condition. In particular a payload is submitted if and only if
   the prices could be calculated, no stored path to compare with costs zero, there is news,
   an account to sign with, and a pool that takes the transaction.
   */
  lemma RoundOutcomes(stored: BestPaths, nonce: nat, quotes: seq<Quote>, lg: real -> real, tolerance: nat,
                      order: seq<CurrencyPair>, host: Host, block: nat)
    requires Enumerates(order, stored.Keys)
    ensures var o, r := Round(stored, nonce, quotes, lg, tolerance, order, host, block), CalcBestPaths(quotes, lg);
            && (o == NoPrices <==> quotes == [])
            && (o.CalculationFailed? <==> quotes != [] && r.Failure?)
            && (o.CalculationFailed? ==> o.error == r.error)
            && (quotes != [] && r.Success? ==>
                  var zero := exists p :: p in stored && p in r.value && stored[p].totalCost == 0;
                  var news := HasNews(stored, r.value, tolerance);
                  && (o == Panicked <==> zero)
                  && (o == NothingToChange <==> !zero && !news)
                  && (o == NoAccount <==> !zero && news && host.account == None)
                  && (o == SubmissionFailed <==> !zero && news && host.account.Some? && !host.poolAccepts)
                  && (o.Submitted? <==> !zero && news && host.account.Some? && host.poolAccepts))
  {
    hide CalcBestPaths, ChangeList, HasNews;
    var r := CalcBestPaths(quotes, lg);
    if r.Success? && !DividesByZero(stored, r.value) {
      NothingToChangeIff(stored, r.value, tolerance, order);
    }
  }

  /**
   What a submitted payload stands for: it carries the nonce and the block it was read with,
   asks for the latest path of exactly the pairs that give way, each once, removes nothing,
   and turns the paths it was compared with into the merged ones.
   */
  lemma SubmittedPayload(stored: BestPaths, nonce: nat, quotes: seq<Quote>, lg: real -> real, tolerance: nat,
                         order: seq<CurrencyPair>, host: Host, block: nat)
    requires Enumerates(order, stored.Keys)
    requires Round(stored, nonce, quotes, lg, tolerance, order, host, block).Submitted?
    ensures var payload := Round(stored, nonce, quotes, lg, tolerance, order, host, block).payload;
            && payload.nonce == nonce && payload.blockNumber == block && host == Host(Some(payload.public), true)
            && DistinctChanges(payload.changes) && OnlyUpserts(payload.changes)
            && CalcBestPaths(quotes, lg).Success? && !DividesByZero(stored, CalcBestPaths(quotes, lg).value)
            && ApplyChanges(stored, payload.changes) == Merged(stored, CalcBestPaths(quotes, lg).value, tolerance)
            && NamesWhatGivesWay(stored, CalcBestPaths(quotes, lg).value, tolerance, payload.changes)
  {
    hide CalcBestPaths, ChangeList, Merged, ApplyChanges, DividesByZero, Wanted, GivesWay, OnlyUpserts,
         DistinctChanges;
    var latest := CalcBestPaths(quotes, lg).value;
    ChangeListMembers(stored, latest, tolerance, order);
    ApplyingChangeList(stored, latest, tolerance, order);
    forall p
      ensures Wanted(stored, latest, tolerance, p) <==> p in latest && GivesWay(stored, latest[p], tolerance, p)
    {
      WantedIffGivesWay(stored, latest, tolerance, p);
    }
  }

  /** The changes ask for the latest path of exactly the pairs that give way. */
  ghost predicate NamesWhatGivesWay(stored: BestPaths, latest: BestPaths, tolerance: nat, changes: seq<Change>) {
    forall c :: c in changes <==>
      c.pair in latest && GivesWay(stored, latest[c.pair], tolerance, c.pair) && c.path == Some(latest[c.pair])
  }

  /** A round is discarded for its prices exactly when they allow a round trip that gains. */
  lemma ArbitrageDiscardsRound(stored: BestPaths, nonce: nat, quotes: seq<Quote>, lg: real -> real, tolerance: nat,
                               order: seq<CurrencyPair>, host: Host, block: nat,
                               ok: real -> bool, monitored: set<ProviderPair>)
    requires Enumerates(order, stored.Keys) && FetchedFrom(quotes, monitored)
    requires LogOn(lg, ok) && PricesOk(quotes, ok)
    ensures Round(stored, nonce, quotes, lg, tolerance, order, host, block).CalculationFailed? <==> HasArbitrage(quotes)
  {
    hide CalcBestPaths, LogOn, HasArbitrage, EveryQuoteMatched, ChangeList, DividesByZero;
    FetchedPricesAgree(quotes, monitored);
    OnePriceIsMatched(quotes);
    FailsIffArbitrage(quotes, lg, ok);
    if quotes == [] { NoQuotesNoArbitrage(); }
  }

  lemma NoQuotesNoArbitrage()
    ensures !HasArbitrage([])
  {
    forall steps, c | IsRoute([], steps, c, c) ensures steps == [] {
    }
  }

  /** The fixed-point cost is zero exactly when the product is below one unit of 10^-12. */
  lemma ZeroCostIff(x: real)
    ensures ToFixed(x) == 0 <==> x * PRECISION < 1.0
  {
  }

  /** A zero, once stored, makes every later round that prices its pair panic. */
  lemma StoredZeroBlocksRounds(stored: BestPaths, nonce: nat, quotes: seq<Quote>, lg: real -> real, tolerance: nat,
                               order: seq<CurrencyPair>, host: Host, block: nat, cp: CurrencyPair)
    requires Enumerates(order, stored.Keys) && quotes != []
    requires CalcBestPaths(quotes, lg).Success? && cp in CalcBestPaths(quotes, lg).value
    requires cp in stored && stored[cp].totalCost == 0
    ensures Round(stored, nonce, quotes, lg, tolerance, order, host, block) == Panicked
  {
  }

  // Two prices at the smallest positive value.
  const FIRST_LEG := CurrencyPair("a", "b")
  const SECOND_LEG := CurrencyPair("b", "c")
  const TINY_QUOTES :=
    [Quote(ProviderPair(FIRST_LEG, CRYPTOCOMPARE), 1), Quote(ProviderPair(SECOND_LEG, CRYPTOCOMPARE), 1)]

  lemma TinyProduct(x: real, y: real)
    requires 0.0 <= x <= 1.0 && y == Rate(1)
    ensures 0.0 <= x * y <= 1.0 && x * y <= y
    ensures x <= y ==> (x * y) * PRECISION < 1.0
  {
    assert y * PRECISION == 1.0 && 0.0 < y < 1.0;
    assert (x * y) * PRECISION == x * (y * PRECISION);
    assert x * y <= 1.0 * y;
  }

  /** All routes over the two quotes shrink the amount, and two steps shrink it below a unit. */
  lemma {:induction false} TinyRoute(steps: seq<PathStep>, s: Currency, t: Currency)
    requires IsRoute(TINY_QUOTES, steps, s, t)
    ensures 0.0 <= RouteProduct(steps) <= 1.0
    ensures |steps| >= 1 ==> RouteProduct(steps) <= Rate(1)
    ensures |steps| >= 2 ==> RouteProduct(steps) * PRECISION < 1.0
  {
    if steps != [] {
      var front, last := steps[..|steps| - 1], steps[|steps| - 1];
      RoutePrefix(TINY_QUOTES, steps, s, t);
      TinyRoute(front, s, last.pair.source);
      assert last.cost == 1 by {
        assert QuoteOf(last) == TINY_QUOTES[0] || QuoteOf(last) == TINY_QUOTES[1];
      }
      TinyProduct(RouteProduct(front), Rate(last.cost));
    }
  }

  lemma {:induction false} RoutePrefix(quotes: seq<Quote>, steps: seq<PathStep>, s: Currency, t: Currency)
    requires IsRoute(quotes, steps, s, t) && steps != []
    ensures var last := steps[|steps| - 1];
            QuoteOf(last) in quotes && IsRoute(quotes, steps[..|steps| - 1], s, last.pair.source)
  {
    if |steps| > 1 {
      RoutePrefix(quotes, steps[1..], steps[0].pair.target, t);
      assert steps[1..][..|steps| - 2] == steps[..|steps| - 1][1..];
    }
  }

  lemma SingleStepRoute(quotes: seq<Quote>, steps: seq<PathStep>, s: Currency, t: Currency)
    requires IsRoute(quotes, steps, s, t) && |steps| == 1
    ensures steps[0].pair == CurrencyPair(s, t) && QuoteOf(steps[0]) in quotes
  {
    assert steps[1..] == [] && IsRoute(quotes, steps[1..], steps[0].pair.target, t);
  }

  /** From "a" to "c" there is a route, and every route takes two steps at least. */
  lemma TinyDetour(steps: seq<PathStep>)
    ensures exists r :: IsRoute(TINY_QUOTES, r, "a", "c")
    ensures IsRoute(TINY_QUOTES, steps, "a", "c") ==> |steps| >= 2
    ensures "a" in CurrencySet(TINY_QUOTES)
  {
    var x, y := PathStep(FIRST_LEG, CRYPTOCOMPARE, 1), PathStep(SECOND_LEG, CRYPTOCOMPARE, 1);
    assert QuoteOf(x) == TINY_QUOTES[0] && QuoteOf(y) == TINY_QUOTES[1];
    assert [x, y][1..] == [y] && [y][1..] == [];
    assert IsRoute(TINY_QUOTES, [y], "b", "c");
    assert IsRoute(TINY_QUOTES, [x, y], "a", "c");
    if IsRoute(TINY_QUOTES, steps, "a", "c") && |steps| == 1 {
      SingleStepRoute(TINY_QUOTES, steps, "a", "c");
    }
  }

  lemma TinyResult(lg: real -> real, ok: real -> bool)
    requires LogOn(lg, ok) && ok(Rate(1))
    ensures var r := CalcBestPaths(TINY_QUOTES, lg);
            r.Success? && CurrencyPair("a", "c") in r.value && r.value[CurrencyPair("a", "c")].totalCost == 0
  {
    hide CalcBestPaths, LogOn, IsRoute, RouteProduct, ToFixed;
    forall steps, c | IsRoute(TINY_QUOTES, steps, c, c) ensures RouteProduct(steps) <= 1.0 {
      TinyRoute(steps, c, c);
    }
    FailsIffCheapArbitrage(TINY_QUOTES, lg, ok);
    var cp := CurrencyPair("a", "c");
    BestPathsAreRoutes(TINY_QUOTES, lg, cp);
    TinyDetour([]);
    var steps := CalcBestPaths(TINY_QUOTES, lg).value[cp].steps;
    TinyDetour(steps);
    TinyRoute(steps, "a", "c");
    ZeroCostIff(RouteProduct(steps));
  }

  /**
   Two tiny prices are enough to stop the worker: the first round stores a cost of zero, and
   the next round with the same prices panics, whatever the storage order.
   */
  lemma TinyPricesStopTheWorker(lg: real -> real, ok: real -> bool, tolerance: nat, public: Account, block: nat,
                                order: seq<CurrencyPair>, later: nat)
    requires LogOn(lg, ok) && ok(Rate(1))
    ensures var first := Round(map[], 0, TINY_QUOTES, lg, tolerance, [], Host(Some(public), true), block);
            && first.Submitted?
            && var stored := ApplyChanges(map[], first.payload.changes);
               Enumerates(order, stored.Keys) ==>
                 Round(stored, 1, TINY_QUOTES, lg, tolerance, order, Host(Some(public), true), later) == Panicked
  {
    hide CalcBestPaths, LogOn, ChangeList, Merged, Outdated;
    TinyResult(lg, ok);
    var latest, cp := CalcBestPaths(TINY_QUOTES, lg).value, CurrencyPair("a", "c");
    ChangeListMembers(map[], latest, tolerance, []);
    assert Change(cp, Some(latest[cp])) in ChangeList(map[], latest, tolerance, []);
    var first := Round(map[], 0, TINY_QUOTES, lg, tolerance, [], Host(Some(public), true), block);
    var stored := ApplyChanges(map[], first.payload.changes);
    ApplyDistinct(map[], first.payload.changes);
    assert cp in stored && stored[cp].totalCost == 0;
    if Enumerates(order, stored.Keys) {
      StoredZeroBlocksRounds(stored, 1, TINY_QUOTES, lg, tolerance, order, Host(Some(public), true), later, cp);
    }
  }

  /** The hypotheses of `TinyPricesStopTheWorker` can be met: 10^-12 is a power of ten. */
  lemma TinyRateHasALog()
    ensures LogOn(x => Exponent(10.0, x), x => IsPower(10.0, x)) && IsPower(10.0, Rate(1))
  {
    PowersHaveALog(10.0);
    assert Pow(10.0, -4) == 0.0001 by {
      assert Pow(10.0, -1) == 0.1 && Pow(10.0, -2) == 0.01 && Pow(10.0, -3) == 0.001;
    }
    PowSum(10.0, -4, -4);
    PowSum(10.0, -8, -4);
    PowersAreWeights(10.0, -12);
  }

  // ---------- Triggering ----------

  /** The node-local record of the next block to act on. */
  datatype TriggerCell = Missing | Unreadable | At(block: nat)

  /** `should_trigger_offchain`. */
  predicate ShouldTrigger(cell: TriggerCell, block: nat) {
    match cell
    case Missing => true
    case Unreadable => false
    case At(next) => block >= next
  }

  /** One call of the hook: the block, whether the lock is free, whether the round panics. */
  datatype Attempt = Attempt(block: nat, lockFree: bool, panics: bool)

  predicate Completes(cell: TriggerCell, a: Attempt) {
    ShouldTrigger(cell, a.block) && a.lockFree && !a.panics
  }

  function AfterAttempt(cell: TriggerCell, delay: nat, a: Attempt): TriggerCell {
    if Completes(cell, a) then At(a.block + delay) else cell
  }

  function AfterAttempts(cell: TriggerCell, delay: nat, attempts: seq<Attempt>): TriggerCell {
    if attempts == [] then cell
    else AfterAttempt(AfterAttempts(cell, delay, attempts[..|attempts| - 1]), delay, attempts[|attempts| - 1])
  }

  /** The blocks of the attempts that completed a round, successful or not. */
  function CompletedBlocks(cell: TriggerCell, delay: nat, attempts: seq<Attempt>): seq<nat> {
    if attempts == [] then []
    else
      var front, last := attempts[..|attempts| - 1], attempts[|attempts| - 1];
      CompletedBlocks(cell, delay, front)
      + (if Completes(AfterAttempts(cell, delay, front), last) then [last.block] else [])
  }

  /** Neighbouring blocks are at least `delay` apart. */
  ghost predicate Spaced(done: seq<nat>, delay: nat) {
    forall n :: 0 <= n < |done| - 1 ==> done[n + 1] >= done[n] + delay
  }

  lemma SpacedNext(done: seq<nat>, delay: nat, block: nat)
    requires Spaced(done, delay)
    requires done != [] ==> block >= done[|done| - 1] + delay
    ensures Spaced(done + [block], delay)
  {
  }

  lemma {:induction false} CompletedBlocksSpaced(cell: TriggerCell, delay: nat, attempts: seq<Attempt>)
    ensures var done := CompletedBlocks(cell, delay, attempts);
            && Spaced(done, delay)
            && AfterAttempts(cell, delay, attempts) == (if done == [] then cell else At(done[|done| - 1] + delay))
  {
    if attempts != [] {
      hide Spaced;
      var front, last := attempts[..|attempts| - 1], attempts[|attempts| - 1];
      CompletedBlocksSpaced(cell, delay, front);
      var done := CompletedBlocks(cell, delay, front);
      if Completes(AfterAttempts(cell, delay, front), last) {
        SpacedNext(done, delay, last.block);
      } else {
        assert CompletedBlocks(cell, delay, attempts) == done;
      }
    } else {
      assert CompletedBlocks(cell, delay, attempts) == [];
    }
  }

  lemma {:induction false} SpacedFar(done: seq<nat>, delay: nat, a: nat, b: nat)
    requires Spaced(done, delay)
    requires a <= b < |done|
    ensures done[b] >= done[a] + (b - a) * delay
  {
    if a < b {
      SpacedFar(done, delay, a, b - 1);
      assert done[b - 1 + 1] >= done[b - 1] + delay;
      assert (b - a) * delay == (b - 1 - a) * delay + delay;
    }
  }

  /**
   Rate limit over any sequence of runs, in whatever block order: between the `a`-th and the
   `b`-th completed round lie at least `(b - a) * delay` blocks.
   */
  lemma RoundsAreRateLimited(cell: TriggerCell, delay: nat, attempts: seq<Attempt>, a: nat, b: nat)
    requires a <= b < |CompletedBlocks(cell, delay, attempts)|
    ensures var done := CompletedBlocks(cell, delay, attempts);
            done[b] >= done[a] + (b - a) * delay
  {
    CompletedBlocksSpaced(cell, delay, attempts);
    SpacedFar(CompletedBlocks(cell, delay, attempts), delay, a, b);
  }

  /** A node that is called on every block, starting with `first`, and never held up. */
  function EveryBlock(first: nat, count: nat): seq<Attempt> {
    seq(count, (n: nat) => Attempt(first + n, true, false))
  }

  ghost predicate OnSchedule(done: seq<nat>, first: nat, delay: nat) {
    forall m :: 0 <= m < |done| ==> done[m] == first + m * delay
  }

  lemma ScheduleNext(done: seq<nat>, first: nat, delay: nat)
    requires OnSchedule(done, first, delay)
    ensures OnSchedule(done + [first + |done| * delay], first, delay)
    ensures (|done| + 1) * delay == |done| * delay + delay
    ensures done != [] ==> done[|done| - 1] + delay == first + |done| * delay
  {
  }

  /** Such a node completes a round on every `delay`-th block, and on no other. */
  lemma {:induction false} RoundsComeEveryDelay(first: nat, delay: nat, count: nat)
    requires delay > 0
    ensures var done := CompletedBlocks(Missing, delay, EveryBlock(first, count));
            OnSchedule(done, first, delay) && count <= |done| * delay < count + delay
  {
    if count > 0 {
      var before, attempts := EveryBlock(first, count - 1), EveryBlock(first, count);
      assert attempts[..count - 1] == before;
      assert |attempts| == count && attempts[count - 1] == Attempt(first + (count - 1), true, false);
      hide EveryBlock, OnSchedule, AfterAttempts;
      RoundsComeEveryDelay(first, delay, count - 1);
      CompletedBlocksSpaced(Missing, delay, before);
      ScheduleNext(CompletedBlocks(Missing, delay, before), first, delay);
    }
  }

  /** The stored trigger never moves back. */
  lemma {:induction false} TriggerNeverMovesBack(next: nat, delay: nat, attempts: seq<Attempt>)
    ensures var cell := AfterAttempts(At(next), delay, attempts);
            cell.At? && cell.block >= next
  {
    if attempts != [] {
      TriggerNeverMovesBack(next, delay, attempts[..|attempts| - 1]);
    }
  }

  /** Runs that panic or find the lock taken move nothing: the node triggers again on the very next block. */
  lemma {:induction false} HeldUpRunsMoveNothing(cell: TriggerCell, delay: nat, attempts: seq<Attempt>)
    requires forall a :: a in attempts ==> a.panics || !a.lockFree
    ensures AfterAttempts(cell, delay, attempts) == cell && CompletedBlocks(cell, delay, attempts) == []
  {
    if attempts != [] {
      assert attempts[|attempts| - 1] in attempts;
      HeldUpRunsMoveNothing(cell, delay, attempts[..|attempts| - 1]);
    }
  }

  /** A trigger that cannot be read stops the node for good. */
  lemma {:induction false} UnreadableTriggerStops(delay: nat, attempts: seq<Attempt>)
    ensures AfterAttempts(Unreadable, delay, attempts) == Unreadable
    ensures CompletedBlocks(Unreadable, delay, attempts) == []
  {
    if attempts != [] {
      UnreadableTriggerStops(delay, attempts[..|attempts| - 1]);
    }
  }

  /**
   A node whose trigger is missing or due completes the next run that is neither held up nor
   too early, on its block, and no earlier one; from then on it waits for a delay.
   */
  lemma NextRunCompletes(cell: TriggerCell, delay: nat, heldUp: seq<Attempt>, block: nat)
    requires forall a :: a in heldUp ==> a.panics || !a.lockFree
    requires cell == Missing || (cell.At? && cell.block <= block)
    ensures CompletedBlocks(cell, delay, heldUp + [Attempt(block, true, false)]) == [block]
    ensures AfterAttempts(cell, delay, heldUp + [Attempt(block, true, false)]) == At(block + delay)
  {
    HeldUpRunsMoveNothing(cell, delay, heldUp);
    var attempts := heldUp + [Attempt(block, true, false)];
    assert attempts[..|attempts| - 1] == heldUp;
  }

  class OffchainNode {
    var nextTrigger: TriggerCell

    constructor ()
      ensures nextTrigger == Missing
    {
      nextTrigger := Missing;
    }

    /** `offchain_worker`, run as a whole. */
    method RunHook(block: nat, lockFree: bool, delay: nat, stored: BestPaths, nonce: nat, quotes: seq<Quote>,
                   lg: real -> real, tolerance: nat, order: seq<CurrencyPair>, host: Host)
      returns (outcome: Option<Outcome>)
      requires Enumerates(order, stored.Keys)
      modifies this
      ensures var round := Round(stored, nonce, quotes, lg, tolerance, order, host, block);
              && nextTrigger == AfterAttempt(old(nextTrigger), delay, Attempt(block, lockFree, round.Panicked?))
              && outcome == (if ShouldTrigger(old(nextTrigger), block) && lockFree then Some(round) else None)
    {
      hide Round;
      outcome := None;
      if ShouldTrigger(nextTrigger, block) {
        if lockFree {
          var o := FetchPricesAndUpdateBestPaths(stored, nonce, quotes, lg, tolerance, order, host, block);
          outcome := Some(o);
          if !o.Panicked? {
            nextTrigger := At(block + delay);
          }
        }
      }
    }
  }
}
