# Aggregator pallet: best paths, worker rounds and the on-chain protocol

This project models `pallets/aggregator` and proves what it promises: that the best price
paths are best, that arbitrage is detected exactly, and that workers and chain together
never apply a stale update.

| file | models |
|---|---|
| `Wrappers.dfy`, `Ordered.dfy` | results; ordered containers and their iteration order |
| `Graph.dfy` | edges, paths and walks of the shortest-path engine |
| `Dedup.dfy` | `unique_cheapest_edges` |
| `FloydWarshall.dfy` | `floyd_warshall_shortest_paths`: the in-place triple loop and the layered recurrence it equals |
| `Logarithm.dfy`, `LongestPaths.dfy` | `longest_paths_mult`, `shortest_paths` |
| `Types.dfy`, `Calculator.dfy` | the pallet's types; `calc_best_paths` |
| `Tolerance.dfy`, `Worker.dfy` | `breaches_tolerance`; selecting and applying changes |
| `OffchainWorker.dfy` | one run of the off-chain worker, its trigger, and rate limiting |
| `Pallet.dfy` | storage, dispatchables, events, `validate_unsigned` |
| `Protocol.dfy` | nodes, pool and chain as a state machine over all interleavings |

Code that updates something in place (the matrix, the map of unique edges, the storage items,
the trigger cell) is a method with loops or a class, proved equal to a function on values;
the properties are lemmas about those functions. `dafny verify dfyconfig.toml` checks everything.

Arithmetic: costs and rates are exact reals, and a missing matrix entry plays the part of
`f64::MAX`. The base-2 logarithm is a function parameter of which `Logarithm.LogOn` is required
on a set of positive weights closed under multiplication; `PowersHaveALog` exhibits one for every
base above one.
Prices, costs and the tolerance test are 128-bit integers with their saturation written out.

## What the code does differently from what it says

- `unique_cheapest_edges` with `Less` keeps the dearest edge, with `Greater` the smallest rate.
  Of several rates for one pair the *worst* is searched (`WorseParallelOfferWins`,
  `DearerQuoteHidesArbitrage`). The results are optimal over everything offered if and only if
  the kept edges alone match every offer (`OptimalOverOffersIff`, `OptimalOverQuotesIff`); what
  holds for all inputs is `BestPathsBeatCheapRoutes` and `FailsIffCheapArbitrage`. With the
  single provider no harm is done (`FetchedPricesAgree`, `OnePriceIsMatched`).
- A vertex's own pair is the empty path if and only if no edge leads from it to itself: such an
  edge replaces the empty path (`DiagonalIsEmptyIff`, `DiagonalIsOneIff`, `OwnPairIsOneIff`).
  By `SelfQuoteReplacesOwnPair` a currency can be reported as worth less than itself. The
  optimality lemmas therefore speak of non-empty walks.
- `breaches_tolerance` divides by the stored cost. A best product below 10^-12 is stored as zero,
  after which every round that prices the pair panics (`TinyPricesStopTheWorker`,
  `SecondRoundIsSilent` for the exact condition), and panicking rounds are not rate limited
  (`HeldUpRunsMoveNothing`).
- Above a bound the saturating multiplication hides a breach (`BreachCanBeMissed`);
  `BreachIsExactUpToSaturation` is the exact condition.
- The comment at lib.rs:472 announces removals; the worker never asks for one (`ChangeListMembers`).
- The comment at lib.rs:256 announces deduplication; the call does none, and
  `EventRepeatsIffChangesRepeat` says when the event repeats a pair.

## Model

| member | source | states |
|---|---|---|
| `Dedup.UniqueCheapestEdges` | pallets/aggregator/src/best_path_calculator/floyd_warshall/algo.rs:165-173 | the loop with `and_modify`/`or_insert_with` delivers the kept edges in key order |
| `Dedup.KeptIsFirstExtreme` | pallets/aggregator/src/best_path_calculator/floyd_warshall/algo.rs:168-170 | the kept edge is the first input edge of its pair to attain the extreme cost |
| `Dedup.UniqueEdgesFacts` | pallets/aggregator/src/best_path_calculator/floyd_warshall/algo.rs:165-173 | exactly one edge per input pair, taken from the input, ascending |
| `Dedup.UniqueEdgesIdempotent` | pallets/aggregator/src/best_path_calculator/floyd_warshall/algo.rs:165-173 | deduplicating a deduplicated list changes nothing |
| `Dedup.KeepsBestIffParallelAgree` | pallets/aggregator/src/best_path_calculator/floyd_warshall/algo.rs:78 | the kept rate is the best of its pair for every pair if and only if no two parallel rates differ |
| `FloydWarshall.InitialMatrix` | pallets/aggregator/src/best_path_calculator/floyd_warshall/algo.rs:107-125 | the first loops deliver the vertices in order and the matrix of empty paths and single edges |
| `FloydWarshall.FloydWarshallShortestPaths` | pallets/aggregator/src/best_path_calculator/floyd_warshall/algo.rs:106-163 | for every edge list the in-place triple loop returns what the layered recurrence returns, error or matrix with concrete paths, although updates run wild while a negative cycle exists |
| `FloydWarshall.SurvivingLayers` | pallets/aggregator/src/best_path_calculator/floyd_warshall/algo.rs:120-125 | of parallel edges handed to the engine only the last counts |
| `FloydWarshall.RelaxAtMidPhase` | pallets/aggregator/src/best_path_calculator/floyd_warshall/algo.rs:127-152 | while the pivot's diagonal entry is not negative, relaxing in place equals relaxing from the matrix as it was before the phase |
| `FloydWarshall.LayerIsMinimum` | pallets/aggregator/src/best_path_calculator/floyd_warshall/algo.rs:127-152 | without negative cycle, layer n holds a cheapest walk among those with interior in the first n vertices |
| `FloydWarshall.NegativeCycleDetectionIsExact` | pallets/aggregator/src/best_path_calculator/floyd_warshall/algo.rs:127-160 | the error is returned if and only if some closed walk, self-loops included, has negative cost |
| `FloydWarshall.ShortestPathsAreOptimal` | pallets/aggregator/src/best_path_calculator/floyd_warshall/algo.rs:118-162 | no non-empty walk of any length is cheaper than the entry of its ends, on and off the diagonal |
| `FloydWarshall.ShortestPathsAreWalks` | pallets/aggregator/src/best_path_calculator/floyd_warshall/algo.rs:118-152 | every entry is a contiguous chain of edges costing its total; an entry exists if and only if the target is reachable |
| `FloydWarshall.ShortestPathsAreSimple` | pallets/aggregator/src/best_path_calculator/floyd_warshall/algo.rs:145-149 | stored paths repeat no vertex, so between two vertices they have fewer edges than the graph has vertices, zero-cost cycles or not |
| `FloydWarshall.LowestDetourIsStored` | pallets/aggregator/src/best_path_calculator/floyd_warshall/algo.rs:107-152 | of equally cheap paths the one through lower vertices is stored: if some cheapest walk has no inner vertex above v, neither has the stored path |
| `FloydWarshall.DiagonalIsEmptyIff` | pallets/aggregator/src/best_path_calculator/floyd_warshall/algo.rs:120-125 | the diagonal entry is the empty path of cost zero if and only if no edge leads from the vertex to itself, and has edges otherwise |
| `Logarithm.PowersHaveALog` | pallets/aggregator/src/best_path_calculator/floyd_warshall/algo.rs:73-76 | the law x*y = 2^(log2 x + log2 y) and monotonicity hold for exponents on all powers of any base above one, so the hypothesis on logarithms is satisfiable |
| `LongestPaths.ShortestPathsOverKeptEdges` | pallets/aggregator/src/best_path_calculator/floyd_warshall/algo.rs:100-102 | for every edge list `shortest_paths` fails exactly on a negative cycle of the kept edges and is otherwise optimal over them |
| `LongestPaths.ComputeLongestPaths` | pallets/aggregator/src/best_path_calculator/floyd_warshall/algo.rs:77-98 | running the imperative parts in sequence gives the function the following rows speak of |
| `LongestPaths.SecondDedupIsIdentity` | pallets/aggregator/src/best_path_calculator/floyd_warshall/algo.rs:82-102 | the deduplication inside `shortest_paths` has nothing left to do |
| `LongestPaths.EntriesAreRecoverable` | pallets/aggregator/src/best_path_calculator/floyd_warshall/algo.rs:80-92 | every lookup in the weight map is defined |
| `LongestPaths.LongestPathsAreWalks` | pallets/aggregator/src/best_path_calculator/floyd_warshall/algo.rs:88-95 | every entry is a walk over kept edges with their original weights, stating their product; an entry exists if and only if the target is reachable |
| `LongestPaths.LongestPathsAreOptimal` | pallets/aggregator/src/best_path_calculator/floyd_warshall/algo.rs:69-98 | no non-empty walk over kept edges has a larger product than the entry of its ends |
| `LongestPaths.FailsIffGainfulCycle` | pallets/aggregator/src/best_path_calculator/floyd_warshall/algo.rs:69-98 | the calculation fails if and only if some closed walk over kept edges has a product above one |
| `LongestPaths.FailsIffGainfulCycleOffered` | pallets/aggregator/src/best_path_calculator/floyd_warshall/algo.rs:69-98 | the same over all input edges when the kept edges match every input edge |
| `LongestPaths.LongestPathsAreSimple` | pallets/aggregator/src/best_path_calculator/floyd_warshall/algo.rs:88-95 | the recovered paths repeat no vertex |
| `LongestPaths.LowestDetourIsKept` | pallets/aggregator/src/best_path_calculator/floyd_warshall/algo.rs:77-98 | of walks with the same best product the one through lower vertices is stored |
| `LongestPaths.DiagonalIsOneIff` | pallets/aggregator/src/best_path_calculator/floyd_warshall/algo.rs:88-95 | the diagonal entry is the empty path with product one if and only if no input edge leads from the vertex to itself, and has edges otherwise |
| `LongestPaths.OptimalOverOffersIff` | pallets/aggregator/src/best_path_calculator/floyd_warshall/algo.rs:77-98 | the result is optimal over all walks of the input if and only if for every input edge some walk over the kept edges, between the same ends, has at least its weight |
| `LongestPaths.OptimalWhenParallelEdgesAgree` | pallets/aggregator/src/best_path_calculator/floyd_warshall/algo.rs:77-98 | that condition is met, and the result optimal over all walks of the input, when no two parallel edges differ |
| `LongestPaths.WorseParallelOfferWins` | pallets/aggregator/src/best_path_calculator/floyd_warshall/algo.rs:78 | rates 1 and 2 for one pair: rate 1 is reported as best |
| `Calculator.BuildGraph` | pallets/aggregator/src/best_path_calculator/floyd_warshall/calculator.rs:30-42 | the nested loops push one edge per quote, grouped by source |
| `Calculator.QuoteHasEdge` | pallets/aggregator/src/best_path_calculator/floyd_warshall/calculator.rs:30-42 | every quote becomes an edge between the numbers of its currencies |
| `Calculator.EdgeHasQuote` | pallets/aggregator/src/best_path_calculator/floyd_warshall/calculator.rs:30-42 | every edge of the graph comes from a quote, and its numbers are in range |
| `Calculator.ComputeBestPaths` | pallets/aggregator/src/best_path_calculator/floyd_warshall/calculator.rs:21-55 | running the imperative parts gives the function the following rows speak of |
| `Calculator.BestPathsAreRoutes` | pallets/aggregator/src/best_path_calculator/floyd_warshall/calculator.rs:44-54 | for all prices: a pair is mapped exactly when its target is reachable from its source; its steps chain over quotes taken verbatim, each the cheapest of its pair, and its cost is their fixed-point product |
| `Calculator.BestPathsBeatCheapRoutes` | pallets/aggregator/src/best_path_calculator/floyd_warshall/calculator.rs:21-55 | for all prices: no route over the cheapest quote of each pair beats the reported path of its ends |
| `Calculator.OptimalOverQuotesIff` | pallets/aggregator/src/best_path_calculator/floyd_warshall/calculator.rs:21-55 | the reported paths beat all routes of quotes if and only if for every quote some route over cheapest quotes, between the same currencies, has at least its rate |
| `Calculator.OnePriceIsMatched` | pallets/aggregator/src/best_path_calculator/floyd_warshall/calculator.rs:21-55 | one price per currency pair meets that condition |
| `Calculator.BestPathsAreOptimal` | pallets/aggregator/src/best_path_calculator/floyd_warshall/calculator.rs:21-55 | when the cheapest quotes match every quote, no route of quotes, as a product or in fixed point, beats the reported path |
| `Calculator.FailsIffCheapArbitrage` | pallets/aggregator/src/best_path_calculator/floyd_warshall/calculator.rs:45 | for all prices: they are refused if and only if some round trip over the cheapest quotes gains, and then with the negative-cycle error |
| `Calculator.FailsIffArbitrage` | pallets/aggregator/src/best_path_calculator/floyd_warshall/calculator.rs:45 | when the cheapest quotes match every quote, the prices are refused if and only if some round trip gains |
| `Calculator.DearerQuoteHidesArbitrage` | pallets/aggregator/src/best_path_calculator/floyd_warshall/calculator.rs:45 | prices 1 and 2 from a to b and 1 back: a round trip gains and the prices are accepted |
| `Calculator.BestPathsRepeatNoCurrency` | pallets/aggregator/src/best_path_calculator/floyd_warshall/calculator.rs:46-53 | no reported path meets a currency twice |
| `Calculator.LowestDetourIsReported` | pallets/aggregator/src/best_path_calculator/floyd_warshall/calculator.rs:21-55 | of several best routes the one through the lower currencies is reported: if some best route over cheapest quotes meets none above c on its way, neither does the reported path |
| `Calculator.OwnPairIsOneIff` | pallets/aggregator/src/best_path_calculator/floyd_warshall/calculator.rs:46-53 | a currency is worth 10^12 units of itself by the empty path if and only if it is not quoted against itself; otherwise its own pair is reported with steps |
| `Calculator.SelfQuoteReplacesOwnPair` | pallets/aggregator/src/best_path_calculator/floyd_warshall/calculator.rs:46-53 | one quote of a currency against itself, at any rate up to one: its own pair is reported by that quote at that rate |
| `Calculator.ToFixedRoundsDown` | pallets/aggregator/src/best_path_calculator/floyd_warshall/calculator.rs:48 | the conversion rounds down below saturation and saturates above |
| `Tolerance.BreachIsExactUpToSaturation` | pallets/aggregator/src/utils.rs:33-41 | the test panics exactly on a stored cost of zero; otherwise a breach is reported if and only if the cost rose or fell by at least tolerance + 1 millionths and that threshold fits in 128 bits |
| `Tolerance.BreachCanBeMissed` | pallets/aggregator/src/utils.rs:33-41 | a concrete breach that saturation hides |
| `Worker.SelectChanges` | pallets/aggregator/src/lib.rs:474-497 | the two loops deliver the change list, or panic exactly when a pair to compare is stored at cost zero |
| `Worker.ChangeListMembers` | pallets/aggregator/src/lib.rs:470-497 | the list names exactly the new pairs and the pairs out of tolerance, each once, with the new path, and never a removal |
| `Worker.ChangeListOrder` | pallets/aggregator/src/lib.rs:474-497 | the changes for stored pairs come first, in storage order, then those for new pairs, ascending |
| `Worker.ApplyingChangeList` | pallets/aggregator/src/lib.rs:272-291 | whatever the storage order, applying the list yields the merge of stored and new paths |
| `Worker.LastChangeDecides` | pallets/aggregator/src/lib.rs:272-291 | whatever a list repeats, the last change for a pair decides about it |
| `Worker.ApplyOrderIrrelevant` | pallets/aggregator/src/lib.rs:272-291 | two lists without repeated pairs and with the same changes have the same effect |
| `Worker.RoundKeepsTolerance` | pallets/aggregator/src/lib.rs:474-497 | after a round every priced pair is stored, at the new path if it is new or truly out of tolerance with its threshold inside 128 bits, at the old one otherwise; the keys are old and new together and other pairs are untouched |
| `Worker.SecondRoundIsSilent` | pallets/aggregator/src/lib.rs:474-501 | a second round with the same prices has nothing to change, and panics if and only if the first stored a zero |
| `OffchainWorker.FetchPricesAndUpdateBestPaths` | pallets/aggregator/src/lib.rs:456-517 | the round from fetched prices to outcome, with every early return: no prices, refused prices, nothing to change, no account, a submission the pool does not take |
| `OffchainWorker.RoundOutcomes` | pallets/aggregator/src/lib.rs:456-517 | the exact condition of each outcome; in particular something is submitted if and only if there are prices, they can be calculated, no path to compare with costs zero, some pair is new or out of tolerance, and an account and the pool allow it |
| `OffchainWorker.FetchedPricesAgree` | pallets/aggregator/src/lib.rs:457-461 | prices fetched for the monitored pairs offer one price per currency pair |
| `OffchainWorker.SubmittedPayload` | pallets/aggregator/src/lib.rs:499-514 | a submitted payload carries the nonce and block it was read with, asks for the latest path of exactly the new pairs and those out of tolerance, each once, and turns the paths it was compared with into the merge |
| `OffchainWorker.ArbitrageDiscardsRound` | pallets/aggregator/src/lib.rs:468 | the round is discarded for its prices if and only if they allow a round trip that gains |
| `OffchainWorker.TinyPricesStopTheWorker` | pallets/aggregator/src/lib.rs:476-488 | two prices of one unit: the first round stores a zero, the next round panics |
| `OffchainWorker.TinyRateHasALog` | pallets/aggregator/src/best_path_calculator/floyd_warshall/algo.rs:73-76 | 10^-12 is among the powers of ten, on which a logarithm exists, so the previous row is about a possible input |
| `OffchainWorker.RoundsAreRateLimited` | pallets/aggregator/src/lib.rs:228-246 | over any sequence of runs n completed rounds span at least (n-1) delays, failed rounds included |
| `OffchainWorker.RoundsComeEveryDelay` | pallets/aggregator/src/lib.rs:433-453 | called on every block and never held up, a node completes a round on every delay-th block and no other |
| `OffchainWorker.TriggerNeverMovesBack` | pallets/aggregator/src/lib.rs:239-241 | the stored next trigger never decreases |
| `OffchainWorker.HeldUpRunsMoveNothing` | pallets/aggregator/src/lib.rs:230-245 | runs that panic or find the lock taken leave the trigger where it was |
| `OffchainWorker.NextRunCompletes` | pallets/aggregator/src/lib.rs:228-246 | after any number of such runs the next one completes, if the trigger is missing or due, and sets the trigger a delay ahead |
| `OffchainWorker.UnreadableTriggerStops` | pallets/aggregator/src/lib.rs:433-453 | with an unreadable trigger no run ever completes |
| `OffchainWorker.OffchainNode.RunHook` | pallets/aggregator/src/lib.rs:228-246 | trigger check, lock, round and next trigger, updating the trigger cell in place |
| `Pallet.Storage.OcwSubmitBestPathsChanges` | pallets/aggregator/src/lib.rs:262-299 | the checks and the loop, updating storage in place, leave the state that the next two rows describe |
| `Pallet.SubmitBestPathsRefusals` | pallets/aggregator/src/lib.rs:267-269 | the call succeeds if and only if it comes unsigned with the current nonce; each error has its exact condition, and a refused call changes nothing |
| `Pallet.SubmitBestPathsEffect` | pallets/aggregator/src/lib.rs:271-298 | on success the last change for each pair decides its path, other pairs keep theirs, the nonce moves by one, one event is appended if and only if a change shows, and all else stays |
| `Pallet.Storage.SubmitMonitoredPairs` | pallets/aggregator/src/lib.rs:308-347 | the backwards deduplication and the loop, updating storage in place, leave the state that the next row describes |
| `Pallet.SubmitMonitoredPairsEffect` | pallets/aggregator/src/lib.rs:308-347 | only root gets through; a pair is then monitored if and only if its last operation adds it, or it has none and was monitored; an event with exactly the pairs that changed is appended if and only if any did; all else stays |
| `Pallet.Storage.AddWhitelistedOffchainAuthority` | pallets/aggregator/src/lib.rs:351-359 | the call, updating storage in place, leaves the state that the next row describes |
| `Pallet.AddAuthorityEffect` | pallets/aggregator/src/lib.rs:351-359 | only root gets through; the account joins the whitelist, nobody leaves it, and the addition is logged |
| `Pallet.EntriesReplayChanges` | pallets/aggregator/src/lib.rs:271-297 | the event entries carry the stored costs from before the call to after it |
| `Pallet.EventListsShownChanges` | pallets/aggregator/src/lib.rs:271-291 | the event lists, in order and once each, exactly the changes that set a path and the removals of a path present at that moment |
| `Pallet.EventRepeatsIffChangesRepeat` | pallets/aggregator/src/lib.rs:255-291 | for every change list the event names each pair at most once if and only if no two of its shown changes are for the same pair |
| `Pallet.DedupRefinesSequential` | pallets/aggregator/src/lib.rs:313-340 | deduplicating first leaves the same monitored pairs as applying all operations in turn |
| `Pallet.MonitoredEventIsDelta` | pallets/aggregator/src/lib.rs:323-345 | the event lists exactly the pairs whose membership changed, once, with the right operation; it is empty if and only if nothing changed |
| `Pallet.MonitoredEventOrder` | pallets/aggregator/src/lib.rs:313-340 | the event lists its pairs in the order of their last occurrence in the batch |
| `Protocol.StepKeepsInv` | pallets/aggregator/src/lib.rs:228-517 | every kind of step keeps the joint invariant of chain, pool and nodes |
| `Protocol.RunsKeepInv` | pallets/aggregator/src/lib.rs:228-517 | the invariant holds in every state of every run |
| `Protocol.NoStaleDiff` | pallets/aggregator/src/lib.rs:268-293 | in every state satisfying the invariant an accepted payload is applied to exactly the paths it was compared with and yields the merge |
| `Protocol.NothingStaleIsAccepted` | pallets/aggregator/src/lib.rs:268-293 | in every run `BestPaths` changes only by accepting such a payload |
| `Protocol.AcceptedIsCurrent` | pallets/aggregator/src/lib.rs:394-428 | what is accepted comes from a worker round on the current paths, is signed by a whitelisted account, and is not older than the stay time |
| `Protocol.GenuineAcceptedIff` | pallets/aggregator/src/lib.rs:268-293 | a worker's submission gets through if and only if nothing was accepted since its round, its signer is whitelisted and it is not too old |
| `Protocol.FinishRunEffect` | pallets/aggregator/src/lib.rs:228-246 | a finished run puts its signed payload into the pool if and only if the round submits, leaves the node idle, and sets the trigger a delay ahead unless it panicked |
| `Protocol.UndisturbedRoundArrives` | pallets/aggregator/src/lib.rs:228-517 | in every run: a submitted round can be included at any time from then on, and if nothing was accepted since it started, its signer is whitelisted and it is not too old, the stored paths become its merge |
| `Protocol.NodesAreRateLimited` | pallets/aggregator/src/lib.rs:228-246 | in every run, rounds a node finishes after one that did not panic started at least a delay after that one |
| `Protocol.TinyRun` | pallets/aggregator/src/lib.rs:228-517 | a run from genesis through set-up by root, a round and a refused forgery to an accepted payload |
| `Protocol.NonceDeterminesPaths` | pallets/aggregator/src/lib.rs:268-293 | over runs the nonce never falls, and equal nonces mean equal `BestPaths` |
| `Protocol.NoReplay` | pallets/aggregator/src/lib.rs:267-293 | accepted nonces are 0, 1, 2, ...; no payload takes effect twice, and an accepted one is refused ever after |
| `Protocol.ReachableChain` | pallets/aggregator/src/lib.rs:272-297 | in every reachable state the event log folds to the stored costs, and every stored path is verbatim what some accepted round calculated for its pair, chains from source to target and costs the product of its steps |
| `Protocol.AcceptedRoundTracksOptimum` | pallets/aggregator/src/lib.rs:456-517 | after every accepted round, each pair joined by a route of that round's prices is stored, and its cost is truly within tolerance of one that no such route exceeds, unless its threshold exceeds 128 bits |

## Left out

- IEEE-754 rounding, NaN, infinities and the absorbing behaviour of `f64::MAX`: arithmetic is exact. A price of zero, whose logarithm is infinite, is outside the hypothesis `PricesOk`.
- The logarithm itself: a parameter constrained by `LogOn`, since no real logarithm can be built in Dafny's reals.
- `edges_by_pair`, `paths_by_pair` and `Path::add` in `algo.rs`: computed and never read.
- `trade_provider/`, HTTP, `parse_price`, `concat4`: fetched prices are an arbitrary list with at most one quote per monitored pair.
- Signatures, keystore and encoding: whether a signature is valid is an input, and `Protocol` assumes that honest accounts sign only worker payloads and that root whitelists only honest accounts.
- Forks, pool priority and longevity, transaction weights, lock expiry, overflow of nonce and block number.
- Overlapping runs on one node: `OffchainNode.RunHook` is one atomic run, and in `Protocol` a node has at most one run under way.
- `trade` (a skeleton without transfers), `heap.rs`, the no-op calculator, genesis configuration, the node and runtime crates.
- The trait-generic `Currency` and `Amount`: currencies are strings in lexicographic order and amounts `u128`, as the runtime configures them, so `ConversionError` does not arise.
- ComputeLongestPaths: the map and collect expressions around the engine are map comprehensions, not loops.
