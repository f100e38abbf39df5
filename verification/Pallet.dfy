/**
 The on-chain side: storage, dispatchables and the validation of unsigned transactions.

 `Chain` is the storage as a value, and the functions on it say what each call does to it.
 The class `Pallet` has the storage items as fields and updates them in place, as the
 dispatchables do. Nonces and block numbers do not overflow.
 */
module Pallet {
  import opened Wrappers
  import opened Types
  import opened Worker

  datatype Origin = Root | Signed(account: Account) | Unsigned

  datatype DispatchError = BadOrigin | StaleUnsignedTxError

  type DispatchResult = Result<(), DispatchError>

  datatype PriceEntry = PriceEntry(pair: CurrencyPair, cost: u128, operation: Operation)

  datatype Event =
    | BestPricesSubmitted(prices: seq<PriceEntry>)
    | MonitoredPairsSubmitted(operations: seq<ProviderPairOperation>)
    | WhitelistedOffchainAuthorityAdded(account: Account)

  datatype Chain = Chain(
    bestPaths: BestPaths,
    monitored: set<ProviderPair>,
    whitelist: set<Account>,
    nonce: nat,
    events: seq<Event>,
    block: nat)

  // ---------- Submitting best paths ----------

  function ChangeEvent(m: BestPaths, c: Change): seq<PriceEntry> {
    match c.path
    case Some(path) => [PriceEntry(c.pair, path.totalCost, Add)]
    case None => if c.pair in m then [PriceEntry(c.pair, 0, Del)] else []
  }

  function ChangeEvents(m: BestPaths, changes: seq<Change>): seq<PriceEntry> {
    if changes == [] then []
    else
      var front, last := changes[..|changes| - 1], changes[|changes| - 1];
      ChangeEvents(m, front) + ChangeEvent(ApplyChanges(m, front), last)
  }

  function WithEvent<T>(events: seq<Event>, payload: seq<T>, event: Event): seq<Event> {
    if payload == [] then events else events + [event]
  }

  /** `ocw_submit_best_paths_changes`. */
  function AfterSubmitBestPaths(chain: Chain, origin: Origin, payload: Payload): (Chain, DispatchResult) {
    if origin != Unsigned then (chain, Failure(BadOrigin))
    else if chain.nonce != payload.nonce then (chain, Failure(StaleUnsignedTxError))
    else
      var entries := ChangeEvents(chain.bestPaths, payload.changes);
      (chain.(bestPaths := ApplyChanges(chain.bestPaths, payload.changes),
              nonce := chain.nonce + 1,
              events := WithEvent(chain.events, entries, BestPricesSubmitted(entries))), Success(()))
  }

  // ---------- Reading the event log back ----------

  function ReplayEntry(m: map<CurrencyPair, u128>, e: PriceEntry): map<CurrencyPair, u128> {
    match e.operation
    case Add => m[e.pair := e.cost]
    case Del => m - {e.pair}
  }

  function ReplayEntries(m: map<CurrencyPair, u128>, entries: seq<PriceEntry>): map<CurrencyPair, u128> {
    if entries == [] then m
    else ReplayEntry(ReplayEntries(m, entries[..|entries| - 1]), entries[|entries| - 1])
  }

  function ReplayEvents(events: seq<Event>): map<CurrencyPair, u128> {
    if events == [] then map[]
    else
      var m := ReplayEvents(events[..|events| - 1]);
      match events[|events| - 1]
      case BestPricesSubmitted(prices) => ReplayEntries(m, prices)
      case _ => m
  }

  function Costs(m: BestPaths): map<CurrencyPair, u128> {
    map p | p in m :: m[p].totalCost
  }

  lemma {:induction false} ReplayConcat(m: map<CurrencyPair, u128>, xs: seq<PriceEntry>, ys: seq<PriceEntry>)
    ensures ReplayEntries(m, xs + ys) == ReplayEntries(ReplayEntries(m, xs), ys)
  {
    if ys == [] {
      assert xs + ys == xs;
    } else {
      assert (xs + ys)[..|xs + ys| - 1] == xs + ys[..|ys| - 1];
      ReplayConcat(m, xs, ys[..|ys| - 1]);
    }
  }

  lemma EntryReplaysChange(m: BestPaths, c: Change)
    ensures ReplayEntries(Costs(m), ChangeEvent(m, c)) == Costs(ApplyChange(m, c))
  {
    var entries := ChangeEvent(m, c);
    if entries != [] {
      assert entries[..0] == [];
    }
  }

  /** The entries of an event carry the stored costs from before the call to after it. */
  lemma {:induction false} EntriesReplayChanges(m: BestPaths, changes: seq<Change>)
    ensures ReplayEntries(Costs(m), ChangeEvents(m, changes)) == Costs(ApplyChanges(m, changes))
  {
    hide ReplayEntries, Costs, ApplyChange, ChangeEvent;
    if changes == [] {
      NothingToReplay(Costs(m));
    } else {
      var front, last := changes[..|changes| - 1], changes[|changes| - 1];
      EntriesReplayChanges(m, front);
      ReplayConcat(Costs(m), ChangeEvents(m, front), ChangeEvent(ApplyChanges(m, front), last));
      EntryReplaysChange(ApplyChanges(m, front), last);
    }
  }

  lemma NothingToReplay(m: map<CurrencyPair, u128>)
    ensures ReplayEntries(m, []) == m
  {
  }

  ghost predicate DistinctEntries(entries: seq<PriceEntry>) {
    forall a, b :: 0 <= a < b < |entries| ==> entries[a].pair != entries[b].pair
  }

  /** The `n`-th change shows: it sets a path, or removes one that is present at that moment. */
  ghost predicate Shows(m: BestPaths, changes: seq<Change>, n: nat)
    ensures Shows(m, changes, n) ==> n < |changes|
  {
    n < |changes| && (changes[n].path.Some? || changes[n].pair in ApplyChanges(m, changes[..n]))
  }

  function EntryOf(c: Change): PriceEntry {
    match c.path
    case Some(path) => PriceEntry(c.pair, path.totalCost, Add)
    case None => PriceEntry(c.pair, 0, Del)
  }

  /** `at` are the positions of the changes that show, and `entries` lists those changes. */
  ghost predicate ShownAt(m: BestPaths, changes: seq<Change>, entries: seq<PriceEntry>, at: seq<nat>) {
    && |at| == |entries|
    && (forall x :: 0 <= x < |at| ==> Shows(m, changes, at[x]) && entries[x] == EntryOf(changes[at[x]]))
    && (forall x, y :: 0 <= x < y < |at| ==> at[x] < at[y])
    && (forall n: nat :: Shows(m, changes, n) ==> n in at)
  }

  lemma ShowsInFront(m: BestPaths, changes: seq<Change>, n: nat)
    requires n < |changes| - 1
    ensures Shows(m, changes, n) <==> Shows(m, changes[..|changes| - 1], n)
  {
    assert changes[..n] == changes[..|changes| - 1][..n];
  }

  lemma ShownAtNext(m: BestPaths, changes: seq<Change>, entries: seq<PriceEntry>, at: seq<nat>)
    requires changes != [] && ShownAt(m, changes[..|changes| - 1], entries, at)
    ensures var n := |changes| - 1;
            if Shows(m, changes, n) then ShownAt(m, changes, entries + [EntryOf(changes[n])], at + [n])
            else ShownAt(m, changes, entries, at)
  {
    hide Shows, EntryOf;
    var front, last := changes[..|changes| - 1], |changes| - 1;
    forall n: nat | n < last ensures Shows(m, changes, n) <==> Shows(m, front, n) {
      ShowsInFront(m, changes, n);
    }
    var at' := at + [last];
    forall n: nat | Shows(m, changes, n) && n < last ensures n in at && n in at' {
      assert n in at;
    }
    assert at'[|at|] == last;
  }

  /**
   The event lists, in order and once each, the changes that set a path and the removals of a
   path present at that moment, and nothing else.
   */
  lemma {:induction false} EventListsShownChanges(m: BestPaths, changes: seq<Change>) returns (at: seq<nat>)
    ensures ShownAt(m, changes, ChangeEvents(m, changes), at)
  {
    if changes == [] {
      at := [];
    } else {
      hide ShownAt;
      var front, last := changes[..|changes| - 1], |changes| - 1;
      at := EventListsShownChanges(m, front);
      ShownAtNext(m, changes, ChangeEvents(m, front), at);
      if Shows(m, changes, last) {
        at := at + [last];
        assert ChangeEvents(m, changes) == ChangeEvents(m, front) + [EntryOf(changes[last])];
      } else {
        assert ChangeEvents(m, changes) == ChangeEvents(m, front);
      }
    }
  }

  /**
   The call does not deduplicate: for every change list the event names each pair at most once
   if and only if no two of the changes that show are for the same pair.
   */
  lemma EventRepeatsIffChangesRepeat(m: BestPaths, changes: seq<Change>)
    ensures DistinctEntries(ChangeEvents(m, changes))
            <==> forall a: nat, b: nat :: Shows(m, changes, a) && Shows(m, changes, b) && a < b ==>
                   changes[a].pair != changes[b].pair
  {
    hide Shows;
    var entries := ChangeEvents(m, changes);
    var at := EventListsShownChanges(m, changes);
    if DistinctEntries(entries) {
      forall a: nat, b: nat | Shows(m, changes, a) && Shows(m, changes, b) && a < b
        ensures changes[a].pair != changes[b].pair
      {
        var x :| 0 <= x < |at| && at[x] == a;
        var y :| 0 <= y < |at| && at[y] == b;
        assert entries[x].pair != entries[y].pair;
      }
    }
  }

  // ---------- What the call does ----------

  /**
   The call gets through if and only if it comes unsigned, with the current nonce. The errors
   tell the two reasons apart, and a refused call leaves the chain as it was.
   */
  lemma SubmitBestPathsRefusals(chain: Chain, origin: Origin, payload: Payload)
    ensures var (chain', r) := AfterSubmitBestPaths(chain, origin, payload);
            && (r.Success? <==> origin == Unsigned && payload.nonce == chain.nonce)
            && (r == Failure(BadOrigin) <==> origin == Root || origin.Signed?)
            && (r == Failure(StaleUnsignedTxError) <==> origin == Unsigned && payload.nonce != chain.nonce)
            && (r.Failure? ==> chain' == chain)
  {
    hide ApplyChanges, ChangeEvents, WithEvent;
  }

  /**
   Once through: the last change for a pair decides about its path, pairs without a change
   keep theirs, the nonce moves on by one, and nothing else moves but the event log. That
   gains one event, listing the changes that show, unless none does.
   */
  lemma SubmitBestPathsEffect(chain: Chain, payload: Payload) returns (entries: seq<PriceEntry>, at: seq<nat>)
    requires payload.nonce == chain.nonce
    ensures var chain', changes := AfterSubmitBestPaths(chain, Unsigned, payload).0, payload.changes;
            && (forall n: nat :: IsLastChange(changes, n) ==>
                  var c := changes[n];
                  if c.path.Some? then c.pair in chain'.bestPaths && chain'.bestPaths[c.pair] == c.path.value
                  else c.pair !in chain'.bestPaths)
            && (forall p :: !Names(changes, p) ==>
                  && (p in chain'.bestPaths <==> p in chain.bestPaths)
                  && (p in chain.bestPaths ==> chain'.bestPaths[p] == chain.bestPaths[p]))
            && chain'.nonce == chain.nonce + 1
            && chain' == chain.(bestPaths := chain'.bestPaths, nonce := chain'.nonce, events := chain'.events)
            && ShownAt(chain.bestPaths, changes, entries, at)
            && chain'.events == (if exists n: nat :: Shows(chain.bestPaths, changes, n)
                                 then chain.events + [BestPricesSubmitted(entries)] else chain.events)
  {
    hide ApplyChanges, ChangeEvents, IsLastChange, Names, Shows, EntryOf;
    var m, changes := chain.bestPaths, payload.changes;
    entries := ChangeEvents(m, changes);
    at := EventListsShownChanges(m, changes);
    forall n: nat | IsLastChange(changes, n)
      ensures var c, m' := changes[n], ApplyChanges(m, changes);
              if c.path.Some? then c.pair in m' && m'[c.pair] == c.path.value else c.pair !in m'
    {
      LastChangeDecides(m, changes, n);
    }
    forall p | !Names(changes, p)
      ensures var m' := ApplyChanges(m, changes); (p in m' <==> p in m) && (p in m ==> m'[p] == m[p])
    {
      ApplyUnnamed(m, changes, p);
    }
    assert entries != [] ==> Shows(m, changes, at[0]);
  }

  // ---------- Monitored pairs ----------

  function ApplyOperation(m: set<ProviderPair>, op: ProviderPairOperation): set<ProviderPair> {
    match op.operation
    case Add => m + {op.providerPair}
    case Del => m - {op.providerPair}
  }

  function ApplyOperations(m: set<ProviderPair>, ops: seq<ProviderPairOperation>): set<ProviderPair> {
    if ops == [] then m
    else ApplyOperation(ApplyOperations(m, ops[..|ops| - 1]), ops[|ops| - 1])
  }

  /** An operation is worth an event when it changes the set. */
  predicate Effective(m: set<ProviderPair>, op: ProviderPairOperation) {
    match op.operation
    case Add => op.providerPair !in m
    case Del => op.providerPair in m
  }

  function EffectiveOperations(m: set<ProviderPair>, ops: seq<ProviderPairOperation>): seq<ProviderPairOperation> {
    if ops == [] then []
    else
      var front, last := ops[..|ops| - 1], ops[|ops| - 1];
      EffectiveOperations(m, front) + (if Effective(ApplyOperations(m, front), last) then [last] else [])
  }

  function PairsOf(ops: seq<ProviderPairOperation>): set<ProviderPair> {
    set op | op in ops :: op.providerPair
  }

  /** The last operation for every pair, in the order of those last operations. */
  function LastOperations(ops: seq<ProviderPairOperation>): seq<ProviderPairOperation> {
    if ops == [] then []
    else if ops[0].providerPair in PairsOf(ops[1..]) then LastOperations(ops[1..])
    else [ops[0]] + LastOperations(ops[1..])
  }

  function Reversed<T>(s: seq<T>): seq<T> {
    if s == [] then [] else [s[|s| - 1]] + Reversed(s[..|s| - 1])
  }

  /** `submit_monitored_pairs`. */
  function AfterSubmitMonitoredPairs(chain: Chain, origin: Origin, ops: seq<ProviderPairOperation>)
    : (Chain, DispatchResult)
  {
    if origin != Root then (chain, Failure(BadOrigin))
    else
      var last := LastOperations(ops);
      var entries := EffectiveOperations(chain.monitored, last);
      (chain.(monitored := ApplyOperations(chain.monitored, last),
              events := WithEvent(chain.events, entries, MonitoredPairsSubmitted(entries))), Success(()))
  }

  ghost predicate IsLastAt(ops: seq<ProviderPairOperation>, n: nat)
    ensures IsLastAt(ops, n) ==> n < |ops|
  {
    n < |ops| && forall m :: n < m < |ops| ==> ops[m].providerPair != ops[n].providerPair
  }

  /** Membership after a batch is decided by the last operation on the pair, if any. */
  lemma {:induction false} LastOperationDecides(m: set<ProviderPair>, ops: seq<ProviderPairOperation>, n: nat)
    requires IsLastAt(ops, n)
    ensures ops[n].providerPair in ApplyOperations(m, ops) <==> ops[n].operation == Add
  {
    if n < |ops| - 1 {
      LastOperationDecides(m, ops[..|ops| - 1], n);
    }
  }

  lemma {:induction false} UntouchedStays(m: set<ProviderPair>, ops: seq<ProviderPairOperation>, pp: ProviderPair)
    requires pp !in PairsOf(ops)
    ensures pp in ApplyOperations(m, ops) <==> pp in m
  {
    if ops != [] {
      var front, last := ops[..|ops| - 1], ops[|ops| - 1];
      assert last in ops && forall op :: op in front ==> op in ops;
      UntouchedStays(m, front, pp);
    }
  }

  lemma {:induction false} LastAtExists(ops: seq<ProviderPairOperation>, pp: ProviderPair) returns (n: nat)
    requires pp in PairsOf(ops)
    ensures IsLastAt(ops, n) && ops[n].providerPair == pp
  {
    if pp in PairsOf(ops[1..]) {
      n := LastAtExists(ops[1..], pp);
      n := n + 1;
    } else {
      var op :| op in ops && op.providerPair == pp;
      assert op == ops[0];
      forall m | 0 < m < |ops| ensures ops[m].providerPair != pp {
        assert ops[1..][m - 1] in ops[1..];
      }
      n := 0;
    }
  }

  ghost predicate LastAt(ops: seq<ProviderPairOperation>, last: seq<ProviderPairOperation>, at: seq<nat>) {
    && |at| == |last|
    && (forall x :: 0 <= x < |at| ==> IsLastAt(ops, at[x]) && last[x] == ops[at[x]])
    && (forall x, y :: 0 <= x < y < |at| ==> at[x] < at[y])
  }

  lemma IsLastAtLater(op: ProviderPairOperation, rest: seq<ProviderPairOperation>, n: nat)
    requires IsLastAt(rest, n)
    ensures IsLastAt([op] + rest, n + 1) && ([op] + rest)[n + 1] == rest[n]
  {
    var ops := [op] + rest;
    forall m | n + 1 < m < |ops| ensures ops[m].providerPair != rest[n].providerPair {
      assert ops[m] == rest[m - 1];
    }
  }

  lemma IsLastAtHead(op: ProviderPairOperation, rest: seq<ProviderPairOperation>)
    requires op.providerPair !in PairsOf(rest)
    ensures IsLastAt([op] + rest, 0)
  {
    var ops := [op] + rest;
    forall m | 0 < m < |ops| ensures ops[m].providerPair != op.providerPair {
      assert ops[m] == rest[m - 1] && rest[m - 1] in rest;
    }
  }

  lemma LastAtLater(op: ProviderPairOperation, rest: seq<ProviderPairOperation>, last: seq<ProviderPairOperation>,
                    later: seq<nat>)
    requires LastAt(rest, last, later)
    ensures var at := seq(|later|, x requires 0 <= x < |later| => later[x] + 1);
            && LastAt([op] + rest, last, at)
            && (op.providerPair !in PairsOf(rest) ==> LastAt([op] + rest, [op] + last, [0] + at))
  {
    hide IsLastAt, PairsOf;
    var at := seq(|later|, x requires 0 <= x < |later| => later[x] + 1);
    forall x | 0 <= x < |at| ensures IsLastAt([op] + rest, at[x]) && last[x] == ([op] + rest)[at[x]] {
      IsLastAtLater(op, rest, later[x]);
    }
    if op.providerPair !in PairsOf(rest) {
      IsLastAtHead(op, rest);
    }
  }

  /** The deduplicated list consists of last occurrences, with their positions ascending. */
  lemma {:induction false} LastOperationsAt(ops: seq<ProviderPairOperation>) returns (at: seq<nat>)
    ensures LastAt(ops, LastOperations(ops), at)
    ensures PairsOf(LastOperations(ops)) == PairsOf(ops)
  {
    if ops == [] {
      at := [];
    } else {
      hide LastAt, PairsOf;
      var rest := ops[1..];
      assert ops == [ops[0]] + rest;
      var later := LastOperationsAt(rest);
      at := seq(|later|, x requires 0 <= x < |later| => later[x] + 1);
      LastAtLater(ops[0], rest, LastOperations(rest), later);
      PairsOfCons(ops[0], rest);
      if ops[0].providerPair !in PairsOf(rest) {
        at := [0] + at;
        PairsOfCons(ops[0], LastOperations(rest));
      }
    }
  }

  lemma PairsOfCons(op: ProviderPairOperation, ops: seq<ProviderPairOperation>)
    ensures PairsOf([op] + ops) == {op.providerPair} + PairsOf(ops)
  {
    assert op in [op] + ops;
    forall pp | pp in PairsOf(ops) ensures pp in PairsOf([op] + ops) {
      var o :| o in ops && o.providerPair == pp;
      assert o in [op] + ops;
    }
  }

  ghost predicate DistinctOperations(ops: seq<ProviderPairOperation>) {
    forall a, b :: 0 <= a < b < |ops| ==> ops[a].providerPair != ops[b].providerPair
  }

  lemma LastOperationsDistinct(ops: seq<ProviderPairOperation>)
    ensures DistinctOperations(LastOperations(ops))
  {
    var at := LastOperationsAt(ops);
    forall a, b | 0 <= a < b < |at| ensures LastOperations(ops)[a].providerPair != LastOperations(ops)[b].providerPair {
      assert IsLastAt(ops, at[a]) && at[a] < at[b];
    }
  }

  /** Deduplicating first leaves the same monitored pairs as applying every operation in turn. */
  lemma DedupRefinesSequential(m: set<ProviderPair>, ops: seq<ProviderPairOperation>)
    ensures ApplyOperations(m, LastOperations(ops)) == ApplyOperations(m, ops)
  {
    var last := LastOperations(ops);
    var at := LastOperationsAt(ops);
    LastOperationsDistinct(ops);
    forall pp ensures pp in ApplyOperations(m, last) <==> pp in ApplyOperations(m, ops) {
      if pp in PairsOf(ops) {
        var x := LastAtExists(last, pp);
        LastOperationDecides(m, last, x);
        LastOperationDecides(m, ops, at[x]);
      } else {
        UntouchedStays(m, last, pp);
        UntouchedStays(m, ops, pp);
      }
    }
  }

  /** On a list without repeated pairs, the effective operations are those that differ from `m`. */
  lemma {:induction false} EffectiveOfDistinct(m: set<ProviderPair>, ops: seq<ProviderPairOperation>)
    requires DistinctOperations(ops)
    ensures forall op :: op in EffectiveOperations(m, ops) <==> op in ops && Effective(m, op)
    ensures forall op :: op in ops && Effective(m, op) <==>
              op in ops && (op.providerPair in m) != (op.providerPair in ApplyOperations(m, ops))
  {
    if ops != [] {
      var front, last := ops[..|ops| - 1], ops[|ops| - 1];
      assert ops == front + [last];
      EffectiveOfDistinct(m, front);
      UntouchedStays(m, front, last.providerPair);
    }
  }

  ghost predicate PickedAt(ops: seq<ProviderPairOperation>, picked: seq<ProviderPairOperation>, at: seq<nat>) {
    && |at| == |picked|
    && (forall x :: 0 <= x < |at| ==> at[x] < |ops| && picked[x] == ops[at[x]])
    && (forall x, y :: 0 <= x < y < |at| ==> at[x] < at[y])
  }

  lemma PickedAtNext(ops: seq<ProviderPairOperation>, picked: seq<ProviderPairOperation>, at: seq<nat>)
    requires ops != [] && PickedAt(ops[..|ops| - 1], picked, at)
    ensures PickedAt(ops, picked, at)
    ensures PickedAt(ops, picked + [ops[|ops| - 1]], at + [|ops| - 1])
  {
  }

  /** The effective operations are a subsequence of the list. */
  lemma {:induction false} EffectiveAt(m: set<ProviderPair>, ops: seq<ProviderPairOperation>) returns (at: seq<nat>)
    ensures PickedAt(ops, EffectiveOperations(m, ops), at)
  {
    if ops == [] {
      at := [];
    } else {
      hide PickedAt;
      var front, last := ops[..|ops| - 1], ops[|ops| - 1];
      at := EffectiveAt(m, front);
      PickedAtNext(ops, EffectiveOperations(m, front), at);
      if Effective(ApplyOperations(m, front), last) {
        at := at + [|ops| - 1];
      } else {
        assert EffectiveOperations(m, ops) == EffectiveOperations(m, front);
      }
    }
  }

  /**
   The event of a batch is the exact difference it makes: a pair is listed, once, if and only
   if its membership changed, with the operation that says how; and nothing is listed if and
   only if nothing changed.
   */
  lemma MonitoredEventIsDelta(m: set<ProviderPair>, ops: seq<ProviderPairOperation>)
    ensures var ev, m' := EffectiveOperations(m, LastOperations(ops)), ApplyOperations(m, ops);
            && (forall pp :: pp in PairsOf(ev) <==> (pp in m) != (pp in m'))
            && (forall op :: op in ev ==> op.operation == if op.providerPair in m' then Add else Del)
            && DistinctOperations(ev)
            && (ev == [] <==> m' == m)
  {
    var last := LastOperations(ops);
    var ev, m' := EffectiveOperations(m, last), ApplyOperations(m, ops);
    DedupRefinesSequential(m, ops);
    LastOperationsDistinct(ops);
    EffectiveOfDistinct(m, last);
    forall pp ensures pp in PairsOf(ev) <==> (pp in m) != (pp in m') {
      if pp in PairsOf(last) {
        var op :| op in last && op.providerPair == pp;
        assert op in ev <==> Effective(m, op);
      } else {
        UntouchedStays(m, last, pp);
      }
    }
    var at := EffectiveAt(m, last);
    if ev == [] {
      assert forall pp :: pp in m <==> pp in m';
    } else {
      assert ev[0] in ev && ev[0].providerPair in PairsOf(ev);
    }
  }

  /** The event lists its operations in the order of their last occurrence in the batch. */
  lemma MonitoredEventOrder(m: set<ProviderPair>, ops: seq<ProviderPairOperation>) returns (at: seq<nat>)
    ensures var ev := EffectiveOperations(m, LastOperations(ops));
            LastAt(ops, ev, at)
  {
    var outer := LastOperationsAt(ops);
    var inner := EffectiveAt(m, LastOperations(ops));
    at := seq(|inner|, x requires 0 <= x < |inner| => outer[inner[x]]);
  }

  /**
   The whole call: only root gets through. Then a pair is monitored if and only if the last
   operation on it adds it, or there is none and it was monitored before. The log gains one
   event if and only if the monitored pairs changed, listing exactly those that did, once each
   and in the order of their last operations. Any other origin changes nothing.
   */
  lemma SubmitMonitoredPairsEffect(chain: Chain, origin: Origin, ops: seq<ProviderPairOperation>)
    returns (listed: seq<ProviderPairOperation>, at: seq<nat>)
    ensures var (chain', r) := AfterSubmitMonitoredPairs(chain, origin, ops);
            if origin != Root then chain' == chain && r == Failure(BadOrigin)
            else
              && r == Success(())
              && chain' == chain.(monitored := chain'.monitored, events := chain'.events)
              && (forall n: nat :: IsLastAt(ops, n) ==>
                    (ops[n].providerPair in chain'.monitored <==> ops[n].operation == Add))
              && (forall pp :: pp !in PairsOf(ops) ==> (pp in chain'.monitored <==> pp in chain.monitored))
              && chain'.events == (if chain'.monitored == chain.monitored then chain.events
                                   else chain.events + [MonitoredPairsSubmitted(listed)])
              && (forall pp :: pp in PairsOf(listed) <==> (pp in chain.monitored) != (pp in chain'.monitored))
              && DistinctOperations(listed) && LastAt(ops, listed, at)
  {
    hide ApplyOperations, LastOperations, EffectiveOperations, PairsOf, IsLastAt, LastAt, DistinctOperations;
    var m := chain.monitored;
    listed := EffectiveOperations(m, LastOperations(ops));
    at := MonitoredEventOrder(m, ops);
    DedupRefinesSequential(m, ops);
    MonitoredEventIsDelta(m, ops);
    forall n: nat | IsLastAt(ops, n)
      ensures ops[n].providerPair in ApplyOperations(m, ops) <==> ops[n].operation == Add
    {
      LastOperationDecides(m, ops, n);
    }
    forall pp | pp !in PairsOf(ops) ensures pp in ApplyOperations(m, ops) <==> pp in m {
      UntouchedStays(m, ops, pp);
    }
  }

  // ---------- Whitelist and validation ----------

  /** `add_whitelisted_offchain_authority`. */
  function AfterAddAuthority(chain: Chain, origin: Origin, account: Account): (Chain, DispatchResult) {
    if origin != Root then (chain, Failure(BadOrigin))
    else
      (chain.(whitelist := chain.whitelist + {account},
              events := chain.events + [WhitelistedOffchainAuthorityAdded(account)]), Success(()))
  }

  datatype Validity = Valid | BadProof | Stale

  /** `validate_unsigned`; whether the signature fits the payload is an argument. */
  function ValidateUnsigned(chain: Chain, payload: Payload, signatureValid: bool, maxStay: nat): Validity {
    if !signatureValid then BadProof
    else if payload.blockNumber + maxStay < chain.block then Stale
    else if payload.public !in chain.whitelist then BadProof
    else Valid
  }

  /**
   Root adds the account to the whitelist, whether it was on it or not, removes none, and logs
   it; any other origin changes nothing.
   */
  lemma AddAuthorityEffect(chain: Chain, origin: Origin, account: Account)
    ensures var (chain', r) := AfterAddAuthority(chain, origin, account);
            && (r.Success? <==> origin == Root)
            && (origin != Root ==> chain' == chain && r == Failure(BadOrigin))
            && (forall a :: a in chain'.whitelist <==> a in chain.whitelist || (origin == Root && a == account))
            && (origin == Root ==> chain'.events == chain.events + [WhitelistedOffchainAuthorityAdded(account)])
            && chain' == chain.(whitelist := chain'.whitelist, events := chain'.events)
  {
  }

  /**
   A payload is valid if and only if its signature is, its signer is whitelisted and it is not
   too old. Age is reported before the whitelist is looked at.
   */
  lemma ValidityReasons(chain: Chain, payload: Payload, signatureValid: bool, maxStay: nat)
    ensures var v, tooOld := ValidateUnsigned(chain, payload, signatureValid, maxStay),
                             chain.block - payload.blockNumber > maxStay;
            && (v == Valid <==> signatureValid && payload.public in chain.whitelist && !tooOld)
            && (v == Stale <==> signatureValid && tooOld)
            && (v == BadProof <==> !signatureValid || (payload.public !in chain.whitelist && !tooOld))
  {
  }

  // ---------- The recursive definitions, one step at a time ----------

  lemma EmptyChanges(m: BestPaths)
    ensures ApplyChanges(m, []) == m && ChangeEvents(m, []) == []
  {
  }

  lemma ChangeStep(m: BestPaths, changes: seq<Change>, n: nat)
    requires n < |changes|
    ensures var before, c := ApplyChanges(m, changes[..n]), changes[n];
            && ApplyChanges(m, changes[..n + 1])
               == (match c.path
                   case Some(path) => before[c.pair := path]
                   case None => if c.pair in before then before - {c.pair} else before)
            && ChangeEvents(m, changes[..n + 1]) == ChangeEvents(m, changes[..n]) + ChangeEvent(before, c)
  {
    assert changes[..n + 1][..n] == changes[..n];
    var before, c := ApplyChanges(m, changes[..n]), changes[n];
    if c.pair !in before {
      assert before - {c.pair} == before;
    }
  }

  lemma EmptyBatch(m: set<ProviderPair>)
    ensures PairsOf([]) == {} && LastOperations([]) == [] && Reversed<ProviderPairOperation>([]) == []
    ensures ApplyOperations(m, []) == m && EffectiveOperations(m, []) == []
  {
  }

  lemma LastOperationsStep(ops: seq<ProviderPairOperation>, n: nat)
    requires n < |ops|
    ensures var op, rest := ops[n], ops[n + 1..];
            && PairsOf(ops[n..]) == PairsOf(rest) + {op.providerPair}
            && LastOperations(ops[n..])
               == if op.providerPair in PairsOf(rest) then LastOperations(rest) else [op] + LastOperations(rest)
  {
    assert ops[n..] == [ops[n]] + ops[n + 1..];
    PairsOfCons(ops[n], ops[n + 1..]);
  }

  lemma ReversedStep<T>(s: seq<T>, x: T)
    ensures Reversed(s + [x]) == [x] + Reversed(s)
  {
    assert (s + [x])[..|s|] == s;
  }

  lemma OperationStep(m: set<ProviderPair>, ops: seq<ProviderPairOperation>, n: nat)
    requires n < |ops|
    ensures var before, op := ApplyOperations(m, ops[..n]), ops[n];
            && ApplyOperations(m, ops[..n + 1])
               == (if !Effective(before, op) then before
                   else if op.operation == Add then before + {op.providerPair}
                   else before - {op.providerPair})
            && EffectiveOperations(m, ops[..n + 1])
               == EffectiveOperations(m, ops[..n]) + (if Effective(before, op) then [op] else [])
  {
    assert ops[..n + 1][..n] == ops[..n];
    var before, op := ApplyOperations(m, ops[..n]), ops[n];
    if !Effective(before, op) {
      assert ApplyOperation(before, op) == before;
    }
  }

  // ---------- The storage, updated in place ----------

  class Storage {
    var bestPaths: BestPaths
    var monitored: set<ProviderPair>
    var whitelist: set<Account>
    var nonce: nat
    var events: seq<Event>
    var block: nat

    function State(): Chain
      reads this
    {
      Chain(bestPaths, monitored, whitelist, nonce, events, block)
    }

    constructor ()
      ensures State() == Chain(map[], {}, {}, 0, [], 0)
    {
      bestPaths, monitored, whitelist, nonce, events, block := map[], {}, {}, 0, [], 0;
    }

    method OcwSubmitBestPathsChanges(origin: Origin, payload: Payload) returns (r: DispatchResult)
      modifies this
      ensures (State(), r) == AfterSubmitBestPaths(old(State()), origin, payload)
    {
      if origin != Unsigned {
        return Failure(BadOrigin);
      }
      var currentNonce := nonce;
      if currentNonce != payload.nonce {
        return Failure(StaleUnsignedTxError);
      }
      hide ApplyChanges, ChangeEvents;
      var changes := payload.changes;
      EmptyChanges(bestPaths);
      var eventPayload: seq<PriceEntry> := [];
      for n := 0 to |changes|
        invariant bestPaths == ApplyChanges(old(bestPaths), changes[..n])
        invariant eventPayload == ChangeEvents(old(bestPaths), changes[..n])
        invariant unchanged(`monitored) && unchanged(`whitelist)
        invariant unchanged(`nonce) && unchanged(`events) && unchanged(`block)
      {
        ChangeStep(old(bestPaths), changes, n);
        var pair := changes[n].pair;
        match changes[n].path {
          case Some(path) =>
            bestPaths := bestPaths[pair := path];
            eventPayload := eventPayload + [PriceEntry(pair, path.totalCost, Add)];
          case None =>
            if pair in bestPaths {
              bestPaths := bestPaths - {pair};
              eventPayload := eventPayload + [PriceEntry(pair, 0, Del)];
            }
        }
      }
      assert changes[..|changes|] == changes;
      nonce := currentNonce + 1;
      if eventPayload != [] {
        events := events + [BestPricesSubmitted(eventPayload)];
      }
      return Success(());
    }

    method SubmitMonitoredPairs(origin: Origin, operations: seq<ProviderPairOperation>) returns (r: DispatchResult)
      modifies this
      ensures (State(), r) == AfterSubmitMonitoredPairs(old(State()), origin, operations)
    {
      if origin != Root {
        return Failure(BadOrigin);
      }
      hide PairsOf, LastOperations, EffectiveOperations, ApplyOperations, Reversed;
      EmptyBatch(monitored);
      // Walk backwards, keep the first operation met for every pair, then turn the list round.
      var backwards: seq<ProviderPairOperation> := [];
      var uniques: set<ProviderPair> := {};
      var n := |operations|;
      while n > 0
        modifies {}
        invariant 0 <= n <= |operations|
        invariant uniques == PairsOf(operations[n..])
        invariant Reversed(backwards) == LastOperations(operations[n..])
      {
        n := n - 1;
        var op := operations[n];
        LastOperationsStep(operations, n);
        ReversedStep(backwards, op);
        if op.providerPair !in uniques {
          uniques := uniques + {op.providerPair};
          backwards := backwards + [op];
        }
      }
      assert operations[0..] == operations;
      var latest := Reversed(backwards);

      var eventPayload: seq<ProviderPairOperation> := [];
      for k := 0 to |latest|
        invariant monitored == ApplyOperations(old(monitored), latest[..k])
        invariant eventPayload == EffectiveOperations(old(monitored), latest[..k])
        invariant unchanged(`bestPaths) && unchanged(`whitelist)
        invariant unchanged(`nonce) && unchanged(`events) && unchanged(`block)
      {
        OperationStep(old(monitored), latest, k);
        var op := latest[k];
        match op.operation {
          case Add =>
            if op.providerPair !in monitored {
              monitored := monitored + {op.providerPair};
              eventPayload := eventPayload + [op];
            }
          case Del =>
            if op.providerPair in monitored {
              monitored := monitored - {op.providerPair};
              eventPayload := eventPayload + [op];
            }
        }
      }
      assert latest[..|latest|] == latest;
      if eventPayload != [] {
        events := events + [MonitoredPairsSubmitted(eventPayload)];
      }
      return Success(());
    }

    method AddWhitelistedOffchainAuthority(origin: Origin, account: Account) returns (r: DispatchResult)
      modifies this
      ensures (State(), r) == AfterAddAuthority(old(State()), origin, account)
    {
      if origin != Root {
        return Failure(BadOrigin);
      }
      events := events + [WhitelistedOffchainAuthorityAdded(account)];
      whitelist := whitelist + {account};
      return Success(());
    }
  }
}
