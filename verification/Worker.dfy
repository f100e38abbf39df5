/**
 The off-chain worker's round: from fetched prices and stored paths to a list of changes.

 Storage iteration order is unspecified, so the order in which stored pairs are visited is
 an argument, any enumeration of the keys.
 */
module Worker {
  import opened Wrappers
  import opened Ordered
  import opened Types
  import opened Tolerance

  type BestPaths = map<CurrencyPair, PricePath>

  type Account = nat

  /** `Some` asks for a new price path, `None` for removal. */
  datatype Change = Change(pair: CurrencyPair, path: Option<PricePath>)

  datatype Payload = Payload(changes: seq<Change>, nonce: nat, blockNumber: nat, public: Account)

  ghost predicate Enumerates<T(!new)>(order: seq<T>, s: set<T>) {
    NoDuplicates(order) && forall x :: x in order <==> x in s
  }

  // ---------- Applying changes, as the chain does ----------

  function ApplyChange(m: BestPaths, c: Change): BestPaths {
    match c.path
    case Some(path) => m[c.pair := path]
    case None => m - {c.pair}
  }

  function ApplyChanges(m: BestPaths, changes: seq<Change>): BestPaths {
    if changes == [] then m
    else ApplyChange(ApplyChanges(m, changes[..|changes| - 1]), changes[|changes| - 1])
  }

  ghost predicate DistinctChanges(changes: seq<Change>) {
    forall a, b :: 0 <= a < b < |changes| ==> changes[a].pair != changes[b].pair
  }

  ghost predicate OnlyUpserts(changes: seq<Change>) {
    forall c :: c in changes ==> c.path.Some?
  }

  ghost predicate Names(changes: seq<Change>, p: CurrencyPair) {
    exists c :: c in changes && c.pair == p
  }

  /** Pairs that no change names keep their path. */
  lemma {:induction false} ApplyUnnamed(m: BestPaths, changes: seq<Change>, p: CurrencyPair)
    requires !Names(changes, p)
    ensures var m' := ApplyChanges(m, changes);
            (p in m' <==> p in m) && (p in m ==> m'[p] == m[p])
  {
    if changes != [] {
      var front, last := changes[..|changes| - 1], changes[|changes| - 1];
      assert changes == front + [last];
      assert last in changes && forall c :: c in front ==> c in changes;
      ApplyUnnamed(m, front, p);
    }
  }

  /** No later change is for the same pair. */
  ghost predicate IsLastChange(changes: seq<Change>, n: nat)
    ensures IsLastChange(changes, n) ==> n < |changes|
  {
    n < |changes| && forall k :: n < k < |changes| ==> changes[k].pair != changes[n].pair
  }

  /** The last change for a pair decides about it, whatever came before. */
  lemma {:induction false} LastChangeDecides(m: BestPaths, changes: seq<Change>, n: nat)
    requires IsLastChange(changes, n)
    ensures var m', c := ApplyChanges(m, changes), changes[n];
            if c.path.Some? then c.pair in m' && m'[c.pair] == c.path.value else c.pair !in m'
  {
    if n < |changes| - 1 {
      LastChangeDecides(m, changes[..|changes| - 1], n);
    }
  }

  lemma {:induction false} LastChangeExists(changes: seq<Change>, p: CurrencyPair) returns (n: nat)
    requires Names(changes, p)
    ensures IsLastChange(changes, n) && changes[n].pair == p
  {
    var front, last := changes[..|changes| - 1], changes[|changes| - 1];
    assert changes == front + [last];
    if last.pair == p {
      n := |changes| - 1;
    } else {
      var c :| c in changes && c.pair == p;
      assert c in front;
      n := LastChangeExists(front, p);
    }
  }

  /** Without repeated pairs every change shows in the outcome. */
  lemma ApplyNamed(m: BestPaths, changes: seq<Change>, c: Change)
    requires DistinctChanges(changes) && c in changes
    ensures var m' := ApplyChanges(m, changes);
            if c.path.Some? then c.pair in m' && m'[c.pair] == c.path.value else c.pair !in m'
  {
    var n :| 0 <= n < |changes| && changes[n] == c;
    LastChangeDecides(m, changes, n);
  }

  lemma ApplyDistinct(m: BestPaths, changes: seq<Change>)
    requires DistinctChanges(changes)
    ensures var m' := ApplyChanges(m, changes);
            && (forall c :: c in changes ==>
                  if c.path.Some? then c.pair in m' && m'[c.pair] == c.path.value else c.pair !in m')
            && (forall p :: !Names(changes, p) ==> (p in m' <==> p in m) && (p in m ==> m'[p] == m[p]))
  {
    hide ApplyChanges, Names, DistinctChanges;
    var m' := ApplyChanges(m, changes);
    forall c | c in changes
      ensures if c.path.Some? then c.pair in m' && m'[c.pair] == c.path.value else c.pair !in m'
    {
      ApplyNamed(m, changes, c);
    }
    forall p | !Names(changes, p) ensures (p in m' <==> p in m) && (p in m ==> m'[p] == m[p]) {
      ApplyUnnamed(m, changes, p);
    }
  }

  /** The order of a change list without repeated pairs does not matter. */
  lemma ApplyOrderIrrelevant(m: BestPaths, xs: seq<Change>, ys: seq<Change>)
    requires DistinctChanges(xs) && DistinctChanges(ys)
    requires forall c :: c in xs <==> c in ys
    ensures ApplyChanges(m, xs) == ApplyChanges(m, ys)
  {
    ApplyDistinct(m, xs);
    ApplyDistinct(m, ys);
    var x, y := ApplyChanges(m, xs), ApplyChanges(m, ys);
    forall p ensures (p in x <==> p in y) && (p in x ==> x[p] == y[p]) {
      if Names(xs, p) {
        var c :| c in xs && c.pair == p;
        assert c in ys;
      } else {
        assert !Names(ys, p);
      }
    }
  }

  // ---------- Selecting changes ----------

  predicate Outdated(stored: BestPaths, latest: BestPaths, tolerance: nat, p: CurrencyPair)
    requires p in stored && p in latest
  {
    BreachesTolerance(stored[p].totalCost, latest[p].totalCost, tolerance) == Some(true)
  }

  /** The changes for stored pairs, in the order in which they are visited. */
  function Updates(stored: BestPaths, latest: BestPaths, tolerance: nat, order: seq<CurrencyPair>): seq<Change>
    requires forall p :: p in order ==> p in stored
  {
    if order == [] then []
    else
      var front, p := order[..|order| - 1], order[|order| - 1];
      Updates(stored, latest, tolerance, front)
      + (if p in latest && Outdated(stored, latest, tolerance, p) then [Change(p, Some(latest[p]))] else [])
  }

  /** The changes for pairs not stored yet. */
  function Additions(stored: BestPaths, latest: BestPaths, order: seq<CurrencyPair>): seq<Change>
    requires forall p :: p in order ==> p in latest
  {
    if order == [] then []
    else
      var front, p := order[..|order| - 1], order[|order| - 1];
      Additions(stored, latest, front) + (if p !in stored then [Change(p, Some(latest[p]))] else [])
  }

  function LatestOrder(latest: BestPaths): (order: seq<CurrencyPair>)
    ensures forall p :: p in order <==> p in latest
    ensures NoDuplicates(order) && Ascending(order, CurrencyPairLe)
  {
    CurrencyPairLeIsTotalOrder();
    SortedSeq(latest.Keys, CurrencyPairLe)
  }

  function ChangeList(stored: BestPaths, latest: BestPaths, tolerance: nat, order: seq<CurrencyPair>): seq<Change>
    requires forall p :: p in order ==> p in stored
  {
    Updates(stored, latest, tolerance, order) + Additions(stored, latest, LatestOrder(latest))
  }

  /** Some pair to be compared is stored with cost zero. */
  ghost predicate DividesByZero(stored: BestPaths, latest: BestPaths) {
    exists p :: p in stored && p in latest && stored[p].totalCost == 0
  }

  /** The two loops that fill `changes`; `None` is the panic. */
  method SelectChanges(stored: BestPaths, latest: BestPaths, tolerance: nat, order: seq<CurrencyPair>)
    returns (r: Option<seq<Change>>)
    requires Enumerates(order, stored.Keys)
    ensures DividesByZero(stored, latest) ==> r == None
    ensures !DividesByZero(stored, latest) ==> r == Some(ChangeList(stored, latest, tolerance, order))
  {
    hide Updates, Additions, BreachesTolerance, Outdated, Enumerates, ChangeList, DividesByZero, LatestOrder,
         NoDuplicates;
    InOrder(order, stored.Keys);
    var changes: seq<Change> := [];
    UpdatesStep(stored, latest, tolerance, order, 0);
    for n := 0 to |order|
      invariant NoZeroAmong(stored, latest, order[..n])
      invariant changes == Updates(stored, latest, tolerance, order[..n])
    {
      var p := order[n];
      UpdatesStep(stored, latest, tolerance, order, n);
      if p in latest {
        var breach := BreachesTolerance(stored[p].totalCost, latest[p].totalCost, tolerance);
        if breach == None {
          ZeroFound(stored, latest, p);
          return None;
        }
        if breach.value {
          changes := changes + [Change(p, Some(latest[p]))];
        }
      }
    }
    assert order[..|order|] == order;
    NoZeroFound(stored, latest, order);
    var latestOrder := LatestOrder(latest);
    ghost var updates := changes;
    AdditionsStep(stored, latest, latestOrder, 0);
    for n := 0 to |latestOrder|
      invariant changes == updates + Additions(stored, latest, latestOrder[..n])
    {
      var p := latestOrder[n];
      AdditionsStep(stored, latest, latestOrder, n);
      if p !in stored {
        changes := changes + [Change(p, Some(latest[p]))];
      }
    }
    assert latestOrder[..|latestOrder|] == latestOrder;
    assert changes == ChangeList(stored, latest, tolerance, order) by {
      ChangeListIs(stored, latest, tolerance, order);
    }
    return Some(changes);
  }

  ghost predicate NoZeroAmong(stored: BestPaths, latest: BestPaths, order: seq<CurrencyPair>) {
    forall p :: p in order && p in latest && p in stored ==> stored[p].totalCost != 0
  }

  lemma ZeroFound(stored: BestPaths, latest: BestPaths, p: CurrencyPair)
    requires p in stored && p in latest && stored[p].totalCost == 0
    ensures DividesByZero(stored, latest)
  {
  }

  lemma NoZeroFound(stored: BestPaths, latest: BestPaths, order: seq<CurrencyPair>)
    requires Enumerates(order, stored.Keys) && NoZeroAmong(stored, latest, order)
    ensures !DividesByZero(stored, latest)
  {
  }

  lemma ChangeListIs(stored: BestPaths, latest: BestPaths, tolerance: nat, order: seq<CurrencyPair>)
    requires forall p :: p in order ==> p in stored
    ensures ChangeList(stored, latest, tolerance, order)
            == Updates(stored, latest, tolerance, order) + Additions(stored, latest, LatestOrder(latest))
  {
  }

  lemma InOrder(order: seq<CurrencyPair>, s: set<CurrencyPair>)
    requires Enumerates(order, s)
    ensures forall p :: p in order <==> p in s
  {
  }

  lemma UpdatesStep(stored: BestPaths, latest: BestPaths, tolerance: nat, order: seq<CurrencyPair>, n: nat)
    requires forall p :: p in order ==> p in stored
    ensures Updates(stored, latest, tolerance, []) == []
    ensures n < |order| ==>
              var p := order[n];
              && p in stored && order[..n + 1] == order[..n] + [p]
              && (p in latest ==> (BreachesTolerance(stored[p].totalCost, latest[p].totalCost, tolerance) == None
                                   <==> stored[p].totalCost == 0))
              && Updates(stored, latest, tolerance, order[..n + 1]) == Updates(stored, latest, tolerance, order[..n])
                 + (if p in latest
                       && BreachesTolerance(stored[p].totalCost, latest[p].totalCost, tolerance) == Some(true)
                    then [Change(p, Some(latest[p]))] else [])
  {
    if n < |order| {
      assert order[..n + 1][..n] == order[..n];
    }
  }

  lemma AdditionsStep(stored: BestPaths, latest: BestPaths, order: seq<CurrencyPair>, n: nat)
    requires forall p :: p in order ==> p in latest
    ensures Additions(stored, latest, []) == []
    ensures n < |order| ==>
              var p := order[n];
              && p in latest
              && Additions(stored, latest, order[..n + 1]) == Additions(stored, latest, order[..n])
                 + (if p !in stored then [Change(p, Some(latest[p]))] else [])
  {
    if n < |order| {
      assert order[..n + 1][..n] == order[..n];
    }
  }

  lemma {:induction false} UpdatesMembers(stored: BestPaths, latest: BestPaths, tolerance: nat,
                                          order: seq<CurrencyPair>)
    requires forall p :: p in order ==> p in stored
    ensures forall c :: c in Updates(stored, latest, tolerance, order) <==>
              && c.pair in order && c.pair in latest && Outdated(stored, latest, tolerance, c.pair)
              && c.path == Some(latest[c.pair])
    ensures NoDuplicates(order) ==> DistinctChanges(Updates(stored, latest, tolerance, order))
  {
    if order != [] {
      var front, p := order[..|order| - 1], order[|order| - 1];
      assert order == front + [p];
      UpdatesMembers(stored, latest, tolerance, front);
      if NoDuplicates(order) {
        assert p !in front;
        var xs := Updates(stored, latest, tolerance, front);
        assert forall a :: 0 <= a < |xs| ==> xs[a] in xs;
      }
    }
  }

  lemma {:induction false} AdditionsMembers(stored: BestPaths, latest: BestPaths, order: seq<CurrencyPair>)
    requires forall p :: p in order ==> p in latest
    ensures forall c :: c in Additions(stored, latest, order) <==>
              c.pair in order && c.pair !in stored && c.path == Some(latest[c.pair])
    ensures NoDuplicates(order) ==> DistinctChanges(Additions(stored, latest, order))
  {
    if order != [] {
      var front, p := order[..|order| - 1], order[|order| - 1];
      assert order == front + [p];
      AdditionsMembers(stored, latest, front);
      if NoDuplicates(order) {
        assert p !in front;
        var xs := Additions(stored, latest, front);
        assert forall a :: 0 <= a < |xs| ==> xs[a] in xs;
      }
    }
  }

  /** What a round wants to change: new pairs, and stored pairs that left the tolerance. */
  predicate Wanted(stored: BestPaths, latest: BestPaths, tolerance: nat, p: CurrencyPair) {
    p in latest && (p in stored ==> Outdated(stored, latest, tolerance, p))
  }

  /**
   The change list names exactly the wanted pairs, each once, with the latest path. It never
   asks for a removal.
   */
  lemma ChangeListMembers(stored: BestPaths, latest: BestPaths, tolerance: nat, order: seq<CurrencyPair>)
    requires Enumerates(order, stored.Keys)
    ensures var changes := ChangeList(stored, latest, tolerance, order);
            && (forall c :: c in changes <==>
                  Wanted(stored, latest, tolerance, c.pair) && c.path == Some(latest[c.pair]))
            && DistinctChanges(changes) && OnlyUpserts(changes)
  {
    hide Updates, Additions, Outdated;
    UpdatesMembers(stored, latest, tolerance, order);
    AdditionsMembers(stored, latest, LatestOrder(latest));
    var xs, ys := Updates(stored, latest, tolerance, order), Additions(stored, latest, LatestOrder(latest));
    assert forall a :: 0 <= a < |xs| ==> xs[a] in xs;
    assert forall a :: 0 <= a < |ys| ==> ys[a] in ys;
  }

  /** The pairs of the changes are met in this order, at the positions `at`. */
  ghost predicate FollowOrder(changes: seq<Change>, order: seq<CurrencyPair>, at: seq<nat>) {
    && |at| == |changes|
    && (forall a :: 0 <= a < |at| ==> at[a] < |order| && changes[a].pair == order[at[a]])
    && (forall a, b :: 0 <= a < b < |at| ==> at[a] < at[b])
  }

  lemma FollowOrderNext(changes: seq<Change>, order: seq<CurrencyPair>, at: seq<nat>, path: Option<PricePath>)
    requires order != [] && FollowOrder(changes, order[..|order| - 1], at)
    ensures FollowOrder(changes, order, at)
    ensures FollowOrder(changes + [Change(order[|order| - 1], path)], order, at + [|order| - 1])
  {
  }

  /** The updates follow the order in which the stored pairs are visited. */
  lemma {:induction false} UpdatesAt(stored: BestPaths, latest: BestPaths, tolerance: nat, order: seq<CurrencyPair>)
    returns (at: seq<nat>)
    requires forall p :: p in order ==> p in stored
    ensures FollowOrder(Updates(stored, latest, tolerance, order), order, at)
  {
    at := [];
    if order == [] {
      assert FollowOrder([], order, at);
    } else {
      hide Outdated, FollowOrder;
      var front, p := order[..|order| - 1], order[|order| - 1];
      at := UpdatesAt(stored, latest, tolerance, front);
      var changes := Updates(stored, latest, tolerance, front);
      FollowOrderNext(changes, order, at, if p in latest then Some(latest[p]) else None);
      if p in latest && Outdated(stored, latest, tolerance, p) {
        at := at + [|order| - 1];
      } else {
        assert changes + [] == changes;
      }
    }
  }

  lemma {:induction false} AdditionsAt(stored: BestPaths, latest: BestPaths, order: seq<CurrencyPair>)
    returns (at: seq<nat>)
    requires forall p :: p in order ==> p in latest
    ensures FollowOrder(Additions(stored, latest, order), order, at)
  {
    at := [];
    if order == [] {
      assert FollowOrder([], order, at);
    } else {
      hide FollowOrder;
      var front, p := order[..|order| - 1], order[|order| - 1];
      at := AdditionsAt(stored, latest, front);
      var changes := Additions(stored, latest, front);
      FollowOrderNext(changes, order, at, Some(latest[p]));
      if p !in stored {
        at := at + [|order| - 1];
      } else {
        assert changes + [] == changes;
      }
    }
  }

  /**
   The changes for stored pairs come first, in the order of the storage; those for new pairs
   come after them, in ascending order.
   */
  lemma ChangeListOrder(stored: BestPaths, latest: BestPaths, tolerance: nat, order: seq<CurrencyPair>)
    returns (at: seq<nat>)
    requires Enumerates(order, stored.Keys)
    ensures var changes, k := ChangeList(stored, latest, tolerance, order), |at|;
            && k <= |changes| && FollowOrder(changes[..k], order, at)
            && (forall a :: 0 <= a < |changes| ==> (changes[a].pair in stored <==> a < k))
            && (forall a, b :: k <= a < b < |changes| ==> PairsAscend(changes[a].pair, changes[b].pair))
  {
    hide Updates, Additions, Outdated, CurrencyPairLe;
    at := UpdatesAt(stored, latest, tolerance, order);
    var later := AdditionsAt(stored, latest, LatestOrder(latest));
    UpdatesMembers(stored, latest, tolerance, order);
    AdditionsMembers(stored, latest, LatestOrder(latest));
    var xs, ys := Updates(stored, latest, tolerance, order), Additions(stored, latest, LatestOrder(latest));
    assert (xs + ys)[..|xs|] == xs;
    assert forall a :: 0 <= a < |xs| ==> xs[a] in xs;
    assert forall a :: 0 <= a < |ys| ==> ys[a] in ys;
    forall a, b | 0 <= a < b < |ys| ensures PairsAscend(ys[a].pair, ys[b].pair) {
      PairsAscendIff(ys[a].pair, ys[b].pair);
    }
  }

  /** By source, then by target. */
  predicate PairsAscend(p: CurrencyPair, q: CurrencyPair) {
    if p.source == q.source then p.target != q.target && CurrencyLe(p.target, q.target)
    else CurrencyLe(p.source, q.source)
  }

  lemma PairsAscendIff(p: CurrencyPair, q: CurrencyPair)
    ensures PairsAscend(p, q) <==> p != q && CurrencyPairLe(p, q)
  {
    assert p == q <==> p.source == q.source && p.target == q.target;
  }

  /** The stored paths after a round: the new path where wanted, as before elsewhere. */
  ghost function Merged(stored: BestPaths, latest: BestPaths, tolerance: nat): BestPaths {
    map p | p in stored.Keys + latest.Keys :: if Wanted(stored, latest, tolerance, p) then latest[p] else stored[p]
  }

  /** Whatever the storage order, applying the change list gives the merged paths. */
  lemma ApplyingChangeList(stored: BestPaths, latest: BestPaths, tolerance: nat, order: seq<CurrencyPair>)
    requires Enumerates(order, stored.Keys)
    ensures ApplyChanges(stored, ChangeList(stored, latest, tolerance, order)) == Merged(stored, latest, tolerance)
  {
    hide ChangeList, Outdated;
    var changes := ChangeList(stored, latest, tolerance, order);
    ChangeListMembers(stored, latest, tolerance, order);
    ApplyDistinct(stored, changes);
    var m, n := ApplyChanges(stored, changes), Merged(stored, latest, tolerance);
    forall p ensures (p in m <==> p in n) && (p in m ==> m[p] == n[p]) {
      if Wanted(stored, latest, tolerance, p) {
        assert Change(p, Some(latest[p])) in changes;
      } else {
        assert !Names(changes, p);
      }
    }
  }

  /**
   The stored cost is up to date, or the latest cost is truly within tolerance of it, or the
   threshold lies beyond what 128 bits can express.
   */
  predicate Tolerated(cost: u128, latest: u128, tolerance: nat) {
    cost == latest || !TrulyBreaches(cost, latest, tolerance) || (tolerance + 1) * cost > U128_MAX
  }

  /** The stored path gives way: there is none, or its cost is truly and visibly out of tolerance. */
  predicate GivesWay(stored: BestPaths, latest: PricePath, tolerance: nat, p: CurrencyPair) {
    p in stored ==>
      && TrulyBreaches(stored[p].totalCost, latest.totalCost, tolerance)
      && (tolerance + 1) * stored[p].totalCost <= U128_MAX
  }

  lemma WantedIffGivesWay(stored: BestPaths, latest: BestPaths, tolerance: nat, p: CurrencyPair)
    requires !DividesByZero(stored, latest)
    ensures Wanted(stored, latest, tolerance, p) <==> p in latest && GivesWay(stored, latest[p], tolerance, p)
  {
    hide BreachesTolerance, TrulyBreaches;
    if p in latest && p in stored {
      BreachIsExactUpToSaturation(stored[p].totalCost, latest[p].totalCost, tolerance);
    }
  }

  lemma MergedKeepsTolerance(stored: BestPaths, latest: BestPaths, tolerance: nat)
    requires !DividesByZero(stored, latest)
    ensures var m := Merged(stored, latest, tolerance);
            && m.Keys == stored.Keys + latest.Keys
            && (forall p :: p in latest ==>
                  && m[p] == (if GivesWay(stored, latest[p], tolerance, p) then latest[p] else stored[p])
                  && Tolerated(m[p].totalCost, latest[p].totalCost, tolerance))
            && (forall p :: p in stored && p !in latest ==> m[p] == stored[p])
  {
    hide BreachesTolerance, TrulyBreaches, Wanted;
    var m := Merged(stored, latest, tolerance);
    forall p ensures Wanted(stored, latest, tolerance, p)
                     <==> p in latest && GivesWay(stored, latest[p], tolerance, p)
    {
      WantedIffGivesWay(stored, latest, tolerance, p);
    }
  }

  /**
   After a round every priced pair is stored: at its latest path exactly when it is new or
   truly out of tolerance below the bound of the test, otherwise at its older one. Every
   other stored pair is untouched, and none is removed.
   */
  lemma RoundKeepsTolerance(stored: BestPaths, latest: BestPaths, tolerance: nat, order: seq<CurrencyPair>)
    requires !DividesByZero(stored, latest) && Enumerates(order, stored.Keys)
    ensures var m := ApplyChanges(stored, ChangeList(stored, latest, tolerance, order));
            && m.Keys == stored.Keys + latest.Keys
            && (forall p :: p in latest ==>
                  && m[p] == (if GivesWay(stored, latest[p], tolerance, p) then latest[p] else stored[p])
                  && Tolerated(m[p].totalCost, latest[p].totalCost, tolerance))
            && (forall p :: p in stored && p !in latest ==> m[p] == stored[p])
  {
    ApplyingChangeList(stored, latest, tolerance, order);
    MergedKeepsTolerance(stored, latest, tolerance);
  }

  lemma NothingWantedTwice(stored: BestPaths, latest: BestPaths, tolerance: nat)
    ensures forall p :: !Wanted(Merged(stored, latest, tolerance), latest, tolerance, p)
  {
  }

  lemma ZerosAreNew(stored: BestPaths, latest: BestPaths, tolerance: nat)
    requires !DividesByZero(stored, latest)
    ensures DividesByZero(Merged(stored, latest, tolerance), latest)
            <==> exists p :: Wanted(stored, latest, tolerance, p) && latest[p].totalCost == 0
  {
    var m := Merged(stored, latest, tolerance);
    if p :| Wanted(stored, latest, tolerance, p) && latest[p].totalCost == 0 {
      assert p in m && m[p].totalCost == 0;
    }
  }

  /**
   A second round with the same prices changes nothing; it gets to the end if and only if the
   first one stored no cost of zero.
   */
  lemma SecondRoundIsSilent(stored: BestPaths, latest: BestPaths, tolerance: nat,
                            order: seq<CurrencyPair>, order': seq<CurrencyPair>)
    requires !DividesByZero(stored, latest) && Enumerates(order, stored.Keys)
    requires Enumerates(order', ApplyChanges(stored, ChangeList(stored, latest, tolerance, order)).Keys)
    ensures var m := ApplyChanges(stored, ChangeList(stored, latest, tolerance, order));
            && ChangeList(m, latest, tolerance, order') == []
            && (DividesByZero(m, latest)
                <==> exists p :: Wanted(stored, latest, tolerance, p) && latest[p].totalCost == 0)
  {
    hide Merged, ChangeList, Wanted;
    var m := Merged(stored, latest, tolerance);
    ApplyingChangeList(stored, latest, tolerance, order);
    var changes := ChangeList(m, latest, tolerance, order');
    assert changes != [] ==> changes[0] in changes;
    ChangeListMembers(m, latest, tolerance, order');
    NothingWantedTwice(stored, latest, tolerance);
    ZerosAreNew(stored, latest, tolerance);
  }
}
