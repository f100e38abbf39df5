/**
 One edge per (source, target): `unique_cheapest_edges`.

 The original replaces the remembered edge when comparing it with the newcomer gives
 `ordering`. So `Greater` keeps the smallest cost of a group and `Less` keeps the largest,
 whatever the name of the function suggests.
 */
module Dedup {
  import opened Ordered
  import opened Graph

  datatype Ordering = Less | Equal | Greater

  function Compare(x: real, y: real): Ordering {
    if x < y then Less else if x > y then Greater else Equal
  }

  predicate PairLe(p: Pair, q: Pair) {
    p.source < q.source || (p.source == q.source && p.target <= q.target)
  }

  lemma PairLessIff(p: Pair, q: Pair)
    ensures PairLess(p, q) <==> p != q && PairLe(p, q)
  {
    assert p == q <==> p.source == q.source && p.target == q.target;
  }

  lemma PairLeIsTotal()
    ensures TotalOrder(PairLe)
  {
  }

  function PairsOf(g: seq<Edge>): set<Pair> {
    set e | e in g :: e.pair
  }

  ghost predicate DistinctPairs(g: seq<Edge>) {
    forall a, b :: 0 <= a < b < |g| ==> g[a].pair != g[b].pair
  }

  /** By source, then by target. */
  predicate PairLess(p: Pair, q: Pair) {
    if p.source == q.source then p.target < q.target else p.source < q.source
  }

  ghost predicate AscendingPairs(g: seq<Edge>) {
    forall a, b :: 0 <= a < b < |g| ==> PairLess(g[a].pair, g[b].pair)
  }

  /** No two parallel edges disagree on their cost. */
  ghost predicate ParallelEdgesAgree(g: seq<Edge>) {
    forall e, f :: e in g && f in g && e.pair == f.pair ==> e.cost == f.cost
  }

  lemma PairsOfLast(g: seq<Edge>)
    requires g != []
    ensures PairsOf(g) == PairsOf(g[..|g| - 1]) + {g[|g| - 1].pair}
  {
    var front, last := g[..|g| - 1], g[|g| - 1];
    assert g == front + [last];
    assert last in g;
    forall p | p in PairsOf(front) + {last.pair} ensures p in PairsOf(g) {
      if p in PairsOf(front) {
        var e :| e in front && e.pair == p;
        assert e in g;
      }
    }
  }

  /** The edge remembered for `p` once all of `g` has been seen. */
  function Kept(g: seq<Edge>, p: Pair, ordering: Ordering): Edge
    requires p in PairsOf(g)
  {
    PairsOfLast(g);
    var front, last := g[..|g| - 1], g[|g| - 1];
    if p !in PairsOf(front) then last
    else
      var prior := Kept(front, p, ordering);
      if last.pair == p && Compare(prior.cost, last.cost) == ordering then last else prior
  }

  /** The map of remembered edges after all of `g` has been seen. */
  function KeptMap(g: seq<Edge>, ordering: Ordering): map<Pair, Edge> {
    map p | p in PairsOf(g) :: Kept(g, p, ordering)
  }

  /** `BTreeMap::values`, collected. */
  function ValuesInKeyOrder(m: map<Pair, Edge>): seq<Edge> {
    PairLeIsTotal();
    var ps := SortedSeq(m.Keys, PairLe);
    seq(|ps|, n requires 0 <= n < |ps| => assert ps[n] in ps; m[ps[n]])
  }

  /** The remembered edges in the order of their pairs. */
  function UniqueEdges(g: seq<Edge>, ordering: Ordering): seq<Edge> {
    ValuesInKeyOrder(KeptMap(g, ordering))
  }

  /** `Less` makes the largest cost the extreme one, any other ordering the smallest. */
  predicate AtLeastAsExtreme(x: real, y: real, ordering: Ordering) {
    if ordering == Less then x >= y else x <= y
  }

  /** `g[n]` is the first edge of its pair to attain the extreme cost of that pair. */
  ghost predicate FirstExtreme(g: seq<Edge>, n: nat, ordering: Ordering)
    requires n < |g|
  {
    && (forall m :: 0 <= m < |g| && g[m].pair == g[n].pair ==> AtLeastAsExtreme(g[n].cost, g[m].cost, ordering))
    && (forall m :: 0 <= m < n && g[m].pair == g[n].pair ==> g[m].cost != g[n].cost)
  }

  lemma {:induction false} KeptIsFirstExtreme(g: seq<Edge>, p: Pair, ordering: Ordering) returns (n: nat)
    requires p in PairsOf(g) && ordering != Equal
    ensures n < |g| && g[n] == Kept(g, p, ordering) && g[n].pair == p
    ensures FirstExtreme(g, n, ordering)
  {
    PairsOfLast(g);
    var front, last := g[..|g| - 1], g[|g| - 1];
    if p !in PairsOf(front) {
      n := |g| - 1;
      forall m | 0 <= m < n ensures g[m].pair != p {
        assert front[m] in front;
      }
    } else {
      n := KeptIsFirstExtreme(front, p, ordering);
      assert forall m :: 0 <= m < |front| ==> g[m] == front[m];
      if last.pair == p && Compare(front[n].cost, last.cost) == ordering {
        n := |g| - 1;
      }
    }
  }

  lemma UniqueEdgesAt(g: seq<Edge>, ordering: Ordering, n: nat)
    requires TotalOrder(PairLe) && n < |PairsOf(g)| && ordering != Equal
    ensures |UniqueEdges(g, ordering)| == |PairsOf(g)|
    ensures var p, e := SortedSeq(PairsOf(g), PairLe)[n], UniqueEdges(g, ordering)[n];
            p in PairsOf(g) && e == Kept(g, p, ordering) && e.pair == p && e in g
  {
    var ps := SortedSeq(PairsOf(g), PairLe);
    assert ps[n] in ps;
    assert KeptMap(g, ordering).Keys == PairsOf(g);
    var m := KeptIsFirstExtreme(g, ps[n], ordering);
  }

  lemma UniqueEdgesCount(g: seq<Edge>, ordering: Ordering)
    requires TotalOrder(PairLe)
    ensures |UniqueEdges(g, ordering)| == |PairsOf(g)|
  {
    assert KeptMap(g, ordering).Keys == PairsOf(g);
  }

  lemma UniqueEdgesAscend(g: seq<Edge>, ordering: Ordering)
    requires TotalOrder(PairLe) && ordering != Equal
    ensures AscendingPairs(UniqueEdges(g, ordering))
  {
    hide UniqueEdges, Kept, PairsOf, PairLe, TotalOrder;
    var ps, d := SortedSeq(PairsOf(g), PairLe), UniqueEdges(g, ordering);
    UniqueEdgesCount(g, ordering);
    forall a, b | 0 <= a < b < |d| ensures PairLess(d[a].pair, d[b].pair) {
      UniqueEdgesAt(g, ordering, a);
      UniqueEdgesAt(g, ordering, b);
      assert ps[a] != ps[b] && PairLe(ps[a], ps[b]);
      PairLessIff(ps[a], ps[b]);
    }
  }

  lemma KeptIsUniqueEdge(g: seq<Edge>, ordering: Ordering, e: Edge)
    requires TotalOrder(PairLe) && ordering != Equal && e in g
    ensures Kept(g, e.pair, ordering) in UniqueEdges(g, ordering)
  {
    hide UniqueEdges, Kept, Ascending;
    var ps := SortedSeq(PairsOf(g), PairLe);
    assert e.pair in ps;
    var n :| 0 <= n < |ps| && ps[n] == e.pair;
    UniqueEdgesAt(g, ordering, n);
  }

  lemma UniqueEdgeIsKept(g: seq<Edge>, ordering: Ordering, e: Edge)
    requires TotalOrder(PairLe) && ordering != Equal && e in UniqueEdges(g, ordering)
    ensures e in g && e == Kept(g, e.pair, ordering)
  {
    hide UniqueEdges, Kept, PairsOf;
    UniqueEdgesCount(g, ordering);
    var n :| 0 <= n < |UniqueEdges(g, ordering)| && UniqueEdges(g, ordering)[n] == e;
    UniqueEdgesAt(g, ordering, n);
  }

  /** Exactly one edge per pair of the input, taken from the input, in ascending order. */
  lemma UniqueEdgesFacts(g: seq<Edge>, ordering: Ordering)
    requires ordering != Equal
    ensures AscendingPairs(UniqueEdges(g, ordering)) && DistinctPairs(UniqueEdges(g, ordering))
    ensures forall e :: e in UniqueEdges(g, ordering) ==> e in g && e == Kept(g, e.pair, ordering)
    ensures forall e :: e in g ==> Kept(g, e.pair, ordering) in UniqueEdges(g, ordering)
  {
    PairLeIsTotal();
    hide UniqueEdges, Kept, TotalOrder;
    UniqueEdgesAscend(g, ordering);
    forall e | e in UniqueEdges(g, ordering) ensures e in g && e == Kept(g, e.pair, ordering) {
      UniqueEdgeIsKept(g, ordering, e);
    }
    forall e | e in g ensures Kept(g, e.pair, ordering) in UniqueEdges(g, ordering) {
      KeptIsUniqueEdge(g, ordering, e);
    }
  }

  /** The order of edges in the original: by pair, then provider, then cost. */
  predicate EdgeLe(e: Edge, f: Edge) {
    if e.pair != f.pair then PairLe(e.pair, f.pair)
    else if e.provider != f.provider then e.provider <= f.provider
    else e.cost <= f.cost
  }

  lemma EdgeLeIsTotal()
    ensures TotalOrder(EdgeLe)
  {
    forall e, f | EdgeLe(e, f) && EdgeLe(f, e) ensures e == f {
      assert e.pair.source == f.pair.source && e.pair.target == f.pair.target;
    }
  }

  /** Deduplicating an ascending list without parallel edges changes nothing. */
  lemma UniqueEdgesIdempotent(g: seq<Edge>, ordering: Ordering)
    requires AscendingPairs(g) && ordering != Equal
    ensures UniqueEdges(g, ordering) == g
  {
    hide UniqueEdges, Kept, TotalOrder;
    var d := UniqueEdges(g, ordering);
    UniqueEdgesFacts(g, ordering);
    forall e | e in g ensures e in d {
      var n := KeptIsFirstExtreme(g, e.pair, ordering);
      var m :| 0 <= m < |g| && g[m] == e;
      assert n == m;
    }
    AscendingEdges(g);
    AscendingEdges(d);
    EdgeLeIsTotal();
    AscendingUnique(g, d, EdgeLe);
  }

  lemma AscendingEdges(g: seq<Edge>)
    requires AscendingPairs(g)
    ensures Ascending(g, EdgeLe)
  {
    forall a, b | 0 <= a < b < |g| ensures g[a] != g[b] && EdgeLe(g[a], g[b]) {
      PairLessIff(g[a].pair, g[b].pair);
    }
  }

  /**
   With `Greater` the kept rate is the best one of every group of parallel edges exactly
   when no group offers two different rates.
   */
  lemma KeepsBestIffParallelAgree(g: seq<Edge>)
    ensures (forall e :: e in g ==> e.cost <= Kept(g, e.pair, Greater).cost) <==> ParallelEdgesAgree(g)
  {
    forall e | e in g
      ensures Kept(g, e.pair, Greater) in g && Kept(g, e.pair, Greater).pair == e.pair
      ensures Kept(g, e.pair, Greater).cost <= e.cost
    {
      var n := KeptIsFirstExtreme(g, e.pair, Greater);
      var m :| 0 <= m < |g| && g[m] == e;
      assert AtLeastAsExtreme(g[n].cost, g[m].cost, Greater);
    }
    if forall e :: e in g ==> e.cost <= Kept(g, e.pair, Greater).cost {
      forall e, f | e in g && f in g && e.pair == f.pair ensures e.cost == f.cost {
        assert e.cost == Kept(g, e.pair, Greater).cost == f.cost;
      }
    }
  }

  lemma KeptMapStep(g: seq<Edge>, n: nat, ordering: Ordering)
    requires n < |g|
    ensures var m := KeptMap(g[..n], ordering);
            var e := g[n];
            KeptMap(g[..n + 1], ordering) ==
            if e.pair in m && Compare(m[e.pair].cost, e.cost) != ordering then m else m[e.pair := e]
  {
    assert g[..n + 1][..n] == g[..n];
    PairsOfLast(g[..n + 1]);
  }

  /** `unique_cheapest_edges`. */
  method UniqueCheapestEdges(edges: seq<Edge>, ordering: Ordering) returns (r: seq<Edge>)
    ensures r == UniqueEdges(edges, ordering)
  {
    var edgesByPair: map<Pair, Edge> := map[];
    for n := 0 to |edges|
      invariant edgesByPair == KeptMap(edges[..n], ordering)
    {
      var e := edges[n];
      KeptMapStep(edges, n, ordering);
      if e.pair in edgesByPair {
        if Compare(edgesByPair[e.pair].cost, e.cost) == ordering {
          edgesByPair := edgesByPair[e.pair := e];
        }
      } else {
        edgesByPair := edgesByPair[e.pair := e];
      }
    }
    assert edges[..|edges|] == edges;
    r := ValuesInKeyOrder(edgesByPair);
  }
}
