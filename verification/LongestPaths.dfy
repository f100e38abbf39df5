/**
 Best products by way of shortest sums: `longest_paths_mult`.

 The base-2 logarithm is a parameter `lg`; what is needed of it is `Logarithm.LogOn`.
 */
module LongestPaths {
  import opened Wrappers
  import opened Graph
  import opened Dedup
  import opened FloydWarshall
  import opened Logarithm

  /** The product of the weights along a walk, multiplied up from the first edge to the last. */
  function Product(w: seq<Edge>): real {
    if w == [] then 1.0 else Product(w[..|w| - 1]) * w[|w| - 1].cost
  }

  /** Going round some closed walk multiplies an amount by more than one. */
  ghost predicate HasGainfulCycle(g: seq<Edge>) {
    exists w, i :: IsWalk(g, w, i, i) && Product(w) > 1.0
  }

  ghost predicate WeightsOk(g: seq<Edge>, ok: real -> bool) {
    forall e :: e in g ==> ok(e.cost)
  }

  // ---------- Weights to logarithms and back ----------

  function LogEdge(lg: real -> real, e: Edge): Edge {
    e.(cost := -lg(e.cost))
  }

  function LogEdges(lg: real -> real, w: seq<Edge>): (r: seq<Edge>) {
    seq(|w|, n requires 0 <= n < |w| => LogEdge(lg, w[n]))
  }

  type WeightMap = map<(Pair, nat), real>

  /** The original weights by pair and provider; a later edge replaces an earlier one. */
  function Weights(g: seq<Edge>): WeightMap {
    if g == [] then map[]
    else
      var last := g[|g| - 1];
      Weights(g[..|g| - 1])[(last.pair, last.provider) := last.cost]
  }

  ghost predicate Recoverable(wm: WeightMap, w: seq<Edge>) {
    forall e :: e in w ==> (e.pair, e.provider) in wm
  }

  function Recover(wm: WeightMap, w: seq<Edge>): seq<Edge>
    requires Recoverable(wm, w)
  {
    seq(|w|, n requires 0 <= n < |w| => assert w[n] in w; w[n].(cost := wm[(w[n].pair, w[n].provider)]))
  }

  /** `shortest_paths`. */
  function ShortestPaths(edges: seq<Edge>): Result<Matrix, PathCalculationError> {
    Textbook(UniqueEdges(edges, Less))
  }

  /**
   For every edge list: `shortest_paths` fails exactly on a negative cycle of the kept edges,
   and otherwise no walk over kept edges is cheaper than the entry of its ends.
   */
  lemma ShortestPathsOverKeptEdges(edges: seq<Edge>, w: seq<Edge>, i: nat, j: nat)
    ensures var d, r := UniqueEdges(edges, Less), ShortestPaths(edges);
            && (r.Failure? <==> HasNegativeCycle(d))
            && (r.Success? && IsWalk(d, w, i, j) && w != [] ==>
                  Pair(i, j) in r.value && r.value[Pair(i, j)].totalCost <= Cost(w))
  {
    var d := UniqueEdges(edges, Less);
    hide UniqueEdges, Textbook, IsWalk, HasNegativeCycle;
    UniqueEdgesFacts(edges, Less);
    NegativeCycleDetectionIsExact(d);
    if ShortestPaths(edges).Success? && IsWalk(d, w, i, j) && w != [] {
      ShortestPathsAreOptimal(d, w, i, j);
    }
  }

  lemma {:induction false} WeightsEntries(g: seq<Edge>)
    requires DistinctPairs(g)
    ensures forall e :: e in g ==> (e.pair, e.provider) in Weights(g) && Weights(g)[(e.pair, e.provider)] == e.cost
  {
    if g != [] {
      var front, last := g[..|g| - 1], g[|g| - 1];
      WeightsEntries(front);
      assert g == front + [last];
    }
  }

  /** The second deduplication, inside `shortest_paths`, has nothing left to do. */
  lemma SecondDedupIsIdentity(edges: seq<Edge>, lg: real -> real)
    ensures var d := UniqueEdges(edges, Greater);
            && UniqueEdges(LogEdges(lg, d), Less) == LogEdges(lg, d)
            && DistinctPairs(LogEdges(lg, d))
            && ShortestPaths(LogEdges(lg, d)) == Textbook(LogEdges(lg, d))
  {
    UniqueEdgesFacts(edges, Greater);
    UniqueEdgesIdempotent(LogEdges(lg, UniqueEdges(edges, Greater)), Less);
  }

  /** Replacing the costs of a logarithmic walk by the remembered weights gives the original walk. */
  lemma {:induction false} RecoverWalk(d: seq<Edge>, lg: real -> real, w: seq<Edge>, i: nat, j: nat)
    requires DistinctPairs(d)
    requires IsWalk(LogEdges(lg, d), w, i, j)
    ensures Recoverable(Weights(d), w)
    ensures IsWalk(d, Recover(Weights(d), w), i, j)
    ensures LogEdges(lg, Recover(Weights(d), w)) == w
  {
    WeightsEntries(d);
    if w != [] {
      var n :| 0 <= n < |d| && LogEdges(lg, d)[n] == w[0];
      assert d[n] in d;
      RecoverWalk(d, lg, w[1..], w[0].pair.target, j);
      assert w == [w[0]] + w[1..];
      var r := Recover(Weights(d), w);
      assert r[0] == d[n];
      assert r[1..] == Recover(Weights(d), w[1..]);
      assert LogEdges(lg, r) == [LogEdge(lg, r[0])] + LogEdges(lg, r[1..]);
    }
  }

  lemma {:induction false} LogWalk(d: seq<Edge>, lg: real -> real, w: seq<Edge>, i: nat, j: nat)
    requires IsWalk(d, w, i, j)
    ensures IsWalk(LogEdges(lg, d), LogEdges(lg, w), i, j)
  {
    if w != [] {
      var n :| 0 <= n < |d| && d[n] == w[0];
      assert LogEdges(lg, d)[n] == LogEdge(lg, w[0]);
      LogWalk(d, lg, w[1..], w[0].pair.target, j);
      assert LogEdges(lg, w)[1..] == LogEdges(lg, w[1..]);
    }
  }

  /** The cost of the logarithmic walk is the negated logarithm of the product. */
  lemma {:induction false} CostIsLogOfProduct(lg: real -> real, ok: real -> bool, w: seq<Edge>)
    requires LogOn(lg, ok) && WeightsOk(w, ok)
    ensures ok(Product(w)) && Cost(LogEdges(lg, w)) == -lg(Product(w))
  {
    hide LogOn;
    LogOfOne(lg, ok);
    if w != [] {
      var front, last := w[..|w| - 1], w[|w| - 1];
      assert last in w;
      CostIsLogOfProduct(lg, ok, front);
      LogOfProduct(lg, ok, Product(front), last.cost, Product(w));
      assert LogEdges(lg, w) == LogEdges(lg, front) + [LogEdge(lg, last)];
      CostConcat(LogEdges(lg, front), [LogEdge(lg, last)]);
      assert Cost([LogEdge(lg, last)]) == -lg(last.cost) + Cost([]) by {
        assert [LogEdge(lg, last)][1..] == [];
      }
    }
  }

  lemma CheaperMeansBiggerProduct(lg: real -> real, ok: real -> bool, w: seq<Edge>, v: seq<Edge>)
    requires LogOn(lg, ok) && WeightsOk(w, ok) && WeightsOk(v, ok)
    ensures Cost(LogEdges(lg, w)) <= Cost(LogEdges(lg, v)) <==> Product(w) >= Product(v)
  {
    hide LogOn;
    CostIsLogOfProduct(lg, ok, w);
    CostIsLogOfProduct(lg, ok, v);
    LogKeepsOrder(lg, ok, Product(v), Product(w));
  }

  // ---------- longest_paths_mult ----------

  lemma EntriesAreRecoverable(edges: seq<Edge>, lg: real -> real, p: Pair)
    requires ShortestPaths(LogEdges(lg, UniqueEdges(edges, Greater))).Success?
    requires p in ShortestPaths(LogEdges(lg, UniqueEdges(edges, Greater))).value
    ensures var d := UniqueEdges(edges, Greater);
            Recoverable(Weights(d), ShortestPaths(LogEdges(lg, d)).value[p].edges)
  {
    var d := UniqueEdges(edges, Greater);
    SecondDedupIsIdentity(edges, lg);
    UniqueEdgesFacts(edges, Greater);
    ShortestPathsAreWalks(LogEdges(lg, d), p);
    RecoverWalk(d, lg, ShortestPaths(LogEdges(lg, d)).value[p].edges, p.source, p.target);
  }

  function WithOriginalWeights(wm: WeightMap, path: Path): Path
    requires Recoverable(wm, path.edges)
  {
    var edges := Recover(wm, path.edges);
    Path(Product(edges), edges)
  }

  /** `longest_paths_mult`; every lookup in the weight map is defined. */
  function LongestPathsMult(edges: seq<Edge>, lg: real -> real): Result<Matrix, PathCalculationError> {
    var d := UniqueEdges(edges, Greater);
    var wm := Weights(d);
    match ShortestPaths(LogEdges(lg, d))
    case Failure(e) => Failure(e)
    case Success(m) =>
      Success(map p | p in m :: (EntriesAreRecoverable(edges, lg, p); WithOriginalWeights(wm, m[p])))
  }

  /** Every entry is a walk over kept edges with their own weights, and states their product. */
  lemma LongestPathsAreWalks(edges: seq<Edge>, lg: real -> real, p: Pair)
    requires LongestPathsMult(edges, lg).Success?
    ensures var m, d := LongestPathsMult(edges, lg).value, UniqueEdges(edges, Greater);
            && (p in m ==> IsWalk(d, m[p].edges, p.source, p.target) && m[p].totalCost == Product(m[p].edges))
            && (p in m <==> p.source in VertexSet(d) && exists w :: IsWalk(d, w, p.source, p.target))
  {
    hide UniqueEdges, Textbook, VertexSet, DistinctPairs, Recover, LogEdges, Weights;
    var d := UniqueEdges(edges, Greater);
    var l := LogEdges(lg, d);
    SecondDedupIsIdentity(edges, lg);
    UniqueEdgesFacts(edges, Greater);
    ShortestPathsAreWalks(l, p);
    LogEdgesVertices(lg, d);
    var m := Textbook(l).value;
    if p in m {
      RecoverWalk(d, lg, m[p].edges, p.source, p.target);
    }
    if w :| IsWalk(d, w, p.source, p.target) {
      LogWalk(d, lg, w, p.source, p.target);
      assert exists v :: IsWalk(l, v, p.source, p.target);
    }
    assert LongestPathsMult(edges, lg).value.Keys == m.Keys;
    assert p in m ==> exists w :: IsWalk(d, w, p.source, p.target);
  }

  lemma LogEdgesVertices(lg: real -> real, d: seq<Edge>)
    ensures VertexSet(LogEdges(lg, d)) == VertexSet(d)
  {
    var l := LogEdges(lg, d);
    forall e | e in d ensures e.pair.source in VertexSet(l) && e.pair.target in VertexSet(l) {
      var n :| 0 <= n < |d| && d[n] == e;
      assert l[n] in l;
    }
  }

  lemma WalkWeightsOk(d: seq<Edge>, w: seq<Edge>, i: nat, j: nat, ok: real -> bool)
    requires WeightsOk(d, ok) && IsWalk(d, w, i, j)
    ensures WeightsOk(w, ok)
  {
    WalkEnd(d, w, i, j);
  }

  lemma KeptWeightsOk(edges: seq<Edge>, ok: real -> bool)
    requires WeightsOk(edges, ok)
    ensures WeightsOk(UniqueEdges(edges, Greater), ok)
  {
    UniqueEdgesFacts(edges, Greater);
  }

  /** No non-empty walk over the kept edges has a product above the entry of its ends. */
  lemma LongestPathsAreOptimal(edges: seq<Edge>, lg: real -> real, ok: real -> bool,
                               w: seq<Edge>, i: nat, j: nat)
    requires LogOn(lg, ok) && WeightsOk(edges, ok)
    requires LongestPathsMult(edges, lg).Success?
    requires IsWalk(UniqueEdges(edges, Greater), w, i, j) && w != []
    ensures var m := LongestPathsMult(edges, lg).value;
            Pair(i, j) in m && Product(w) <= m[Pair(i, j)].totalCost
  {
    var d := UniqueEdges(edges, Greater);
    var l := LogEdges(lg, d);
    SecondDedupIsIdentity(edges, lg);
    UniqueEdgesFacts(edges, Greater);
    LogWalk(d, lg, w, i, j);
    ShortestPathsAreOptimal(l, LogEdges(lg, w), i, j);
    var best := Textbook(l).value[Pair(i, j)].edges;
    ShortestPathsAreWalks(l, Pair(i, j));
    RecoverWalk(d, lg, best, i, j);
    KeptWeightsOk(edges, ok);
    WalkWeightsOk(d, w, i, j, ok);
    WalkWeightsOk(d, Recover(Weights(d), best), i, j, ok);
    CheaperMeansBiggerProduct(lg, ok, Recover(Weights(d), best), w);
  }

  /** The calculation fails if and only if some closed walk over the kept edges gains. */
  lemma FailsIffGainfulCycle(edges: seq<Edge>, lg: real -> real, ok: real -> bool)
    requires LogOn(lg, ok) && WeightsOk(edges, ok)
    ensures LongestPathsMult(edges, lg).Failure? <==> HasGainfulCycle(UniqueEdges(edges, Greater))
  {
    var d := UniqueEdges(edges, Greater);
    var l := LogEdges(lg, d);
    SecondDedupIsIdentity(edges, lg);
    UniqueEdgesFacts(edges, Greater);
    NegativeCycleDetectionIsExact(l);
    KeptWeightsOk(edges, ok);
    assert LogEdges(lg, []) == [];
    if w, i :| IsWalk(d, w, i, i) && Product(w) > 1.0 {
      LogWalk(d, lg, w, i, i);
      WalkWeightsOk(d, w, i, i, ok);
      CheaperMeansBiggerProduct(lg, ok, [], w);
      assert Cost(LogEdges(lg, w)) < 0.0;
    }
    if w, i :| IsWalk(l, w, i, i) && Cost(w) < 0.0 {
      RecoverWalk(d, lg, w, i, i);
      var r := Recover(Weights(d), w);
      WalkWeightsOk(d, r, i, i, ok);
      CheaperMeansBiggerProduct(lg, ok, [], r);
      assert Product(r) > 1.0;
    }
  }

  /** Stored paths repeat no vertex. */
  lemma LongestPathsAreSimple(edges: seq<Edge>, lg: real -> real, p: Pair)
    requires LongestPathsMult(edges, lg).Success? && p in LongestPathsMult(edges, lg).value
    ensures Simple(LongestPathsMult(edges, lg).value[p].edges, p.source)
  {
    hide UniqueEdges, Textbook, VertexSet, DistinctPairs, LogEdges, Weights;
    var d := UniqueEdges(edges, Greater);
    SecondDedupIsIdentity(edges, lg);
    ShortestPathsAreSimple(LogEdges(lg, d), p);
    var w := Textbook(LogEdges(lg, d)).value[p].edges;
    var r := LongestPathsMult(edges, lg).value[p].edges;
    EntriesAreRecoverable(edges, lg, p);
    assert forall n :: 0 <= n <= |w| ==> VertexAt(r, p.source, n) == VertexAt(w, p.source, n);
  }

  /** Among walks with the same product the one through the lower vertices is stored. */
  lemma LowestDetourIsKept(edges: seq<Edge>, lg: real -> real, ok: real -> bool, w: seq<Edge>, p: Pair, v: nat)
    requires LogOn(lg, ok) && WeightsOk(edges, ok) && LongestPathsMult(edges, lg).Success?
    requires IsWalk(UniqueEdges(edges, Greater), w, p.source, p.target) && w != []
    requires forall a :: 0 <= a < |w| - 1 ==> w[a].pair.target <= v
    ensures var m := LongestPathsMult(edges, lg).value;
            && p in m
            && (m[p].totalCost == Product(w) ==>
                  forall a :: 0 <= a < |m[p].edges| - 1 ==> m[p].edges[a].pair.target <= v)
  {
    hide UniqueEdges, Textbook, VertexSet, DistinctPairs, Weights, LogOn, IsWalk, Product, Cost;
    var d := UniqueEdges(edges, Greater);
    var l := LogEdges(lg, d);
    SecondDedupIsIdentity(edges, lg);
    UniqueEdgesFacts(edges, Greater);
    LogWalk(d, lg, w, p.source, p.target);
    LowestDetourIsStored(l, LogEdges(lg, w), p, v);
    ShortestPathsAreWalks(l, p);
    var best := Textbook(l).value[p].edges;
    RecoverWalk(d, lg, best, p.source, p.target);
    var r := Recover(Weights(d), best);
    KeptWeightsOk(edges, ok);
    WalkWeightsOk(d, w, p.source, p.target, ok);
    WalkWeightsOk(d, r, p.source, p.target, ok);
    CheaperMeansBiggerProduct(lg, ok, r, w);
    CheaperMeansBiggerProduct(lg, ok, w, r);
  }

  lemma LogEdgesSelfLoops(edges: seq<Edge>, lg: real -> real, v: nat)
    ensures HasSelfLoop(LogEdges(lg, UniqueEdges(edges, Greater)), v) <==> HasSelfLoop(edges, v)
  {
    hide UniqueEdges, Kept;
    var d := UniqueEdges(edges, Greater);
    var l := LogEdges(lg, d);
    UniqueEdgesFacts(edges, Greater);
    if e :| e in edges && e.pair == Pair(v, v) {
      KeptEdge(edges, e);
      var n :| 0 <= n < |d| && d[n] == Kept(edges, e.pair, Greater);
      assert l[n] in l && l[n].pair == Pair(v, v);
    }
    if e :| e in l && e.pair == Pair(v, v) {
      var n :| 0 <= n < |l| && l[n] == e;
      assert d[n] in edges && d[n].pair == Pair(v, v);
    }
  }

  /** Staying where one is keeps the amount if and only if no edge leads from the vertex to itself. */
  lemma DiagonalIsOneIff(edges: seq<Edge>, lg: real -> real, v: nat)
    requires LongestPathsMult(edges, lg).Success? && v in VertexSet(UniqueEdges(edges, Greater))
    ensures var m := LongestPathsMult(edges, lg).value;
            && Pair(v, v) in m
            && (m[Pair(v, v)] == Path(1.0, []) <==> !HasSelfLoop(edges, v))
            && (m[Pair(v, v)].edges != [] <==> HasSelfLoop(edges, v))
  {
    var d := UniqueEdges(edges, Greater);
    hide UniqueEdges, LogEdges, Textbook, VertexSet, DistinctPairs, Weights, Kept, HasSelfLoop;
    SecondDedupIsIdentity(edges, lg);
    LogEdgesVertices(lg, d);
    LogEdgesSelfLoops(edges, lg, v);
    DiagonalIsEmptyIff(LogEdges(lg, d), v);
    EntriesAreRecoverable(edges, lg, Pair(v, v));
  }

  /** `longest_paths_mult` as the original runs it, over the imperative parts. */
  method ComputeLongestPaths(edges: seq<Edge>, lg: real -> real) returns (r: Result<Matrix, PathCalculationError>)
    ensures r == LongestPathsMult(edges, lg)
  {
    var unique := UniqueCheapestEdges(edges, Greater);
    var weights := Weights(unique);
    SecondDedupIsIdentity(edges, lg);
    var cheapest := UniqueCheapestEdges(LogEdges(lg, unique), Less);
    var res := FloydWarshallShortestPaths(cheapest);
    match res {
      case Failure(e) => r := Failure(e);
      case Success(m) =>
        r := Success(map p | p in m :: (EntriesAreRecoverable(edges, lg, p); WithOriginalWeights(weights, m[p])));
    }
  }

  // ---------- From offered edges to kept edges ----------

  ghost function KeptEdges(g: seq<Edge>, w: seq<Edge>): seq<Edge>
    requires forall e :: e in w ==> e in g
  {
    seq(|w|, n requires 0 <= n < |w| => assert w[n] in g; Kept(g, w[n].pair, Greater))
  }

  lemma KeptEdge(g: seq<Edge>, e: Edge)
    requires e in g
    ensures var k := Kept(g, e.pair, Greater);
            && k in g && k in UniqueEdges(g, Greater) && k.pair == e.pair
            && (forall f :: f in g && f.pair == e.pair ==> k.cost <= f.cost)
  {
    UniqueEdgesFacts(g, Greater);
    var n := KeptIsFirstExtreme(g, e.pair, Greater);
    forall f | f in g && f.pair == e.pair ensures g[n].cost <= f.cost {
      var m :| 0 <= m < |g| && g[m] == f;
      assert Compare(g[n].cost, g[m].cost) != Greater;
    }
  }

  /** `e` offers the smallest rate of its pair. */
  ghost predicate IsSmallest(g: seq<Edge>, e: Edge) {
    forall f :: f in g && f.pair == e.pair ==> e.cost <= f.cost
  }

  /** Following the kept edges of the same pairs leads to the same place. */
  lemma {:induction false} KeptWalk(g: seq<Edge>, w: seq<Edge>, i: nat, j: nat)
    requires IsWalk(g, w, i, j)
    requires forall e :: e in w ==> e in g
    ensures IsWalk(UniqueEdges(g, Greater), KeptEdges(g, w), i, j)
  {
    hide UniqueEdges, Kept;
    if w != [] {
      KeptEdge(g, w[0]);
      KeptWalk(g, w[1..], w[0].pair.target, j);
      assert KeptEdges(g, w)[1..] == KeptEdges(g, w[1..]);
    }
  }

  lemma {:induction false} KeptProduct(g: seq<Edge>, w: seq<Edge>)
    requires forall e :: e in w ==> e in g && IsSmallest(g, e)
    ensures Product(KeptEdges(g, w)) == Product(w)
  {
    hide UniqueEdges, Kept;
    if w != [] {
      var front, last := w[..|w| - 1], w[|w| - 1];
      assert last in w;
      KeptEdge(g, last);
      KeptProduct(g, front);
      assert KeptEdges(g, w)[..|w| - 1] == KeptEdges(g, front);
    }
  }

  // ---------- Optimality over everything that was offered ----------

  lemma {:induction false} ProductConcat(a: seq<Edge>, b: seq<Edge>)
    ensures Product(a + b) == Product(a) * Product(b)
  {
    if b == [] {
      assert a + b == a;
    } else {
      var front := b[..|b| - 1];
      assert (a + b)[..|a + b| - 1] == a + front;
      ProductConcat(a, front);
      Reassociate(Product(a), Product(front), b[|b| - 1].cost);
    }
  }

  lemma Reassociate(x: real, y: real, z: real)
    ensures (x * y) * z == x * (y * z)
  {
  }

  lemma ScaleBoth(x: real, y: real, u: real, v: real)
    requires 0.0 < x <= u && 0.0 < y <= v
    ensures 0.0 < x * y <= u * v
  {
    assert x * y <= u * y;
    assert u * y <= u * v;
  }

  /** The result beats every walk over the offered edges, kept or not. */
  ghost predicate BeatsAllOffers(m: Matrix, edges: seq<Edge>) {
    forall w: seq<Edge>, i: nat, j: nat :: IsWalk(edges, w, i, j) && w != [] ==>
      Pair(i, j) in m && Product(w) <= m[Pair(i, j)].totalCost
  }

  /** The result beats every single offered edge. */
  ghost predicate BeatsEachOffer(m: Matrix, edges: seq<Edge>) {
    forall e :: e in edges ==> e.pair in m && e.cost <= m[e.pair].totalCost
  }

  lemma EmptyWalk(g: seq<Edge>, i: nat, j: nat)
    requires IsWalk(g, [], i, j)
    ensures i == j && Product([]) == 1.0
  {
  }

  /** Entries can be chained: the entry of the ends beats the product of the entries. */
  lemma EntriesChain(edges: seq<Edge>, lg: real -> real, ok: real -> bool, i: nat, x: nat, j: nat)
    requires LogOn(lg, ok) && WeightsOk(edges, ok) && LongestPathsMult(edges, lg).Success?
    requires var m := LongestPathsMult(edges, lg).value; Pair(i, x) in m && Pair(x, j) in m
    ensures var m := LongestPathsMult(edges, lg).value;
            Pair(i, j) in m && m[Pair(i, x)].totalCost * m[Pair(x, j)].totalCost <= m[Pair(i, j)].totalCost
  {
    hide LogOn, LongestPathsMult, UniqueEdges, IsWalk, Product, VertexSet;
    var m, d := LongestPathsMult(edges, lg).value, UniqueEdges(edges, Greater);
    var a, b := m[Pair(i, x)].edges, m[Pair(x, j)].edges;
    LongestPathsAreWalks(edges, lg, Pair(i, x));
    LongestPathsAreWalks(edges, lg, Pair(x, j));
    if b == [] {
      EmptyWalk(d, x, j);
    } else {
      WalkConcat(d, a, i, x, b, j);
      ProductConcat(a, b);
      LongestPathsAreOptimal(edges, lg, ok, a + b, i, j);
    }
  }

  lemma {:induction false} WalkPrefix(g: seq<Edge>, w: seq<Edge>, i: nat, j: nat)
    requires IsWalk(g, w, i, j) && w != []
    ensures var last := w[|w| - 1];
            last in g && last.pair.target == j && IsWalk(g, w[..|w| - 1], i, last.pair.source)
  {
    var n := |w| - 1;
    WalkSplit(g, w, i, j, n);
    assert w[n..] == [w[n]] && w[n..][1..] == [];
  }

  lemma {:induction false} BeatsWalk(edges: seq<Edge>, lg: real -> real, ok: real -> bool,
                                     w: seq<Edge>, i: nat, j: nat)
    requires LogOn(lg, ok) && WeightsOk(edges, ok) && LongestPathsMult(edges, lg).Success?
    requires BeatsEachOffer(LongestPathsMult(edges, lg).value, edges)
    requires IsWalk(edges, w, i, j) && w != []
    ensures var m := LongestPathsMult(edges, lg).value;
            Pair(i, j) in m && 0.0 < Product(w) <= m[Pair(i, j)].totalCost
  {
    hide LogOn, LongestPathsMult, IsWalk;
    var m := LongestPathsMult(edges, lg).value;
    var front, last := w[..|w| - 1], w[|w| - 1];
    WalkPrefix(edges, w, i, j);
    PositiveWeight(lg, ok, last.cost);
    assert last.pair == Pair(last.pair.source, j);
    if front == [] {
      assert Product(w) == 1.0 * last.cost;
    } else {
      BeatsWalk(edges, lg, ok, front, i, last.pair.source);
      ScaleBoth(Product(front), last.cost, m[Pair(i, last.pair.source)].totalCost, m[last.pair].totalCost);
      EntriesChain(edges, lg, ok, i, last.pair.source, j);
    }
  }

  lemma PositiveWeight(lg: real -> real, ok: real -> bool, x: real)
    requires LogOn(lg, ok) && ok(x)
    ensures x > 0.0
  {
  }

  /** The kept edges join the ends of `e` by a walk that does at least as well as `e`. */
  ghost predicate IsMatched(edges: seq<Edge>, e: Edge) {
    exists w :: IsWalk(UniqueEdges(edges, Greater), w, e.pair.source, e.pair.target) && w != [] && Product(w) >= e.cost
  }

  ghost predicate EveryOfferMatched(edges: seq<Edge>) {
    forall e :: e in edges ==> IsMatched(edges, e)
  }

  /** The entry for the ends of an offered edge has edges itself. */
  lemma OfferedEntryHasEdges(edges: seq<Edge>, lg: real -> real, e: Edge)
    requires LongestPathsMult(edges, lg).Success? && e in edges
    ensures var m, d := LongestPathsMult(edges, lg).value, UniqueEdges(edges, Greater);
            && e.pair in m && m[e.pair].edges != []
            && IsWalk(d, m[e.pair].edges, e.pair.source, e.pair.target)
            && m[e.pair].totalCost == Product(m[e.pair].edges)
  {
    hide LongestPathsMult, UniqueEdges, Kept;
    var d, k := UniqueEdges(edges, Greater), Kept(edges, e.pair, Greater);
    KeptEdge(edges, e);
    SingleEdge(d, k);
    EdgeVertices(d, k);
    assert IsWalk(d, [k], e.pair.source, e.pair.target) && e.pair.source in VertexSet(d);
    LongestPathsAreWalks(edges, lg, e.pair);
    assert e.pair in LongestPathsMult(edges, lg).value;
    if e.pair.source == e.pair.target {
      DiagonalIsOneIff(edges, lg, e.pair.source);
      assert e.pair == Pair(e.pair.source, e.pair.source);
      assert HasSelfLoop(edges, e.pair.source);
    }
  }

  lemma BeatsEachOfferIff(edges: seq<Edge>, lg: real -> real, ok: real -> bool)
    requires LogOn(lg, ok) && WeightsOk(edges, ok) && LongestPathsMult(edges, lg).Success?
    ensures BeatsEachOffer(LongestPathsMult(edges, lg).value, edges) <==> EveryOfferMatched(edges)
  {
    hide LogOn, LongestPathsMult, UniqueEdges, IsWalk, Product;
    var m, d := LongestPathsMult(edges, lg).value, UniqueEdges(edges, Greater);
    forall e | e in edges ensures e.pair in m && (e.cost <= m[e.pair].totalCost <==> IsMatched(edges, e)) {
      OfferedEntryHasEdges(edges, lg, e);
      if w :| IsWalk(d, w, e.pair.source, e.pair.target) && w != [] && Product(w) >= e.cost {
        LongestPathsAreOptimal(edges, lg, ok, w, e.pair.source, e.pair.target);
        assert Pair(e.pair.source, e.pair.target) == e.pair;
      }
    }
  }

  /**
   Only kept edges are searched. The result is optimal over everything that was offered if
   and only if the kept edges match every offer.
   */
  lemma OptimalOverOffersIff(edges: seq<Edge>, lg: real -> real, ok: real -> bool)
    requires LogOn(lg, ok) && WeightsOk(edges, ok) && LongestPathsMult(edges, lg).Success?
    ensures BeatsAllOffers(LongestPathsMult(edges, lg).value, edges) <==> EveryOfferMatched(edges)
  {
    hide LogOn, LongestPathsMult, EveryOfferMatched;
    var m := LongestPathsMult(edges, lg).value;
    BeatsEachOfferIff(edges, lg, ok);
    if BeatsEachOffer(m, edges) {
      forall w: seq<Edge>, i: nat, j: nat | IsWalk(edges, w, i, j) && w != []
        ensures Pair(i, j) in m && Product(w) <= m[Pair(i, j)].totalCost
      {
        BeatsWalk(edges, lg, ok, w, i, j);
      }
    }
    if BeatsAllOffers(m, edges) {
      forall e | e in edges ensures e.pair in m && e.cost <= m[e.pair].totalCost {
        SingleEdge(edges, e);
        assert Product([e]) == 1.0 * e.cost;
        assert Pair(e.pair.source, e.pair.target) == e.pair;
      }
    }
  }

  /** When the kept edges match every offer, the calculation fails exactly on a gainful cycle of the input. */
  lemma FailsIffGainfulCycleOffered(edges: seq<Edge>, lg: real -> real, ok: real -> bool)
    requires LogOn(lg, ok) && WeightsOk(edges, ok) && EveryOfferMatched(edges)
    ensures LongestPathsMult(edges, lg).Failure? <==> HasGainfulCycle(edges)
  {
    hide LogOn, LongestPathsMult, UniqueEdges, EveryOfferMatched;
    var d := UniqueEdges(edges, Greater);
    FailsIffGainfulCycle(edges, lg, ok);
    UniqueEdgesFacts(edges, Greater);
    if w, i :| IsWalk(d, w, i, i) && Product(w) > 1.0 {
      WalkEnd(d, w, i, i);
      WalkMono(d, edges, w, i, i);
    }
    if LongestPathsMult(edges, lg).Success? {
      OptimalOverOffersIff(edges, lg, ok);
      forall w, i | IsWalk(edges, w, i, i) ensures Product(w) <= 1.0 {
        if w != [] {
          LongestPathsAreWalks(edges, lg, Pair(i, i));
        }
      }
    }
  }

  /** Agreeing parallel edges are matched, each by the kept edge of its pair. */
  lemma AgreeingEdgesAreMatched(edges: seq<Edge>)
    requires ParallelEdgesAgree(edges)
    ensures EveryOfferMatched(edges)
  {
    hide UniqueEdges, Kept;
    forall e | e in edges ensures IsMatched(edges, e) {
      var k := Kept(edges, e.pair, Greater);
      KeptEdge(edges, e);
      SingleEdge(UniqueEdges(edges, Greater), k);
      assert Product([k]) == 1.0 * k.cost;
    }
  }

  /** So no two parallel edges with different rates is enough for optimality over everything offered. */
  lemma OptimalWhenParallelEdgesAgree(edges: seq<Edge>, lg: real -> real, ok: real -> bool)
    requires LogOn(lg, ok) && WeightsOk(edges, ok) && LongestPathsMult(edges, lg).Success?
    requires ParallelEdgesAgree(edges)
    ensures BeatsAllOffers(LongestPathsMult(edges, lg).value, edges)
  {
    hide LogOn, LongestPathsMult, EveryOfferMatched, ParallelEdgesAgree;
    AgreeingEdgesAreMatched(edges);
    OptimalOverOffersIff(edges, lg, ok);
  }

  const WORSE_OFFER := Edge(Pair(0, 1), 0, 1.0)
  const BETTER_OFFER := Edge(Pair(0, 1), 1, 2.0)

  lemma OnlyWorseOfferIsWalked(w: seq<Edge>, i: nat, j: nat)
    requires IsWalk([WORSE_OFFER], w, i, j)
    ensures w == [] || (w == [WORSE_OFFER] && i == 0 && j == 1)
  {
    if w != [] {
      assert w == [w[0]] + w[1..];
      assert IsWalk([WORSE_OFFER], w[1..], 1, j);
      assert w[1..] == [];
    }
  }

  /** Two offers for the same pair: the worse one is kept and reported as the best path. */
  lemma WorseParallelOfferWins(lg: real -> real, ok: real -> bool)
    requires LogOn(lg, ok) && ok(2.0)
    ensures var r := LongestPathsMult([WORSE_OFFER, BETTER_OFFER], lg);
            && r.Success? && Pair(0, 1) in r.value && r.value[Pair(0, 1)].totalCost == 1.0
            && !BeatsAllOffers(r.value, [WORSE_OFFER, BETTER_OFFER])
  {
    hide LogOn, LongestPathsMult;
    var edges := [WORSE_OFFER, BETTER_OFFER];
    LogOfOne(lg, ok);
    var d := UniqueEdges(edges, Greater);
    KeepsWorseOffer();
    assert forall w, i :: IsWalk(d, w, i, i) ==> w == [] by {
      forall w, i | IsWalk(d, w, i, i) ensures w == [] { OnlyWorseOfferIsWalked(w, i, i); }
    }
    FailsIffGainfulCycle(edges, lg, ok);
    SingleEdge(d, WORSE_OFFER);
    LongestPathsAreOptimal(edges, lg, ok, [WORSE_OFFER], 0, 1);
    LongestPathsAreWalks(edges, lg, Pair(0, 1));
    var m := LongestPathsMult(edges, lg).value;
    OnlyWorseOfferIsWalked(m[Pair(0, 1)].edges, 0, 1);
    assert Product([WORSE_OFFER]) == 1.0 * 1.0;
    SingleEdge(edges, BETTER_OFFER);
    assert Product([BETTER_OFFER]) == 1.0 * 2.0;
  }

  lemma KeepsWorseOffer()
    ensures UniqueEdges([WORSE_OFFER, BETTER_OFFER], Greater) == [WORSE_OFFER]
  {
    hide UniqueEdges, Kept;
    var edges := [WORSE_OFFER, BETTER_OFFER];
    var d := UniqueEdges(edges, Greater);
    assert |d| > 1 ==> d[0] in d && d[1] in d;
    UniqueEdgesFacts(edges, Greater);
    assert WORSE_OFFER in edges;
    var n := KeptIsFirstExtreme(edges, Pair(0, 1), Greater);
    assert edges[0] == WORSE_OFFER && edges[1] == BETTER_OFFER;
    assert Kept(edges, Pair(0, 1), Greater) == WORSE_OFFER;
    assert forall e :: e in d ==> e == WORSE_OFFER;
  }
}
