/**
 `FloydWarshallCalculator`: from fetched prices to best price paths. Currencies and providers
 are numbered in ascending order, the engine runs on the numbers, and its result is named
 again. Prices are integers in units of 10^-12.
 */
module Calculator {
  import opened Wrappers
  import opened Ordered
  import opened Graph
  import opened Dedup
  import FloydWarshall
  import opened LongestPaths
  import opened Logarithm
  import opened Types

  const PRECISION: real := 1000000000000.0

  function Rate(price: u128): real {
    price as real / PRECISION
  }

  /** `(x * PRECISION) as u128`: truncates, and saturates at both ends. */
  function ToFixed(x: real): u128 {
    var y := x * PRECISION;
    if y <= 0.0 then 0 else if y >= U128_MAX as real then U128_MAX else y.Floor
  }

  lemma FixedOfRate(price: u128)
    ensures ToFixed(Rate(price)) == price
  {
    assert Rate(price) * PRECISION == price as real;
  }

  /** Below saturation the fixed-point value is the amount rounded down to a multiple of 10^-12. */
  lemma ToFixedRoundsDown(x: real)
    requires x >= 0.0
    ensures x * PRECISION < U128_MAX as real + 1.0 ==> ToFixed(x) as real <= x * PRECISION < ToFixed(x) as real + 1.0
    ensures x * PRECISION >= U128_MAX as real ==> ToFixed(x) == U128_MAX
  {
    assert x * PRECISION >= 0.0;
  }

  lemma ToFixedMonotone(x: real, y: real)
    requires x <= y
    ensures ToFixed(x) <= ToFixed(y)
  {
    assert x * PRECISION <= y * PRECISION;
  }

  // ---------- Numbering ----------

  function CurrencySet(quotes: seq<Quote>): set<Currency> {
    (set q | q in quotes :: q.providerPair.pair.source) + (set q | q in quotes :: q.providerPair.pair.target)
  }

  function ProviderSet(quotes: seq<Quote>): set<Provider> {
    set q | q in quotes :: q.providerPair.provider
  }

  function Currencies(quotes: seq<Quote>): (cs: seq<Currency>)
    ensures forall c :: c in cs <==> c in CurrencySet(quotes)
    ensures NoDuplicates(cs)
  {
    CurrencyLeIsTotalOrder();
    SortedSeq(CurrencySet(quotes), CurrencyLe)
  }

  function Providers(quotes: seq<Quote>): (ps: seq<Provider>)
    ensures forall p :: p in ps <==> p in ProviderSet(quotes)
    ensures NoDuplicates(ps)
  {
    ProviderLeIsTotalOrder();
    SortedSeq(ProviderSet(quotes), ProviderLe)
  }

  ghost predicate Numbered(cs: seq<Currency>, ps: seq<Provider>, q: Quote) {
    q.providerPair.pair.source in cs && q.providerPair.pair.target in cs && q.providerPair.provider in ps
  }

  function ToEdge(cs: seq<Currency>, ps: seq<Provider>, q: Quote): Edge
    requires Numbered(cs, ps, q)
  {
    Edge(Pair(IndexOf(cs, q.providerPair.pair.source), IndexOf(cs, q.providerPair.pair.target)),
         IndexOf(ps, q.providerPair.provider), Rate(q.price))
  }

  // ---------- The graph ----------

  ghost predicate AllNumbered(cs: seq<Currency>, ps: seq<Provider>, quotes: seq<Quote>) {
    forall q :: q in quotes ==> Numbered(cs, ps, q)
  }

  /** The edges of the quotes that start at `c`, in the order of the quotes. */
  function EdgesFrom(cs: seq<Currency>, ps: seq<Provider>, quotes: seq<Quote>, c: Currency): seq<Edge>
    requires AllNumbered(cs, ps, quotes)
  {
    if quotes == [] then []
    else
      var front, last := quotes[..|quotes| - 1], quotes[|quotes| - 1];
      assert quotes == front + [last];
      EdgesFrom(cs, ps, front, c) + (if c == last.providerPair.pair.source then [ToEdge(cs, ps, last)] else [])
  }

  function GroupedEdges(cs: seq<Currency>, ps: seq<Provider>, quotes: seq<Quote>, sources: seq<Currency>): seq<Edge>
    requires AllNumbered(cs, ps, quotes)
  {
    if sources == [] then []
    else
      GroupedEdges(cs, ps, quotes, sources[..|sources| - 1]) + EdgesFrom(cs, ps, quotes, sources[|sources| - 1])
  }

  lemma QuotesAreNumbered(quotes: seq<Quote>)
    ensures AllNumbered(Currencies(quotes), Providers(quotes), quotes)
  {
  }

  /** The graph handed to the engine: one edge per quote, grouped by source. */
  function PriceGraph(quotes: seq<Quote>): seq<Edge> {
    QuotesAreNumbered(quotes);
    GroupedEdges(Currencies(quotes), Providers(quotes), quotes, Currencies(quotes))
  }

  lemma {:induction false} EdgesFromHas(cs: seq<Currency>, ps: seq<Provider>, quotes: seq<Quote>, q: Quote)
    requires AllNumbered(cs, ps, quotes) && q in quotes
    ensures ToEdge(cs, ps, q) in EdgesFrom(cs, ps, quotes, q.providerPair.pair.source)
  {
    var front, last := quotes[..|quotes| - 1], quotes[|quotes| - 1];
    assert quotes == front + [last];
    if q in front { EdgesFromHas(cs, ps, front, q); }
  }

  lemma {:induction false} EdgesFromOnly(cs: seq<Currency>, ps: seq<Provider>, quotes: seq<Quote>, c: Currency, e: Edge)
    returns (q: Quote)
    requires AllNumbered(cs, ps, quotes) && e in EdgesFrom(cs, ps, quotes, c)
    ensures q in quotes && e == ToEdge(cs, ps, q)
  {
    var front, last := quotes[..|quotes| - 1], quotes[|quotes| - 1];
    assert quotes == front + [last];
    if e in EdgesFrom(cs, ps, front, c) {
      q := EdgesFromOnly(cs, ps, front, c, e);
    } else {
      q := last;
    }
  }

  lemma {:induction false} GroupedEdgesHas(cs: seq<Currency>, ps: seq<Provider>, quotes: seq<Quote>,
                                           sources: seq<Currency>, q: Quote)
    requires AllNumbered(cs, ps, quotes) && q in quotes && q.providerPair.pair.source in sources
    ensures ToEdge(cs, ps, q) in GroupedEdges(cs, ps, quotes, sources)
  {
    var front, last := sources[..|sources| - 1], sources[|sources| - 1];
    assert sources == front + [last];
    if q.providerPair.pair.source in front {
      GroupedEdgesHas(cs, ps, quotes, front, q);
    } else {
      EdgesFromHas(cs, ps, quotes, q);
    }
  }

  lemma {:induction false} GroupedEdgesOnly(cs: seq<Currency>, ps: seq<Provider>, quotes: seq<Quote>,
                                            sources: seq<Currency>, e: Edge)
    returns (q: Quote)
    requires AllNumbered(cs, ps, quotes) && e in GroupedEdges(cs, ps, quotes, sources)
    ensures q in quotes && e == ToEdge(cs, ps, q)
  {
    var front, last := sources[..|sources| - 1], sources[|sources| - 1];
    if e in GroupedEdges(cs, ps, quotes, front) {
      q := GroupedEdgesOnly(cs, ps, quotes, front, e);
    } else {
      q := EdgesFromOnly(cs, ps, quotes, last, e);
    }
  }

  /** Every quote is an edge of the graph. */
  lemma QuoteHasEdge(quotes: seq<Quote>, q: Quote)
    requires q in quotes
    ensures q.providerPair.pair.source in CurrencySet(quotes) && q.providerPair.pair.target in CurrencySet(quotes)
    ensures AllNumbered(Currencies(quotes), Providers(quotes), quotes)
    ensures ToEdge(Currencies(quotes), Providers(quotes), q) in PriceGraph(quotes)
  {
    hide GroupedEdges;
    QuotesAreNumbered(quotes);
    GroupedEdgesHas(Currencies(quotes), Providers(quotes), quotes, Currencies(quotes), q);
  }

  /** Every edge of the graph is a quote. */
  lemma EdgeHasQuote(quotes: seq<Quote>, e: Edge) returns (q: Quote)
    requires e in PriceGraph(quotes)
    ensures q in quotes && AllNumbered(Currencies(quotes), Providers(quotes), quotes)
    ensures e == ToEdge(Currencies(quotes), Providers(quotes), q)
    ensures e.pair.source < |Currencies(quotes)| && e.pair.target < |Currencies(quotes)|
    ensures e.provider < |Providers(quotes)|
  {
    hide GroupedEdges;
    QuotesAreNumbered(quotes);
    q := GroupedEdgesOnly(Currencies(quotes), Providers(quotes), quotes, Currencies(quotes), e);
  }

  lemma EdgesFromStep(cs: seq<Currency>, ps: seq<Provider>, quotes: seq<Quote>, c: Currency, b: nat)
    requires AllNumbered(cs, ps, quotes) && b < |quotes|
    ensures AllNumbered(cs, ps, quotes[..b]) && AllNumbered(cs, ps, quotes[..b + 1])
    ensures EdgesFrom(cs, ps, quotes[..b + 1], c) == EdgesFrom(cs, ps, quotes[..b], c)
            + (if c == quotes[b].providerPair.pair.source then [ToEdge(cs, ps, quotes[b])] else [])
  {
    assert quotes[..b + 1][..b] == quotes[..b];
  }

  /** The two nested loops that push the edges. */
  method BuildGraph(quotes: seq<Quote>) returns (graph: seq<Edge>)
    ensures graph == PriceGraph(quotes)
  {
    var cs, ps := Currencies(quotes), Providers(quotes);
    QuotesAreNumbered(quotes);
    hide EdgesFrom, Currencies, Providers, AllNumbered, ToEdge, CurrencySet, ProviderSet, NoDuplicates;
    graph := [];
    for a := 0 to |cs|
      invariant graph == GroupedEdges(cs, ps, quotes, cs[..a])
    {
      assert cs[..a + 1][..a] == cs[..a];
      ghost var grouped := graph;
      EdgesFromNothing(cs, ps, cs[a]);
      for b := 0 to |quotes|
        invariant AllNumbered(cs, ps, quotes[..b])
        invariant graph == grouped + EdgesFrom(cs, ps, quotes[..b], cs[a])
      {
        EdgesFromStep(cs, ps, quotes, cs[a], b);
        if cs[a] == quotes[b].providerPair.pair.source {
          InList(cs, ps, quotes, b);
          graph := graph + [ToEdge(cs, ps, quotes[b])];
        }
      }
      assert quotes[..|quotes|] == quotes;
    }
    assert cs[..|cs|] == cs;
  }

  lemma EdgesFromNothing(cs: seq<Currency>, ps: seq<Provider>, c: Currency)
    ensures AllNumbered(cs, ps, []) && EdgesFrom(cs, ps, [], c) == []
  {
  }

  lemma InList(cs: seq<Currency>, ps: seq<Provider>, quotes: seq<Quote>, b: nat)
    requires AllNumbered(cs, ps, quotes) && b < |quotes|
    ensures Numbered(cs, ps, quotes[b])
  {
  }

  // ---------- The result ----------

  ghost predicate EdgesNamed(cs: seq<Currency>, ps: seq<Provider>, edges: seq<Edge>) {
    forall e :: e in edges ==> e.pair.source < |cs| && e.pair.target < |cs| && e.provider < |ps|
  }

  function ToSteps(cs: seq<Currency>, ps: seq<Provider>, edges: seq<Edge>): seq<PathStep>
    requires EdgesNamed(cs, ps, edges)
  {
    seq(|edges|, n requires 0 <= n < |edges| =>
      assert edges[n] in edges;
      PathStep(CurrencyPair(cs[edges[n].pair.source], cs[edges[n].pair.target]), ps[edges[n].provider],
               ToFixed(edges[n].cost)))
  }

  function IndexPair(cs: seq<Currency>, cp: CurrencyPair): Pair
    requires cp.source in cs && cp.target in cs
  {
    Pair(IndexOf(cs, cp.source), IndexOf(cs, cp.target))
  }

  lemma GraphEdgesNamed(quotes: seq<Quote>, w: seq<Edge>)
    requires forall e :: e in w ==> e in PriceGraph(quotes)
    ensures EdgesNamed(Currencies(quotes), Providers(quotes), w)
  {
    forall e | e in w
      ensures e.pair.source < |Currencies(quotes)| && e.pair.target < |Currencies(quotes)|
      ensures e.provider < |Providers(quotes)|
    {
      var q := EdgeHasQuote(quotes, e);
    }
  }

  lemma EntriesAreNamed(quotes: seq<Quote>, lg: real -> real, p: Pair)
    requires var r := LongestPathsMult(PriceGraph(quotes), lg); r.Success? && p in r.value
    ensures EdgesNamed(Currencies(quotes), Providers(quotes), LongestPathsMult(PriceGraph(quotes), lg).value[p].edges)
  {
    hide LongestPathsMult, PriceGraph, UniqueEdges;
    var g := PriceGraph(quotes);
    var d := UniqueEdges(g, Greater);
    LongestPathsAreWalks(g, lg, p);
    UniqueEdgesFacts(g, Greater);
    WalkEnd(d, LongestPathsMult(g, lg).value[p].edges, p.source, p.target);
    GraphEdgesNamed(quotes, LongestPathsMult(g, lg).value[p].edges);
  }

  function NamePath(cs: seq<Currency>, ps: seq<Provider>, path: Path): PricePath
    requires EdgesNamed(cs, ps, path.edges)
  {
    PricePath(ToFixed(path.totalCost), ToSteps(cs, ps, path.edges))
  }

  function CurrencyPairs(quotes: seq<Quote>): set<CurrencyPair> {
    set a, b | a in CurrencySet(quotes) && b in CurrencySet(quotes) :: CurrencyPair(a, b)
  }

  /**
   `calc_best_paths`. The conversion of a price to `u128` cannot fail for the runtime's
   `Amount`, so `ConversionError` does not occur.
   */
  function CalcBestPaths(quotes: seq<Quote>, lg: real -> real): Result<map<CurrencyPair, PricePath>, CalculatorError> {
    var cs, ps := Currencies(quotes), Providers(quotes);
    match LongestPathsMult(PriceGraph(quotes), lg)
    case Failure(_) => Failure(NegativeCyclesError)
    case Success(m) =>
      Success(map cp | cp in CurrencyPairs(quotes) && IndexPair(cs, cp) in m ::
        (EntriesAreNamed(quotes, lg, IndexPair(cs, cp)); NamePath(cs, ps, m[IndexPair(cs, cp)])))
  }

  /** `calc_best_paths` as the original runs it, over the imperative parts. */
  method ComputeBestPaths(quotes: seq<Quote>, lg: real -> real)
    returns (r: Result<map<CurrencyPair, PricePath>, CalculatorError>)
    ensures r == CalcBestPaths(quotes, lg)
  {
    var cs, ps := Currencies(quotes), Providers(quotes);
    var graph := BuildGraph(quotes);
    var res := ComputeLongestPaths(graph, lg);
    match res {
      case Failure(_) => r := Failure(NegativeCyclesError);
      case Success(m) =>
        r := Success(map cp | cp in CurrencyPairs(quotes) && IndexPair(cs, cp) in m ::
               (EntriesAreNamed(quotes, lg, IndexPair(cs, cp)); NamePath(cs, ps, m[IndexPair(cs, cp)])));
    }
  }

  // ---------- Routes: chains of quotes ----------

  function QuoteOf(step: PathStep): Quote {
    Quote(ProviderPair(step.pair, step.provider), step.cost)
  }

  /** The steps lead from `s` to `t`, and each is one of the quotes, verbatim. */
  ghost predicate IsRoute(quotes: seq<Quote>, steps: seq<PathStep>, s: Currency, t: Currency) {
    if steps == [] then s == t
    else
      && QuoteOf(steps[0]) in quotes
      && steps[0].pair.source == s
      && IsRoute(quotes, steps[1..], steps[0].pair.target, t)
  }

  /** What one unit becomes along the route, multiplied up from the first step to the last. */
  ghost function RouteProduct(steps: seq<PathStep>): real {
    if steps == [] then 1.0 else RouteProduct(steps[..|steps| - 1]) * Rate(steps[|steps| - 1].cost)
  }

  ghost predicate HasArbitrage(quotes: seq<Quote>) {
    exists steps, c :: IsRoute(quotes, steps, c, c) && RouteProduct(steps) > 1.0
  }

  /** No other quote for the same pair has a lower price. */
  ghost predicate IsCheapest(quotes: seq<Quote>, q: Quote) {
    forall r :: r in quotes && r.providerPair.pair == q.providerPair.pair ==> q.price <= r.price
  }

  /** A route over the quotes that survive deduplication, the cheapest of every pair. */
  ghost predicate IsCheapRoute(quotes: seq<Quote>, steps: seq<PathStep>, s: Currency, t: Currency) {
    IsRoute(quotes, steps, s, t) && forall step :: step in steps ==> IsCheapest(quotes, QuoteOf(step))
  }

  ghost predicate HasCheapArbitrage(quotes: seq<Quote>) {
    exists steps, c :: IsCheapRoute(quotes, steps, c, c) && RouteProduct(steps) > 1.0
  }

  /** The cheapest quotes join the ends of `q` by a route that does at least as well as `q`. */
  ghost predicate IsMatchedQuote(quotes: seq<Quote>, q: Quote) {
    var pair := q.providerPair.pair;
    exists steps ::
      IsCheapRoute(quotes, steps, pair.source, pair.target) && steps != [] && RouteProduct(steps) >= Rate(q.price)
  }

  ghost predicate EveryQuoteMatched(quotes: seq<Quote>) {
    forall q :: q in quotes ==> IsMatchedQuote(quotes, q)
  }

  ghost predicate OnePricePerPair(quotes: seq<Quote>) {
    forall q, r :: q in quotes && r in quotes && q.providerPair.pair == r.providerPair.pair ==> q.price == r.price
  }

  ghost predicate PricesOk(quotes: seq<Quote>, ok: real -> bool) {
    forall q :: q in quotes ==> ok(Rate(q.price))
  }

  ghost predicate StepsQuoted(quotes: seq<Quote>, steps: seq<PathStep>) {
    forall step :: step in steps ==> QuoteOf(step) in quotes
  }

  ghost function RouteEdges(quotes: seq<Quote>, steps: seq<PathStep>): seq<Edge>
    requires StepsQuoted(quotes, steps)
  {
    QuotesAreNumbered(quotes);
    seq(|steps|, n requires 0 <= n < |steps| =>
      assert steps[n] in steps;
      ToEdge(Currencies(quotes), Providers(quotes), QuoteOf(steps[n])))
  }

  lemma {:induction false} RouteIsQuoted(quotes: seq<Quote>, steps: seq<PathStep>, s: Currency, t: Currency)
    requires IsRoute(quotes, steps, s, t)
    ensures StepsQuoted(quotes, steps)
    ensures steps != [] ==> s in CurrencySet(quotes) && t in CurrencySet(quotes)
  {
    if steps != [] {
      RouteIsQuoted(quotes, steps[1..], steps[0].pair.target, t);
      assert QuoteOf(steps[0]) in quotes;
    }
  }

  /** A route of quotes is a walk of the graph. */
  lemma {:induction false} RouteToWalk(quotes: seq<Quote>, steps: seq<PathStep>, s: Currency, t: Currency)
    requires IsRoute(quotes, steps, s, t)
    requires s in CurrencySet(quotes) && StepsQuoted(quotes, steps)
    ensures t in CurrencySet(quotes)
    ensures var cs := Currencies(quotes);
            IsWalk(PriceGraph(quotes), RouteEdges(quotes, steps), IndexOf(cs, s), IndexOf(cs, t))
  {
    hide PriceGraph, CurrencySet, Currencies, Providers;
    if steps != [] {
      QuoteHasEdge(quotes, QuoteOf(steps[0]));
      RouteToWalk(quotes, steps[1..], steps[0].pair.target, t);
      assert RouteEdges(quotes, steps)[1..] == RouteEdges(quotes, steps[1..]);
    }
  }

  lemma {:induction false} RouteEdgesProduct(quotes: seq<Quote>, steps: seq<PathStep>)
    requires StepsQuoted(quotes, steps)
    ensures Product(RouteEdges(quotes, steps)) == RouteProduct(steps)
  {
    hide Currencies, Providers, AllNumbered;
    if steps != [] {
      RouteEdgesProduct(quotes, steps[..|steps| - 1]);
      assert RouteEdges(quotes, steps)[..|steps| - 1] == RouteEdges(quotes, steps[..|steps| - 1]);
    }
  }

  lemma EdgeToQuote(quotes: seq<Quote>, e: Edge)
    requires e in PriceGraph(quotes)
    ensures EdgesNamed(Currencies(quotes), Providers(quotes), [e])
    ensures var step := ToSteps(Currencies(quotes), Providers(quotes), [e])[0];
            QuoteOf(step) in quotes && Rate(step.cost) == e.cost
  {
    var q := EdgeNamesQuote(quotes, e);
  }

  /** Naming an edge gives back the quote it was made from. */
  lemma EdgeNamesQuote(quotes: seq<Quote>, e: Edge) returns (q: Quote)
    requires e in PriceGraph(quotes)
    ensures EdgesNamed(Currencies(quotes), Providers(quotes), [e])
    ensures q in quotes && AllNumbered(Currencies(quotes), Providers(quotes), quotes)
    ensures e == ToEdge(Currencies(quotes), Providers(quotes), q)
    ensures QuoteOf(ToSteps(Currencies(quotes), Providers(quotes), [e])[0]) == q
  {
    GraphEdgesNamed(quotes, [e]);
    q := EdgeHasQuote(quotes, e);
    FixedOfRate(q.price);
  }

  /** A walk of the graph is a route of quotes. */
  lemma {:induction false} WalkToRoute(quotes: seq<Quote>, w: seq<Edge>, i: nat, j: nat)
    requires IsWalk(PriceGraph(quotes), w, i, j)
    requires EdgesNamed(Currencies(quotes), Providers(quotes), w)
    requires i < |Currencies(quotes)|
    ensures j < |Currencies(quotes)|
    ensures var cs := Currencies(quotes);
            IsRoute(quotes, ToSteps(cs, Providers(quotes), w), cs[i], cs[j])
  {
    hide PriceGraph, Currencies, Providers;
    if w != [] {
      EdgeToQuote(quotes, w[0]);
      WalkToRoute(quotes, w[1..], w[0].pair.target, j);
      var steps := ToSteps(Currencies(quotes), Providers(quotes), w);
      assert steps[1..] == ToSteps(Currencies(quotes), Providers(quotes), w[1..]);
      assert steps[0] == ToSteps(Currencies(quotes), Providers(quotes), [w[0]])[0];
    }
  }

  lemma StepsOfPrefix(cs: seq<Currency>, ps: seq<Provider>, w: seq<Edge>)
    requires EdgesNamed(cs, ps, w) && w != []
    ensures var front, last := w[..|w| - 1], w[|w| - 1];
            && EdgesNamed(cs, ps, front) && EdgesNamed(cs, ps, [last])
            && ToSteps(cs, ps, w)[..|w| - 1] == ToSteps(cs, ps, front)
            && ToSteps(cs, ps, w)[|w| - 1] == ToSteps(cs, ps, [last])[0]
  {
    assert forall e :: e in w[..|w| - 1] ==> e in w;
    assert w[|w| - 1] in w;
  }

  lemma {:induction false} WalkProduct(quotes: seq<Quote>, w: seq<Edge>)
    requires forall e :: e in w ==> e in PriceGraph(quotes)
    requires EdgesNamed(Currencies(quotes), Providers(quotes), w)
    ensures RouteProduct(ToSteps(Currencies(quotes), Providers(quotes), w)) == Product(w)
  {
    hide PriceGraph, Currencies, Providers;
    if w != [] {
      hide ToSteps, EdgesNamed;
      var front, last := w[..|w| - 1], w[|w| - 1];
      assert last in w;
      EdgeToQuote(quotes, last);
      WalkProduct(quotes, front);
      StepsOfPrefix(Currencies(quotes), Providers(quotes), w);
    }
  }

  lemma GraphWeights(quotes: seq<Quote>, ok: real -> bool)
    requires PricesOk(quotes, ok)
    ensures WeightsOk(PriceGraph(quotes), ok)
  {
    forall e | e in PriceGraph(quotes) ensures ok(e.cost) {
      var q := EdgeHasQuote(quotes, e);
    }
  }

  lemma RateOrder(a: u128, b: u128)
    ensures Rate(a) <= Rate(b) <==> a <= b
  {
    assert Rate(a) * PRECISION == a as real && Rate(b) * PRECISION == b as real;
  }

  lemma SamePairSameQuotePair(quotes: seq<Quote>, q: Quote, r: Quote)
    requires AllNumbered(Currencies(quotes), Providers(quotes), quotes) && q in quotes && r in quotes
    ensures var cs, ps := Currencies(quotes), Providers(quotes);
            ToEdge(cs, ps, q).pair == ToEdge(cs, ps, r).pair <==> q.providerPair.pair == r.providerPair.pair
  {
    hide Currencies, Providers;
    var cs, x, y := Currencies(quotes), q.providerPair.pair, r.providerPair.pair;
    if ToEdge(cs, Providers(quotes), q).pair == ToEdge(cs, Providers(quotes), r).pair {
      assert cs[IndexOf(cs, x.source)] == cs[IndexOf(cs, y.source)];
      assert cs[IndexOf(cs, x.target)] == cs[IndexOf(cs, y.target)];
      assert x == CurrencyPair(x.source, x.target) && y == CurrencyPair(y.source, y.target);
    }
  }

  /** The cheapest quotes are the edges with the smallest rate of their pair. */
  lemma CheapestIsSmallest(quotes: seq<Quote>, q: Quote)
    requires AllNumbered(Currencies(quotes), Providers(quotes), quotes) && q in quotes
    ensures IsSmallest(PriceGraph(quotes), ToEdge(Currencies(quotes), Providers(quotes), q)) <==> IsCheapest(quotes, q)
  {
    hide PriceGraph, Currencies, Providers, AllNumbered, Rate;
    var cs, ps, g := Currencies(quotes), Providers(quotes), PriceGraph(quotes);
    InQuotes(quotes, q);
    var e := ToEdge(cs, ps, q);
    if IsCheapest(quotes, q) {
      forall f | f in g && f.pair == e.pair ensures e.cost <= f.cost {
        var r := EdgeHasQuote(quotes, f);
        SamePairSameQuotePair(quotes, q, r);
        RateOrder(q.price, r.price);
      }
    }
    if IsSmallest(g, e) {
      forall r | r in quotes && r.providerPair.pair == q.providerPair.pair ensures q.price <= r.price {
        QuoteHasEdge(quotes, r);
        InQuotes(quotes, r);
        SamePairSameQuotePair(quotes, q, r);
        RateOrder(q.price, r.price);
        assert e.cost <= ToEdge(cs, ps, r).cost;
      }
    }
  }

  lemma InQuotes(quotes: seq<Quote>, q: Quote)
    requires AllNumbered(Currencies(quotes), Providers(quotes), quotes) && q in quotes
    ensures Numbered(Currencies(quotes), Providers(quotes), q)
  {
  }

  /** A route of cheapest quotes is worth a walk over kept edges. */
  lemma CheapRouteToKeptWalk(quotes: seq<Quote>, steps: seq<PathStep>, s: Currency, t: Currency) returns (w: seq<Edge>)
    requires IsCheapRoute(quotes, steps, s, t) && s in CurrencySet(quotes)
    ensures t in CurrencySet(quotes) && |w| == |steps| && Product(w) == RouteProduct(steps)
    ensures var cs := Currencies(quotes);
            && IsWalk(UniqueEdges(PriceGraph(quotes), Greater), w, IndexOf(cs, s), IndexOf(cs, t))
            && forall n :: 0 <= n < |w| ==>
                 steps[n].pair.target in cs && w[n].pair.target == IndexOf(cs, steps[n].pair.target)
  {
    hide PriceGraph, UniqueEdges, Currencies, Providers, IsRoute, RouteProduct, Product, IsWalk, CurrencySet,
         IsCheapest, IsSmallest, Kept, AllNumbered, IndexOf, ToEdge;
    var cs, g := Currencies(quotes), PriceGraph(quotes);
    RouteIsQuoted(quotes, steps, s, t);
    RouteToWalk(quotes, steps, s, t);
    RouteEdgesProduct(quotes, steps);
    var v := RouteEdges(quotes, steps);
    WalkEnd(g, v, IndexOf(cs, s), IndexOf(cs, t));
    QuotesAreNumbered(quotes);
    forall e | e in v ensures IsSmallest(g, e) {
      var n :| 0 <= n < |v| && v[n] == e;
      assert steps[n] in steps;
      CheapestIsSmallest(quotes, QuoteOf(steps[n]));
    }
    KeptWalk(g, v, IndexOf(cs, s), IndexOf(cs, t));
    KeptProduct(g, v);
    w := KeptEdges(g, v);
    forall n | 0 <= n < |w|
      ensures steps[n].pair.target in cs && w[n].pair.target == IndexOf(cs, steps[n].pair.target)
    {
      assert steps[n] in steps && v[n] in v;
      KeptEdge(g, v[n]);
      EdgeTarget(quotes, QuoteOf(steps[n]));
    }
  }

  lemma EdgeTarget(quotes: seq<Quote>, q: Quote)
    requires q in quotes && AllNumbered(Currencies(quotes), Providers(quotes), quotes)
    ensures var cs, target := Currencies(quotes), q.providerPair.pair.target;
            target in cs && ToEdge(cs, Providers(quotes), q).pair.target == IndexOf(cs, target)
  {
  }

  lemma KeptEdgeIsCheapest(quotes: seq<Quote>, e: Edge)
    requires e in UniqueEdges(PriceGraph(quotes), Greater)
    ensures e in PriceGraph(quotes) && EdgesNamed(Currencies(quotes), Providers(quotes), [e])
    ensures IsCheapest(quotes, QuoteOf(ToSteps(Currencies(quotes), Providers(quotes), [e])[0]))
  {
    hide PriceGraph, UniqueEdges, Currencies, Providers, Kept, IsCheapest, AllNumbered;
    var g := PriceGraph(quotes);
    UniqueEdgesFacts(g, Greater);
    KeptEdge(g, e);
    var q := EdgeNamesQuote(quotes, e);
    CheapestIsSmallest(quotes, q);
  }

  /** A walk over kept edges is a route of cheapest quotes. */
  lemma KeptWalkToCheapRoute(quotes: seq<Quote>, w: seq<Edge>, i: nat, j: nat)
    requires IsWalk(UniqueEdges(PriceGraph(quotes), Greater), w, i, j) && i < |Currencies(quotes)|
    ensures EdgesNamed(Currencies(quotes), Providers(quotes), w) && j < |Currencies(quotes)|
    ensures var cs, steps := Currencies(quotes), ToSteps(Currencies(quotes), Providers(quotes), w);
            IsCheapRoute(quotes, steps, cs[i], cs[j]) && RouteProduct(steps) == Product(w)
  {
    hide PriceGraph, UniqueEdges, Currencies, Providers, Kept, IsRoute, RouteProduct, Product, IsCheapest,
         IsWalk;
    var cs, ps, g := Currencies(quotes), Providers(quotes), PriceGraph(quotes);
    var d := UniqueEdges(g, Greater);
    UniqueEdgesFacts(g, Greater);
    WalkEnd(d, w, i, j);
    WalkMono(d, g, w, i, j);
    GraphEdgesNamed(quotes, w);
    WalkToRoute(quotes, w, i, j);
    WalkProduct(quotes, w);
    forall n | 0 <= n < |w| ensures IsCheapest(quotes, QuoteOf(ToSteps(cs, ps, w)[n])) {
      assert w[n] in w;
      KeptEdgeIsCheapest(quotes, w[n]);
      assert ToSteps(cs, ps, w)[n] == ToSteps(cs, ps, [w[n]])[0];
    }
  }

  /** When the cheapest quotes match every quote, the kept edges match every edge. */
  lemma MatchedQuotesMatchEdges(quotes: seq<Quote>)
    requires EveryQuoteMatched(quotes)
    ensures EveryOfferMatched(PriceGraph(quotes))
  {
    hide PriceGraph, UniqueEdges, Currencies, Providers, IsCheapRoute, RouteProduct, Product, IsWalk,
         CurrencySet;
    forall e | e in PriceGraph(quotes) ensures IsMatched(PriceGraph(quotes), e) {
      var q := EdgeHasQuote(quotes, e);
      QuoteHasEdge(quotes, q);
      var pair := q.providerPair.pair;
      assert IsMatchedQuote(quotes, q);
      var steps :| IsCheapRoute(quotes, steps, pair.source, pair.target) && steps != []
                   && RouteProduct(steps) >= Rate(q.price);
      var w := CheapRouteToKeptWalk(quotes, steps, pair.source, pair.target);
    }
  }

  function StepOf(q: Quote): PathStep {
    PathStep(q.providerPair.pair, q.providerPair.provider, q.price)
  }

  lemma SingleStep(quotes: seq<Quote>, q: Quote)
    requires q in quotes
    ensures IsRoute(quotes, [StepOf(q)], q.providerPair.pair.source, q.providerPair.pair.target)
    ensures RouteProduct([StepOf(q)]) == Rate(q.price)
    ensures QuoteOf(StepOf(q)) == q
  {
    assert [StepOf(q)][1..] == [] && RouteProduct([StepOf(q)]) == 1.0 * Rate(q.price);
  }

  /** With one price per pair every quote is matched, by itself. */
  lemma OnePriceIsMatched(quotes: seq<Quote>)
    requires OnePricePerPair(quotes)
    ensures EveryQuoteMatched(quotes)
  {
    hide IsRoute, RouteProduct;
    forall q | q in quotes ensures IsMatchedQuote(quotes, q) {
      SingleStep(quotes, q);
      assert IsCheapRoute(quotes, [StepOf(q)], q.providerPair.pair.source, q.providerPair.pair.target);
    }
  }

  // ---------- What the calculator delivers ----------

  lemma EntryOfEngine(quotes: seq<Quote>, lg: real -> real, cp: CurrencyPair)
    requires CalcBestPaths(quotes, lg).Success? && cp in CalcBestPaths(quotes, lg).value
    ensures var path := CalcBestPaths(quotes, lg).value[cp];
            && IsCheapRoute(quotes, path.steps, cp.source, cp.target)
            && path.totalCost == ToFixed(RouteProduct(path.steps))
    ensures var r, p := LongestPathsMult(PriceGraph(quotes), lg), IndexPair(Currencies(quotes), cp);
            && r.Success? && p in r.value
            && |CalcBestPaths(quotes, lg).value[cp].steps| == |r.value[p].edges|
            && RouteProduct(CalcBestPaths(quotes, lg).value[cp].steps) == r.value[p].totalCost
  {
    var cs, g := Currencies(quotes), PriceGraph(quotes);
    hide LongestPathsMult, PriceGraph, UniqueEdges, Currencies, Providers, IsCheapRoute, RouteProduct, Product;
    var p := IndexPair(cs, cp);
    EntriesAreNamed(quotes, lg, p);
    LongestPathsAreWalks(g, lg, p);
    KeptWalkToCheapRoute(quotes, LongestPathsMult(g, lg).value[p].edges, p.source, p.target);
  }

  lemma EntryIsRoute(quotes: seq<Quote>, lg: real -> real, cp: CurrencyPair)
    requires CalcBestPaths(quotes, lg).Success? && cp in CalcBestPaths(quotes, lg).value
    ensures var path := CalcBestPaths(quotes, lg).value[cp];
            && IsCheapRoute(quotes, path.steps, cp.source, cp.target)
            && path.totalCost == ToFixed(RouteProduct(path.steps))
  {
    hide LongestPathsMult, PriceGraph, Currencies, IsCheapRoute, RouteProduct, ToFixed;
    EntryOfEngine(quotes, lg, cp);
  }

  /**
   Whatever the prices: a pair is in the result exactly when its source is known and its
   target can be reached from there. Its steps lead from source to target over quotes taken
   verbatim, the cheapest of their pairs, and its cost is the fixed-point product of them.
   */
  lemma BestPathsAreRoutes(quotes: seq<Quote>, lg: real -> real, cp: CurrencyPair)
    requires CalcBestPaths(quotes, lg).Success?
    ensures var m := CalcBestPaths(quotes, lg).value;
            && (cp in m ==> IsCheapRoute(quotes, m[cp].steps, cp.source, cp.target)
                            && m[cp].totalCost == ToFixed(RouteProduct(m[cp].steps)))
            && (cp in m <==> cp.source in CurrencySet(quotes) && exists r :: IsRoute(quotes, r, cp.source, cp.target))
  {
    var m := CalcBestPaths(quotes, lg).value;
    if cp in m { EntryIsRoute(quotes, lg, cp); }
    if cp.source in CurrencySet(quotes) && exists r :: IsRoute(quotes, r, cp.source, cp.target) {
      var r :| IsRoute(quotes, r, cp.source, cp.target);
      RouteReaches(quotes, lg, r, cp);
    }
  }

  lemma RouteReaches(quotes: seq<Quote>, lg: real -> real, r: seq<PathStep>, cp: CurrencyPair)
    requires CalcBestPaths(quotes, lg).Success?
    requires cp.source in CurrencySet(quotes) && IsRoute(quotes, r, cp.source, cp.target)
    ensures cp in CalcBestPaths(quotes, lg).value
  {
    var cs, g := Currencies(quotes), PriceGraph(quotes);
    hide LongestPathsMult, PriceGraph, UniqueEdges, Currencies, Providers;
    RouteIsQuoted(quotes, r, cp.source, cp.target);
    RouteToWalk(quotes, r, cp.source, cp.target);
    var p, w := IndexPair(cs, cp), RouteEdges(quotes, r);
    WalkEnd(g, w, p.source, p.target);
    KeptWalk(g, w, p.source, p.target);
    CurrenciesAreVertices(quotes, cp.source);
    LongestPathsAreWalks(g, lg, p);
    assert cp in CurrencyPairs(quotes);
  }

  lemma CurrenciesAreVertices(quotes: seq<Quote>, c: Currency)
    requires c in CurrencySet(quotes)
    ensures IndexOf(Currencies(quotes), c) in FloydWarshall.VertexSet(UniqueEdges(PriceGraph(quotes), Greater))
  {
    hide PriceGraph, UniqueEdges;
    var g := PriceGraph(quotes);
    var q :| q in quotes && c in {q.providerPair.pair.source, q.providerPair.pair.target};
    var e := ToEdge(Currencies(quotes), Providers(quotes), q);
    QuoteHasEdge(quotes, q);
    KeptEdge(g, e);
  }

  /** Whatever the prices: no route of cheapest quotes yields more than the path reported for its ends. */
  lemma BestPathsBeatCheapRoutes(quotes: seq<Quote>, lg: real -> real, ok: real -> bool,
                                 steps: seq<PathStep>, cp: CurrencyPair)
    requires LogOn(lg, ok) && PricesOk(quotes, ok) && CalcBestPaths(quotes, lg).Success?
    requires IsCheapRoute(quotes, steps, cp.source, cp.target) && steps != []
    ensures var m := CalcBestPaths(quotes, lg).value;
            cp in m && RouteProduct(steps) <= RouteProduct(m[cp].steps)
  {
    hide LongestPathsMult, PriceGraph, UniqueEdges, Currencies, Providers, LogOn, RouteProduct, Product;
    RouteIsQuoted(quotes, steps, cp.source, cp.target);
    RouteReaches(quotes, lg, steps, cp);
    EntryOfEngine(quotes, lg, cp);
    GraphWeights(quotes, ok);
    var w := CheapRouteToKeptWalk(quotes, steps, cp.source, cp.target);
    var p := IndexPair(Currencies(quotes), cp);
    LongestPathsAreOptimal(PriceGraph(quotes), lg, ok, w, p.source, p.target);
  }

  /** No route of quotes yields more than the path reported for its ends. */
  ghost predicate BeatsAllQuotes(m: map<CurrencyPair, PricePath>, quotes: seq<Quote>) {
    forall steps, cp: CurrencyPair :: IsRoute(quotes, steps, cp.source, cp.target) && steps != [] ==>
      cp in m && RouteProduct(steps) <= RouteProduct(m[cp].steps)
  }

  lemma MatchedQuotesAreBeaten(quotes: seq<Quote>, lg: real -> real, ok: real -> bool,
                               steps: seq<PathStep>, cp: CurrencyPair)
    requires LogOn(lg, ok) && PricesOk(quotes, ok) && EveryQuoteMatched(quotes)
    requires CalcBestPaths(quotes, lg).Success?
    requires IsRoute(quotes, steps, cp.source, cp.target) && steps != []
    ensures var m := CalcBestPaths(quotes, lg).value;
            cp in m && RouteProduct(steps) <= RouteProduct(m[cp].steps)
  {
    var g := PriceGraph(quotes);
    hide LongestPathsMult, PriceGraph, UniqueEdges, Currencies, Providers, LogOn, EveryQuoteMatched,
         EveryOfferMatched;
    RouteIsQuoted(quotes, steps, cp.source, cp.target);
    RouteReaches(quotes, lg, steps, cp);
    RouteToWalk(quotes, steps, cp.source, cp.target);
    RouteEdgesProduct(quotes, steps);
    GraphWeights(quotes, ok);
    MatchedQuotesMatchEdges(quotes);
    OptimalOverOffersIff(g, lg, ok);
    EntryOfEngine(quotes, lg, cp);
  }

  lemma QuotedEntryHasSteps(quotes: seq<Quote>, lg: real -> real, q: Quote)
    requires CalcBestPaths(quotes, lg).Success? && q in quotes
    ensures var m, cp := CalcBestPaths(quotes, lg).value, q.providerPair.pair;
            cp in m && m[cp].steps != []
  {
    hide LongestPathsMult, PriceGraph, UniqueEdges, Currencies, Providers, IsRoute, RouteProduct, IsCheapRoute;
    var cs, ps := Currencies(quotes), Providers(quotes);
    SingleStep(quotes, q);
    QuoteHasEdge(quotes, q);
    RouteReaches(quotes, lg, [StepOf(q)], q.providerPair.pair);
    EntryOfEngine(quotes, lg, q.providerPair.pair);
    OfferedEntryHasEdges(PriceGraph(quotes), lg, ToEdge(cs, ps, q));
  }

  /** What beats a quote is a route of cheapest quotes, so it matches the quote. */
  lemma BeatenQuoteIsMatched(quotes: seq<Quote>, lg: real -> real, q: Quote)
    requires CalcBestPaths(quotes, lg).Success? && q in quotes
    requires BeatsAllQuotes(CalcBestPaths(quotes, lg).value, quotes)
    ensures IsMatchedQuote(quotes, q)
  {
    hide CalcBestPaths, IsRoute, RouteProduct, IsCheapRoute;
    SingleStep(quotes, q);
    QuotedEntryHasSteps(quotes, lg, q);
    EntryIsRoute(quotes, lg, q.providerPair.pair);
  }

  /**
   The reported paths beat all routes of quotes if and only if the cheapest quotes, the only
   ones searched, match every quote.
   */
  lemma OptimalOverQuotesIff(quotes: seq<Quote>, lg: real -> real, ok: real -> bool)
    requires LogOn(lg, ok) && PricesOk(quotes, ok) && CalcBestPaths(quotes, lg).Success?
    ensures BeatsAllQuotes(CalcBestPaths(quotes, lg).value, quotes) <==> EveryQuoteMatched(quotes)
  {
    hide CalcBestPaths, LogOn, IsRoute, RouteProduct, IsCheapRoute, IsCheapest;
    var m := CalcBestPaths(quotes, lg).value;
    if EveryQuoteMatched(quotes) {
      forall steps, cp: CurrencyPair | IsRoute(quotes, steps, cp.source, cp.target) && steps != []
        ensures cp in m && RouteProduct(steps) <= RouteProduct(m[cp].steps)
      {
        MatchedQuotesAreBeaten(quotes, lg, ok, steps, cp);
      }
    }
    if BeatsAllQuotes(m, quotes) {
      forall q | q in quotes ensures IsMatchedQuote(quotes, q) {
        BeatenQuoteIsMatched(quotes, lg, q);
      }
    }
  }

  /** When the cheapest quotes match every quote, no route is worth more, also in fixed point. */
  lemma BestPathsAreOptimal(quotes: seq<Quote>, lg: real -> real, ok: real -> bool,
                            steps: seq<PathStep>, cp: CurrencyPair)
    requires LogOn(lg, ok) && PricesOk(quotes, ok) && EveryQuoteMatched(quotes)
    requires CalcBestPaths(quotes, lg).Success?
    requires IsRoute(quotes, steps, cp.source, cp.target) && steps != []
    ensures var m := CalcBestPaths(quotes, lg).value;
            && cp in m
            && RouteProduct(steps) <= RouteProduct(m[cp].steps)
            && ToFixed(RouteProduct(steps)) <= m[cp].totalCost
  {
    hide CalcBestPaths, LogOn, EveryQuoteMatched, IsRoute, RouteProduct, IsCheapRoute, ToFixed;
    MatchedQuotesAreBeaten(quotes, lg, ok, steps, cp);
    var m := CalcBestPaths(quotes, lg).value;
    EntryIsRoute(quotes, lg, cp);
    ToFixedMonotone(RouteProduct(steps), RouteProduct(m[cp].steps));
  }

  /** The currencies met along a route: where it starts, then the target of every step. */
  ghost function CurrencyAt(steps: seq<PathStep>, s: Currency, n: nat): Currency
    requires n <= |steps|
  {
    if n == 0 then s else steps[n - 1].pair.target
  }

  /** A reported path meets no currency twice, except that a round trip ends where it began. */
  lemma BestPathsRepeatNoCurrency(quotes: seq<Quote>, lg: real -> real, cp: CurrencyPair, a: nat, b: nat)
    requires CalcBestPaths(quotes, lg).Success? && cp in CalcBestPaths(quotes, lg).value
    requires a < b <= |CalcBestPaths(quotes, lg).value[cp].steps|
    requires var steps := CalcBestPaths(quotes, lg).value[cp].steps;
             CurrencyAt(steps, cp.source, a) == CurrencyAt(steps, cp.source, b)
    ensures a == 0 && b == |CalcBestPaths(quotes, lg).value[cp].steps|
  {
    var cs, g := Currencies(quotes), PriceGraph(quotes);
    hide LongestPathsMult, PriceGraph, UniqueEdges, Currencies, Providers;
    var p := IndexPair(cs, cp);
    var w := LongestPathsMult(g, lg).value[p].edges;
    EntriesAreNamed(quotes, lg, p);
    LongestPathsAreSimple(g, lg, p);
    var steps := CalcBestPaths(quotes, lg).value[cp].steps;
    forall n | 0 <= n <= |w|
      ensures VertexAt(w, p.source, n) < |cs| && cs[VertexAt(w, p.source, n)] == CurrencyAt(steps, cp.source, n)
    {
      if n > 0 { assert w[n - 1] in w; }
    }
    assert VertexAt(w, p.source, a) == VertexAt(w, p.source, b);
  }

  lemma CurrenciesAscend(quotes: seq<Quote>)
    ensures Ascending(Currencies(quotes), CurrencyLe)
  {
  }

  /** Numbering keeps the order of the currencies. */
  lemma NumberingKeepsOrder(quotes: seq<Quote>, b: Currency, c: Currency)
    requires b in CurrencySet(quotes) && c in CurrencySet(quotes)
    ensures IndexOf(Currencies(quotes), b) <= IndexOf(Currencies(quotes), c) <==> CurrencyLe(b, c)
  {
    hide Currencies, CurrencySet, CurrencyLe;
    var cs := Currencies(quotes);
    CurrenciesAscend(quotes);
    var x, y := IndexOf(cs, b), IndexOf(cs, c);
    CurrencyLeTotal(b, c);
    if CurrencyLe(b, c) && CurrencyLe(c, b) { CurrencyLeAntisymmetric(b, c); }
  }

  /**
   Of several best routes the one through the lower currencies is reported: if some best route
   over cheapest quotes meets no currency above `c` on its way, neither does the reported path.
   */
  lemma LowestDetourIsReported(quotes: seq<Quote>, lg: real -> real, ok: real -> bool,
                               steps: seq<PathStep>, cp: CurrencyPair, c: Currency)
    requires LogOn(lg, ok) && PricesOk(quotes, ok) && CalcBestPaths(quotes, lg).Success?
    requires IsCheapRoute(quotes, steps, cp.source, cp.target) && steps != [] && c in CurrencySet(quotes)
    requires forall a :: 0 <= a < |steps| - 1 ==> CurrencyLe(steps[a].pair.target, c)
    ensures cp in CalcBestPaths(quotes, lg).value
    ensures var best := CalcBestPaths(quotes, lg).value[cp].steps;
            RouteProduct(best) == RouteProduct(steps) ==>
              forall a :: 0 <= a < |best| - 1 ==> CurrencyLe(best[a].pair.target, c)
  {
    hide LongestPathsMult, PriceGraph, UniqueEdges, Currencies, Providers, LogOn, RouteProduct, Product, CurrencyLe,
         IsRoute, IsWalk, IndexOf;
    var cs, g := Currencies(quotes), PriceGraph(quotes);
    RouteIsQuoted(quotes, steps, cp.source, cp.target);
    RouteReaches(quotes, lg, steps, cp);
    EntryOfEngine(quotes, lg, cp);
    GraphWeights(quotes, ok);
    var w := CheapRouteToKeptWalk(quotes, steps, cp.source, cp.target);
    var p, v := IndexPair(cs, cp), IndexOf(cs, c);
    forall a | 0 <= a < |w| - 1 ensures w[a].pair.target <= v {
      NumberingKeepsOrder(quotes, steps[a].pair.target, c);
    }
    LowestDetourIsKept(g, lg, ok, w, p, v);
    var best, edges := CalcBestPaths(quotes, lg).value[cp].steps, LongestPathsMult(g, lg).value[p].edges;
    if RouteProduct(best) == RouteProduct(steps) {
      forall a | 0 <= a < |best| - 1 ensures CurrencyLe(best[a].pair.target, c) {
        EntryStep(quotes, lg, cp, a);
        NumberingKeepsOrder(quotes, best[a].pair.target, c);
      }
    }
  }

  /** The `a`-th reported step leads to the currency that the `a`-th edge of the entry leads to. */
  lemma EntryStep(quotes: seq<Quote>, lg: real -> real, cp: CurrencyPair, a: nat)
    requires CalcBestPaths(quotes, lg).Success? && cp in CalcBestPaths(quotes, lg).value
    requires a < |CalcBestPaths(quotes, lg).value[cp].steps|
    ensures var cs, r := Currencies(quotes), LongestPathsMult(PriceGraph(quotes), lg);
            var p, t := IndexPair(cs, cp), CalcBestPaths(quotes, lg).value[cp].steps[a].pair.target;
            && r.Success? && p in r.value && a < |r.value[p].edges|
            && t in cs && IndexOf(cs, t) == r.value[p].edges[a].pair.target
  {
    var cs, g := Currencies(quotes), PriceGraph(quotes);
    hide LongestPathsMult, PriceGraph, Currencies, Providers;
    var p := IndexPair(cs, cp);
    EntriesAreNamed(quotes, lg, p);
    var e := LongestPathsMult(g, lg).value[p].edges[a];
    assert e in LongestPathsMult(g, lg).value[p].edges;
    assert cs[e.pair.target] in cs;
  }

  ghost predicate HasSelfQuote(quotes: seq<Quote>, c: Currency) {
    exists q :: q in quotes && q.providerPair.pair == CurrencyPair(c, c)
  }

  lemma SelfQuoteIsSelfLoop(quotes: seq<Quote>, c: Currency)
    requires c in CurrencySet(quotes)
    ensures HasSelfQuote(quotes, c) <==> FloydWarshall.HasSelfLoop(PriceGraph(quotes), IndexOf(Currencies(quotes), c))
  {
    hide PriceGraph, Currencies, Providers;
    var cs, ps := Currencies(quotes), Providers(quotes);
    var v := IndexOf(cs, c);
    if q :| q in quotes && q.providerPair.pair == CurrencyPair(c, c) {
      QuoteHasEdge(quotes, q);
      assert ToEdge(cs, ps, q).pair == Pair(v, v);
    }
    if e :| e in PriceGraph(quotes) && e.pair == Pair(v, v) {
      var q := EdgeHasQuote(quotes, e);
      assert q.providerPair.pair == CurrencyPair(q.providerPair.pair.source, q.providerPair.pair.target);
    }
  }

  /**
   A currency is worth one of itself, by the empty path, if and only if no quote from it to
   itself was offered; where one was, its own pair is reported with steps.
   */
  lemma OwnPairIsOneIff(quotes: seq<Quote>, lg: real -> real, c: Currency)
    requires CalcBestPaths(quotes, lg).Success? && c in CurrencySet(quotes)
    ensures var m, cp := CalcBestPaths(quotes, lg).value, CurrencyPair(c, c);
            && cp in m
            && (m[cp] == PricePath(1_000_000_000_000, []) <==> !HasSelfQuote(quotes, c))
            && (m[cp].steps != [] <==> HasSelfQuote(quotes, c))
  {
    var cs, g := Currencies(quotes), PriceGraph(quotes);
    hide LongestPathsMult, PriceGraph, UniqueEdges, Currencies, Providers, HasSelfQuote;
    var v, cp := IndexOf(cs, c), CurrencyPair(c, c);
    SelfQuoteIsSelfLoop(quotes, c);
    CurrenciesAreVertices(quotes, c);
    DiagonalIsOneIff(g, lg, v);
    FixedOfRate(1_000_000_000_000);
    assert IndexPair(cs, cp) == Pair(v, v) && cp in CurrencyPairs(quotes);
  }

  lemma LoneSelfQuoteRoutes(q: Quote, c: Currency, steps: seq<PathStep>, s: Currency, t: Currency)
    requires q.providerPair.pair == CurrencyPair(c, c) && Rate(q.price) <= 1.0
    requires IsRoute([q], steps, s, t)
    ensures 0.0 <= RouteProduct(steps) <= 1.0
    ensures forall n :: 0 <= n < |steps| ==> steps[n] == StepOf(q)
  {
    RouteIsQuoted([q], steps, s, t);
    forall n | 0 <= n < |steps| ensures steps[n] == StepOf(q) {
      assert steps[n] in steps && QuoteOf(steps[n]) == [q][0];
    }
    RatesBelowOne(steps);
  }

  lemma {:induction false} RatesBelowOne(steps: seq<PathStep>)
    requires forall n :: 0 <= n < |steps| ==> Rate(steps[n].cost) <= 1.0
    ensures 0.0 <= RouteProduct(steps) <= 1.0
  {
    if steps != [] {
      RatesBelowOne(steps[..|steps| - 1]);
      ShrinkingProduct(RouteProduct(steps[..|steps| - 1]), Rate(steps[|steps| - 1].cost));
    }
  }

  lemma ShrinkingProduct(x: real, y: real)
    requires 0.0 <= x <= 1.0 && 0.0 <= y <= 1.0
    ensures 0.0 <= x * y <= 1.0
  {
    if x > 0.0 && y > 0.0 {
      assert x * y > 0.0;
      assert x * y <= 1.0 * y;
    } else {
      assert x * y == 0.0;
    }
  }

  lemma LoneSelfQuoteSucceeds(lg: real -> real, ok: real -> bool, q: Quote, c: Currency)
    requires LogOn(lg, ok) && ok(Rate(q.price)) && Rate(q.price) <= 1.0
    requires q.providerPair.pair == CurrencyPair(c, c)
    ensures CalcBestPaths([q], lg).Success?
  {
    hide CalcBestPaths, LogOn, IsRoute, RouteProduct, Rate, IsCheapest;
    forall steps, s | IsCheapRoute([q], steps, s, s) ensures RouteProduct(steps) <= 1.0 {
      LoneSelfQuoteRoutes(q, c, steps, s, s);
    }
    FailsIffCheapArbitrage([q], lg, ok);
  }

  lemma LoneSelfQuoteEntry(lg: real -> real, q: Quote, c: Currency)
    requires CalcBestPaths([q], lg).Success? && Rate(q.price) <= 1.0
    requires q.providerPair.pair == CurrencyPair(c, c)
    ensures var m, cp := CalcBestPaths([q], lg).value, CurrencyPair(c, c);
            && cp in m && m[cp].steps == [StepOf(q)]
            && m[cp].totalCost == ToFixed(RouteProduct([StepOf(q)]))
  {
    hide CalcBestPaths, IsRoute, RouteProduct, ToFixed, Rate, IsCheapest, Currencies;
    var cp := CurrencyPair(c, c);
    assert q in [q] && c in CurrencySet([q]);
    OwnPairIsOneIff([q], lg, c);
    EntryIsRoute([q], lg, cp);
    var steps := CalcBestPaths([q], lg).value[cp].steps;
    LoneSelfQuoteRoutes(q, c, steps, c, c);
    assert steps[0] == StepOf(q);
    BestPathsRepeatNoCurrency([q], lg, cp, 0, 1);
    assert steps == [StepOf(q)];
  }

  /** A single quote of a currency against itself, at any rate up to one, is reported as its own pair. */
  lemma SelfQuoteReplacesOwnPair(lg: real -> real, ok: real -> bool, c: Currency, price: u128)
    requires LogOn(lg, ok) && ok(Rate(price)) && price <= 1_000_000_000_000
    ensures var q, cp := Quote(ProviderPair(CurrencyPair(c, c), CRYPTOCOMPARE), price), CurrencyPair(c, c);
            var r := CalcBestPaths([q], lg);
            r.Success? && cp in r.value && r.value[cp] == PricePath(price, [StepOf(q)])
  {
    hide CalcBestPaths, LogOn, IsRoute, RouteProduct, ToFixed;
    var q := Quote(ProviderPair(CurrencyPair(c, c), CRYPTOCOMPARE), price);
    RateOrder(price, 1_000_000_000_000);
    assert Rate(1_000_000_000_000) == 1.0;
    hide Rate;
    LoneSelfQuoteSucceeds(lg, ok, q, c);
    LoneSelfQuoteEntry(lg, q, c);
    SingleStep([q], q);
    FixedOfRate(price);
  }

  /** Whatever the prices: they are refused if and only if some round trip over the cheapest quotes gains. */
  lemma FailsIffCheapArbitrage(quotes: seq<Quote>, lg: real -> real, ok: real -> bool)
    requires LogOn(lg, ok) && PricesOk(quotes, ok)
    ensures CalcBestPaths(quotes, lg) == Failure(NegativeCyclesError) <==> HasCheapArbitrage(quotes)
    ensures CalcBestPaths(quotes, lg).Failure? ==> CalcBestPaths(quotes, lg).error == NegativeCyclesError
  {
    var cs, g := Currencies(quotes), PriceGraph(quotes);
    var d := UniqueEdges(g, Greater);
    GraphWeights(quotes, ok);
    FailsIffGainfulCycle(g, lg, ok);
    hide LongestPathsMult, PriceGraph, UniqueEdges, Currencies, Providers, LogOn, RouteProduct, Product;
    if steps, c :| IsCheapRoute(quotes, steps, c, c) && RouteProduct(steps) > 1.0 {
      assert steps != [] by { EmptyProducts(); }
      RouteIsQuoted(quotes, steps, c, c);
      var w := CheapRouteToKeptWalk(quotes, steps, c, c);
    }
    if w, i :| IsWalk(d, w, i, i) && Product(w) > 1.0 {
      assert w != [] by { EmptyProducts(); }
      UniqueEdgesFacts(g, Greater);
      WalkEnd(d, w, i, i);
      GraphEdgesNamed(quotes, w);
      assert w[0] in w;
      KeptWalkToCheapRoute(quotes, w, i, i);
    }
  }

  lemma EmptyProducts()
    ensures RouteProduct([]) == 1.0 && Product([]) == 1.0
  {
  }

  /** When the cheapest quotes match every quote, prices are refused exactly for a round trip that gains. */
  lemma FailsIffArbitrage(quotes: seq<Quote>, lg: real -> real, ok: real -> bool)
    requires LogOn(lg, ok) && PricesOk(quotes, ok) && EveryQuoteMatched(quotes)
    ensures CalcBestPaths(quotes, lg).Failure? <==> HasArbitrage(quotes)
  {
    hide CalcBestPaths, LogOn, RouteProduct, IsRoute, EveryQuoteMatched, IsCheapest;
    FailsIffCheapArbitrage(quotes, lg, ok);
    if CalcBestPaths(quotes, lg).Success? {
      var m := CalcBestPaths(quotes, lg).value;
      forall steps, c | IsRoute(quotes, steps, c, c) ensures RouteProduct(steps) <= 1.0 {
        EmptyProducts();
        if steps != [] {
          var cp := CurrencyPair(c, c);
          MatchedQuotesAreBeaten(quotes, lg, ok, steps, cp);
          EntryIsRoute(quotes, lg, cp);
        }
      }
    }
  }

  // Two prices for one pair; the dearer one makes a round trip that gains.
  const OUT := Quote(ProviderPair(CurrencyPair("a", "b"), CRYPTOCOMPARE), 1_000_000_000_000)
  const DEARER_OUT := Quote(ProviderPair(CurrencyPair("a", "b"), CRYPTOCOMPARE), 2_000_000_000_000)
  const BACK := Quote(ProviderPair(CurrencyPair("b", "a"), CRYPTOCOMPARE), 1_000_000_000_000)
  const HIDING_QUOTES := [OUT, DEARER_OUT, BACK]

  /** The dearer of two prices for one pair is not searched, and arbitrage over it goes unnoticed. */
  lemma DearerQuoteHidesArbitrage(lg: real -> real, ok: real -> bool)
    requires LogOn(lg, ok) && ok(1.0) && ok(2.0)
    ensures HasArbitrage(HIDING_QUOTES) && CalcBestPaths(HIDING_QUOTES, lg).Success?
  {
    hide CalcBestPaths, LogOn;
    HidingRound();
    assert Rate(1_000_000_000_000) == 1.0 && Rate(2_000_000_000_000) == 2.0;
    forall steps: seq<PathStep>, c: Currency | IsCheapRoute(HIDING_QUOTES, steps, c, c)
      ensures RouteProduct(steps) <= 1.0
    {
      hide RouteProduct, IsRoute;
      RouteIsQuoted(HIDING_QUOTES, steps, c, c);
      forall n | 0 <= n < |steps| ensures Rate(steps[n].cost) <= 1.0 {
        assert steps[n] in steps && QuoteOf(steps[n]) in HIDING_QUOTES;
        DearerIsNotCheapest();
      }
      RatesBelowOne(steps);
    }
    FailsIffCheapArbitrage(HIDING_QUOTES, lg, ok);
  }

  lemma DearerIsNotCheapest()
    ensures !IsCheapest(HIDING_QUOTES, DEARER_OUT)
  {
    assert HIDING_QUOTES[0] == OUT;
  }

  lemma HidingRound()
    ensures HasArbitrage(HIDING_QUOTES)
  {
    var x, y := StepOf(DEARER_OUT), StepOf(BACK);
    var steps := [x, y];
    assert HIDING_QUOTES[1] == DEARER_OUT && HIDING_QUOTES[2] == BACK;
    assert steps[1..] == [y] && [y][1..] == [];
    assert IsRoute(HIDING_QUOTES, [y], "b", "a");
    assert IsRoute(HIDING_QUOTES, steps, "a", "a");
    assert steps[..1] == [x] && [x][..0] == [];
    assert RouteProduct([x]) == 1.0 * 2.0;
    assert RouteProduct(steps) == 2.0 * 1.0;
  }
}
