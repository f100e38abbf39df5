/**
 The all-pairs engine. `Textbook` is the layered recurrence: layer `n` holds, for every
 pair, the best path whose interior vertices are among the first `n`, computed from an
 untouched copy of layer `n - 1`. What it means is proved about `Textbook`; the method
 `FloydWarshallShortestPaths` is the in-place triple loop and is proved to return the same.
 */
module FloydWarshall {
  import opened Wrappers
  import opened Ordered
  import opened Graph
  import opened Dedup

  datatype PathCalculationError = NegativeCyclesError

  type Matrix = map<Pair, Path>

  predicate NatLe(x: nat, y: nat) { x <= y }

  lemma NatLeIsTotal()
    ensures TotalOrder(NatLe)
  {
  }

  function VertexSet(g: seq<Edge>): set<nat> {
    (set e | e in g :: e.pair.source) + (set e | e in g :: e.pair.target)
  }

  function Vertices(g: seq<Edge>): (vs: seq<nat>)
    ensures forall v :: v in vs <==> v in VertexSet(g)
    ensures NoDuplicates(vs)
  {
    NatLeIsTotal();
    SortedSeq(VertexSet(g), NatLe)
  }

  // ---------- The layered recurrence ----------

  function AllPairs(vs: seq<nat>): set<Pair> {
    set i, j | i in vs && j in vs :: Pair(i, j)
  }

  function Get(m: Matrix, p: Pair): Option<Path> {
    if p in m then Some(m[p]) else None
  }

  /** The detour from `p.source` to `p.target` by way of `k`. */
  function Via(m: Matrix, k: nat, p: Pair): Option<Path> {
    var ik, kj := Pair(p.source, k), Pair(k, p.target);
    if ik in m && kj in m then
      Some(Path(m[ik].totalCost + m[kj].totalCost, m[ik].edges + m[kj].edges))
    else
      None
  }

  /** The known path for `p`, or the detour by way of `k` when that is strictly cheaper. */
  function Relaxed(m: Matrix, k: nat, p: Pair): Option<Path> {
    var via := Via(m, k, p);
    if via.Some? && (p !in m || m[p].totalCost > via.value.totalCost) then via else Get(m, p)
  }

  function Phase(m: Matrix, vs: seq<nat>, k: nat): Matrix {
    map p | p in AllPairs(vs) && Relaxed(m, k, p).Some? :: Relaxed(m, k, p).value
  }

  function Diagonal(vs: seq<nat>): Matrix {
    map v | v in vs :: Pair(v, v) := Path(0.0, [])
  }

  function WithEdges(m: Matrix, g: seq<Edge>): Matrix {
    if g == [] then m
    else
      var last := g[|g| - 1];
      WithEdges(m, g[..|g| - 1])[last.pair := Path(last.cost, [last])]
  }

  function Layer(g: seq<Edge>, vs: seq<nat>, n: nat): Matrix
    requires n <= |vs|
  {
    if n == 0 then WithEdges(Diagonal(vs), g) else Phase(Layer(g, vs, n - 1), vs, vs[n - 1])
  }

  predicate NegativeDiagonal(m: Matrix, vs: seq<nat>) {
    exists v :: v in vs && Pair(v, v) in m && m[Pair(v, v)].totalCost < 0.0
  }

  function Textbook(g: seq<Edge>): Result<Matrix, PathCalculationError> {
    var vs := Vertices(g);
    var m := Layer(g, vs, |vs|);
    if NegativeDiagonal(m, vs) then Failure(NegativeCyclesError) else Success(m)
  }

  // ---------- What every matrix of a computation satisfies ----------

  /** Each entry is a walk of the graph that costs what the entry says. */
  ghost predicate Sound(m: Matrix, g: seq<Edge>, vs: seq<nat>) {
    && m.Keys <= AllPairs(vs)
    && (forall v :: v in vs ==> Pair(v, v) in m)
    && (forall p :: p in m ==>
          IsWalk(g, m[p].edges, p.source, p.target) && Cost(m[p].edges) == m[p].totalCost)
  }

  /** Entries stay and never get dearer. */
  ghost predicate Improves(m: Matrix, m': Matrix) {
    forall p :: p in m ==> p in m' && m'[p].totalCost <= m[p].totalCost
  }

  /** No non-empty walk with its interior in `through` beats its entry. */
  ghost predicate Dominates(m: Matrix, g: seq<Edge>, through: set<nat>) {
    forall w: seq<Edge>, i: nat, j: nat :: IsWalk(g, w, i, j) && w != [] && Interior(w, through) ==>
      Pair(i, j) in m && m[Pair(i, j)].totalCost <= Cost(w)
  }

  ghost predicate AllSimple(m: Matrix, through: set<nat>) {
    forall p :: p in m ==> Simple(m[p].edges, p.source) && Interior(m[p].edges, through)
  }

  ghost function First(vs: seq<nat>, n: nat): set<nat>
    requires n <= |vs|
  {
    set v | v in vs[..n]
  }

  lemma FirstStep(vs: seq<nat>, n: nat)
    requires n < |vs|
    ensures First(vs, n + 1) == First(vs, n) + {vs[n]}
  {
    assert vs[..n + 1] == vs[..n] + [vs[n]];
  }

  lemma ViaIsWalk(m: Matrix, g: seq<Edge>, vs: seq<nat>, k: nat, p: Pair)
    requires Sound(m, g, vs) && Via(m, k, p).Some?
    ensures p in AllPairs(vs)
    ensures var via := Via(m, k, p).value;
            IsWalk(g, via.edges, p.source, p.target) && Cost(via.edges) == via.totalCost
  {
    var ik, kj := Pair(p.source, k), Pair(k, p.target);
    assert ik in AllPairs(vs) && kj in AllPairs(vs);
    WalkConcat(g, m[ik].edges, p.source, k, m[kj].edges, p.target);
  }

  // ---------- The initial matrix ----------

  lemma {:induction false} WithEdgesEntries(vs: seq<nat>, g: seq<Edge>)
    requires DistinctPairs(g)
    ensures var m := WithEdges(Diagonal(vs), g);
            && (forall e :: e in g ==> e.pair in m && m[e.pair] == Path(e.cost, [e]))
            && (forall p :: p in m && p !in PairsOf(g) ==> p in Diagonal(vs) && m[p] == Path(0.0, []))
            && m.Keys == Diagonal(vs).Keys + PairsOf(g)
  {
    if g != [] {
      var front, last := g[..|g| - 1], g[|g| - 1];
      WithEdgesEntries(vs, front);
      PairsOfLast(g);
      assert g == front + [last];
    }
  }

  lemma InitialDominates(g: seq<Edge>, vs: seq<nat>)
    requires DistinctPairs(g)
    ensures Dominates(WithEdges(Diagonal(vs), g), g, {})
  {
    WithEdgesEntries(vs, g);
    var m := WithEdges(Diagonal(vs), g);
    forall w: seq<Edge>, i: nat, j: nat | IsWalk(g, w, i, j) && w != [] && Interior(w, {})
      ensures Pair(i, j) in m && m[Pair(i, j)].totalCost <= Cost(w)
    {
      var e := w[0];
      assert w[1..] == [] && IsWalk(g, w[1..], e.pair.target, j);
      assert e.pair == Pair(i, j);
    }
  }

  lemma SingleEdge(g: seq<Edge>, e: Edge)
    requires e in g
    ensures IsWalk(g, [e], e.pair.source, e.pair.target) && Cost([e]) == e.cost
    ensures Simple([e], e.pair.source) && Interior([e], {})
  {
    assert [e][1..] == [];
  }

  lemma InitialEntry(g: seq<Edge>, vs: seq<nat>, p: Pair)
    requires DistinctPairs(g) && vs == Vertices(g) && p in WithEdges(Diagonal(vs), g)
    ensures var path := WithEdges(Diagonal(vs), g)[p];
            && p in AllPairs(vs)
            && IsWalk(g, path.edges, p.source, p.target) && Cost(path.edges) == path.totalCost
            && Simple(path.edges, p.source) && Interior(path.edges, {})
  {
    WithEdgesEntries(vs, g);
    if p in PairsOf(g) {
      var e :| e in g && e.pair == p;
      SingleEdge(g, e);
      assert e.pair.source in VertexSet(g) && e.pair.target in VertexSet(g);
      assert e.pair.source in vs && e.pair.target in vs;
    }
  }

  lemma InitialLayer(g: seq<Edge>)
    requires DistinctPairs(g)
    ensures var vs := Vertices(g);
            var m := Layer(g, vs, 0);
            Sound(m, g, vs) && Dominates(m, g, {}) && AllSimple(m, {})
  {
    var vs := Vertices(g);
    InitialDominates(g, vs);
    WithEdgesEntries(vs, g);
    forall p | p in Layer(g, vs, 0)
      ensures var path := Layer(g, vs, 0)[p];
              && p in AllPairs(vs)
              && IsWalk(g, path.edges, p.source, p.target) && Cost(path.edges) == path.totalCost
              && Simple(path.edges, p.source) && Interior(path.edges, {})
    {
      InitialEntry(g, vs, p);
    }
  }

  // ---------- One phase ----------

  lemma PhaseSound(m: Matrix, g: seq<Edge>, vs: seq<nat>, k: nat)
    requires Sound(m, g, vs)
    ensures Sound(Phase(m, vs, k), g, vs) && Improves(m, Phase(m, vs, k))
  {
    forall p | p in Phase(m, vs, k)
      ensures var e := Phase(m, vs, k)[p];
              IsWalk(g, e.edges, p.source, p.target) && Cost(e.edges) == e.totalCost
    {
      if Via(m, k, p).Some? { ViaIsWalk(m, g, vs, k, p); }
    }
  }

  /**
   A walk through `through` and `k` is no cheaper than the direct entry, or no cheaper than
   the detour by way of `k`: leaving out the closed parts at `k` cannot cost anything.
   */
  lemma {:induction false} DetourDominates(m: Matrix, g: seq<Edge>, through: set<nat>, k: nat,
                                           w: seq<Edge>, i: nat, j: nat)
    requires Dominates(m, g, through)
    requires Pair(k, k) in m && m[Pair(k, k)].totalCost >= 0.0
    requires IsWalk(g, w, i, j) && w != [] && Interior(w, through + {k})
    ensures
      || (Pair(i, j) in m && m[Pair(i, j)].totalCost <= Cost(w))
      || (Pair(i, k) in m && Pair(k, j) in m && m[Pair(i, k)].totalCost + m[Pair(k, j)].totalCost <= Cost(w))
    decreases |w|
  {
    if n :| 0 <= n < |w| - 1 && w[n].pair.target == k {
      var a, b := w[..n + 1], w[n + 1..];
      WalkSplit(g, w, i, j, n + 1);
      DetourDominates(m, g, through, k, a, i, k);
      DetourDominates(m, g, through, k, b, k, j);
    } else {
      assert Interior(w, through);
    }
  }

  lemma PhaseDominates(m: Matrix, g: seq<Edge>, vs: seq<nat>, through: set<nat>, k: nat)
    requires Sound(m, g, vs) && Dominates(m, g, through)
    requires Pair(k, k) in m && m[Pair(k, k)].totalCost >= 0.0
    ensures Dominates(Phase(m, vs, k), g, through + {k})
  {
    var m' := Phase(m, vs, k);
    forall w: seq<Edge>, i: nat, j: nat | IsWalk(g, w, i, j) && w != [] && Interior(w, through + {k})
      ensures Pair(i, j) in m' && m'[Pair(i, j)].totalCost <= Cost(w)
    {
      DetourDominates(m, g, through, k, w, i, j);
      if Via(m, k, Pair(i, j)).Some? { ViaIsWalk(m, g, vs, k, Pair(i, j)); }
      assert Pair(i, j) in AllPairs(vs);
    }
  }

  /**
   If a detour meets some vertex twice, cutting out the closed part in between leaves a walk
   that avoids `k` and costs no more, so the entry was already at least as good.
   */
  lemma RepeatIsDominated(m: Matrix, g: seq<Edge>, through: set<nat>, p: Pair,
                          a: seq<Edge>, b: seq<Edge>, x: nat, y: nat)
    requires Dominates(m, g, through) && !HasNegativeCycle(g)
    requires Interior(a, through) && Interior(b, through)
    requires IsWalk(g, a + b, p.source, p.target)
    requires x < |a| <= y <= |a + b| && VertexAt(a + b, p.source, x) == VertexAt(a + b, p.source, y)
    requires !(x == 0 && y == |a + b|)
    ensures p in m && m[p].totalCost <= Cost(a + b)
  {
    var w := a + b;
    var w' := w[..x] + w[y..];
    ShortcutInterior(a, b, through, x, y);
    CutCycle(g, w, p.source, p.target, x, y);
    assert Cost(w[x..y]) >= 0.0;
    assert IsWalk(g, w', p.source, p.target) && w' != [];
    assert Pair(p.source, p.target) == p;
  }

  lemma ConcatVertices(a: seq<Edge>, i: nat, k: nat, b: seq<Edge>, n: nat)
    requires n <= |a + b| && VertexAt(a, i, |a|) == k
    ensures n <= |a| ==> VertexAt(a + b, i, n) == VertexAt(a, i, n)
    ensures n >= |a| ==> VertexAt(a + b, i, n) == VertexAt(b, k, n - |a|)
  {
  }

  lemma ConcatSimple(a: seq<Edge>, i: nat, k: nat, b: seq<Edge>, j: nat)
    requires Simple(a, i) && Simple(b, k) && VertexAt(a, i, |a|) == k && VertexAt(b, k, |b|) == j
    requires j != k
    requires forall x, y :: 0 <= x < |a| <= y <= |a + b| && VertexAt(a + b, i, x) == VertexAt(a + b, i, y)
               ==> x == 0 && y == |a + b|
    ensures Simple(a + b, i)
  {
    forall x, y | 0 <= x < y <= |a + b| && VertexAt(a + b, i, x) == VertexAt(a + b, i, y)
      ensures x == 0 && y == |a + b|
    {
      ConcatVertices(a, i, k, b, x);
      ConcatVertices(a, i, k, b, y);
    }
  }

  lemma DetourInterior(a: seq<Edge>, i: nat, k: nat, b: seq<Edge>, through: set<nat>)
    requires Interior(a, through) && Interior(b, through) && VertexAt(a, i, |a|) == k
    ensures Interior(a + b, through + {k})
  {
    forall n | 0 <= n < |a + b| - 1 ensures (a + b)[n].pair.target in through + {k} {
      if n >= |a| { assert (a + b)[n] == b[n - |a|]; }
    }
  }

  /** A strictly cheaper detour repeats no vertex. */
  lemma DetourIsSimple(m: Matrix, g: seq<Edge>, vs: seq<nat>, through: set<nat>, k: nat, p: Pair)
    requires Sound(m, g, vs) && Dominates(m, g, through) && AllSimple(m, through)
    requires k in vs && m[Pair(k, k)].totalCost >= 0.0
    requires !HasNegativeCycle(g)
    requires Via(m, k, p).Some?
    requires p in m ==> m[p].totalCost > Via(m, k, p).value.totalCost
    ensures Simple(Via(m, k, p).value.edges, p.source)
    ensures Interior(Via(m, k, p).value.edges, through + {k})
  {
    var i, j := p.source, p.target;
    assert i != k && j != k by {
      assert p == Pair(i, j);
    }
    var a, b := m[Pair(i, k)].edges, m[Pair(k, j)].edges;
    ViaIsWalk(m, g, vs, k, p);
    WalkEnd(g, a, i, k);
    WalkEnd(g, b, k, j);
    forall x, y | 0 <= x < |a| <= y <= |a + b| && VertexAt(a + b, i, x) == VertexAt(a + b, i, y)
      ensures x == 0 && y == |a + b|
    {
      if !(x == 0 && y == |a + b|) {
        RepeatIsDominated(m, g, through, p, a, b, x, y);
      }
    }
    ConcatSimple(a, i, k, b, j);
    DetourInterior(a, i, k, b, through);
  }

  /** Cutting from inside `a` to inside `b` also removes the vertex where they meet. */
  lemma ShortcutInterior(a: seq<Edge>, b: seq<Edge>, through: set<nat>, x: nat, y: nat)
    requires Interior(a, through) && Interior(b, through)
    requires x < |a| <= y <= |a| + |b|
    ensures Interior((a + b)[..x] + (a + b)[y..], through)
  {
    var w := a + b;
    var w' := w[..x] + w[y..];
    forall n | 0 <= n < |w'| - 1 ensures w'[n].pair.target in through {
      if n < x {
        assert w'[n] == a[n];
      } else {
        assert w'[n] == b[n - x + y - |a|];
      }
    }
  }

  lemma PhaseSimple(m: Matrix, g: seq<Edge>, vs: seq<nat>, through: set<nat>, k: nat)
    requires Sound(m, g, vs) && Dominates(m, g, through) && AllSimple(m, through)
    requires k in vs && m[Pair(k, k)].totalCost >= 0.0
    requires !HasNegativeCycle(g)
    ensures AllSimple(Phase(m, vs, k), through + {k})
  {
    forall p | p in Phase(m, vs, k)
      ensures Simple(Phase(m, vs, k)[p].edges, p.source) && Interior(Phase(m, vs, k)[p].edges, through + {k})
    {
      var via := Via(m, k, p);
      if via.Some? && (p !in m || m[p].totalCost > via.value.totalCost) {
        DetourIsSimple(m, g, vs, through, k, p);
      }
    }
  }

  // ---------- All layers ----------

  lemma {:induction false} LayerSound(g: seq<Edge>, vs: seq<nat>, n: nat)
    requires DistinctPairs(g) && vs == Vertices(g) && n <= |vs|
    ensures Sound(Layer(g, vs, n), g, vs)
    ensures n > 0 ==> Improves(Layer(g, vs, n - 1), Layer(g, vs, n))
  {
    hide Sound, Improves, Phase, WithEdges, DistinctPairs;
    if n == 0 {
      InitialLayer(g);
    } else {
      LayerSound(g, vs, n - 1);
      PhaseSound(Layer(g, vs, n - 1), g, vs, vs[n - 1]);
    }
  }

  lemma NegativeDiagonalStays(m: Matrix, m': Matrix, vs: seq<nat>)
    requires Improves(m, m') && NegativeDiagonal(m, vs)
    ensures NegativeDiagonal(m', vs)
  {
    var v :| v in vs && Pair(v, v) in m && m[Pair(v, v)].totalCost < 0.0;
    assert Pair(v, v) in m' && m'[Pair(v, v)].totalCost < 0.0;
  }

  /** A layer without negative diagonal entry comes from one that has none either. */
  lemma PreviousLayer(g: seq<Edge>, vs: seq<nat>, n: nat)
    requires DistinctPairs(g) && vs == Vertices(g) && 0 < n <= |vs|
    requires !NegativeDiagonal(Layer(g, vs, n), vs)
    ensures var m, k := Layer(g, vs, n - 1), vs[n - 1];
            && Sound(m, g, vs) && !NegativeDiagonal(m, vs)
            && k in vs && Pair(k, k) in m && m[Pair(k, k)].totalCost >= 0.0
            && Layer(g, vs, n) == Phase(m, vs, k)
            && First(vs, n) == First(vs, n - 1) + {k}
  {
    hide Improves, Phase, WithEdges, DistinctPairs;
    LayerSound(g, vs, n - 1);
    LayerSound(g, vs, n);
    if NegativeDiagonal(Layer(g, vs, n - 1), vs) {
      NegativeDiagonalStays(Layer(g, vs, n - 1), Layer(g, vs, n), vs);
    }
    FirstStep(vs, n - 1);
  }

  /** While the diagonal shows no negative cost, layer `n` beats all walks through `First(vs, n)`. */
  lemma {:induction false} LayerDominates(g: seq<Edge>, vs: seq<nat>, n: nat)
    requires DistinctPairs(g) && vs == Vertices(g) && n <= |vs|
    requires !NegativeDiagonal(Layer(g, vs, n), vs)
    ensures Dominates(Layer(g, vs, n), g, First(vs, n))
  {
    hide Sound, Phase, WithEdges, DistinctPairs, Dominates, AllSimple, NegativeDiagonal, Layer;
    if n == 0 {
      InitialLayer(g);
      assert First(vs, 0) == {};
    } else {
      PreviousLayer(g, vs, n);
      LayerDominates(g, vs, n - 1);
      PhaseDominates(Layer(g, vs, n - 1), g, vs, First(vs, n - 1), vs[n - 1]);
    }
  }

  lemma {:induction false} LayerSimple(g: seq<Edge>, vs: seq<nat>, n: nat)
    requires DistinctPairs(g) && vs == Vertices(g) && n <= |vs|
    requires !NegativeDiagonal(Layer(g, vs, n), vs) && !HasNegativeCycle(g)
    ensures AllSimple(Layer(g, vs, n), First(vs, n))
  {
    hide Sound, Phase, WithEdges, DistinctPairs, Dominates, AllSimple, NegativeDiagonal, Layer,
         HasNegativeCycle;
    if n == 0 {
      InitialLayer(g);
      assert First(vs, 0) == {};
    } else {
      PreviousLayer(g, vs, n);
      LayerDominates(g, vs, n - 1);
      LayerSimple(g, vs, n - 1);
      PhaseSimple(Layer(g, vs, n - 1), g, vs, First(vs, n - 1), vs[n - 1]);
    }
  }

  lemma WalkVertices(g: seq<Edge>, w: seq<Edge>, i: nat, j: nat, vs: seq<nat>)
    requires IsWalk(g, w, i, j) && vs == Vertices(g)
    ensures Interior(w, First(vs, |vs|))
    ensures forall n :: 0 <= n <= |w| && w != [] ==> VertexAt(w, i, n) in VertexSet(g)
  {
    hide VertexSet, Vertices;
    WalkEnd(g, w, i, j);
    assert vs[..|vs|] == vs;
    forall n | 0 <= n < |w| - 1 ensures w[n].pair.target in First(vs, |vs|) {
      assert w[n] in w;
      EdgeVertices(g, w[n]);
    }
    forall n | 0 <= n <= |w| && w != [] ensures VertexAt(w, i, n) in VertexSet(g) {
      var e := w[if n == 0 then 0 else n - 1];
      assert e in w;
      EdgeVertices(g, e);
    }
  }

  lemma EdgeVertices(g: seq<Edge>, e: Edge)
    requires e in g
    ensures e.pair.source in VertexSet(g) && e.pair.target in VertexSet(g)
  {
  }

  /** A negative entry on the diagonal of any sound matrix is a negative cycle of the graph. */
  lemma NegativeDiagonalIsCycle(m: Matrix, g: seq<Edge>, vs: seq<nat>)
    requires Sound(m, g, vs) && NegativeDiagonal(m, vs)
    ensures HasNegativeCycle(g)
  {
    var v :| v in vs && Pair(v, v) in m && m[Pair(v, v)].totalCost < 0.0;
    assert IsWalk(g, m[Pair(v, v)].edges, v, v) && Cost(m[Pair(v, v)].edges) < 0.0;
  }

  /**
   What a layer holds: in a graph without negative cycle, layer `n` has, for every pair that
   some walk through the first `n` vertices joins, a cheapest such walk.
   */
  lemma LayerIsMinimum(g: seq<Edge>, n: nat, p: Pair)
    requires DistinctPairs(g) && !HasNegativeCycle(g) && n <= |Vertices(g)|
    ensures var vs := Vertices(g);
            var m, through := Layer(g, vs, n), First(vs, n);
            && (p in m ==> IsWalk(g, m[p].edges, p.source, p.target) && Interior(m[p].edges, through)
                           && Cost(m[p].edges) == m[p].totalCost)
            && forall w :: IsWalk(g, w, p.source, p.target) && w != [] && Interior(w, through) ==>
                 p in m && m[p].totalCost <= Cost(w)
  {
    var vs := Vertices(g);
    hide Layer, DistinctPairs, HasNegativeCycle, Simple;
    LayerSound(g, vs, n);
    if NegativeDiagonal(Layer(g, vs, n), vs) {
      NegativeDiagonalIsCycle(Layer(g, vs, n), g, vs);
    }
    LayerDominates(g, vs, n);
    LayerSimple(g, vs, n);
    assert p == Pair(p.source, p.target);
  }

  // ---------- What the result means ----------

  /** An error is reported if and only if some closed walk has negative cost. */
  lemma NegativeCycleDetectionIsExact(g: seq<Edge>)
    requires DistinctPairs(g)
    ensures Textbook(g).Failure? <==> HasNegativeCycle(g)
  {
    var vs := Vertices(g);
    var m := Layer(g, vs, |vs|);
    LayerSound(g, vs, |vs|);
    if NegativeDiagonal(m, vs) {
      NegativeDiagonalIsCycle(m, g, vs);
    } else {
      LayerDominates(g, vs, |vs|);
      forall w, i | IsWalk(g, w, i, i) ensures Cost(w) >= 0.0 {
        if w != [] {
          WalkVertices(g, w, i, i, vs);
          assert VertexAt(w, i, 0) in VertexSet(g);
          assert m[Pair(i, i)].totalCost >= 0.0;
        }
      }
    }
  }

  /** Every non-empty walk, of whatever length, costs at least what the entry of its ends costs. */
  lemma ShortestPathsAreOptimal(g: seq<Edge>, w: seq<Edge>, i: nat, j: nat)
    requires DistinctPairs(g) && Textbook(g).Success?
    requires IsWalk(g, w, i, j) && w != []
    ensures var m := Textbook(g).value;
            Pair(i, j) in m && m[Pair(i, j)].totalCost <= Cost(w)
  {
    var vs := Vertices(g);
    LayerDominates(g, vs, |vs|);
    WalkVertices(g, w, i, j, vs);
  }

  /** Every entry is a walk of the stated cost, and there is an entry exactly for reachable pairs. */
  lemma ShortestPathsAreWalks(g: seq<Edge>, p: Pair)
    requires DistinctPairs(g) && Textbook(g).Success?
    ensures var m := Textbook(g).value;
            && (p in m ==> IsWalk(g, m[p].edges, p.source, p.target) && Cost(m[p].edges) == m[p].totalCost)
            && (p in m <==> p.source in VertexSet(g) && exists w :: IsWalk(g, w, p.source, p.target))
  {
    hide Layer, DistinctPairs;
    var vs := Vertices(g);
    var m := Textbook(g).value;
    LayerSound(g, vs, |vs|);
    if p.source in VertexSet(g) && exists w :: IsWalk(g, w, p.source, p.target) {
      var w :| IsWalk(g, w, p.source, p.target);
      assert p == Pair(p.source, p.target);
      if w != [] {
        ShortestPathsAreOptimal(g, w, p.source, p.target);
      }
    }
  }

  ghost predicate HasSelfLoop(g: seq<Edge>, v: nat) {
    exists e :: e in g && e.pair == Pair(v, v)
  }

  lemma InitialDiagonal(g: seq<Edge>, vs: seq<nat>, v: nat)
    requires DistinctPairs(g) && v in vs
    ensures var entry := Get(WithEdges(Diagonal(vs), g), Pair(v, v));
            && entry.Some?
            && if HasSelfLoop(g, v) then entry.value.edges != [] else entry.value == Path(0.0, [])
  {
    WithEdgesEntries(vs, g);
    assert Pair(v, v) in Diagonal(vs);
  }

  lemma PhaseKeepsEmptyDiagonal(m: Matrix, vs: seq<nat>, k: nat, v: nat)
    requires Get(m, Pair(v, v)) == Some(Path(0.0, [])) && v in vs
    requires !NegativeDiagonal(Phase(m, vs, k), vs)
    ensures Get(Phase(m, vs, k), Pair(v, v)) == Some(Path(0.0, []))
  {
    assert Pair(v, v) in Phase(m, vs, k);
  }

  /** A round trip stored once is only ever replaced by another: a detour by way of `k` has edges. */
  lemma PhaseKeepsRoundTrip(m: Matrix, g: seq<Edge>, vs: seq<nat>, k: nat, v: nat)
    requires Sound(m, g, vs) && v in vs && m[Pair(v, v)].edges != []
    ensures Pair(v, v) in Phase(m, vs, k) && Phase(m, vs, k)[Pair(v, v)].edges != []
  {
    assert Pair(v, v) in AllPairs(vs);
    if k != v && Pair(v, k) in m {
      assert IsWalk(g, m[Pair(v, k)].edges, v, k);
    }
  }

  lemma {:induction false} DiagonalOfLayer(g: seq<Edge>, vs: seq<nat>, v: nat, n: nat)
    requires DistinctPairs(g) && vs == Vertices(g) && n <= |vs| && v in vs
    requires !NegativeDiagonal(Layer(g, vs, n), vs)
    ensures var entry := Get(Layer(g, vs, n), Pair(v, v));
            && entry.Some?
            && if HasSelfLoop(g, v) then entry.value.edges != [] else entry.value == Path(0.0, [])
  {
    hide Sound, Phase, NegativeDiagonal, WithEdges, DistinctPairs, HasSelfLoop, Diagonal, Vertices;
    if n == 0 {
      InitialDiagonal(g, vs, v);
    } else {
      PreviousLayer(g, vs, n);
      DiagonalOfLayer(g, vs, v, n - 1);
      if HasSelfLoop(g, v) {
        PhaseKeepsRoundTrip(Layer(g, vs, n - 1), g, vs, vs[n - 1], v);
      } else {
        PhaseKeepsEmptyDiagonal(Layer(g, vs, n - 1), vs, vs[n - 1], v);
      }
    }
  }

  /**
   The diagonal holds the empty path of cost zero if and only if no edge leads from the
   vertex to itself; where one does, a round trip with edges has taken its place.
   */
  lemma DiagonalIsEmptyIff(g: seq<Edge>, v: nat)
    requires DistinctPairs(g) && Textbook(g).Success? && v in VertexSet(g)
    ensures var m := Textbook(g).value;
            && Pair(v, v) in m
            && (m[Pair(v, v)] == Path(0.0, []) <==> !HasSelfLoop(g, v))
            && (m[Pair(v, v)].edges != [] <==> HasSelfLoop(g, v))
  {
    hide Layer, DistinctPairs, HasSelfLoop;
    DiagonalOfLayer(g, Vertices(g), v, |Vertices(g)|);
  }

  lemma {:induction false} NoDuplicatesBound(s: seq<nat>, all: set<nat>)
    requires NoDuplicates(s)
    requires forall x :: x in s ==> x in all
    ensures |s| <= |all|
  {
    if s != [] {
      assert forall x :: x in s[1..] ==> x in all - {s[0]};
      NoDuplicatesBound(s[1..], all - {s[0]});
    }
  }

  /** A simple walk inside a set of vertices has no more edges than the set has members. */
  lemma SimpleIsShort(w: seq<Edge>, i: nat, all: set<nat>)
    requires Simple(w, i)
    requires forall n :: 0 <= n <= |w| ==> VertexAt(w, i, n) in all
    ensures |w| <= |all| && (VertexAt(w, i, |w|) != i ==> |w| < |all|)
  {
    var length := if VertexAt(w, i, |w|) == i then |w| else |w| + 1;
    NoDuplicatesBound(seq(length, n requires 0 <= n < length => VertexAt(w, i, n)), all);
  }

  /**
   Stored paths repeat no vertex, so a path between two different vertices has fewer edges
   than the graph has vertices. Cycles of cost zero do not change this.
   */
  lemma ShortestPathsAreSimple(g: seq<Edge>, p: Pair)
    requires DistinctPairs(g) && Textbook(g).Success? && p in Textbook(g).value
    ensures var w := Textbook(g).value[p].edges;
            Simple(w, p.source) && |w| <= |VertexSet(g)| && (p.source != p.target ==> |w| < |VertexSet(g)|)
  {
    hide Layer, DistinctPairs, Simple;
    var vs := Vertices(g);
    var w := Textbook(g).value[p].edges;
    NegativeCycleDetectionIsExact(g);
    LayerSimple(g, vs, |vs|);
    LayerSound(g, vs, |vs|);
    WalkVertices(g, w, p.source, p.target, vs);
    WalkEnd(g, w, p.source, p.target);
    assert p in AllPairs(vs);
    SimpleIsShort(w, p.source, VertexSet(g));
  }

  // ---------- Which of several best paths is stored ----------

  lemma VerticesAscend(g: seq<Edge>)
    ensures forall a, b :: 0 <= a < b < |Vertices(g)| ==> Vertices(g)[a] < Vertices(g)[b]
  {
    NatLeIsTotal();
  }

  /** How many of the vertices are at most `v`. */
  lemma FirstUpTo(g: seq<Edge>, v: nat) returns (n: nat)
    ensures n <= |Vertices(g)|
    ensures forall x :: x in First(Vertices(g), n) <==> x in VertexSet(g) && x <= v
  {
    hide Vertices, VertexSet;
    var vs := Vertices(g);
    VerticesAscend(g);
    n := 0;
    while n < |vs| && vs[n] <= v
      invariant n <= |vs| && forall a :: 0 <= a < n ==> vs[a] <= v
    {
      n := n + 1;
    }
    forall x | x in VertexSet(g) && x <= v ensures x in First(vs, n) {
      var a :| 0 <= a < |vs| && vs[a] == x;
    }
  }

  lemma PhaseKeepsEqualCost(m: Matrix, vs: seq<nat>, k: nat, p: Pair)
    requires p in AllPairs(vs) && p in m
    ensures var m' := Phase(m, vs, k);
            p in m' && (m'[p] == m[p] || m'[p].totalCost < m[p].totalCost)
  {
  }

  /** An entry gives way to a strictly cheaper path only. */
  lemma {:induction false} EqualCostStays(g: seq<Edge>, vs: seq<nat>, n: nat, m: nat, p: Pair)
    requires n <= m <= |vs| && p in AllPairs(vs) && p in Layer(g, vs, n)
    ensures p in Layer(g, vs, m) && Layer(g, vs, m)[p].totalCost <= Layer(g, vs, n)[p].totalCost
    ensures Layer(g, vs, m)[p].totalCost == Layer(g, vs, n)[p].totalCost ==> Layer(g, vs, m)[p] == Layer(g, vs, n)[p]
  {
    hide Phase, AllPairs;
    if n < m {
      EqualCostStays(g, vs, n, m - 1, p);
      PhaseKeepsEqualCost(Layer(g, vs, m - 1), vs, vs[m - 1], p);
    }
  }

  /**
   Among equally cheap paths the one through the lower vertices is stored: if some cheapest
   walk has no vertex above `v` inside, then neither has the stored path.
   */
  lemma LowestDetourIsStored(g: seq<Edge>, w: seq<Edge>, p: Pair, v: nat)
    requires DistinctPairs(g) && Textbook(g).Success?
    requires IsWalk(g, w, p.source, p.target) && w != []
    requires forall a :: 0 <= a < |w| - 1 ==> w[a].pair.target <= v
    ensures var m := Textbook(g).value;
            && p in m
            && (m[p].totalCost == Cost(w) ==>
                  forall a :: 0 <= a < |m[p].edges| - 1 ==> m[p].edges[a].pair.target <= v)
  {
    hide Layer, DistinctPairs, HasNegativeCycle, Vertices;
    var vs, m := Vertices(g), Textbook(g).value;
    NegativeCycleDetectionIsExact(g);
    ShortestPathsAreOptimal(g, w, p.source, p.target);
    assert p == Pair(p.source, p.target);
    var n := FirstUpTo(g, v);
    WalkVertices(g, w, p.source, p.target, vs);
    assert Interior(w, First(vs, n)) by {
      forall a | 0 <= a < |w| - 1 ensures w[a].pair.target in First(vs, n) {
        assert w[a].pair.target == VertexAt(w, p.source, a + 1);
      }
    }
    LayerIsMinimum(g, n, p);
    LayerSound(g, vs, n);
    EqualCostStays(g, vs, n, |vs|, p);
  }

  // ---------- Parallel edges ----------

  /** The edges that survive in the initial matrix: for every pair the last one inserted. */
  ghost function Surviving(g: seq<Edge>): seq<Edge> {
    if g == [] then []
    else
      var last := g[|g| - 1];
      Without(Surviving(g[..|g| - 1]), last.pair) + [last]
  }

  ghost function Without(g: seq<Edge>, p: Pair): seq<Edge> {
    if g == [] then []
    else
      var last := g[|g| - 1];
      Without(g[..|g| - 1], p) + (if last.pair == p then [] else [last])
  }

  lemma {:induction false} WithoutMembers(g: seq<Edge>, p: Pair)
    ensures forall e :: e in Without(g, p) <==> e in g && e.pair != p
  {
    if g != [] {
      WithoutMembers(g[..|g| - 1], p);
      assert g == g[..|g| - 1] + [g[|g| - 1]];
    }
  }

  lemma AppendDistinct(g: seq<Edge>, e: Edge)
    requires DistinctPairs(g) && forall f :: f in g ==> f.pair != e.pair
    ensures DistinctPairs(g + [e])
  {
    assert forall a :: 0 <= a < |g| ==> g[a] in g;
  }

  lemma {:induction false} WithoutDistinct(g: seq<Edge>, p: Pair)
    requires DistinctPairs(g)
    ensures DistinctPairs(Without(g, p))
  {
    if g != [] {
      var front, last := g[..|g| - 1], g[|g| - 1];
      WithoutDistinct(front, p);
      WithoutMembers(front, p);
      forall f | f in front ensures f.pair != last.pair {
        var a :| 0 <= a < |front| && front[a] == f;
        assert g[a] == f;
      }
      AppendDistinct(Without(front, p), last);
    }
  }

  /** Leaving out what is overwritten anyway does not change the matrix. */
  lemma {:induction false} WithoutOverwritten(g: seq<Edge>, p: Pair, m: Matrix, path: Path)
    ensures WithEdges(m, Without(g, p))[p := path] == WithEdges(m, g)[p := path]
  {
    if g != [] {
      var front, last := g[..|g| - 1], g[|g| - 1];
      WithoutOverwritten(front, p, m, path);
      if last.pair != p {
        assert (Without(front, p) + [last])[..|Without(front, p)|] == Without(front, p);
        var x, y := WithEdges(m, Without(front, p)), WithEdges(m, front);
        var l := Path(last.cost, [last]);
        assert x[last.pair := l][p := path] == x[p := path][last.pair := l];
        assert y[last.pair := l][p := path] == y[p := path][last.pair := l];
      } else {
        assert Without(g, p) == Without(front, p);
        assert WithEdges(m, g)[p := path] == WithEdges(m, front)[p := path];
      }
    }
  }

  lemma {:induction false} SurvivingFacts(g: seq<Edge>, m: Matrix)
    ensures DistinctPairs(Surviving(g))
    ensures WithEdges(m, Surviving(g)) == WithEdges(m, g)
    ensures forall e :: e in Surviving(g) ==> e in g
    ensures PairsOf(g) <= PairsOf(Surviving(g))
  {
    if g != [] {
      hide PairsOf, DistinctPairs, Without;
      var front, last := g[..|g| - 1], g[|g| - 1];
      var w := Without(Surviving(front), last.pair);
      SurvivingFacts(front, m);
      WithoutDistinct(Surviving(front), last.pair);
      WithoutMembers(Surviving(front), last.pair);
      AppendDistinct(w, last);
      WithoutOverwritten(Surviving(front), last.pair, m, Path(last.cost, [last]));
      assert (w + [last])[..|w|] == w;
      PairsOfLast(g);
      SurvivingPairs(Surviving(front), last);
    }
  }

  lemma SurvivingPairs(g: seq<Edge>, e: Edge)
    ensures PairsOf(g) + {e.pair} <= PairsOf(Without(g, e.pair) + [e])
  {
    WithoutMembers(g, e.pair);
    var h := Without(g, e.pair) + [e];
    assert e in h;
    forall f | f in g ensures f.pair in PairsOf(h) {
      if f.pair != e.pair { assert f in h; }
    }
  }

  /** Handed parallel edges, the engine works on the surviving ones. */
  lemma SurvivingLayers(g: seq<Edge>)
    ensures DistinctPairs(Surviving(g))
    ensures Vertices(Surviving(g)) == Vertices(g)
    ensures Layer(Surviving(g), Vertices(g), 0) == Layer(g, Vertices(g), 0)
    ensures Textbook(Surviving(g)) == Textbook(g)
  {
    var d, vs := Surviving(g), Vertices(g);
    SurvivingFacts(g, Diagonal(vs));
    VerticesByPairs(g, d);
    SameLayers(g, d, vs, |vs|);
    SameLayers(g, d, vs, 0);
  }

  lemma VerticesByPairs(g: seq<Edge>, d: seq<Edge>)
    requires PairsOf(g) <= PairsOf(d) && forall e :: e in d ==> e in g
    ensures VertexSet(g) == VertexSet(d)
  {
    forall e | e in g ensures e.pair.source in VertexSet(d) && e.pair.target in VertexSet(d) {
      assert e.pair in PairsOf(d);
    }
  }

  lemma {:induction false} SameLayers(g: seq<Edge>, d: seq<Edge>, vs: seq<nat>, n: nat)
    requires n <= |vs| && WithEdges(Diagonal(vs), g) == WithEdges(Diagonal(vs), d)
    ensures Layer(g, vs, n) == Layer(d, vs, n)
  {
    hide Phase;
    if n > 0 { SameLayers(g, d, vs, n - 1); }
  }

  // ---------- The in-place algorithm ----------

  function RelaxAt(m: Matrix, k: nat, p: Pair): Matrix {
    var via := Via(m, k, p);
    if via.Some? && (p !in m || m[p].totalCost > via.value.totalCost) then m[p := via.value] else m
  }

  lemma RelaxAtSound(m: Matrix, g: seq<Edge>, vs: seq<nat>, k: nat, p: Pair)
    requires Sound(m, g, vs)
    ensures Sound(RelaxAt(m, k, p), g, vs) && Improves(m, RelaxAt(m, k, p))
  {
    if Via(m, k, p).Some? { ViaIsWalk(m, g, vs, k, p); }
  }

  /** The matrix in the middle of phase `k`: relaxed on `done`, as it was before elsewhere. */
  ghost predicate MidPhase(before: Matrix, m: Matrix, k: nat, done: set<Pair>) {
    forall p :: Get(m, p) == if p in done then Relaxed(before, k, p) else Get(before, p)
  }

  /** Relaxing in place reads what relaxing from a copy would read: row and column `k` do not move. */
  lemma RowAndColumnFixed(before: Matrix, m: Matrix, k: nat, done: set<Pair>, x: nat)
    requires MidPhase(before, m, k, done)
    requires Pair(k, k) in before && before[Pair(k, k)].totalCost >= 0.0
    ensures Get(m, Pair(x, k)) == Get(before, Pair(x, k))
    ensures Get(m, Pair(k, x)) == Get(before, Pair(k, x))
  {
    assert Relaxed(before, k, Pair(x, k)) == Get(before, Pair(x, k));
    assert Relaxed(before, k, Pair(k, x)) == Get(before, Pair(k, x));
  }

  lemma RelaxAtMidPhase(before: Matrix, m: Matrix, k: nat, done: set<Pair>, p: Pair)
    requires MidPhase(before, m, k, done)
    requires Pair(k, k) in before && before[Pair(k, k)].totalCost >= 0.0
    ensures MidPhase(before, RelaxAt(m, k, p), k, done + {p})
  {
    RowAndColumnFixed(before, m, k, done, p.source);
    RowAndColumnFixed(before, m, k, done, p.target);
    assert Get(m, Pair(p.source, k)) == Get(before, Pair(p.source, k));
    assert Get(m, Pair(k, p.target)) == Get(before, Pair(k, p.target));
    assert Via(m, k, p) == Via(before, k, p);
    assert Get(m, p) == if p in done then Relaxed(before, k, p) else Get(before, p);
    var m' := RelaxAt(m, k, p);
    forall q ensures Get(m', q) == if q in done + {p} then Relaxed(before, k, q) else Get(before, q) {
      assert Get(m, q) == if q in done then Relaxed(before, k, q) else Get(before, q);
      if q != p { assert Get(m', q) == Get(m, q); }
    }
  }

  lemma EndOfPhase(before: Matrix, m: Matrix, vs: seq<nat>, k: nat)
    requires MidPhase(before, m, k, AllPairs(vs))
    requires m.Keys <= AllPairs(vs)
    ensures m == Phase(before, vs, k)
  {
    var m' := Phase(before, vs, k);
    forall p ensures Get(m, p) == Get(m', p) {
      assert Get(m, p) == if p in AllPairs(vs) then Relaxed(before, k, p) else Get(before, p);
    }
    forall p ensures p in m <==> p in m' {
      assert Get(m, p) == Get(m', p);
    }
    forall p | p in m ensures m[p] == m'[p] {
      assert Get(m, p) == Get(m', p);
    }
  }

  /** The pairs visited before the loops reach row `b`, column `c`. */
  ghost function Done(vs: seq<nat>, b: nat, c: nat): set<Pair> {
    set x, y | 0 <= x < |vs| && 0 <= y < |vs| && (x < b || (x == b && y < c)) :: Pair(vs[x], vs[y])
  }

  lemma DoneStep(vs: seq<nat>, b: nat, c: nat)
    requires b < |vs| && c < |vs|
    ensures Done(vs, b, c + 1) == Done(vs, b, c) + {Pair(vs[b], vs[c])}
  {
  }

  lemma DoneRow(vs: seq<nat>, b: nat)
    ensures Done(vs, b, |vs|) == Done(vs, b + 1, 0)
  {
  }

  lemma DoneAll(vs: seq<nat>)
    ensures Done(vs, 0, 0) == {}
    ensures Done(vs, |vs|, 0) == AllPairs(vs)
  {
    forall i, j | i in vs && j in vs ensures Pair(i, j) in Done(vs, |vs|, 0) {
      var x :| 0 <= x < |vs| && vs[x] == i;
      var y :| 0 <= y < |vs| && vs[y] == j;
    }
  }

  // The recursive definitions, one step at a time.

  lemma VertexSetStep(g: seq<Edge>, n: nat)
    requires n < |g|
    ensures VertexSet(g[..n + 1]) == VertexSet(g[..n]) + {g[n].pair.source, g[n].pair.target}
  {
    assert g[..n + 1] == g[..n] + [g[n]];
  }

  lemma InitialSteps(vs: seq<nat>, g: seq<Edge>, n: nat)
    ensures VertexSet([]) == {} && Diagonal([]) == map[]
    ensures n < |vs| ==> Diagonal(vs[..n + 1]) == Diagonal(vs[..n])[Pair(vs[n], vs[n]) := Path(0.0, [])]
    ensures WithEdges(Diagonal(vs), []) == Diagonal(vs)
    ensures n < |g| ==> WithEdges(Diagonal(vs), g[..n + 1])
                        == WithEdges(Diagonal(vs), g[..n])[g[n].pair := Path(g[n].cost, [g[n]])]
  {
    if n < |vs| { assert vs[..n + 1] == vs[..n] + [vs[n]]; }
    if n < |g| { assert g[..n + 1][..n] == g[..n]; }
  }

  lemma LayerSteps(g: seq<Edge>, vs: seq<nat>, n: nat)
    requires n <= |vs|
    ensures TotalOrder(NatLe) && Vertices(g) == SortedSeq(VertexSet(g), NatLe)
    ensures Layer(g, vs, 0) == WithEdges(Diagonal(vs), g)
    ensures n < |vs| ==> Layer(g, vs, n + 1) == Phase(Layer(g, vs, n), vs, vs[n])
  {
    NatLeIsTotal();
  }

  lemma RelaxAtUnfolds(m: Matrix, k: nat, i: nat, j: nat)
    ensures var ij, ik, kj := Get(m, Pair(i, j)), Get(m, Pair(i, k)), Get(m, Pair(k, j));
            RelaxAt(m, k, Pair(i, j)) ==
            if ik.Some? && kj.Some? && (ij.None? || ij.value.totalCost > ik.value.totalCost + kj.value.totalCost)
            then m[Pair(i, j) := Path(ik.value.totalCost + kj.value.totalCost, ik.value.edges + kj.value.edges)]
            else m
  {
  }

  /** The vertices, and the matrix holding the empty paths and the single edges. */
  method InitialMatrix(edges: seq<Edge>) returns (vs: seq<nat>, matrix: Matrix)
    ensures vs == Vertices(edges) && matrix == Layer(edges, vs, 0)
  {
    hide VertexSet, Diagonal, WithEdges, TotalOrder, NoDuplicates, Ascending, Layer;
    InitialSteps([], [], 0);
    var vertexSet: set<nat> := {};
    for n := 0 to |edges|
      invariant vertexSet == VertexSet(edges[..n])
    {
      VertexSetStep(edges, n);
      vertexSet := vertexSet + {edges[n].pair.source, edges[n].pair.target};
    }
    assert edges[..|edges|] == edges;
    NatLeIsTotal();
    vs := SortedSeq(vertexSet, NatLe);

    matrix := map[];
    for n := 0 to |vs|
      invariant matrix == Diagonal(vs[..n])
    {
      InitialSteps(vs, edges, n);
      matrix := matrix[Pair(vs[n], vs[n]) := Path(0.0, [])];
    }
    assert vs[..|vs|] == vs;
    InitialSteps(vs, edges, 0);
    for n := 0 to |edges|
      invariant matrix == WithEdges(Diagonal(vs), edges[..n])
    {
      InitialSteps(vs, edges, n);
      matrix := matrix[edges[n].pair := Path(edges[n].cost, [edges[n]])];
    }
    LayerSteps(edges, vs, 0);
  }

  /** `floyd_warshall_shortest_paths`. */
  method FloydWarshallShortestPaths(edges: seq<Edge>) returns (r: Result<Matrix, PathCalculationError>)
    ensures r == Textbook(edges)
  {
    hide Sound, Improves, MidPhase, DistinctPairs, NegativeDiagonal, HasNegativeCycle, Done, AllPairs, Layer,
         Textbook, Vertices, RelaxAt, Get, Via, Phase, VertexSet, NoDuplicates, AllSimple, Dominates, Surviving,
         Relaxed, WithEdges, Diagonal, IsWalk, Cost;
    var vs, matrix := InitialMatrix(edges);
    ghost var g := Surviving(edges);
    SurvivingLayers(edges);
    InitialLayer(g);

    for a := 0 to |vs|
      invariant Sound(matrix, g, vs)
      invariant NegativeDiagonal(matrix, vs) || matrix == Layer(g, vs, a)
    {
      var k := vs[a];
      ghost var before := matrix;
      StartOfPhase(before, g, vs, k);
      for b := 0 to |vs|
        invariant Sound(matrix, g, vs) && Improves(before, matrix)
        invariant before[Pair(k, k)].totalCost >= 0.0 ==> MidPhase(before, matrix, k, Done(vs, b, 0))
      {
        for c := 0 to |vs|
          invariant Sound(matrix, g, vs) && Improves(before, matrix)
          invariant before[Pair(k, k)].totalCost >= 0.0 ==> MidPhase(before, matrix, k, Done(vs, b, c))
        {
          var i, j := vs[b], vs[c];
          InPlaceStep(before, matrix, g, vs, k, b, c);
          RelaxAtUnfolds(matrix, k, i, j);
          var ij, ik, kj := Get(matrix, Pair(i, j)), Get(matrix, Pair(i, k)), Get(matrix, Pair(k, j));
          if ik.Some? && kj.Some? {
            var cost := ik.value.totalCost + kj.value.totalCost;
            if ij.None? || ij.value.totalCost > cost {
              matrix := matrix[Pair(i, j) := Path(cost, ik.value.edges + kj.value.edges)];
            }
          }
        }
        DoneRow(vs, b);
      }
      EndOfInPlacePhase(before, matrix, g, vs, a);
      LayerSteps(g, vs, a);
    }

    for n := 0 to |vs|
      invariant forall x :: 0 <= x < n ==> Pair(vs[x], vs[x]) in matrix && matrix[Pair(vs[x], vs[x])].totalCost >= 0.0
    {
      StartOfPhase(matrix, g, vs, vs[n]);
      if matrix[Pair(vs[n], vs[n])].totalCost < 0.0 {
        InPlaceFailure(matrix, g, vs, vs[n]);
        return Failure(NegativeCyclesError);
      }
    }
    InPlaceSuccess(matrix, g, vs);
    return Success(matrix);
  }

  lemma InPlaceFailure(m: Matrix, g: seq<Edge>, vs: seq<nat>, v: nat)
    requires DistinctPairs(g) && Sound(m, g, vs) && v in vs
    requires Pair(v, v) in m && m[Pair(v, v)].totalCost < 0.0
    ensures Textbook(g) == Failure(NegativeCyclesError)
  {
    NegativeDiagonalIsCycle(m, g, vs);
    NegativeCycleDetectionIsExact(g);
  }

  lemma InPlaceSuccess(m: Matrix, g: seq<Edge>, vs: seq<nat>)
    requires vs == Vertices(g)
    requires NegativeDiagonal(m, vs) || m == Layer(g, vs, |vs|)
    requires forall x :: 0 <= x < |vs| ==> Pair(vs[x], vs[x]) in m && m[Pair(vs[x], vs[x])].totalCost >= 0.0
    ensures Textbook(g) == Success(m)
  {
    hide Layer;
  }

  lemma InPlaceStep(before: Matrix, m: Matrix, g: seq<Edge>, vs: seq<nat>, k: nat, b: nat, c: nat)
    requires Sound(m, g, vs) && Improves(before, m) && b < |vs| && c < |vs| && Pair(k, k) in before
    requires before[Pair(k, k)].totalCost >= 0.0 ==> MidPhase(before, m, k, Done(vs, b, c))
    ensures var m' := RelaxAt(m, k, Pair(vs[b], vs[c]));
            && Sound(m', g, vs) && Improves(before, m')
            && (before[Pair(k, k)].totalCost >= 0.0 ==> MidPhase(before, m', k, Done(vs, b, c + 1)))
  {
    hide RelaxAt, Sound, MidPhase, Done;
    RelaxAtSound(m, g, vs, k, Pair(vs[b], vs[c]));
    if before[Pair(k, k)].totalCost >= 0.0 {
      RelaxAtMidPhase(before, m, k, Done(vs, b, c), Pair(vs[b], vs[c]));
      DoneStep(vs, b, c);
    }
  }

  lemma StartOfPhase(m: Matrix, g: seq<Edge>, vs: seq<nat>, k: nat)
    requires Sound(m, g, vs) && k in vs
    ensures Pair(k, k) in m && Improves(m, m) && MidPhase(m, m, k, Done(vs, 0, 0))
  {
    DoneAll(vs);
  }

  /** A phase done in place agrees with the layered one, or a negative diagonal entry remains. */
  lemma EndOfInPlacePhase(before: Matrix, m: Matrix, g: seq<Edge>, vs: seq<nat>, a: nat)
    requires a < |vs| && Pair(vs[a], vs[a]) in before && Improves(before, m) && Sound(m, g, vs)
    requires before[Pair(vs[a], vs[a])].totalCost >= 0.0 ==> MidPhase(before, m, vs[a], Done(vs, |vs|, 0))
    ensures NegativeDiagonal(before, vs) ==> NegativeDiagonal(m, vs)
    ensures NegativeDiagonal(m, vs) || m == Phase(before, vs, vs[a])
  {
    hide Improves, Phase, MidPhase, Done;
    DoneAll(vs);
    if NegativeDiagonal(before, vs) {
      NegativeDiagonalStays(before, m, vs);
    } else {
      assert vs[a] in vs;
      EndOfPhase(before, m, vs, vs[a]);
    }
  }
}
