/**
 The data of the shortest-path engine and the walks it ranges over.

 Costs are exact reals: rounding, NaN and infinities of `f64` are not modelled. Where the
 original writes `f64::MAX` for "no path known", the model has no matrix entry.
 */
module Graph {
  datatype Pair = Pair(source: nat, target: nat)

  datatype Edge = Edge(pair: Pair, provider: nat, cost: real)

  datatype Path = Path(totalCost: real, edges: seq<Edge>)

  /** `w` is a contiguous chain of edges of `g` leading from `i` to `j`. */
  ghost predicate IsWalk(g: seq<Edge>, w: seq<Edge>, i: nat, j: nat) {
    if w == [] then i == j
    else w[0] in g && w[0].pair.source == i && IsWalk(g, w[1..], w[0].pair.target, j)
  }

  ghost function Cost(w: seq<Edge>): real {
    if w == [] then 0.0 else w[0].cost + Cost(w[1..])
  }

  /** The vertex reached after the first `n` edges of a walk that starts at `i`. */
  ghost function VertexAt(w: seq<Edge>, i: nat, n: nat): nat
    requires n <= |w|
  {
    if n == 0 then i else w[n - 1].pair.target
  }

  /** Every vertex strictly inside the walk lies in `through`. */
  ghost predicate Interior(w: seq<Edge>, through: set<nat>) {
    forall n :: 0 <= n < |w| - 1 ==> w[n].pair.target in through
  }

  /** No vertex is met twice, except that a closed walk ends where it began. */
  ghost predicate Simple(w: seq<Edge>, i: nat) {
    forall a, b :: 0 <= a < b <= |w| && VertexAt(w, i, a) == VertexAt(w, i, b) ==> a == 0 && b == |w|
  }

  /** Some closed walk of the graph has negative cost. */
  ghost predicate HasNegativeCycle(g: seq<Edge>) {
    exists w, i :: IsWalk(g, w, i, i) && Cost(w) < 0.0
  }

  lemma {:induction false} CostConcat(a: seq<Edge>, b: seq<Edge>)
    ensures Cost(a + b) == Cost(a) + Cost(b)
  {
    if a == [] {
      assert a + b == b;
    } else {
      assert (a + b)[1..] == a[1..] + b;
      CostConcat(a[1..], b);
    }
  }

  lemma {:induction false} WalkConcat(g: seq<Edge>, a: seq<Edge>, i: nat, m: nat, b: seq<Edge>, j: nat)
    requires IsWalk(g, a, i, m) && IsWalk(g, b, m, j)
    ensures IsWalk(g, a + b, i, j)
    ensures Cost(a + b) == Cost(a) + Cost(b)
  {
    CostConcat(a, b);
    if a == [] {
      assert a + b == b;
    } else {
      assert (a + b)[1..] == a[1..] + b;
      WalkConcat(g, a[1..], a[0].pair.target, m, b, j);
    }
  }

  lemma {:induction false} WalkSplit(g: seq<Edge>, w: seq<Edge>, i: nat, j: nat, n: nat)
    requires IsWalk(g, w, i, j) && n <= |w|
    ensures IsWalk(g, w[..n], i, VertexAt(w, i, n))
    ensures IsWalk(g, w[n..], VertexAt(w, i, n), j)
    ensures Cost(w) == Cost(w[..n]) + Cost(w[n..])
  {
    assert w == w[..n] + w[n..];
    CostConcat(w[..n], w[n..]);
    if n > 0 {
      WalkSplit(g, w[1..], w[0].pair.target, j, n - 1);
      assert w[1..][n - 1..] == w[n..];
      assert w[..n][1..] == w[1..][..n - 1];
    }
  }

  lemma {:induction false} WalkEnd(g: seq<Edge>, w: seq<Edge>, i: nat, j: nat)
    requires IsWalk(g, w, i, j)
    ensures VertexAt(w, i, |w|) == j
    ensures forall e :: e in w ==> e in g
  {
    if w != [] {
      WalkEnd(g, w[1..], w[0].pair.target, j);
    }
  }

  /** Cutting the closed part between two visits of the same vertex leaves a walk. */
  lemma CutCycle(g: seq<Edge>, w: seq<Edge>, i: nat, j: nat, a: nat, b: nat)
    requires IsWalk(g, w, i, j) && a <= b <= |w|
    requires VertexAt(w, i, a) == VertexAt(w, i, b)
    ensures IsWalk(g, w[..a] + w[b..], i, j)
    ensures IsWalk(g, w[a..b], VertexAt(w, i, a), VertexAt(w, i, a))
    ensures Cost(w) == Cost(w[..a] + w[b..]) + Cost(w[a..b])
  {
    var v := VertexAt(w, i, a);
    WalkSplit(g, w, i, j, a);
    WalkSplit(g, w, i, j, b);
    WalkSplit(g, w[..b], i, v, a);
    assert w[..b][..a] == w[..a] && w[..b][a..] == w[a..b];
    WalkConcat(g, w[..a], i, v, w[b..], j);
  }

  /** Walks of a graph stay walks in any graph that has at least the same edges. */
  lemma {:induction false} WalkMono(g: seq<Edge>, h: seq<Edge>, w: seq<Edge>, i: nat, j: nat)
    requires IsWalk(g, w, i, j)
    requires forall e :: e in w ==> e in h
    ensures IsWalk(h, w, i, j)
  {
    if w != [] {
      WalkMono(g, h, w[1..], w[0].pair.target, j);
    }
  }
}
