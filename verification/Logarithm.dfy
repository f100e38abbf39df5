/**
 What the reduction from products to sums needs of the base-2 logarithm. `lg` need only be a
 logarithm on the weights `ok`, a set of positive numbers closed under multiplication.
 `PowersHaveALog` shows such a set and such a function for every base above one.
 */
module Logarithm {

  ghost predicate TurnsProductIntoSum(lg: real -> real, ok: real -> bool, x: real, y: real) {
    ok(x) && ok(y) ==> ok(x * y) && lg(x * y) == lg(x) + lg(y)
  }

  ghost predicate LogOn(lg: real -> real, ok: real -> bool) {
    && ok(1.0)
    && (forall x :: ok(x) ==> x > 0.0)
    && (forall x, y :: TurnsProductIntoSum(lg, ok, x, y))
    && (forall x, y :: ok(x) && ok(y) && x < y ==> lg(x) < lg(y))
  }

  lemma LogOfOne(lg: real -> real, ok: real -> bool)
    requires LogOn(lg, ok)
    ensures ok(1.0) && lg(1.0) == 0.0
  {
    assert TurnsProductIntoSum(lg, ok, 1.0, 1.0);
    assert 1.0 * 1.0 == 1.0;
  }

  lemma LogOfProduct(lg: real -> real, ok: real -> bool, x: real, y: real, z: real)
    requires LogOn(lg, ok) && ok(x) && ok(y) && z == x * y
    ensures ok(z) && lg(z) == lg(x) + lg(y)
  {
    assert TurnsProductIntoSum(lg, ok, x, y);
  }

  lemma LogKeepsOrder(lg: real -> real, ok: real -> bool, x: real, y: real)
    requires LogOn(lg, ok) && ok(x) && ok(y)
    ensures lg(x) <= lg(y) <==> x <= y
  {
    if x < y {
      assert lg(x) < lg(y);
    } else if y < x {
      assert lg(y) < lg(x);
    }
  }

  // ---------- Powers of a base ----------

  type Base = b: real | b > 1.0 witness 2.0

  function Pow(b: Base, n: int): (r: real)
    ensures r > 0.0 && (n == 0 ==> r == 1.0)
    decreases if n >= 0 then n else -n
  {
    if n == 0 then 1.0 else if n > 0 then b * Pow(b, n - 1) else Pow(b, n + 1) / b
  }

  ghost predicate IsPower(b: Base, x: real) {
    exists n :: Pow(b, n) == x
  }

  ghost function SomeExponent(b: Base, x: real): (n: int)
    requires IsPower(b, x)
    ensures Pow(b, n) == x
  {
    var n :| Pow(b, n) == x;
    n
  }

  ghost function Exponent(b: Base, x: real): real {
    if IsPower(b, x) then SomeExponent(b, x) as real else 0.0
  }

  lemma PowNext(b: Base, n: int)
    ensures Pow(b, n + 1) == b * Pow(b, n)
  {
    if n < 0 {
      var x := Pow(b, n + 1);
      assert Pow(b, n) == x / b && b * (x / b) == x;
    }
  }

  lemma MoveFactor(x: real, b: real, y: real)
    ensures x * (b * y) == b * (x * y)
  {
  }

  lemma Cancel(b: real, x: real, y: real)
    requires b > 0.0 && b * x == b * y
    ensures x == y
  {
  }

  lemma {:induction false} PowSum(b: Base, m: int, n: int)
    ensures Pow(b, m + n) == Pow(b, m) * Pow(b, n)
    decreases if n >= 0 then n else -n
  {
    hide Pow;
    if n > 0 {
      PowSum(b, m, n - 1);
      PowNext(b, n - 1);
      PowNext(b, m + n - 1);
      MoveFactor(Pow(b, m), b, Pow(b, n - 1));
    } else if n < 0 {
      PowSum(b, m, n + 1);
      PowNext(b, n);
      PowNext(b, m + n);
      MoveFactor(Pow(b, m), b, Pow(b, n));
      Cancel(b, Pow(b, m + n), Pow(b, m) * Pow(b, n));
    }
  }

  lemma ProductGrows(b: Base, x: real, z: real)
    requires x > 0.0 && z == b * x
    ensures x < z
  {
    assert (b - 1.0) * x > 0.0;
  }

  lemma {:induction false} PowGrows(b: Base, m: int, n: int)
    requires m < n
    ensures Pow(b, m) < Pow(b, n)
    decreases n - m
  {
    hide Pow;
    PowNext(b, n - 1);
    ProductGrows(b, Pow(b, n - 1), Pow(b, n));
    if m < n - 1 {
      PowGrows(b, m, n - 1);
    }
  }

  lemma ExponentOf(b: Base, n: int)
    ensures Exponent(b, Pow(b, n)) == n as real
  {
    var m := SomeExponent(b, Pow(b, n));
    if m < n { PowGrows(b, m, n); }
    if n < m { PowGrows(b, n, m); }
  }

  lemma ExponentLaws(b: Base, x: real, y: real)
    requires IsPower(b, x) && IsPower(b, y)
    ensures IsPower(b, x * y) && Exponent(b, x * y) == Exponent(b, x) + Exponent(b, y)
    ensures x < y ==> Exponent(b, x) < Exponent(b, y)
    ensures x > 0.0
  {
    hide Pow, Exponent;
    var m, n := SomeExponent(b, x), SomeExponent(b, y);
    PowSum(b, m, n);
    ExponentOf(b, m);
    ExponentOf(b, n);
    ExponentOf(b, m + n);
    if n < m { PowGrows(b, n, m); }
  }

  /** The hypothesis on logarithms is satisfiable: exponents are a logarithm on the powers of any base. */
  lemma PowersHaveALog(b: Base)
    ensures LogOn(x => Exponent(b, x), x => IsPower(b, x))
  {
    hide Exponent, IsPower;
    var lg, ok := x => Exponent(b, x), x => IsPower(b, x);
    forall x, y ensures TurnsProductIntoSum(lg, ok, x, y) {
      if ok(x) && ok(y) { ExponentLaws(b, x, y); }
    }
    forall x, y | ok(x) && ok(y) ensures x > 0.0 && (x < y ==> lg(x) < lg(y)) {
      ExponentLaws(b, x, y);
    }
    PowersAreWeights(b, 0);
    forall x | ok(x) ensures x > 0.0 { ExponentLaws(b, x, x); }
  }

  lemma PowersAreWeights(b: Base, n: int)
    ensures IsPower(b, Pow(b, n)) && IsPower(b, 1.0)
  {
    assert Pow(b, 0) == 1.0;
  }
}
