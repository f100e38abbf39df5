/** The relative-change test that keeps small price moves off the chain. */
module Tolerance {
  import opened Wrappers
  import opened Types

  const MILLION: u128 := 1_000_000

  function SaturatingMul(a: u128, b: u128): u128 {
    if a * b > U128_MAX then U128_MAX else a * b
  }

  function Distance(a: u128, b: u128): u128 {
    if a > b then a - b else b - a
  }

  /** `breaches_tolerance`; `None` is the panic on dividing by a stored cost of zero. */
  function BreachesTolerance(stored: u128, latest: u128, tolerance: nat): Option<bool> {
    if stored == 0 then None
    else Some(SaturatingMul(MILLION, Distance(stored, latest)) / stored > tolerance)
  }

  /** The cost rose or fell by at least `tolerance + 1` millionths of the stored cost; no rounding. */
  predicate TrulyBreaches(stored: u128, latest: u128, tolerance: nat) {
    || 1_000_000 * (latest - stored) >= (tolerance + 1) * stored
    || 1_000_000 * (stored - latest) >= (tolerance + 1) * stored
  }

  lemma QuotientExceeds(a: nat, b: nat, t: nat)
    requires b > 0
    ensures a / b > t <==> a >= (t + 1) * b
  {
    var q := a / b;
    assert q * b <= a < (q + 1) * b;
    if q > t {
      assert q * b >= (t + 1) * b;
    } else {
      assert (q + 1) * b <= (t + 1) * b;
    }
  }

  /** A product with a distance reaches a bound exactly when one of the two differences does. */
  lemma DistanceReaches(a: u128, b: u128, bound: nat)
    requires bound > 0
    ensures MILLION * Distance(a, b) >= bound <==> 1_000_000 * (b - a) >= bound || 1_000_000 * (a - b) >= bound
  {
  }

  /**
   The test panics exactly on a stored cost of zero. For every other: a breach is reported if
   and only if the cost truly rose or fell so far and the threshold it must reach still fits
   in 128 bits. So no breach is ever reported falsely, and below the bound none is missed.
   */
  lemma BreachIsExactUpToSaturation(stored: u128, latest: u128, tolerance: nat)
    ensures BreachesTolerance(stored, latest, tolerance)
            == if stored == 0 then None
               else Some(TrulyBreaches(stored, latest, tolerance)
                         && (tolerance + 1) * stored <= 0xFFFF_FFFF_FFFF_FFFF_FFFF_FFFF_FFFF_FFFF)
  {
    if stored > 0 {
      QuotientExceeds(SaturatingMul(MILLION, Distance(stored, latest)), stored, tolerance);
      assert (tolerance + 1) * stored > 0;
      DistanceReaches(stored, latest, (tolerance + 1) * stored);
    }
  }

  /** Above the bound a breach can be missed: here the cost drops to zero unnoticed. */
  lemma BreachCanBeMissed()
    ensures var stored := 0x8000_0000_0000_0000_0000_0000_0000_0000;
            TrulyBreaches(stored, 0, 1) && BreachesTolerance(stored, 0, 1) == Some(false)
  {
    BreachIsExactUpToSaturation(0x8000_0000_0000_0000_0000_0000_0000_0000, 0, 1);
  }
}
