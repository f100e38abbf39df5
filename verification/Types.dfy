/** The pallet's own data types. */
module Types {
  import opened Ordered

  /** Currencies are byte strings in the runtime; a byte is a character here. */
  type Currency = string

  const U128_MAX: int := 0xFFFF_FFFF_FFFF_FFFF_FFFF_FFFF_FFFF_FFFF

  type u128 = n: int | 0 <= n <= U128_MAX

  datatype Provider = CRYPTOCOMPARE

  datatype CurrencyPair = CurrencyPair(source: Currency, target: Currency)

  datatype ProviderPair = ProviderPair(pair: CurrencyPair, provider: Provider)

  datatype Operation = Add | Del

  datatype ProviderPairOperation = ProviderPairOperation(providerPair: ProviderPair, operation: Operation)

  datatype PathStep = PathStep(pair: CurrencyPair, provider: Provider, cost: u128)

  datatype PricePath = PricePath(totalCost: u128, steps: seq<PathStep>)

  datatype CalculatorError = NegativeCyclesError | ConversionError

  /** A fetched price, in units of 10^-12. */
  datatype Quote = Quote(providerPair: ProviderPair, price: u128)

  // ---------- The orders used by the ordered containers ----------

  predicate CurrencyLe(a: Currency, b: Currency) {
    if a == [] then true
    else if b == [] then false
    else if a[0] != b[0] then a[0] < b[0]
    else CurrencyLe(a[1..], b[1..])
  }

  predicate CurrencyPairLe(p: CurrencyPair, q: CurrencyPair) {
    if p.source != q.source then CurrencyLe(p.source, q.source) else CurrencyLe(p.target, q.target)
  }

  predicate ProviderLe(a: Provider, b: Provider) { true }

  lemma {:induction false} CurrencyLeTotal(a: Currency, b: Currency)
    ensures CurrencyLe(a, b) || CurrencyLe(b, a)
  {
    if a != [] && b != [] { CurrencyLeTotal(a[1..], b[1..]); }
  }

  lemma {:induction false} CurrencyLeAntisymmetric(a: Currency, b: Currency)
    requires CurrencyLe(a, b) && CurrencyLe(b, a)
    ensures a == b
  {
    if a != [] && b != [] {
      CurrencyLeAntisymmetric(a[1..], b[1..]);
      assert a == [a[0]] + a[1..] && b == [b[0]] + b[1..];
    }
  }

  lemma {:induction false} CurrencyLeTransitive(a: Currency, b: Currency, c: Currency)
    requires CurrencyLe(a, b) && CurrencyLe(b, c)
    ensures CurrencyLe(a, c)
  {
    if a != [] && b != [] && c != [] && a[0] == b[0] == c[0] {
      CurrencyLeTransitive(a[1..], b[1..], c[1..]);
    }
  }

  /** The order of byte strings: the first difference decides, and a prefix comes first. */
  lemma {:induction false} CurrencyLeIsLexicographic(a: Currency, b: Currency)
    ensures CurrencyLe(a, b) <==> a <= b || exists n: nat :: DiffersFirstAt(a, b, n) && a[n] < b[n]
  {
    if a != [] && b != [] && a[0] == b[0] {
      CurrencyLeIsLexicographic(a[1..], b[1..]);
      assert a <= b <==> a[1..] <= b[1..];
      if n: nat :| DiffersFirstAt(a[1..], b[1..], n) && a[1..][n] < b[1..][n] {
        DiffersLater(a, b, n);
        assert a[n + 1] < b[n + 1];
      }
      if n: nat :| DiffersFirstAt(a, b, n) && a[n] < b[n] {
        DiffersLater(a, b, n - 1);
        assert a[1..][n - 1] < b[1..][n - 1];
      }
    } else if a != [] && b != [] {
      assert DiffersFirstAt(a, b, 0);
    }
  }

  ghost predicate DiffersFirstAt(a: Currency, b: Currency, n: nat)
    ensures DiffersFirstAt(a, b, n) ==> n < |a| && n < |b|
  {
    n < |a| && n < |b| && a[..n] == b[..n] && a[n] != b[n]
  }

  lemma DiffersLater(a: Currency, b: Currency, n: nat)
    requires a != [] && b != [] && a[0] == b[0]
    ensures DiffersFirstAt(a[1..], b[1..], n) <==> DiffersFirstAt(a, b, n + 1)
  {
    if n + 1 < |a| && n + 1 < |b| {
      assert a[..n + 1] == [a[0]] + a[1..][..n] && b[..n + 1] == [b[0]] + b[1..][..n];
    }
  }

  lemma CurrencyLeIsTotalOrder()
    ensures TotalOrder(CurrencyLe)
  {
    hide CurrencyLe;
    forall a, b ensures CurrencyLe(a, b) || CurrencyLe(b, a) { CurrencyLeTotal(a, b); }
    forall a, b | CurrencyLe(a, b) && CurrencyLe(b, a) ensures a == b { CurrencyLeAntisymmetric(a, b); }
    forall a, b, c | CurrencyLe(a, b) && CurrencyLe(b, c) ensures CurrencyLe(a, c) { CurrencyLeTransitive(a, b, c); }
  }

  lemma CurrencyPairLeIsTotalOrder()
    ensures TotalOrder(CurrencyPairLe)
  {
    hide CurrencyLe;
    CurrencyLeIsTotalOrder();
  }

  lemma ProviderLeIsTotalOrder()
    ensures TotalOrder(ProviderLe)
  {
  }
}
