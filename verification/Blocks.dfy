/** Equal blocks of units: products, quotients and remainders without multiplication by a variable,
    which keeps the proofs that use them linear. */
module Blocks {
  /** `n` blocks of `size` units: their product, as repeated addition. */
  function Span(n: nat, size: nat): nat {
    if n == 0 then 0 else Span(n - 1, size) + size
  }

  lemma {:induction false} SpanIsProduct(n: nat, cs: nat)
    ensures Span(n, cs) == n * cs
  {
    if n > 0 {
      SpanIsProduct(n - 1, cs);
      assert (n - 1) * cs + cs == n * cs;
    }
  }

  lemma {:induction false} SpanStep(a: nat, b: nat, cs: nat)
    requires a < b
    ensures Span(a, cs) + cs <= Span(b, cs)
  {
    if a < b - 1 { SpanStep(a, b - 1, cs); }
  }

  /** `n / cs` and `n % cs`, as repeated subtraction. */
  function Quot(n: nat, cs: nat): nat
    requires cs > 0
  {
    if n < cs then 0 else 1 + Quot(n - cs, cs)
  }

  function Rem(n: nat, cs: nat): (r: nat)
    requires cs > 0
    ensures r < cs
  {
    if n < cs then n else Rem(n - cs, cs)
  }

  lemma {:induction false} DivSpan(n: nat, cs: nat)
    requires cs > 0
    ensures n == Span(Quot(n, cs), cs) + Rem(n, cs)
  {
    if n >= cs { DivSpan(n - cs, cs); }
  }

  lemma QuotientUnique(q: nat, r: nat, k: nat, o: nat, cs: nat)
    requires r < cs && o < cs && q * cs + r == k * cs + o
    ensures q == k && r == o
  {
    SpanIsProduct(q, cs);
    SpanIsProduct(k, cs);
    if q < k { SpanStep(q, k, cs); }
    if k < q { SpanStep(k, q, cs); }
  }

  lemma QuotIsDivision(n: nat, cs: nat)
    requires cs > 0
    ensures Quot(n, cs) == n / cs && Rem(n, cs) == n % cs
  {
    DivSpan(n, cs);
    SpanIsProduct(Quot(n, cs), cs);
    assert n == (n / cs) * cs + n % cs;
    QuotientUnique(n / cs, n % cs, Quot(n, cs), Rem(n, cs), cs);
  }

  /** A position before the end of `k` clusters lies in one of them. */
  lemma IndexBelow(n: nat, k: nat, cs: nat)
    requires cs > 0 && n < Span(k, cs)
    ensures Quot(n, cs) < k
  {
    DivSpan(n, cs);
    if k <= Quot(n, cs) {
      if k < Quot(n, cs) { SpanStep(k, Quot(n, cs), cs); }
      assert false;
    }
  }

  /** Positions are determined by cluster number and offset. */
  lemma IndexOfSpan(n: nat, k: nat, cs: nat, o: nat)
    requires cs > 0 && o < cs && n == Span(k, cs) + o
    ensures Quot(n, cs) == k && Rem(n, cs) == o
  {
    DivSpan(n, cs);
    if Quot(n, cs) < k { SpanStep(Quot(n, cs), k, cs); }
    if k < Quot(n, cs) { SpanStep(k, Quot(n, cs), cs); }
  }
}
