/** Unsigned division and multiplication by repeated subtraction and addition, to reason about them linearly. */
module Division {

  function Quotient(n: nat, d: nat): nat
    requires d > 0
  {
    if n < d then 0 else Quotient(n - d, d) + 1
  }

  lemma MulMono(d: nat, q: nat, r: nat)
    requires q <= r
    ensures d * q <= d * r
  {
    assert d * r == d * q + d * (r - q);
  }

  lemma {:induction false} QuotientBounds(n: nat, d: nat)
    requires d > 0
    ensures d * Quotient(n, d) <= n < d * Quotient(n, d) + d
  {
    if n >= d {
      QuotientBounds(n - d, d);
      assert d * (Quotient(n - d, d) + 1) == d * Quotient(n - d, d) + d;
    }
  }

  /** It is the division of the language. */
  lemma QuotientIsDivision(n: nat, d: nat)
    requires d > 0
    ensures Quotient(n, d) == n / d
  {
    var q, e := Quotient(n, d), n / d;
    QuotientBounds(n, d);
    assert n == d * e + n % d;
    if e < q {
      MulMono(d, e + 1, q);
    } else if e > q {
      MulMono(d, q + 1, e);
    }
  }

  lemma {:induction false} QuotientStep(n: nat, d: nat)
    requires d > 0
    ensures Quotient(n, d) <= Quotient(n + 1, d) <= Quotient(n, d) + 1
  {
    if n >= d { QuotientStep(n - d, d); }
  }

  /** Fewer than q multiples of d fit into x when x < d * q. */
  lemma QuotientBelow(x: nat, d: nat, q: nat)
    requires d > 0 && x < d * q
    ensures Quotient(x, d) < q
  {
    QuotientBounds(x, d);
    if Quotient(x, d) >= q { MulMono(d, q, Quotient(x, d)); }
  }

  /** The product, by repeated addition. */
  function Times(k: nat, d: nat): nat {
    if k == 0 then 0 else Times(k - 1, d) + d
  }

  lemma {:induction false} TimesIsProduct(k: nat, d: nat)
    ensures Times(k, d) == k * d
  {
    if k > 0 {
      TimesIsProduct(k - 1, d);
      assert k * d == (k - 1) * d + d;
    }
  }

  lemma {:induction false} TimesMono(k: nat, l: nat, d: nat)
    requires k <= l
    ensures Times(k, d) <= Times(l, d)
    ensures k < l ==> Times(k, d) + d <= Times(l, d)
  {
    if k < l { TimesMono(k, l - 1, d); }
  }

  lemma {:induction false} TimesAdd(k: nat, l: nat, d: nat)
    ensures Times(k + l, d) == Times(k, d) + Times(l, d)
  {
    if l > 0 { TimesAdd(k, l - 1, d); }
  }

  lemma MulGe(k: int, d: int)
    requires d > 0 && k >= 1
    ensures k * d >= d
  {
    assert k * d == d + (k - 1) * d;
  }

  lemma DivModUnique(x: int, d: int, q: int, r: int)
    requires d > 0 && x == q * d + r && 0 <= r < d
    ensures x / d == q && x % d == r
  {
    var e := x / d;
    assert x == e * d + x % d;
    assert (q - e) * d == q * d - e * d && (e - q) * d == e * d - q * d;
    if e < q { MulGe(q - e, d); } else if e > q { MulGe(e - q, d); }
  }
}
