/** Division, remainder and powers, in the few forms the other modules use. */
module Arith {

  lemma MulMono(d: nat, a: int, b: int)
    requires a <= b
    ensures d * a <= d * b
  {}

  /** Quotient and remainder are determined by the division equation. */
  lemma {:induction false} DivModUnique(x: int, q: int, r: int, d: nat)
    requires 0 <= r < d && x == d * q + r
    ensures x / d == q && x % d == r
  {
    var q' := x / d;
    assert x == d * q' + x % d;
    if q' < q {
      MulMono(d, q' + 1, q);
    } else if q < q' {
      MulMono(d, q + 1, q');
    }
  }

  /** The division equation, and that dividing makes smaller. */
  lemma {:induction false} DivFacts(n: nat, d: nat)
    requires d > 0
    ensures n == d * (n / d) + n % d && 0 <= n % d < d && 0 <= n / d <= n
    ensures d >= 2 && n > 0 ==> n / d < n
    ensures n / d > 0 <==> n >= d
  {
    var q, r := n / d, n % d;
    assert n == d * q + r && 0 <= r < d;
    QuotientFacts(n, d, q, r);
  }

  lemma QuotientFacts(n: nat, d: nat, q: int, r: int)
    requires d > 0 && n == d * q + r && 0 <= r < d
    ensures 0 <= q <= n
    ensures d >= 2 && n > 0 ==> q < n
    ensures q > 0 <==> n >= d
  {
    if q < 0 {
      MulMono(d, q, -1);
    } else if q > 0 {
      MulMono(d, 1, q);
      MulMono(q, 1, d);
      if d >= 2 { MulMono(q, 2, d); }
    }
  }

  function Pow(b: nat, e: nat): (p: nat)
    ensures b > 0 ==> p > 0
  {
    if e == 0 then 1 else b * Pow(b, e - 1)
  }
}
