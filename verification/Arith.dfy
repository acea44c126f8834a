/** Powers of two, and division facts the solver does not find by itself. */
module Arith {
  function Pow2(n: nat): (p: nat)
    ensures p > 0
  {
    if n == 0 then 1 else 2 * Pow2(n - 1)
  }

  lemma {:induction false} Pow2Grows(j: nat, k: nat)
    requires j <= k
    ensures Pow2(j) <= Pow2(k) && (j < k ==> Pow2(j) < Pow2(k))
    decreases k
  {
    if j < k {
      Pow2Grows(j, k - 1);
    }
  }

  /** 2^k - 1, all k bits set. */
  function Max(k: nat): nat {
    if k == 0 then 0 else 2 * Max(k - 1) + 1
  }

  lemma MulMono(a: int, b: int, d: int)
    requires a <= b && d > 0
    ensures a * d <= b * d
  {
  }

  lemma MulLess(a: int, b: int, d: int)
    requires a < b && d > 0
    ensures a * d + d <= b * d
  {
    MulMono(a + 1, b, d);
    assert (a + 1) * d == a * d + d;
  }

  /** Quotient and remainder are determined by their defining equation. */
  lemma DivUnique(x: int, q: int, r: int, d: int)
    requires d > 0 && 0 <= r < d && x == q * d + r
    ensures x / d == q && x % d == r
  {
    var p := x / d;
    assert x == p * d + x % d;
    if p < q {
      MulLess(p, q, d);
    }
    if q < p {
      MulLess(q, p, d);
    }
  }

  lemma DivAdd(b: nat, q: nat, d: nat)
    requires d > 0
    ensures (q * d + b) / d == q + b / d && (q * d + b) % d == b % d
  {
    var p := b / d;
    assert (q + p) * d == q * d + p * d;
    DivUnique(q * d + b, q + p, b % d, d);
  }

  /** n pieces of d, as a sum. */
  function Span(n: nat, d: nat): (r: nat)
    ensures n > 0 && d > 0 ==> r >= d
  {
    if n == 0 then 0 else Span(n - 1, d) + d
  }

  lemma {:induction false} SpanIsProduct(n: nat, d: nat)
    ensures Span(n, d) == n * d
  {
    if n > 0 {
      SpanIsProduct(n - 1, d);
      assert n * d == (n - 1) * d + d;
    }
  }

  lemma {:induction false} SpanAdd(n: nat, m: nat, d: nat)
    ensures Span(n + m, d) == Span(n, d) + Span(m, d)
    decreases m
  {
    if m > 0 {
      SpanAdd(n, m - 1, d);
    }
  }

  lemma SpanOfDiv(x: nat, d: nat)
    requires d > 0
    ensures Span(x / d, d) + x % d == x
  {
    SpanIsProduct(x / d, d);
  }

  lemma DivOfSpan(n: nat, b: nat, d: nat)
    requires d > 0
    ensures (Span(n, d) + b) / d == n + b / d && (Span(n, d) + b) % d == b % d
  {
    SpanIsProduct(n, d);
    DivAdd(b, n, d);
  }

  lemma SpanMono(n: nat, m: nat, d: nat)
    ensures n <= m ==> Span(n, d) <= Span(m, d)
    ensures n < m ==> Span(n, d) + d <= Span(m, d)
  {
    if n < m {
      SpanAdd(n, m - n, d);
    } else if n == m {
    }
  }
}
