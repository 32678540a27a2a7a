/** Multiples, quotients and remainders: the non-linear facts the other modules need. */
module Arithmetic {

  lemma {:induction false} TimesAtLeast(d: int, m: int)
    requires d > 0 && m > 0
    ensures d * m >= m
    decreases d
  {
    if d > 1 {
      TimesAtLeast(d - 1, m);
      assert d * m == (d - 1) * m + m;
    }
  }

  lemma Distribute(p: int, q: int, m: int)
    ensures (p + q) * m == p * m + q * m
  {
  }

  /** Multiples of m are at least m apart. */
  lemma Scale(p: int, q: int, m: int)
    requires m > 0
    ensures p * m < q * m ==> p * m + m <= q * m
    ensures p <= q ==> p * m <= q * m
    ensures p < q ==> p * m + m <= q * m
  {
    if p < q {
      Distribute(p, q - p, m);
      TimesAtLeast(q - p, m);
    } else if q < p {
      Distribute(q, p - q, m);
      TimesAtLeast(p - q, m);
    }
  }

  lemma DivMod(v: int, m: int)
    requires m > 0
    ensures v == (v / m) * m + v % m && 0 <= v % m < m
  {
  }

  lemma QuotientUnique(m: int, a: int, r: int, b: int, s: int)
    requires m > 0 && a * m + r == b * m + s && 0 <= r < m && 0 <= s < m
    ensures a == b && r == s
  {
    Scale(a, b, m);
    Scale(b, a, m);
  }

  lemma Remainder(v: int, m: int, q: int, r: int)
    requires m > 0 && v == q * m + r && 0 <= r < m
    ensures v % m == r && v / m == q
  {
    DivMod(v, m);
    QuotientUnique(m, v / m, v % m, q, r);
  }

  lemma MultipleOf(k: int, m: int)
    requires m > 0
    ensures (k * m) % m == 0 && (k * m) / m == k
  {
    Remainder(k * m, m, k, 0);
  }

  lemma ModAddMultiple(v: int, k: int, m: int)
    requires m > 0
    ensures (v + k * m) % m == v % m
  {
    DivMod(v, m);
    Distribute(v / m, k, m);
    Remainder(v + k * m, m, v / m + k, v % m);
  }

  lemma MultiplesApart(a: int, b: int, m: int)
    requires m > 0 && a % m == 0 && b % m == 0
    ensures a < b ==> a + m <= b
    ensures (b - a) % m == 0 && (b - a) / m * m == b - a
  {
    DivMod(a, m);
    DivMod(b, m);
    Scale(a / m, b / m, m);
    Distribute(b / m, -(a / m), m);
    MultipleOf(b / m - a / m, m);
  }

  // Sums

  function Sum(s: seq<int>): int {
    if s == [] then 0 else Sum(s[..|s| - 1]) + s[|s| - 1]
  }

  lemma {:induction false} SumUpdate(s: seq<int>, k: nat, x: int)
    requires k < |s|
    ensures Sum(s[k := x]) == Sum(s) - s[k] + x
  {
    var n := |s| - 1;
    assert s[k := x][..n] == if k == n then s[..n] else s[..n][k := x];
    if k < n {
      SumUpdate(s[..n], k, x);
    }
  }

  lemma {:induction false} SumNat(s: seq<int>)
    requires forall i :: 0 <= i < |s| ==> s[i] >= 0
    ensures Sum(s) >= 0
  {
    if s != [] {
      SumNat(s[..|s| - 1]);
    }
  }

  function Pow2(n: nat): (r: nat)
    ensures r > 0
  {
    if n == 0 then 1 else 2 * Pow2(n - 1)
  }
}
