/** Integer arithmetic facts, each proved alone so that the proofs that use them stay linear. */
module Arith {

  lemma Distribute(a: int, b: int, c: int)
    ensures a * (b + c) == a * b + a * c
    ensures (b + c) * a == b * a + c * a
  {
  }

  lemma Associate(a: int, b: int, c: int)
    ensures (a * b) * c == a * (b * c)
    ensures (a * b) * c == b * (a * c)
  {
  }

  lemma MulMonotone(a: int, b: int, c: int)
    requires a <= b && 0 <= c
    ensures a * c <= b * c && c * a <= c * b
  {
  }

  /** Quotient and remainder are determined by the division equation. */
  lemma DivModUnique(a: int, n: int, q: int, r: int)
    requires n > 0 && 0 <= r < n && a == n * q + r
    ensures a / n == q && a % n == r
  {
    var q', r' := a / n, a % n;
    assert a == n * q' + r';
    Distribute(n, q - q', q');
    assert n * (q - q') == r' - r;
    if q > q' { MulMonotone(1, q - q', n); }
    if q < q' { MulMonotone(q - q', -1, n); }
  }

  lemma ModShift(a: int, n: int, t: int)
    requires n > 0
    ensures (a + n * t) % n == a % n && (a + n * t) / n == a / n + t
  {
    Distribute(n, a / n, t);
    DivModUnique(a + n * t, n, a / n + t, a % n);
  }

  /** The index u + m * q lies in row q of a p by m layout. */
  lemma RowIndex(u: int, q: int, m: int, p: int)
    requires 0 <= u < m && 0 <= q < p
    ensures 0 <= m * q && m * q + m <= p * m && u + m * q < p * m
    ensures (u + m * q) % m == u && (u + m * q) / m == q
  {
    MulMonotone(q + 1, p, m);
    MulMonotone(0, q, m);
    Distribute(m, q, 1);
    DivModUnique(u + m * q, m, q, u);
  }

  // ---------------------------------------------------------- divisibility

  ghost predicate Divides(d: int, n: int) { exists k :: n == d * k }

  ghost predicate Prime(p: int) { p >= 2 && forall d {:trigger Divides(d, p)} :: 2 <= d < p ==> !Divides(d, p) }

  lemma DividesIsMod(d: int, n: int)
    requires d > 0
    ensures Divides(d, n) <==> n % d == 0
  {
    if Divides(d, n) {
      var k :| n == d * k;
      DivModUnique(n, d, k, 0);
    }
    if n % d == 0 {
      var k := n / d;
      assert n == d * k;
    }
  }

  lemma DividesTransitive(a: int, b: int, c: int)
    requires Divides(a, b) && Divides(b, c)
    ensures Divides(a, c)
  {
    var j :| b == a * j;
    var k :| c == b * k;
    Associate(a, j, k);
    assert c == a * (j * k);
  }

  lemma QuotientDivides(n: int, p: int)
    requires p > 0 && n % p == 0
    ensures Divides(n / p, n) && Divides(p, n) && n == p * (n / p)
  {
    var q := n / p;
    assert n == q * p;
    assert n == p * q;
  }

  function Pow2(k: nat): (r: nat)
    ensures r > 0
  {
    if k == 0 then 1 else 2 * Pow2(k - 1)
  }

  lemma {:induction false} Pow2Sum(j: nat, k: nat)
    ensures Pow2(j + k) == Pow2(j) * Pow2(k)
    ensures Pow2(k) > 0
  {
    if j > 0 {
      Pow2Sum(j - 1, k);
      Associate(2, Pow2(j - 1), Pow2(k));
    } else if k > 0 {
      Pow2Sum(j, k - 1);
    }
  }

  lemma {:induction false} Pow2Monotone(j: nat, k: nat)
    requires j <= k
    ensures 0 < Pow2(j) <= Pow2(k)
    decreases j, k
  {
    if j > 0 { Pow2Monotone(j - 1, k - 1); } else if k > 0 { Pow2Monotone(0, k - 1); }
  }

  lemma Pow2Values()
    ensures Pow2(8) == 256 && Pow2(9) == 512 && Pow2(16) == 0x1_0000 && Pow2(31) == 0x8000_0000
  {
    assert Pow2(4) == 16;
    Pow2Sum(4, 4);
    Pow2Sum(8, 8);
    assert Pow2(7) == 8 * Pow2(4);
    Pow2Sum(7, 8);
    Pow2Sum(15, 16);
  }
}
