/** Factor lists and fast transform sizes: kf_factor and kiss_fft_next_fast_size. */
module Factor {
  import opened Arith

  const MAXFACTORS := 32

  ghost predicate IsRoot(r: nat, n: nat) { r * r <= n < (r + 1) * (r + 1) }

  /** The largest r with r * r <= n, as floor(sqrt(n)) returns it. */
  function FloorSqrt(n: nat): (r: nat)
    ensures IsRoot(r, n)
  {
    if n == 0 then 0 else
      var r := FloorSqrt(n - 1);
      if (r + 1) * (r + 1) <= n then r + 1 else r
  }

  // ------------------------------------------------- building a factor list

  /** The factor list is p1, m1, p2, m2, ... with p1 * m1 == n, p2 * m2 == m1, ... down to 1. */
  ghost predicate Stages(factors: seq<nat>, n: nat) {
    && |factors| >= 2
    && factors[0] > 0
    && factors[1] > 0
    && factors[0] * factors[1] == n
    && (factors[1] != 1 ==> Stages(factors[2..], factors[1]))
  }

  /** The pairs lead from n0 down to n, each p * m being the previous m. */
  ghost predicate Links(facs: seq<nat>, n0: nat, n: nat) {
    if |facs| == 0 then n == n0 else
      && |facs| >= 2 && facs[0] > 0 && facs[1] > 0
      && facs[0] * facs[1] == n0
      && Links(facs[2..], facs[1], n)
  }

  lemma {:induction false} LinksSnoc(facs: seq<nat>, n0: nat, n: nat, p: nat, m: nat)
    requires Links(facs, n0, n) && p > 0 && m > 0 && p * m == n
    ensures Links(facs + [p, m], n0, m)
  {
    if |facs| > 0 {
      LinksSnoc(facs[2..], facs[1], n, p, m);
      assert (facs + [p, m])[2..] == facs[2..] + [p, m];
    } else {
      assert (facs + [p, m])[2..] == [];
    }
  }

  /** A complete list, whose only 1 is the last quotient, is what the transform recurses over. */
  lemma {:induction false} LinksAreStages(facs: seq<nat>, n0: nat)
    requires |facs| >= 2 && Links(facs, n0, 1)
    requires forall i :: 0 <= i < |facs| - 2 && i % 2 == 1 ==> facs[i] != 1
    ensures Stages(facs, n0)
  {
    if |facs| > 2 {
      assert |facs| >= 4;
      forall i | 0 <= i < |facs| - 4 && i % 2 == 1 ensures facs[2..][i] != 1 {
        assert facs[i + 2] != 1;
      }
      LinksAreStages(facs[2..], facs[1]);
    } else {
      assert facs[2..] == [];
    }
  }

  // ------------------------------------------------- trial division

  /** No number from 2 up to p - 1 divides n. */
  ghost predicate Sieved(n: int, p: int) { forall d {:trigger Divides(d, n)} :: 2 <= d < p ==> !Divides(d, n) }

  lemma SieveStep(n: nat, p: nat)
    requires n > 0 && p >= 3 && p % 2 == 1 && Sieved(n, p) && n % p != 0
    ensures Sieved(n, p + 2)
  {
    forall d | 2 <= d < p + 2 ensures !Divides(d, n) {
      DividesIsMod(p, n);
      if Divides(d, n) && d == p + 1 {
        assert d == 2 * ((p + 1) / 2);
        assert Divides(2, d);
        DividesTransitive(2, d, n);
      }
    }
  }

  /** A sieved divisor is prime. */
  lemma SievedIsPrime(n: nat, p: nat)
    requires n > 0 && p >= 2 && n % p == 0 && Sieved(n, p)
    ensures Prime(p)
  {
    DividesIsMod(p, n);
    forall d | 2 <= d < p ensures !Divides(d, p) {
      if Divides(d, p) { DividesTransitive(d, p, n); }
    }
  }

  /** What is left when the trial divisors pass the square root of the original is prime. */
  lemma RestIsPrime(n: nat, p: nat, root: nat, n0: nat)
    requires 2 <= n <= n0 && IsRoot(root, n0) && root < p && Sieved(n, p)
    ensures Sieved(n, n)
  {
    forall d | 2 <= d < n ensures !Divides(d, n) {
      if Divides(d, n) {
        var e :| n == d * e;
        assert Divides(e, n) by { assert n == e * d; }
        if e <= 1 { MulMonotone(e, 1, d); }
        if d > root && e > root {
          MulMonotone(root + 1, d, root + 1);
          MulMonotone(root + 1, e, d);
        }
      }
    }
  }

  lemma SieveQuotient(n: nat, p: nat, k: nat)
    requires n > 0 && p > 0 && n % p == 0 && Sieved(n, k)
    ensures Sieved(n / p, k)
  {
    QuotientDivides(n, p);
    forall d | 2 <= d < k ensures !Divides(d, n / p) {
      if Divides(d, n / p) { DividesTransitive(d, n / p, n); }
    }
  }

  ghost predicate FourOrPrime(p: nat) { p == 4 || Prime(p) }

  /** The trial divisors already passed do not divide n; the divisor 4 promises nothing. */
  ghost predicate Tried(n: nat, p: nat) { p != 4 ==> 2 <= p && Sieved(n, p) && (p > 2 ==> p % 2 == 1) }

  /** What the search knows about its current divisor. */
  ghost predicate Searching(n: nat, p: nat, root: nat, p0: nat) {
    && p >= 1
    && (n == 1 ==> p == 4 || p == 1)
    && (n > 1 ==> Tried(n, p) || (p == n && Sieved(n, n)))
    && (p == p0 || p <= root || n % p == 0)
  }

  /** Larger divisors are nearer the end; 4 comes before 2. */
  ghost function Distance(n: nat, p: nat, p0: nat, n0: nat): int
    requires p > 0
  {
    if n % p == 0 then 0 else if p == 4 then n0 + p0 + 10 else n0 + p0 + 5 - p
  }

  lemma SearchStep(n: nat, p: nat, q: nat, p': nat, root: nat, p0: nat, n0: nat)
    requires 1 <= n <= n0 && IsRoot(root, n0) && (n == 1 ==> n0 == 1)
    requires Searching(n, p, root, p0) && n % p != 0
    requires q == (if p == 4 then 2 else if p == 2 then 3 else p + 2) && p' == if q > root then n else q
    ensures Searching(n, p', root, p0) && 0 <= Distance(n, p', p0, n0) < Distance(n, p, p0, n0)
  {
    RootBelow(root, n0);
    DivModUnique(n, n, 1, 0);
    if n > 1 {
      assert p != n && Tried(n, p);
      if p == 4 { SieveTwo(n); } else if p == 2 { SieveThree(n); } else { SieveStep(n, p); }
      if q > root { RestIsPrime(n, q, root, n0); }
    }
  }

  /** The inner loop of kf_factor: the next trial divisor that divides n. */
  method TrialDivide(n: nat, p0: nat, floorSqrt: nat, n0: nat) returns (p: nat)
    requires 1 <= n <= n0 && IsRoot(floorSqrt, n0)
    requires p0 == 4 || (2 <= p0 && n > 1 && Tried(n, p0))
    requires n == 1 ==> n0 == 1
    ensures p > 0 && n % p == 0
    ensures n > 1 ==> p > 1 && FourOrPrime(p) && (n / p > 1 ==> Tried(n / p, p))
    ensures n == 1 ==> p == 1
  {
    p := p0;
    assert Searching(n, p, floorSqrt, p0);
    while n % p != 0
      invariant p > 0 && Searching(n, p, floorSqrt, p0)
      decreases Distance(n, p, p0, n0)
    {
      hide *;
      ghost var tried := p;
      p := if p == 4 then 2 else if p == 2 then 3 else p + 2;
      ghost var next := p;
      if p > floorSqrt { p := n; }
      SearchStep(n, tried, next, p, floorSqrt, p0, n0);
    }
    if n > 1 { DivisorFound(n, p); }
  }

  lemma RootBelow(r: nat, n: nat)
    requires IsRoot(r, n)
    ensures r <= n && (n == 1 ==> r == 1)
  {
    if r > 1 { MulMonotone(1, r, r); }
  }

  lemma SieveTwo(n: nat)
    ensures Sieved(n, 2)
  {
  }

  lemma SieveThree(n: nat)
    requires n % 2 != 0
    ensures Sieved(n, 3)
  {
    DividesIsMod(2, n);
  }

  lemma DivisorFound(n: nat, p: nat)
    requires n > 1 && p > 0 && n % p == 0 && (Tried(n, p) || (p == n && Sieved(n, n)))
    ensures p > 1 && FourOrPrime(p) && (n / p > 1 ==> Tried(n / p, p))
  {
    if p != 4 { SievedIsPrime(n, p); }
    if p == n { DivModUnique(n, n, 1, 0); } else if p != 4 { SieveQuotient(n, p, p); }
  }

  /** What holds of the part of the buffer filled so far, with n still to be factored. */
  ghost predicate Filled(facs: seq<nat>, n0: nat, n: nat) {
    && |facs| % 2 == 0
    && Links(facs, n0, n)
    && (forall i :: 0 <= i < |facs| && i % 2 == 1 && facs[i] == 1 ==> i == |facs| - 1 && n == 1)
    && (n0 >= 2 ==> forall i :: 0 <= i < |facs| && i % 2 == 0 ==> FourOrPrime(facs[i]))
  }

  lemma FilledSnoc(facs: seq<nat>, n0: nat, n: nat, p: nat, m: nat)
    requires Filled(facs, n0, n) && p > 0 && m > 0 && p * m == n
    requires n > 1 || |facs| == 0
    requires n0 >= 2 ==> FourOrPrime(p)
    ensures Filled(facs + [p, m], n0, m)
  {
    LinksSnoc(facs, n0, n, p, m);
  }

  /** kf_factor: fours, then twos, then odd trial divisors up to the root of the original number. */
  method KfFactor(n0: nat, facbuf: array<nat>) returns (len: nat)
    requires 1 <= n0 < 0x8000_0000 && facbuf.Length == 2 * MAXFACTORS
    modifies facbuf
    ensures 2 <= len <= facbuf.Length && Stages(facbuf[..len], n0)
    ensures n0 >= 2 ==> forall i :: 0 <= i < len && i % 2 == 0 ==> FourOrPrime(facbuf[i])
  {
    var n, p, floorSqrt := n0, 4, FloorSqrt(n0);
    len := 0;
    ghost var count := 0;
    assert facbuf[..0] == [];
    while len == 0 || n > 1
      invariant 1 <= n <= n0 && len == 2 * count && count <= 31 && Filled(facbuf[..len], n0, n)
      invariant n > 1 || len == 0 ==> p == 4 || (2 <= p && n > 1 && Tried(n, p))
      invariant n0 == 1 || n * Pow2(count) <= n0
      decreases if len == 0 then n + 1 else n
    {
      p := TrialDivide(n, p, floorSqrt, n0);
      QuotientDivides(n, p);
      ghost var m := n / p;
      if n > 1 { CountFactor(n, p, m, count, n0); }
      ghost var before := facbuf[..len];
      FilledSnoc(before, n0, n, p, m);
      n := n / p;
      facbuf[len] := p;
      facbuf[len + 1] := n;
      assert facbuf[..len + 2] == before + [p, n];
      len, count := len + 2, count + 1;
    }
    LinksAreStages(facbuf[..len], n0);
  }

  /** Every factor at least halves what is left, so a 31-bit number has fewer than 31 of them. */
  lemma CountFactor(n: nat, p: nat, m: nat, count: nat, n0: nat)
    requires n > 1 && p > 1 && n == p * m && n * Pow2(count) <= n0 < 0x8000_0000
    ensures m * Pow2(count + 1) <= n0 && count < 31 && 0 < m < n
  {
    var P := Pow2(count);
    assert Pow2(count + 1) == 2 * P;
    Pow2Large(count);
    hide Pow2;
    MulMonotone(2, p, m);
    MulMonotone(2 * m, n, P);
    assert m * (2 * P) == 2 * m * P by { Associate(m, 2, P); Associate(2, m, P); }
    MulMonotone(1, n, P);
  }

  lemma Pow2Large(k: nat)
    ensures Pow2(k) > 0
    ensures k >= 31 ==> Pow2(k) >= 0x8000_0000
  {
    Pow2Monotone(0, k);
    Pow2Values();
    if k >= 31 { Pow2Monotone(31, k); }
  }

  // ------------------------------------------------- fast sizes

  /** Numbers without prime factors other than 2, 3 and 5. */
  ghost predicate Smooth(n: int) {
    n >= 1 && forall p :: Prime(p) && Divides(p, n) ==> p == 2 || p == 3 || p == 5
  }

  /** A prime that is not d never divides d alone: it moves over to the cofactor. */
  lemma CofactorDivides(p: int, d: int, k: int)
    requires d == 2 || d == 3 || d == 5
    requires p > 0 && p % d != 0 && Divides(p, d * k)
    ensures Divides(p, k)
  {
    var t :| d * k == p * t;
    var c := ProductResidue(p, t, d);
    Residues(d, p % d, t % d, k, c);
    CancelFactor(p, d, k, t / d);
  }

  lemma CancelFactor(p: int, d: int, k: int, b: int)
    requires d > 0 && d * k == p * (d * b)
    ensures Divides(p, k)
  {
    Associate(p, d, b);
    Associate(d, p, b);
    Distribute(d, k, -(p * b));
    var e := k - p * b;
    assert d * e == 0;
    assert k == p * b;
  }

  /** The residue of a product is that of the product of the residues. */
  lemma ProductResidue(p: int, t: int, d: int) returns (c: int)
    requires d > 0
    ensures p * t == d * c + (p % d) * (t % d)
  {
    var a, r, b, s := p / d, p % d, t / d, t % d;
    assert p == d * a + r && t == d * b + s;
    c := a * t + b * r;
    Distribute(t, d * a, r);
    Associate(d, a, t);
    Distribute(r, d * b, s);
    Associate(d, b, r);
    Distribute(d, a * t, b * r);
  }

  lemma Residues(d: int, r: int, s: int, k: int, c: int)
    requires d == 2 || d == 3 || d == 5
    requires 0 < r < d && 0 <= s < d && d * k == d * c + r * s
    ensures s == 0
  {
    assert r == 1 || r == 2 || r == 3 || r == 4;
  }

  lemma SmoothStep(m: int, d: int)
    requires d == 2 || d == 3 || d == 5
    requires m >= 1 && m % d == 0
    ensures m / d >= 1 && (Smooth(m) <==> Smooth(m / d))
  {
    QuotientDivides(m, d);
    forall p | Prime(p) && p != 2 && p != 3 && p != 5
      ensures Divides(p, m) <==> Divides(p, m / d)
    {
      if Divides(p, m / d) { DividesTransitive(p, m / d, m); }
      if Divides(p, m) {
        assert p >= 6 by { assert p == 4 ==> p == 2 * 2 && Divides(2, p); }
        DividesIsMod(d, p);
        CofactorDivides(p, d, m / d);
      }
    }
  }

  lemma PrimeFactor(m: int) returns (p: int)
    requires m >= 2
    ensures Prime(p) && Divides(p, m)
  {
    if Prime(m) {
      assert m == m * 1;
      p := m;
    } else {
      var d :| 2 <= d < m && Divides(d, m);
      p := PrimeFactor(d);
      DividesTransitive(p, d, m);
    }
  }

  /** What remains once 2, 3 and 5 are divided out is smooth only when it is 1. */
  lemma SmoothRest(m: int)
    requires m >= 1 && m % 2 != 0 && m % 3 != 0 && m % 5 != 0
    ensures Smooth(m) <==> m == 1
  {
    DividesIsMod(2, m);
    DividesIsMod(3, m);
    DividesIsMod(5, m);
    if m == 1 {
      forall p | Prime(p) ensures !Divides(p, 1) { DividesIsMod(p, 1); }
    } else {
      var p := PrimeFactor(m);
    }
  }

  lemma {:induction false} Pow2Smooth(k: nat)
    ensures Smooth(Pow2(k)) && Pow2(k) > k
  {
    if k == 0 {
      SmoothRest(1);
    } else {
      hide Smooth;
      Pow2Smooth(k - 1);
      DivModUnique(Pow2(k), 2, Pow2(k - 1), 0);
      SmoothStep(Pow2(k), 2);
    }
  }

  /** One of the three inner loops of kiss_fft_next_fast_size. */
  method StripFactor(n: nat, d: nat) returns (m: nat)
    requires n >= 1 && (d == 2 || d == 3 || d == 5)
    ensures m >= 1 && m % d != 0 && (Smooth(m) <==> Smooth(n)) && Divides(m, n)
  {
    hide Smooth;
    m := n;
    assert n == n * 1;
    while m % d == 0
      invariant m >= 1 && (Smooth(m) <==> Smooth(n)) && Divides(m, n)
      decreases m
    {
      SmoothStep(m, d);
      QuotientDivides(m, d);
      DividesTransitive(m / d, m, n);
      m := m / d;
    }
  }

  /** kiss_fft_next_fast_size: the least number from n0 on without prime factors above 5. */
  method NextFastSize(n0: nat) returns (n: nat)
    requires n0 >= 1
    ensures n >= n0 && Smooth(n)
    ensures forall k :: n0 <= k < n ==> !Smooth(k)
    ensures forall k: nat :: n0 <= Pow2(k) ==> n <= Pow2(k)
  {
    hide Smooth;
    n := n0;
    Pow2Smooth(n0);
    while true
      invariant n0 <= n <= Pow2(n0)
      invariant forall k :: n0 <= k < n ==> !Smooth(k)
      decreases Pow2(n0) - n
    {
      var m := StripFactor(n, 2);
      var m2 := StripFactor(m, 3);
      NotReintroduced(m2, m, 2);
      var m3 := StripFactor(m2, 5);
      NotReintroduced(m3, m2, 2);
      NotReintroduced(m3, m2, 3);
      SmoothRest(m3);
      if m3 <= 1 { break; }
      n := n + 1;
    }
    forall k: nat | n0 <= Pow2(k) ensures n <= Pow2(k) { Pow2Smooth(k); }
  }

  lemma NotReintroduced(m: nat, n: nat, d: nat)
    requires m >= 1 && n >= 1 && d >= 1 && Divides(m, n) && n % d != 0
    ensures m % d != 0
  {
    DividesIsMod(d, m);
    DividesIsMod(d, n);
    if Divides(d, m) { DividesTransitive(d, m, n); }
  }
}
