/** Exact complex numbers, finite sums of them, and the twiddle functions of the
    discrete Fourier transform. */
module Complex {

  datatype Cpx = Cpx(re: real, im: real)

  const ZERO := Cpx(0.0, 0.0)
  const ONE := Cpx(1.0, 0.0)

  function Add(a: Cpx, b: Cpx): Cpx { Cpx(a.re + b.re, a.im + b.im) }

  function Sub(a: Cpx, b: Cpx): Cpx { Cpx(a.re - b.re, a.im - b.im) }

  function Mul(a: Cpx, b: Cpx): Cpx { Cpx(a.re * b.re - a.im * b.im, a.re * b.im + a.im * b.re) }

  function Conj(a: Cpx): Cpx { Cpx(a.re, -a.im) }

  function Scale(r: real, a: Cpx): Cpx { Cpx(r * a.re, r * a.im) }

  lemma AddLaws(a: Cpx, b: Cpx, c: Cpx)
    ensures Add(a, b) == Add(b, a)
    ensures Add(Add(a, b), c) == Add(a, Add(b, c))
    ensures Add(a, ZERO) == a == Add(ZERO, a)
  {
  }

  lemma MulLaws(a: Cpx, b: Cpx, c: Cpx)
    ensures Mul(a, b) == Mul(b, a)
    ensures Mul(Mul(a, b), c) == Mul(a, Mul(b, c))
    ensures Mul(a, ONE) == a == Mul(ONE, a)
    ensures Mul(a, ZERO) == ZERO == Mul(ZERO, a)
  {
  }

  lemma Distributes(a: Cpx, b: Cpx, c: Cpx)
    ensures Mul(a, Add(b, c)) == Add(Mul(a, b), Mul(a, c))
    ensures Mul(Add(b, c), a) == Add(Mul(b, a), Mul(c, a))
  {
  }

  lemma SquarePositive(r: real)
    ensures r == 0.0 || r * r > 0.0
  {
    if r < 0.0 { assert (-r) * (-r) > 0.0; }
  }

  lemma NoZeroDivisors(a: Cpx, b: Cpx)
    requires Mul(a, b) == ZERO
    ensures a == ZERO || b == ZERO
  {
    var n := a.re * a.re + a.im * a.im;
    SquarePositive(a.re);
    SquarePositive(a.im);
    if n != 0.0 {
      assert Mul(Conj(a), Mul(a, b)) == Scale(n, b);
      assert n * b.re == 0.0 && n * b.im == 0.0;
    }
  }

  // ---------------------------------------------------------------- sums

  /** f(0) + ... + f(n-1) */
  ghost function Sum(n: nat, f: int -> Cpx): Cpx {
    if n == 0 then ZERO else Add(Sum(n - 1, f), f(n - 1))
  }

  lemma {:induction false} SumEq(n: nat, f: int -> Cpx, g: int -> Cpx)
    requires forall i :: 0 <= i < n ==> f(i) == g(i)
    ensures Sum(n, f) == Sum(n, g)
  {
    hide Add;
    if n > 0 { SumEq(n - 1, f, g); }
  }

  ghost function Plus(f: int -> Cpx, g: int -> Cpx): int -> Cpx { i => Add(f(i), g(i)) }

  ghost function Times(c: Cpx, f: int -> Cpx): int -> Cpx { i => Mul(c, f(i)) }

  lemma {:induction false} SumPlus(n: nat, f: int -> Cpx, g: int -> Cpx)
    ensures Sum(n, Plus(f, g)) == Add(Sum(n, f), Sum(n, g))
  {
    if n > 0 { SumPlus(n - 1, f, g); }
  }

  lemma {:induction false} SumTimes(n: nat, c: Cpx, f: int -> Cpx)
    ensures Sum(n, Times(c, f)) == Mul(c, Sum(n, f))
  {
    hide Mul, Add;
    if n == 0 {
      MulLaws(c, ZERO, ZERO);
    } else {
      SumTimes(n - 1, c, f);
      Distributes(c, Sum(n - 1, f), f(n - 1));
    }
  }

  lemma {:induction false} SumZero(n: nat, f: int -> Cpx)
    requires forall i :: 0 <= i < n ==> f(i) == ZERO
    ensures Sum(n, f) == ZERO
  {
    if n > 0 { SumZero(n - 1, f); }
  }

  /** A sum with one term that may differ from zero. */
  lemma {:induction false} SumSingle(n: nat, f: int -> Cpx, k: nat)
    requires k < n
    requires forall i :: 0 <= i < n && i != k ==> f(i) == ZERO
    ensures Sum(n, f) == f(k)
  {
    if k == n - 1 { SumZero(n - 1, f); } else { SumSingle(n - 1, f, k); }
  }

  ghost function Shift(f: int -> Cpx, a: int): int -> Cpx { i => f(a + i) }

  lemma {:induction false} SumConcat(a: nat, b: nat, f: int -> Cpx)
    ensures Sum(a + b, f) == Add(Sum(a, f), Sum(b, Shift(f, a)))
  {
    if b > 0 { SumConcat(a, b - 1, f); }
  }

  ghost function Row(F: (int, int) -> Cpx, i: int): int -> Cpx { j => F(i, j) }

  ghost function Col(F: (int, int) -> Cpx, j: int): int -> Cpx { i => F(i, j) }

  /** The sums over the rows of a table. */
  ghost function RowSums(n: nat, F: (int, int) -> Cpx): int -> Cpx { i => Sum(n, Row(F, i)) }

  /** The sums over the columns of a table. */
  ghost function ColSums(m: nat, F: (int, int) -> Cpx): int -> Cpx { j => Sum(m, Col(F, j)) }

  /** A double sum may be taken in either order. */
  lemma {:induction false} SumSwap(m: nat, n: nat, F: (int, int) -> Cpx)
    ensures Sum(m, RowSums(n, F)) == Sum(n, ColSums(m, F))
  {
    hide Add;
    if m == 0 {
      SumZero(n, ColSums(0, F));
    } else {
      SumSwap(m - 1, n, F);
      SumEq(n, ColSums(m, F), Plus(ColSums(m - 1, F), Row(F, m - 1)));
      SumPlus(n, ColSums(m - 1, F), Row(F, m - 1));
    }
  }

  ghost function Decimated(f: int -> Cpx, p: int, q: int): int -> Cpx { j => f(q + p * j) }

  ghost function DecimatedSums(f: int -> Cpx, p: int, m: nat): int -> Cpx { q => Sum(m, Decimated(f, p, q)) }

  /** A sum over p*m indices, taken residue class by residue class modulo p. */
  lemma {:induction false} SumByResidue(p: nat, m: nat, f: int -> Cpx)
    ensures p * m >= 0 && Sum(p * m, f) == Sum(p, DecimatedSums(f, p, m))
  {
    hide Add;
    if m == 0 {
      SumZero(p, DecimatedSums(f, p, 0));
    } else {
      var a := p * (m - 1);
      assert p * m == a + p;
      SumByResidue(p, m - 1, f);
      SumConcat(a, p, f);
      SumEq(p, DecimatedSums(f, p, m), Plus(DecimatedSums(f, p, m - 1), Shift(f, a)));
      SumPlus(p, DecimatedSums(f, p, m - 1), Shift(f, a));
    }
  }

  lemma SmallSums(f: int -> Cpx)
    ensures Sum(1, f) == f(0)
    ensures Sum(2, f) == Add(f(0), f(1))
    ensures Sum(3, f) == Add(Add(f(0), f(1)), f(2))
    ensures Sum(4, f) == Add(Add(Add(f(0), f(1)), f(2)), f(3))
    ensures Sum(5, f) == Add(Add(Add(Add(f(0), f(1)), f(2)), f(3)), f(4))
  {
    AddLaws(f(0), ZERO, ZERO);
    assert Sum(1, f) == Add(Sum(0, f), f(0));
    assert Sum(2, f) == Add(Sum(1, f), f(1));
    assert Sum(3, f) == Add(Sum(2, f), f(2));
    assert Sum(4, f) == Add(Sum(3, f), f(3));
    assert Sum(5, f) == Add(Sum(4, f), f(4));
  }
}
