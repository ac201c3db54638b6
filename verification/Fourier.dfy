/** The discrete Fourier transform as a sum, and the laws the engine rests on:
    decimation, inversion, linearity and the convolution theorem. */
module Fourier {
  import opened Arith
  import opened Complex

  ghost predicate AdditiveAt(w: int -> Cpx, a: int, b: int) { w(a + b) == Mul(w(a), w(b)) }

  ghost predicate ConjugateAt(w: int -> Cpx, a: int) { w(-a) == Conj(w(a)) }

  /** w(k) is the k-th power of a primitive n-th root of unity on the unit circle:
      exp(-2*pi*i*k/n) for a forward transform, its conjugate for an inverse one. */
  ghost predicate Turn(w: int -> Cpx, n: int) {
    && n > 0
    && w(0) == ONE
    && w(n) == ONE
    && (forall a, b :: AdditiveAt(w, a, b))
    && (forall a :: ConjugateAt(w, a))
    && (forall k :: 0 < k < n ==> w(k) != ONE)
  }

  /** The forward quarter turn, as an example: 1, -i, -1, i and round again. */
  ghost function Quarter(k: int): Cpx { Corner(k % 4) }

  ghost function Corner(r: int): Cpx {
    if r == 0 then ONE else if r == 1 then Cpx(0.0, -1.0) else if r == 2 then Cpx(-1.0, 0.0) else Cpx(0.0, 1.0)
  }

  lemma QuarterTurns()
    ensures Turn(Quarter, 4)
  {
    var w := Quarter;
    assert w(0) == ONE && w(4) == ONE && w(1) != ONE && w(2) != ONE && w(3) != ONE;
    hide Quarter, Mul, Conj;
    forall a, b ensures AdditiveAt(w, a, b) { QuarterAdds(a, b); }
    forall a ensures ConjugateAt(w, a) { QuarterReflects(a); }
  }

  lemma QuarterAdds(a: int, b: int)
    ensures Quarter(a + b) == Mul(Quarter(a), Quarter(b))
  {
    SumResidue(a, b);
    hide Mul;
    TimesCorner(Corner(a % 4), b % 4);
  }

  lemma QuarterReflects(a: int)
    ensures Quarter(-a) == Conj(Quarter(a))
  {
    NegatedResidue(a);
  }

  lemma NegatedResidue(a: int)
    ensures 0 <= a % 4 < 4 && (-a) % 4 == if a % 4 == 0 then 0 else 4 - a % 4
  {
  }

  lemma SumResidue(a: int, b: int)
    ensures (a + b) % 4 == if a % 4 + b % 4 < 4 then a % 4 + b % 4 else a % 4 + b % 4 - 4
  {
  }

  lemma TimesCorner(c: Cpx, r: int)
    requires 0 <= r < 4
    ensures Mul(c, Corner(r)) == if r == 0 then c else if r == 1 then Cpx(c.im, -c.re) else if r == 2 then Cpx(-c.re, -c.im)
                                 else Cpx(-c.im, c.re)
  {
  }

  lemma TurnAdd(w: int -> Cpx, n: int, a: int, b: int)
    requires Turn(w, n)
    ensures w(a + b) == Mul(w(a), w(b))
  {
    assert AdditiveAt(w, a, b);
  }

  lemma TurnSplit(w: int -> Cpx, n: int, e: int, a: int, b: int)
    requires Turn(w, n)
    ensures w((a + b) * e) == Mul(w(a * e), w(b * e))
  {
    hide Mul, Turn;
    Distribute(e, a, b);
    TurnAdd(w, n, a * e, b * e);
  }

  lemma {:induction false} TurnMultiple(w: int -> Cpx, n: int, t: nat)
    requires Turn(w, n)
    ensures w(n * t) == ONE
  {
    hide Mul;
    if t > 0 {
      TurnMultiple(w, n, t - 1);
      Distribute(n, t - 1, 1);
      TurnAdd(w, n, n * (t - 1), n);
      MulLaws(ONE, ONE, ONE);
    }
  }

  /** A twiddle only depends on its index modulo n. */
  lemma TurnPeriod(w: int -> Cpx, n: int, a: int, t: int)
    requires Turn(w, n)
    ensures w(a + n * t) == w(a)
  {
    if t >= 0 {
      TurnMultiple(w, n, t);
    } else {
      TurnMultiple(w, n, -t);
      assert n * t == -(n * (-t));
      assert ConjugateAt(w, n * (-t));
    }
    TurnAdd(w, n, a, n * t);
    MulLaws(w(a), ONE, ONE);
  }

  /** The only twiddles equal to one sit at the multiples of n. */
  lemma TurnIsOne(w: int -> Cpx, n: int, a: int)
    requires Turn(w, n)
    ensures w(a) == ONE <==> a % n == 0
  {
    TurnPeriod(w, n, a % n, a / n);
    assert a == a % n + n * (a / n);
  }

  lemma HalfTurn(w: int -> Cpx, h: int)
    requires h > 0 && Turn(w, 2 * h)
    ensures w(h) == Cpx(-1.0, 0.0)
  {
    TurnAdd(w, 2 * h, h, h);
    assert Mul(Sub(w(h), ONE), Add(w(h), ONE)) == Sub(w(2 * h), ONE) == ZERO;
    NoZeroDivisors(Sub(w(h), ONE), Add(w(h), ONE));
  }

  /** The twiddles of the transform in the other direction. */
  ghost function Backward(w: int -> Cpx): int -> Cpx { a => w(-a) }

  lemma BackwardTurn(w: int -> Cpx, n: int)
    requires Turn(w, n)
    ensures Turn(Backward(w), n)
  {
    var v := Backward(w);
    assert v(0) == w(0) == ONE;
    TurnPeriod(w, n, -n, 1);
    forall k | 0 < k < n ensures v(k) != ONE { TurnPeriod(w, n, -k, 1); }
    forall a, b ensures AdditiveAt(v, a, b) { BackwardAdd(w, n, a, b); }
    forall a ensures ConjugateAt(v, a) { assert ConjugateAt(w, -a); }
  }

  lemma BackwardAdd(w: int -> Cpx, n: int, a: int, b: int)
    requires Turn(w, n)
    ensures AdditiveAt(Backward(w), a, b)
  {
    hide Turn;
    assert -(a + b) == -a + -b;
    TurnAdd(w, n, -a, -b);
  }

  // ------------------------------------------------------- the transform

  ghost function Twiddled(x: int -> Cpx, w: int -> Cpx, e: int): int -> Cpx { j => Mul(x(j), w(j * e)) }

  /** The sum over j < n of x(j) * w(j*e). With e = k this is bin k of the n-point
      transform for twiddles w of period n. */
  ghost function Dft(n: nat, x: int -> Cpx, w: int -> Cpx, e: int): Cpx { Sum(n, Twiddled(x, w, e)) }

  lemma DftEq(n: nat, x: int -> Cpx, y: int -> Cpx, w: int -> Cpx, e: int)
    requires forall j :: 0 <= j < n ==> x(j) == y(j)
    ensures Dft(n, x, w, e) == Dft(n, y, w, e)
  {
    SumEq(n, Twiddled(x, w, e), Twiddled(y, w, e));
  }

  /** A finite sequence as a signal. */
  ghost function Signal(s: seq<Cpx>): int -> Cpx { i => if 0 <= i < |s| then s[i] else ZERO }

  lemma PointDft(x: int -> Cpx, w: int -> Cpx)
    requires w(0) == ONE
    ensures Dft(1, x, w, 0) == x(0)
  {
    SmallSums(Twiddled(x, w, 0));
    MulLaws(x(0), ONE, ONE);
  }

  lemma DftPeriod(n: nat, x: int -> Cpx, w: int -> Cpx, e: int, N: int, t: int)
    requires Turn(w, N)
    ensures Dft(n, x, w, e + N * t) == Dft(n, x, w, e)
  {
    hide Mul, Add, Sum, Turn;
    forall j | 0 <= j < n
      ensures Twiddled(x, w, e + N * t)(j) == Twiddled(x, w, e)(j)
    {
      Distribute(j, e, N * t);
      Associate(j, N, t);
      Associate(N, j, t);
      TurnPeriod(w, N, j * e, j * t);
    }
    SumEq(n, Twiddled(x, w, e + N * t), Twiddled(x, w, e));
  }

  /** The m-point transforms of the p decimated subsequences of x. */
  ghost function SubDfts(p: int, m: nat, x: int -> Cpx, w: int -> Cpx, e: int): int -> Cpx {
    q => Dft(m, Decimated(x, p, q), w, p * e)
  }

  /** Sample q + p*j with its twiddle, as a sample of subsequence q. */
  lemma DecimatedTerm(p: nat, x: int -> Cpx, w: int -> Cpx, e: int, N: int, q: int, j: int)
    requires Turn(w, N)
    ensures Decimated(Twiddled(x, w, e), p, q)(j) == Times(w(q * e), Twiddled(Decimated(x, p, q), w, p * e))(j)
  {
    hide Mul, Turn;
    var a, b, v := q * e, j * (p * e), x(q + p * j);
    Distribute(e, q, p * j);
    Associate(e, p, j);
    Associate(j, p, e);
    assert (q + p * j) * e == a + b;
    TurnAdd(w, N, a, b);
    MulLaws(v, w(a), w(b));
    MulLaws(w(a), v, w(b));
  }

  /** The twiddled samples of subsequence q add up to its twiddled transform. */
  lemma DecimatedRow(p: nat, m: nat, x: int -> Cpx, w: int -> Cpx, e: int, N: int, q: int)
    requires Turn(w, N)
    ensures DecimatedSums(Twiddled(x, w, e), p, m)(q) == Twiddled(SubDfts(p, m, x, w, e), w, e)(q)
  {
    hide Mul, Add, Sum, Turn, Twiddled;
    var inner := Twiddled(Decimated(x, p, q), w, p * e);
    forall j | 0 <= j < m
      ensures Decimated(Twiddled(x, w, e), p, q)(j) == Times(w(q * e), inner)(j)
    {
      DecimatedTerm(p, x, w, e, N, q, j);
    }
    SumEq(m, Decimated(Twiddled(x, w, e), p, q), Times(w(q * e), inner));
    SumTimes(m, w(q * e), inner);
    MulLaws(w(q * e), Sum(m, inner), ONE);
    TwiddledAt(SubDfts(p, m, x, w, e), w, e, q);
  }

  lemma TwiddledAt(x: int -> Cpx, w: int -> Cpx, e: int, j: int)
    ensures Twiddled(x, w, e)(j) == Mul(x(j), w(j * e))
  {
  }

  /** Decimation in time: a p*m-point transform is a p-point transform of the
      m-point transforms of the subsequences. */
  lemma Decimation(p: nat, m: nat, x: int -> Cpx, w: int -> Cpx, e: int, N: int)
    requires Turn(w, N)
    ensures p * m >= 0 && Dft(p * m, x, w, e) == Dft(p, SubDfts(p, m, x, w, e), w, e)
  {
    hide Mul, Add, Sum, Turn, Twiddled, SubDfts, DecimatedSums;
    SumByResidue(p, m, Twiddled(x, w, e));
    forall q | 0 <= q < p
      ensures DecimatedSums(Twiddled(x, w, e), p, m)(q) == Twiddled(SubDfts(p, m, x, w, e), w, e)(q)
    {
      DecimatedRow(p, m, x, w, e, N, q);
    }
    SumEq(p, DecimatedSums(Twiddled(x, w, e), p, m), Twiddled(SubDfts(p, m, x, w, e), w, e));
  }

  lemma TwoPoints(y: int -> Cpx, w: int -> Cpx, n: int, e: int)
    requires Turn(w, n)
    ensures Dft(2, y, w, e) == Add(y(0), Mul(y(1), w(e)))
  {
    assert w(0) == ONE;
    hide Turn, Mul;
    SmallSums(Twiddled(y, w, e));
    MulLaws(y(0), ONE, ONE);
  }

  lemma AddNegative(a: Cpx, b: Cpx)
    ensures Add(a, Scale(-1.0, b)) == Sub(a, b)
  {
  }

  lemma DftPlus(n: nat, x: int -> Cpx, y: int -> Cpx, w: int -> Cpx, e: int)
    ensures Dft(n, Plus(x, y), w, e) == Add(Dft(n, x, w, e), Dft(n, y, w, e))
  {
    hide Mul, Add, Sum;
    forall j ensures Twiddled(Plus(x, y), w, e)(j) == Plus(Twiddled(x, w, e), Twiddled(y, w, e))(j) {
      Distributes(w(j * e), x(j), y(j));
    }
    SumEq(n, Twiddled(Plus(x, y), w, e), Plus(Twiddled(x, w, e), Twiddled(y, w, e)));
    SumPlus(n, Twiddled(x, w, e), Twiddled(y, w, e));
  }

  lemma DftTimes(n: nat, c: Cpx, x: int -> Cpx, w: int -> Cpx, e: int)
    ensures Dft(n, Times(c, x), w, e) == Mul(c, Dft(n, x, w, e))
  {
    hide Mul, Add, Sum;
    forall j ensures Twiddled(Times(c, x), w, e)(j) == Times(c, Twiddled(x, w, e))(j) {
      MulLaws(c, x(j), w(j * e));
    }
    SumEq(n, Twiddled(Times(c, x), w, e), Times(c, Twiddled(x, w, e)));
    SumTimes(n, c, Twiddled(x, w, e));
  }

  // ------------------------------------------------------- the inverse

  ghost function Powers(w: int -> Cpx, d: int): int -> Cpx { k => w(k * d) }

  lemma {:induction false} Geometric(w: int -> Cpx, n: int, d: int, k: nat)
    requires Turn(w, n)
    ensures Mul(Sub(w(d), ONE), Sum(k, Powers(w, d))) == Sub(w(k * d), ONE)
  {
    hide Mul, Turn;
    if k > 0 {
      Geometric(w, n, d, k - 1);
      Distribute(d, k - 1, 1);
      TurnAdd(w, n, (k - 1) * d, d);
      Distributes(Sub(w(d), ONE), Sum(k - 1, Powers(w, d)), w((k - 1) * d));
      LessOne(w(d), w((k - 1) * d));
    } else {
      ProductOfZero(w, n, d);
    }
  }

  lemma ProductOfZero(w: int -> Cpx, n: int, d: int)
    requires Turn(w, n)
    ensures Mul(Sub(w(d), ONE), ZERO) == ZERO == Sub(w(0 * d), ONE)
  {
    assert w(0) == ONE;
    hide Turn, Mul;
    MulLaws(Sub(w(d), ONE), ZERO, ZERO);
  }

  lemma LessOne(a: Cpx, b: Cpx)
    ensures Mul(Sub(a, ONE), b) == Sub(Mul(b, a), b)
  {
  }

  lemma {:induction false} SumOnes(k: nat, f: int -> Cpx)
    requires forall i :: 0 <= i < k ==> f(i) == ONE
    ensures Sum(k, f) == Cpx(k as real, 0.0)
  {
    if k > 0 { SumOnes(k - 1, f); }
  }

  /** The powers of a root of unity sum to n when it is one and to zero otherwise. */
  lemma Orthogonal(w: int -> Cpx, n: nat, d: int)
    requires Turn(w, n)
    ensures Sum(n, Powers(w, d)) == if d % n == 0 then Cpx(n as real, 0.0) else ZERO
  {
    hide Mul;
    TurnIsOne(w, n, d);
    if d % n == 0 {
      forall k ensures Powers(w, d)(k) == ONE {
        var t := d / n;
        assert d == n * t;
        assert k * d == 0 + n * (k * t) by { assert k * (n * t) == n * (k * t); }
        TurnPeriod(w, n, 0, k * t);
      }
      SumOnes(n, Powers(w, d));
    } else {
      Geometric(w, n, d, n);
      TurnPeriod(w, n, 0, d);
      assert Sub(w(n * d), ONE) == ZERO;
      NoZeroDivisors(Sub(w(d), ONE), Sum(n, Powers(w, d)));
    }
  }

  /** The bins of a transform, as a function of the bin number. */
  ghost function Spectrum(n: nat, x: int -> Cpx, w: int -> Cpx): int -> Cpx { k => Dft(n, x, w, k) }

  /** Entry (k, i) of the double sum of a transform followed by its inverse. */
  ghost function RoundTripTable(x: int -> Cpx, w: int -> Cpx, j: int): (int, int) -> Cpx {
    (k, i) => Mul(x(i), w(k * (i - j)))
  }

  /** Transforming back undoes transforming, up to the factor n. */
  lemma Inversion(n: nat, x: int -> Cpx, w: int -> Cpx, j: nat)
    requires Turn(w, n) && j < n
    ensures Dft(n, Spectrum(n, x, w), Backward(w), j) == Scale(n as real, x(j))
  {
    hide Mul, Add, Sum;
    var F := RoundTripTable(x, w, j);
    var back := Twiddled(Spectrum(n, x, w), Backward(w), j);
    forall k | 0 <= k < n ensures back(k) == RowSums(n, F)(k) {
      var c := w(-(k * j));
      SumTimes(n, c, Twiddled(x, w, k));
      MulLaws(c, Dft(n, x, w, k), ONE);
      forall i | 0 <= i < n ensures Times(c, Twiddled(x, w, k))(i) == Row(F, k)(i) {
        assert i * k + -(k * j) == k * (i - j);
        TurnAdd(w, n, i * k, -(k * j));
        MulLaws(c, Mul(x(i), w(i * k)), ONE);
        MulLaws(x(i), w(i * k), c);
      }
      SumEq(n, Times(c, Twiddled(x, w, k)), Row(F, k));
    }
    SumEq(n, back, RowSums(n, F));
    SumSwap(n, n, F);
    forall i | 0 <= i < n
      ensures ColSums(n, F)(i) == Mul(x(i), if i == j then Cpx(n as real, 0.0) else ZERO)
    {
      SumEq(n, Col(F, i), Times(x(i), Powers(w, i - j)));
      SumTimes(n, x(i), Powers(w, i - j));
      Orthogonal(w, n, i - j);
      OffsetZero(i, j, n);
      MulLaws(x(i), ZERO, ZERO);
    }
    forall i | 0 <= i < n && i != j ensures ColSums(n, F)(i) == ZERO { MulLaws(x(i), ZERO, ZERO); }
    SumSingle(n, ColSums(n, F), j);
    RealFactor(x(j), n as real);
  }

  lemma OffsetZero(i: int, j: int, n: int)
    requires 0 <= i < n && 0 <= j < n
    ensures (i - j) % n == 0 <==> i == j
  {
    if i < j { ModShift(i - j, n, 1); }
  }

  lemma RealFactor(a: Cpx, r: real)
    ensures Mul(a, Cpx(r, 0.0)) == Scale(r, a)
  {
  }

  // ------------------------------------------------------- convolution

  ghost function ConvTerm(x: int -> Cpx, h: int -> Cpx, i: int): int -> Cpx { a => Mul(x(a), h(i - a)) }

  /** Sample i of the convolution of x, of length b, with h. */
  ghost function Conv(b: nat, x: int -> Cpx, h: int -> Cpx): int -> Cpx { i => Sum(b, ConvTerm(x, h, i)) }

  /** x is zero outside 0..b-1 */
  ghost predicate Supported(x: int -> Cpx, b: int) { forall i :: !(0 <= i < b) ==> x(i) == ZERO }

  ghost function ConvTable(x: int -> Cpx, h: int -> Cpx, w: int -> Cpx, e: int): (int, int) -> Cpx {
    (i, a) => Mul(Mul(x(a), h(i - a)), w(i * e))
  }

  ghost function Delayed(f: int -> Cpx, a: int): int -> Cpx { i => f(i - a) }

  /** Delaying a supported signal inside the window keeps its sum. */
  lemma DelayedSum(b: nat, n: nat, g: int -> Cpx, a: nat)
    requires Supported(g, b) && a + b <= n
    ensures Sum(n, Delayed(g, a)) == Sum(b, g)
  {
    hide Add, Sum;
    var f := Delayed(g, a);
    SumConcat(a, n - a, f);
    SumZero(a, f);
    SumConcat(b, n - a - b, Shift(f, a));
    SumZero(n - a - b, Shift(Shift(f, a), b));
    SumEq(b, Shift(f, a), g);
    AddLaws(Sum(b, g), ZERO, ZERO);
  }

  lemma TwiddledSupported(b: nat, h: int -> Cpx, w: int -> Cpx, e: int)
    requires Supported(h, b)
    ensures Supported(Twiddled(h, w, e), b)
  {
    hide Mul;
    forall i | !(0 <= i < b) ensures Twiddled(h, w, e)(i) == ZERO { MulLaws(w(i * e), ZERO, ZERO); }
  }

  lemma ConvolutionEntry(x: int -> Cpx, h: int -> Cpx, w: int -> Cpx, e: int, N: int, a: int, d: int)
    requires Turn(w, N)
    ensures ConvTable(x, h, w, e)(a + d, a) == Mul(Twiddled(x, w, e)(a), Twiddled(h, w, e)(d))
  {
    hide Mul, Turn;
    TurnSplit(w, N, e, a, d);
    FourFactors(x(a), h(d), w(a * e), w(d * e));
    assert (a + d) - a == d;
    assert ConvTable(x, h, w, e)(a + d, a) == Mul(Mul(x(a), h(d)), w((a + d) * e));
  }

  /** Column a of the table: sample x(a), delayed by a, meets every sample of h. */
  lemma ConvolutionColumn(b: nat, n: nat, x: int -> Cpx, h: int -> Cpx, w: int -> Cpx, e: int, N: int, a: nat)
    requires Turn(w, N) && Supported(h, b) && a < b && 2 * b <= n
    ensures ColSums(n, ConvTable(x, h, w, e))(a) == Times(Dft(b, h, w, e), Twiddled(x, w, e))(a)
  {
    var F := ConvTable(x, h, w, e);
    var g := Twiddled(h, w, e);
    var c := Twiddled(x, w, e)(a);
    hide Mul, Add, Sum, Turn, Twiddled, ConvTable, Supported;
    TwiddledSupported(b, h, w, e);
    DelayedSum(b, n, g, a);
    forall i | 0 <= i < n ensures Col(F, a)(i) == Times(c, Delayed(g, a))(i) {
      ConvolutionEntry(x, h, w, e, N, a, i - a);
    }
    SumEq(n, Col(F, a), Times(c, Delayed(g, a)));
    SumTimes(n, c, Delayed(g, a));
    MulLaws(Sum(b, g), c, ONE);
  }

  /** Row i of the table: one bin of the convolution. */
  lemma ConvolutionRow(b: nat, x: int -> Cpx, h: int -> Cpx, w: int -> Cpx, e: int, i: int)
    ensures RowSums(b, ConvTable(x, h, w, e))(i) == Twiddled(Conv(b, x, h), w, e)(i)
  {
    hide Mul, Sum;
    var c := w(i * e);
    SumTimes(b, c, ConvTerm(x, h, i));
    MulLaws(c, Conv(b, x, h)(i), ONE);
    forall a | 0 <= a < b ensures Times(c, ConvTerm(x, h, i))(a) == Row(ConvTable(x, h, w, e), i)(a) {
      MulLaws(c, Mul(x(a), h(i - a)), ONE);
    }
    SumEq(b, Times(c, ConvTerm(x, h, i)), Row(ConvTable(x, h, w, e), i));
  }

  /** The convolution theorem: with both signals of length b and a window n that holds
      their whole convolution, multiplying the bins convolves the signals. */
  lemma ConvolutionTheorem(b: nat, n: nat, x: int -> Cpx, h: int -> Cpx, w: int -> Cpx, e: int, N: int)
    requires Turn(w, N) && Supported(x, b) && Supported(h, b) && 2 * b <= n
    ensures Dft(n, Conv(b, x, h), w, e) == Mul(Dft(n, x, w, e), Dft(n, h, w, e))
  {
    hide Mul, Add, Sum, Turn, Twiddled, ConvTable, Conv;
    var F := ConvTable(x, h, w, e);
    forall i ensures RowSums(b, F)(i) == Twiddled(Conv(b, x, h), w, e)(i) {
      ConvolutionRow(b, x, h, w, e, i);
    }
    SumEq(n, Twiddled(Conv(b, x, h), w, e), RowSums(b, F));
    SumSwap(n, b, F);
    var H := Dft(b, h, w, e);
    forall a | 0 <= a < b ensures ColSums(n, F)(a) == Times(H, Twiddled(x, w, e))(a) {
      ConvolutionColumn(b, n, x, h, w, e, N, a);
    }
    SumEq(b, ColSums(n, F), Times(H, Twiddled(x, w, e)));
    SumTimes(b, H, Twiddled(x, w, e));
    MulLaws(H, Dft(b, x, w, e), ONE);
    SupportedDft(b, n, x, w, e);
    SupportedDft(b, n, h, w, e);
  }

  lemma FourFactors(a: Cpx, b: Cpx, c: Cpx, d: Cpx)
    ensures Mul(Mul(a, b), Mul(c, d)) == Mul(Mul(a, c), Mul(b, d))
  {
    hide Mul;
    MulLaws(a, b, Mul(c, d));
    MulLaws(b, c, d);
    MulLaws(c, b, d);
    MulLaws(a, c, Mul(b, d));
  }

  lemma SupportedDft(b: nat, n: nat, x: int -> Cpx, w: int -> Cpx, e: int)
    requires Supported(x, b) && b <= n
    ensures Dft(n, x, w, e) == Dft(b, x, w, e)
  {
    hide Add, Mul;
    var f := Twiddled(x, w, e);
    SumConcat(b, n - b, f);
    forall i | b <= i ensures f(i) == ZERO { MulLaws(w(i * e), ZERO, ZERO); }
    SumZero(n - b, Shift(f, b));
    AddLaws(Dft(b, x, w, e), ZERO, ZERO);
  }

  /** Transforming back and dividing by the length returns the signal. */
  lemma InverseOfForward(n: nat, x: int -> Cpx, y: seq<Cpx>, w: int -> Cpx, j: nat)
    requires Turn(w, n) && |y| == n && j < n
    requires forall k :: 0 <= k < n ==> y[k] == Dft(n, x, w, k)
    ensures Scale(1.0 / n as real, Dft(n, Signal(y), Backward(w), j)) == x(j)
  {
    hide Turn, Dft;
    DftEq(n, Signal(y), Spectrum(n, x, w), Backward(w), j);
    Inversion(n, x, w, j);
    ScaleBack(n as real, x(j));
  }

  lemma ScaleBack(r: real, a: Cpx)
    requires r != 0.0
    ensures Scale(1.0 / r, Scale(r, a)) == a
  {
    assert 1.0 / r * (r * a.re) == a.re;
    assert 1.0 / r * (r * a.im) == a.im;
  }
}
