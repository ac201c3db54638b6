/** Partitioned convolution: the first taps applied directly, the others as blocks of
    transforms combined by overlap-add. */
module Partition {
  import opened Arith
  import opened Complex
  import opened Fourier

  const FIR_SIZE := 512
  const HEADER_BLOCK_SIZE := 256
  const HEADER_BLOCK_SIZE_ZE := 512
  const HEADER_BLOCK_NUM := 14

  /** The direct taps and the partitions are 4096 taps in all. */
  lemma AllTaps()
    ensures FIR_SIZE + HEADER_BLOCK_NUM * HEADER_BLOCK_SIZE == 4096
  {
  }

  // ------------------------------------------------------- what is to be computed

  /** f(0) + ... + f(n-1) */
  ghost function RealSum(n: nat, f: int -> real): real {
    if n == 0 then 0.0 else RealSum(n - 1, f) + f(n - 1)
  }

  /** The term h(k) * x(n-k) of a convolution. */
  ghost function Tap(h: int -> real, x: int -> real, n: int): int -> real { k => h(k) * x(n - k) }

  /** Sample n of x filtered by the first len samples of h. */
  ghost function Filtered(len: nat, h: int -> real, x: int -> real, n: int): real { RealSum(len, Tap(h, x, n)) }

  // ------------------------------------------------------- what the blocks contribute

  ghost function Re(r: real): Cpx { Cpx(r, 0.0) }

  /** Block s of a signal: 256 samples, zero-extended. */
  ghost function Block(x: int -> real, s: int): int -> Cpx {
    i => if 0 <= i < HEADER_BLOCK_SIZE then Re(x(HEADER_BLOCK_SIZE * s + i)) else ZERO
  }

  /** The convolution of partition b of h, which starts at tap 512 + 256*b, with an input block. */
  ghost function PartConv(h: int -> real, x: int -> real, t: int, b: int): int -> Cpx {
    Conv(HEADER_BLOCK_SIZE, Block(h, b + 2), Block(x, t - b))
  }

  ghost function PartsAt(h: int -> real, x: int -> real, t: int, i: int): int -> Cpx {
    b => PartConv(h, x, t, b)(i)
  }

  /** What the t-th header run must add: the 14 partitions, each with its own past input block. */
  ghost function HeaderOut(h: int -> real, x: int -> real, t: int): int -> Cpx {
    i => Sum(HEADER_BLOCK_NUM, PartsAt(h, x, t, i))
  }

  /** What the t-th header run adds to output sample n: it covers 512 samples from 512 + 256*t. */
  ghost function Contribution(h: int -> real, x: int -> real, n: int): int -> Cpx {
    t => var i := n - HEADER_BLOCK_SIZE_ZE - HEADER_BLOCK_SIZE * t;
         if 0 <= i < HEADER_BLOCK_SIZE_ZE then HeaderOut(h, x, t)(i) else ZERO
  }

  ghost predicate Causal(x: int -> real) { forall i :: i < 0 ==> x(i) == 0.0 }

  // ------------------------------------------------------- overlap-add

  /** The product that run t forms for tap 512 + k on its way to output n. */
  ghost function TapAt(h: int -> real, x: int -> real, n: int, t: int, k: int): Cpx {
    var i := n - HEADER_BLOCK_SIZE_ZE - HEADER_BLOCK_SIZE * t;
    var b, j := k / HEADER_BLOCK_SIZE, k % HEADER_BLOCK_SIZE;
    if 0 <= i < HEADER_BLOCK_SIZE_ZE then Mul(Block(h, b + 2)(j), Block(x, t - b)(i - j)) else ZERO
  }

  ghost function TapTable(h: int -> real, x: int -> real, n: int): (int, int) -> Cpx { (t, k) => TapAt(h, x, n, t, k) }

  ghost function BlockSums(m: nat, f: int -> Cpx): int -> Cpx { b => Sum(m, Shift(f, m * b)) }

  /** A sum over p blocks of length m. */
  lemma {:induction false} SumByBlock(p: nat, m: nat, f: int -> Cpx)
    ensures p * m >= 0 && Sum(p * m, f) == Sum(p, BlockSums(m, f))
  {
    hide Add;
    if p > 0 {
      SumByBlock(p - 1, m, f);
      assert p * m == (p - 1) * m + m;
      SumConcat((p - 1) * m, m, f);
    }
  }

  lemma PartAsSum(h: int -> real, x: int -> real, t: int, i: int, b: int)
    ensures PartsAt(h, x, t, i)(b) == Sum(HEADER_BLOCK_SIZE, ConvTerm(Block(h, b + 2), Block(x, t - b), i))
  {
    assert PartConv(h, x, t, b)(i) == Sum(HEADER_BLOCK_SIZE, ConvTerm(Block(h, b + 2), Block(x, t - b), i));
  }

  /** Row t of the table sums to the contribution of run t. */
  lemma RowIsContribution(h: int -> real, x: int -> real, n: int, t: int)
    ensures RowSums(HEADER_BLOCK_NUM * HEADER_BLOCK_SIZE, TapTable(h, x, n))(t) == Contribution(h, x, n)(t)
  {
    hide Mul, Add, Sum, Block;
    var row := Row(TapTable(h, x, n), t);
    SumByBlock(HEADER_BLOCK_NUM, HEADER_BLOCK_SIZE, row);
    var i := n - HEADER_BLOCK_SIZE_ZE - HEADER_BLOCK_SIZE * t;
    if 0 <= i < HEADER_BLOCK_SIZE_ZE {
      forall b | 0 <= b < HEADER_BLOCK_NUM
        ensures BlockSums(HEADER_BLOCK_SIZE, row)(b) == PartsAt(h, x, t, i)(b)
      {
        forall j | 0 <= j < HEADER_BLOCK_SIZE
          ensures Shift(row, HEADER_BLOCK_SIZE * b)(j) == ConvTerm(Block(h, b + 2), Block(x, t - b), i)(j)
        {
          DivModUnique(HEADER_BLOCK_SIZE * b + j, HEADER_BLOCK_SIZE, b, j);
        }
        SumEq(HEADER_BLOCK_SIZE, Shift(row, HEADER_BLOCK_SIZE * b), ConvTerm(Block(h, b + 2), Block(x, t - b), i));
        assert BlockSums(HEADER_BLOCK_SIZE, row)(b) == Sum(HEADER_BLOCK_SIZE, Shift(row, HEADER_BLOCK_SIZE * b));
        PartAsSum(h, x, t, i, b);
      }
      SumEq(HEADER_BLOCK_NUM, BlockSums(HEADER_BLOCK_SIZE, row), PartsAt(h, x, t, i));
    } else {
      SumZero(HEADER_BLOCK_NUM * HEADER_BLOCK_SIZE, row);
    }
  }

  /** Column k: exactly one run pairs tap 512 + k with the right input sample. */
  lemma ColumnIsTap(h: int -> real, x: int -> real, n: nat, k: nat, runs: nat)
    requires Causal(x) && n < HEADER_BLOCK_SIZE_ZE + HEADER_BLOCK_SIZE * runs
    ensures ColSums(runs, TapTable(h, x, n))(k) == Re(Tap(h, x, n)(HEADER_BLOCK_SIZE_ZE + k))
  {
    var col := Col(TapTable(h, x, n), k);
    var b, j := k / HEADER_BLOCK_SIZE, k % HEADER_BLOCK_SIZE;
    var d := n - HEADER_BLOCK_SIZE_ZE - k;
    var t := b + d / HEADER_BLOCK_SIZE;
    forall s | s != t ensures col(s) == ZERO { OtherRun(h, x, n, s, k); }
    if 0 <= t < runs {
      SumSingle(runs, col, t);
      RightRun(h, x, n, t, k);
    } else {
      SumZero(runs, col);
      assert d < 0;
    }
  }

  lemma OtherRun(h: int -> real, x: int -> real, n: int, s: int, k: nat)
    requires s != k / HEADER_BLOCK_SIZE + (n - HEADER_BLOCK_SIZE_ZE - k) / HEADER_BLOCK_SIZE
    ensures TapAt(h, x, n, s, k) == ZERO
  {
    var b, j := k / HEADER_BLOCK_SIZE, k % HEADER_BLOCK_SIZE;
    var d := n - HEADER_BLOCK_SIZE_ZE - k;
    var i := n - HEADER_BLOCK_SIZE_ZE - HEADER_BLOCK_SIZE * s;
    assert i - j == d - HEADER_BLOCK_SIZE * (s - b);
    assert !(0 <= i - j < HEADER_BLOCK_SIZE);
    assert Block(x, s - b)(i - j) == ZERO;
    hide Block, Mul;
    MulLaws(Block(h, b + 2)(j), ZERO, ZERO);
  }

  lemma RightRun(h: int -> real, x: int -> real, n: int, t: int, k: nat)
    requires t == k / HEADER_BLOCK_SIZE + (n - HEADER_BLOCK_SIZE_ZE - k) / HEADER_BLOCK_SIZE
    ensures TapAt(h, x, n, t, k) == Re(Tap(h, x, n)(HEADER_BLOCK_SIZE_ZE + k))
  {
    var b, j := k / HEADER_BLOCK_SIZE, k % HEADER_BLOCK_SIZE;
    var i := n - HEADER_BLOCK_SIZE_ZE - HEADER_BLOCK_SIZE * t;
    assert HEADER_BLOCK_SIZE * (b + 2) + j == HEADER_BLOCK_SIZE_ZE + k;
    assert HEADER_BLOCK_SIZE * (t - b) + (i - j) == n - HEADER_BLOCK_SIZE_ZE - k;
    assert n - (HEADER_BLOCK_SIZE_ZE + k) == n - HEADER_BLOCK_SIZE_ZE - k;
    RealProduct(h(HEADER_BLOCK_SIZE_ZE + k), x(n - (HEADER_BLOCK_SIZE_ZE + k)));
  }

  lemma RealProduct(a: real, b: real)
    ensures Mul(Re(a), Re(b)) == Re(a * b)
  {
  }

  lemma {:induction false} RealSumConcat(a: nat, b: nat, f: int -> real, g: int -> real)
    requires forall i :: g(i) == f(a + i)
    ensures RealSum(a + b, f) == RealSum(a, f) + RealSum(b, g)
  {
    if b > 0 { RealSumConcat(a, b - 1, f, g); }
  }

  lemma {:induction false} RealPart(n: nat, f: int -> Cpx, g: int -> real)
    requires forall i :: 0 <= i < n ==> f(i) == Re(g(i))
    ensures Sum(n, f) == Re(RealSum(n, g))
  {
    if n > 0 { RealPart(n - 1, f, g); }
  }

  /** Partitioned convolution is convolution: once every run that reaches sample n has been
      added to the direct taps, the sample is that of the 4096-tap filter. */
  lemma OverlapAdd(h: int -> real, x: int -> real, n: nat, runs: nat)
    requires Causal(x) && n < HEADER_BLOCK_SIZE_ZE + HEADER_BLOCK_SIZE * runs
    ensures Re(Filtered(FIR_SIZE + HEADER_BLOCK_NUM * HEADER_BLOCK_SIZE, h, x, n))
      == Add(Re(Filtered(FIR_SIZE, h, x, n)), Sum(runs, Contribution(h, x, n)))
  {
    var taps := HEADER_BLOCK_NUM * HEADER_BLOCK_SIZE;
    var F := TapTable(h, x, n);
    var late: int -> real := k => Tap(h, x, n)(FIR_SIZE + k);
    hide Sum, TapAt, Mul, Tap;
    forall t { RowIsContribution(h, x, n, t); }
    SumEq(runs, RowSums(taps, F), Contribution(h, x, n));
    SumSwap(runs, taps, F);
    forall k: nat | 0 <= k < taps ensures ColSums(runs, F)(k) == Re(late(k)) {
      ColumnIsTap(h, x, n, k, runs);
    }
    RealPart(taps, ColSums(runs, F), late);
    RealSumConcat(FIR_SIZE, taps, Tap(h, x, n), late);
  }

  // ------------------------------------------------------- one run through the transforms

  /** Bin k of the spectrum of a zero-extended block. */
  ghost function BlockBin(x: int -> real, s: int, w: int -> Cpx, k: int): Cpx {
    Dft(HEADER_BLOCK_SIZE_ZE, Block(x, s), w, k)
  }

  /** The 14 products that accumulate into bin k of run t. */
  ghost function BinProducts(h: int -> real, x: int -> real, t: int, w: int -> Cpx, k: int): int -> Cpx {
    b => Mul(BlockBin(x, t - b, w, k), BlockBin(h, b + 2, w, k))
  }

  lemma BlockSupported(x: int -> real, s: int)
    ensures Supported(Block(x, s), HEADER_BLOCK_SIZE)
  {
  }

  ghost function TwiddledParts(h: int -> real, x: int -> real, t: int, w: int -> Cpx, k: int): (int, int) -> Cpx {
    (b, i) => Mul(PartConv(h, x, t, b)(i), w(i * k))
  }

  lemma PartsRow(h: int -> real, x: int -> real, t: int, w: int -> Cpx, k: int, b: int)
    ensures RowSums(HEADER_BLOCK_SIZE_ZE, TwiddledParts(h, x, t, w, k))(b)
      == Dft(HEADER_BLOCK_SIZE_ZE, Conv(HEADER_BLOCK_SIZE, Block(h, b + 2), Block(x, t - b)), w, k)
  {
    hide Mul, Sum;
    var p := Conv(HEADER_BLOCK_SIZE, Block(h, b + 2), Block(x, t - b));
    assert PartConv(h, x, t, b) == p;
    SumEq(HEADER_BLOCK_SIZE_ZE, Twiddled(p, w, k), Row(TwiddledParts(h, x, t, w, k), b));
  }

  /** Multiplying the spectra and adding them up transforms the run's whole output. */
  lemma ProductsAreSpectrum(h: int -> real, x: int -> real, t: int, w: int -> Cpx, k: int)
    requires Turn(w, HEADER_BLOCK_SIZE_ZE)
    ensures Sum(HEADER_BLOCK_NUM, BinProducts(h, x, t, w, k)) == Dft(HEADER_BLOCK_SIZE_ZE, HeaderOut(h, x, t), w, k)
  {
    hide Turn, Mul, Add, Sum;
    var n := HEADER_BLOCK_SIZE_ZE;
    var F := TwiddledParts(h, x, t, w, k);
    forall b ensures BinProducts(h, x, t, w, k)(b) == RowSums(n, F)(b) { ProductRow(h, x, t, w, k, b); }
    SumEq(HEADER_BLOCK_NUM, BinProducts(h, x, t, w, k), RowSums(n, F));
    SumSwap(HEADER_BLOCK_NUM, n, F);
    forall i ensures ColSums(HEADER_BLOCK_NUM, F)(i) == Twiddled(HeaderOut(h, x, t), w, k)(i) {
      ProductColumn(h, x, t, w, k, i);
    }
    SumEq(n, ColSums(HEADER_BLOCK_NUM, F), Twiddled(HeaderOut(h, x, t), w, k));
  }

  lemma ProductRow(h: int -> real, x: int -> real, t: int, w: int -> Cpx, k: int, b: int)
    requires Turn(w, HEADER_BLOCK_SIZE_ZE)
    ensures BinProducts(h, x, t, w, k)(b) == RowSums(HEADER_BLOCK_SIZE_ZE, TwiddledParts(h, x, t, w, k))(b)
  {
    hide Turn, Mul, Dft;
    var n := HEADER_BLOCK_SIZE_ZE;
    var p, q := Block(h, b + 2), Block(x, t - b);
    BlockSupported(h, b + 2);
    BlockSupported(x, t - b);
    ConvolutionTheorem(HEADER_BLOCK_SIZE, n, p, q, w, k, n);
    MulLaws(Dft(n, p, w, k), Dft(n, q, w, k), ONE);
    PartsRow(h, x, t, w, k, b);
  }

  lemma ProductColumn(h: int -> real, x: int -> real, t: int, w: int -> Cpx, k: int, i: int)
    ensures ColSums(HEADER_BLOCK_NUM, TwiddledParts(h, x, t, w, k))(i) == Twiddled(HeaderOut(h, x, t), w, k)(i)
  {
    hide Mul, Sum;
    var c, F := w(i * k), TwiddledParts(h, x, t, w, k);
    forall b ensures Col(F, i)(b) == Times(c, PartsAt(h, x, t, i))(b) {
      MulLaws(c, PartConv(h, x, t, b)(i), ONE);
    }
    SumEq(HEADER_BLOCK_NUM, Col(F, i), Times(c, PartsAt(h, x, t, i)));
    SumTimes(HEADER_BLOCK_NUM, c, PartsAt(h, x, t, i));
    MulLaws(c, HeaderOut(h, x, t)(i), ONE);
  }

  /** The inverse transform of the accumulated products is what the run must add. */
  lemma RunOutput(h: int -> real, x: int -> real, t: int, w: int -> Cpx, mac: seq<Cpx>, i: nat)
    requires Turn(w, HEADER_BLOCK_SIZE_ZE) && |mac| == HEADER_BLOCK_SIZE_ZE && i < HEADER_BLOCK_SIZE_ZE
    requires forall k :: 0 <= k < |mac| ==> mac[k] == Sum(HEADER_BLOCK_NUM, BinProducts(h, x, t, w, k))
    ensures Scale(1.0 / HEADER_BLOCK_SIZE_ZE as real, Dft(HEADER_BLOCK_SIZE_ZE, Signal(mac), Backward(w), i))
      == HeaderOut(h, x, t)(i)
  {
    hide Turn, Dft, Sum;
    forall k | 0 <= k < |mac| ensures mac[k] == Dft(HEADER_BLOCK_SIZE_ZE, HeaderOut(h, x, t), w, k) {
      ProductsAreSpectrum(h, x, t, w, k);
    }
    InverseOfForward(HEADER_BLOCK_SIZE_ZE, HeaderOut(h, x, t), mac, w, i);
  }

  // ------------------------------------------------------- the output buffer

  /** What run t adds to output sample n, as the real number stored. */
  ghost function Added(h: int -> real, x: int -> real, n: int): int -> real { t => Contribution(h, x, n)(t).re }

  /** Output sample n once the direct taps have run for the samples below fir and the first
      runs header runs have been added. */
  ghost function Accumulated(h: int -> real, x: int -> real, fir: int, runs: nat, n: int): real {
    (if n < fir then Filtered(FIR_SIZE, h, x, n) else 0.0) + RealSum(runs, Added(h, x, n))
  }

  lemma {:induction false} RealPartOfSum(n: nat, f: int -> Cpx, g: int -> real)
    requires forall i :: g(i) == f(i).re
    ensures RealSum(n, g) == Sum(n, f).re
  {
    if n > 0 { RealPartOfSum(n - 1, f, g); }
  }

  /** A sample is finished as soon as it has been processed: every run that reaches it has
      been added before. */
  lemma SampleFinished(h: int -> real, x: int -> real, fir: nat, runs: nat, n: nat)
    requires Causal(x) && n < fir <= HEADER_BLOCK_SIZE * (runs + 1)
    ensures Accumulated(h, x, fir, runs, n) == Filtered(FIR_SIZE + HEADER_BLOCK_NUM * HEADER_BLOCK_SIZE, h, x, n)
  {
    OverlapAdd(h, x, n, runs);
    RealPartOfSum(runs, Contribution(h, x, n), Added(h, x, n));
    hide Filtered, Sum, RealSum;
  }
}
