/** Two real transforms from one: the loop of process_header_block_hw that separates the
    spectrum of left + i*right in place, on integers. */
module Split {
  import opened Arith
  import opened Complex
  import opened Fourier

  const SIZE := 512

  /** complex_i32_t */
  datatype Bin = Bin(r: int, i: int)

  /** An arithmetic shift right by one. */
  function Half(v: int): (h: int)
    ensures 2 * h <= v <= 2 * h + 1
  {
    v / 2
  }

  /** The real and imaginary parts of the joint spectrum, as read from the hardware. */
  ghost predicate Loaded(out1: seq<Bin>, out2: seq<Bin>, re: seq<int>, im: seq<int>) {
    && |out1| == |out2| == |re| == |im| == SIZE
    && forall k :: 0 <= k < SIZE ==> out1[k] == Bin(re[k], 0) && out2[k] == Bin(im[k], 0)
  }

  /** Bin k of the left channel after the loop. */
  ghost function Left(re: seq<int>, im: seq<int>, k: int): Bin
    requires |re| == |im| == SIZE && 0 <= k < SIZE
  {
    if k == 0 || k == SIZE / 2 then Bin(re[k], 0)
    else if k < SIZE / 2 then Bin(Half(re[k] + re[SIZE - k]), Half(im[k] - im[SIZE - k]))
    else Bin(Half(re[SIZE - k] + re[k]), -Half(im[SIZE - k] - im[k]))
  }

  /** Bin k of the right channel after the loop. */
  ghost function Right(re: seq<int>, im: seq<int>, k: int): Bin
    requires |re| == |im| == SIZE && 0 <= k < SIZE
  {
    if k == 0 || k == SIZE / 2 then Bin(im[k], 0)
    else if k < SIZE / 2 then Bin(Half(im[k] + im[SIZE - k]), -Half(re[k] - re[SIZE - k]))
    else Bin(Half(im[SIZE - k] + im[k]), Half(re[SIZE - k] - re[k]))
  }

  /** No sum or difference formed by the loop leaves 32 bits. */
  ghost predicate NoOverflow(v: seq<int>) {
    forall k :: 0 <= k < |v| ==> -0x4000_0000 <= v[k] < 0x4000_0000
  }

  /** The loop over the mirrored pairs. */
  method SplitChannels(out1: array<Bin>, out2: array<Bin>, ghost re: seq<int>, ghost im: seq<int>)
    requires out1 != out2 && out1.Length == out2.Length == SIZE && Loaded(out1[..], out2[..], re, im)
    requires NoOverflow(re) && NoOverflow(im)
    modifies out1, out2
    ensures forall k :: 0 <= k < SIZE ==> out1[k] == Left(re, im, k) && out2[k] == Right(re, im, k)
  {
    hide Left, Right, Half, NoOverflow;
    MiddleBins(re, im);
    for i := 1 to SIZE / 2
      invariant forall k :: 0 <= k < SIZE && (k < i || k > SIZE - i) ==> out1[k] == Left(re, im, k) && out2[k] == Right(re, im, k)
      invariant forall k :: i <= k <= SIZE - i ==> out1[k] == Bin(re[k], 0) && out2[k] == Bin(im[k], 0)
    {
      SplitPair(out1, out2, i, re, im);
    }
  }

  lemma MiddleBins(re: seq<int>, im: seq<int>)
    requires |re| == |im| == SIZE
    ensures Left(re, im, 0) == Bin(re[0], 0) && Left(re, im, SIZE / 2) == Bin(re[SIZE / 2], 0)
    ensures Right(re, im, 0) == Bin(im[0], 0) && Right(re, im, SIZE / 2) == Bin(im[SIZE / 2], 0)
  {
  }

  /** The body of the loop: the statements in their order, each overwriting what the later
      ones no longer need. */
  method SplitPair(out1: array<Bin>, out2: array<Bin>, i: nat, ghost re: seq<int>, ghost im: seq<int>)
    requires out1 != out2 && out1.Length == out2.Length == |re| == |im| == SIZE && 0 < i < SIZE / 2
    requires out1[i] == Bin(re[i], 0) && out2[i] == Bin(im[i], 0)
    requires out1[SIZE - i] == Bin(re[SIZE - i], 0) && out2[SIZE - i] == Bin(im[SIZE - i], 0)
    requires NoOverflow(re) && NoOverflow(im)
    modifies out1, out2
    ensures out1[i] == Left(re, im, i) && out1[SIZE - i] == Left(re, im, SIZE - i)
    ensures out2[i] == Right(re, im, i) && out2[SIZE - i] == Right(re, im, SIZE - i)
    ensures forall k :: 0 <= k < SIZE && k != i && k != SIZE - i ==> out1[k] == old(out1[k]) && out2[k] == old(out2[k])
  {
    var j := SIZE - i;
    PairBins(re, im, i);
    hide Left, Right, Half, NoOverflow;
    out1[i] := out1[i].(i := Half(out2[i].r - out2[j].r));
    out1[j] := out1[j].(i := -out1[i].i);
    out2[i] := out2[i].(i := -Half(out1[i].r - out1[j].r));
    out2[j] := out2[j].(i := -out2[i].i);
    out1[i] := out1[i].(r := Half(out1[i].r + out1[j].r));
    out1[j] := out1[j].(r := out1[i].r);
    out2[i] := out2[i].(r := Half(out2[i].r + out2[j].r));
    out2[j] := out2[j].(r := out2[i].r);
  }

  lemma PairBins(re: seq<int>, im: seq<int>, i: nat)
    requires |re| == |im| == SIZE && 0 < i < SIZE / 2
    ensures var j := SIZE - i; var a, b, c, d := Half(re[i] + re[j]), Half(im[i] - im[j]), Half(im[i] + im[j]), Half(re[i] - re[j]);
      && Left(re, im, i) == Bin(a, b) && Left(re, im, j) == Bin(a, -b)
      && Right(re, im, i) == Bin(c, -d) && Right(re, im, j) == Bin(c, d)
  {
  }

  /** Both outputs are conjugate symmetric at every mirrored pair. */
  lemma MirrorSymmetric(re: seq<int>, im: seq<int>, k: int)
    requires |re| == |im| == SIZE && 0 < k < SIZE
    ensures Left(re, im, SIZE - k) == Bin(Left(re, im, k).r, -Left(re, im, k).i)
    ensures Right(re, im, SIZE - k) == Bin(Right(re, im, k).r, -Right(re, im, k).i)
  {
  }

  // ------------------------------------------------------- why this separates the channels

  ghost predicate RealSignal(x: int -> Cpx) { forall i :: x(i).im == 0.0 }

  /** left + i * right */
  ghost function Joined(x: int -> Cpx, y: int -> Cpx): int -> Cpx { Plus(x, Times(Cpx(0.0, 1.0), y)) }

  lemma {:induction false} ConjugateSum(n: nat, f: int -> Cpx, g: int -> Cpx)
    requires forall i :: 0 <= i < n ==> g(i) == Conj(f(i))
    ensures Sum(n, g) == Conj(Sum(n, f))
  {
    if n > 0 { ConjugateSum(n - 1, f, g); }
  }

  /** The transform of a real signal is conjugate symmetric. */
  lemma RealSymmetry(n: nat, x: int -> Cpx, w: int -> Cpx, k: int)
    requires Turn(w, n) && RealSignal(x)
    ensures Dft(n, x, w, n - k) == Conj(Dft(n, x, w, k))
  {
    forall j ensures Twiddled(x, w, n - k)(j) == Conj(Twiddled(x, w, k)(j)) { ConjugateTerm(n, x, w, k, j); }
    ConjugateSum(n, Twiddled(x, w, k), Twiddled(x, w, n - k));
  }

  lemma ConjugateProduct(a: Cpx, b: Cpx)
    requires a.im == 0.0
    ensures Mul(a, Conj(b)) == Conj(Mul(a, b))
  {
  }

  lemma ConjugateTerm(n: nat, x: int -> Cpx, w: int -> Cpx, k: int, j: int)
    requires Turn(w, n) && RealSignal(x)
    ensures Mul(x(j), w(j * (n - k))) == Conj(Mul(x(j), w(j * k)))
  {
    assert ConjugateAt(w, j * k);
    hide Turn;
    var e := j * k;
    assert j * (n - k) == -e + n * j by { Distribute(j, n, -k); }
    TurnPeriod(w, n, -e, j);
    ConjugateProduct(x(j), w(e));
    hide Mul;
  }

  /** The joint spectrum, bin by bin, gives back the spectrum of each channel: exactly
      (Z[k] + conj Z[n-k]) / 2 and (Z[k] - conj Z[n-k]) / 2i. */
  lemma Separation(n: nat, x: int -> Cpx, y: int -> Cpx, w: int -> Cpx, k: int)
    requires Turn(w, n) && RealSignal(x) && RealSignal(y)
    ensures var Z, Z' := Dft(n, Joined(x, y), w, k), Dft(n, Joined(x, y), w, n - k);
      && Dft(n, x, w, k) == Scale(0.5, Cpx(Z.re + Z'.re, Z.im - Z'.im))
      && Dft(n, y, w, k) == Scale(0.5, Cpx(Z.im + Z'.im, Z'.re - Z.re))
  {
    JointBin(n, x, y, w, k);
    JointBin(n, x, y, w, n - k);
    RealSymmetry(n, x, w, k);
    RealSymmetry(n, y, w, k);
    hide Turn, Dft;
  }

  lemma JointBin(n: nat, x: int -> Cpx, y: int -> Cpx, w: int -> Cpx, k: int)
    ensures var X, Y := Dft(n, x, w, k), Dft(n, y, w, k);
      Dft(n, Joined(x, y), w, k) == Cpx(X.re - Y.im, X.im + Y.re)
  {
    hide Dft;
    DftPlus(n, x, Times(Cpx(0.0, 1.0), y), w, k);
    DftTimes(n, Cpx(0.0, 1.0), y, w, k);
  }

  /** v is e rounded down to an integer, e being a half-integer at worst and known to within s. */
  ghost predicate RoundsDown(v: int, e: real, s: real) { v as real - s <= e <= v as real + 0.5 + s }

  ghost predicate RoundsToward(v: int, e: real, s: real) { RoundsDown(v, e, s) || RoundsDown(-v, -e, s) }

  ghost predicate Within(a: real, b: real, s: real) { -s <= a - b <= s }

  /** Every bin of the joint spectrum is given to within s per component. */
  ghost predicate Delivered(x: int -> Cpx, y: int -> Cpx, w: int -> Cpx, re: seq<int>, im: seq<int>, s: real) {
    && |re| == |im| == SIZE
    && forall j | 0 <= j < SIZE :: BinWithin(Dft(SIZE, Joined(x, y), w, j), re[j], im[j], s)
  }

  ghost predicate BinWithin(z: Cpx, r: int, i: int, s: real) { Within(z.re, r as real, s) && Within(z.im, i as real, s) }

  lemma HalfRounds(v: int, a: real, b: real, p: int, q: int, s: real)
    requires Within(a, p as real, s) && Within(b, q as real, s) && v == p + q
    ensures RoundsDown(Half(v), 0.5 * (a + b), s) && RoundsToward(-Half(v), -0.5 * (a + b), s)
  {
  }

  lemma Negated(a: real, p: int, s: real)
    requires Within(a, p as real, s)
    ensures Within(-a, (-p) as real, s)
  {
  }

  /** With a joint spectrum as input that is off by at most s per component, the loop leaves each
      channel's own spectrum, off by at most s and the half lost in a shift; with an exact one
      nothing but that half is lost, on its known side. */
  lemma SplitIsSpectrum(x: int -> Cpx, y: int -> Cpx, w: int -> Cpx, re: seq<int>, im: seq<int>, k: int, s: real)
    requires Turn(w, SIZE) && RealSignal(x) && RealSignal(y)
    requires Delivered(x, y, w, re, im, s) && 0 <= k < SIZE
    ensures var l, X := Left(re, im, k), Dft(SIZE, x, w, k); RoundsDown(l.r, X.re, s) && RoundsToward(l.i, X.im, s)
    ensures var q, Y := Right(re, im, k), Dft(SIZE, y, w, k); RoundsDown(q.r, Y.re, s) && RoundsToward(q.i, Y.im, s)
  {
    hide Turn, Dft, Joined, RealSignal, Delivered, Left, Right;
    if k == 0 || k == SIZE / 2 {
      OuterBinsExact(x, y, w, re, im, k, s);
    } else {
      InnerBins(x, y, w, re, im, k, s);
    }
  }

  /** The bins the loop forms at k, from what is known of the two mirrored bins. */
  lemma FormedBins(re: seq<int>, im: seq<int>, k: int, Z: Cpx, Z': Cpx, s: real)
    requires |re| == |im| == SIZE && 0 < k < SIZE && k != SIZE / 2
    requires BinWithin(Z, re[k], im[k], s) && BinWithin(Z', re[SIZE - k], im[SIZE - k], s)
    ensures RoundsDown(Left(re, im, k).r, 0.5 * (Z.re + Z'.re), s)
    ensures RoundsToward(Left(re, im, k).i, 0.5 * (Z.im + -Z'.im), s)
    ensures RoundsDown(Right(re, im, k).r, 0.5 * (Z.im + Z'.im), s)
    ensures RoundsToward(Right(re, im, k).i, 0.5 * (Z'.re + -Z.re), s)
  {
    var m := SIZE - k;
    Negated(Z.re, re[k], s);
    Negated(Z.im, im[k], s);
    Negated(Z'.re, re[m], s);
    Negated(Z'.im, im[m], s);
    HalfRounds(re[k] + re[m], Z.re, Z'.re, re[k], re[m], s);
    HalfRounds(im[k] + im[m], Z.im, Z'.im, im[k], im[m], s);
    HalfRounds(im[k] - im[m], Z.im, -Z'.im, im[k], -im[m], s);
    HalfRounds(im[m] - im[k], Z'.im, -Z.im, im[m], -im[k], s);
    HalfRounds(re[k] - re[m], Z.re, -Z'.re, re[k], -re[m], s);
    HalfRounds(re[m] - re[k], Z'.re, -Z.re, re[m], -re[k], s);
  }

  lemma InnerBins(x: int -> Cpx, y: int -> Cpx, w: int -> Cpx, re: seq<int>, im: seq<int>, k: int, s: real)
    requires Turn(w, SIZE) && RealSignal(x) && RealSignal(y)
    requires Delivered(x, y, w, re, im, s) && 0 < k < SIZE && k != SIZE / 2
    ensures var l, X := Left(re, im, k), Dft(SIZE, x, w, k); RoundsDown(l.r, X.re, s) && RoundsToward(l.i, X.im, s)
    ensures var q, Y := Right(re, im, k), Dft(SIZE, y, w, k); RoundsDown(q.r, Y.re, s) && RoundsToward(q.i, Y.im, s)
  {
    hide Turn, Dft, Joined, RealSignal, Half, RoundsDown, RoundsToward, BinWithin, Left, Right;
    var Z, Z' := Dft(SIZE, Joined(x, y), w, k), Dft(SIZE, Joined(x, y), w, SIZE - k);
    assert |re| == |im| == SIZE && BinWithin(Z, re[k], im[k], s) && BinWithin(Z', re[SIZE - k], im[SIZE - k], s);
    hide Delivered;
    Separation(SIZE, x, y, w, k);
    FormedBins(re, im, k, Z, Z', s);
  }

  /** Bins 0 and n/2, which the loop skips, lose nothing more. */
  lemma OuterBinsExact(x: int -> Cpx, y: int -> Cpx, w: int -> Cpx, re: seq<int>, im: seq<int>, k: int, s: real)
    requires Turn(w, SIZE) && RealSignal(x) && RealSignal(y)
    requires Delivered(x, y, w, re, im, s) && (k == 0 || k == SIZE / 2)
    ensures var l, X := Left(re, im, k), Dft(SIZE, x, w, k); Within(X.re, l.r as real, s) && X.im == l.i as real == 0.0
    ensures var q, Y := Right(re, im, k), Dft(SIZE, y, w, k); Within(Y.re, q.r as real, s) && Y.im == q.i as real == 0.0
  {
    hide Turn, Dft, Joined, RealSignal, Within;
    assert BinWithin(Dft(SIZE, Joined(x, y), w, k), re[k], im[k], s);
    hide Delivered;
    SelfMirrored(x, y, w, k);
  }

  lemma SelfMirrored(x: int -> Cpx, y: int -> Cpx, w: int -> Cpx, k: int)
    requires Turn(w, SIZE) && RealSignal(x) && RealSignal(y) && (k == 0 || k == SIZE / 2)
    ensures var Z := Dft(SIZE, Joined(x, y), w, k); Dft(SIZE, x, w, k) == Cpx(Z.re, 0.0) && Dft(SIZE, y, w, k) == Cpx(Z.im, 0.0)
  {
    hide Turn, Dft, Joined, RealSignal;
    Separation(SIZE, x, y, w, k);
    DftPeriod(SIZE, Joined(x, y), w, 0, SIZE, 1);
  }
}
