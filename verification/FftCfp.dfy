/** The in-place radix-2 transform of fft_fp.c: bit reversal, butterfly stages, scaling. */
module FftCfp {
  import opened Arith
  import opened Complex
  import opened Fourier

  // ------------------------------------------------------- bit reversal

  /** x with its lowest b bits in reverse order. */
  ghost function Rev(x: nat, b: nat): (r: nat)
    ensures r < Pow2(b)
  {
    if b == 0 then 0 else (if x % 2 == 1 then Pow2(b - 1) else 0) + Rev(x / 2, b - 1)
  }

  /** The top bit becomes the lowest one. */
  lemma {:induction false} RevTop(c: nat, z: nat, b: nat)
    requires b > 0 && c <= 1 && z < Pow2(b - 1)
    ensures Rev((if c == 1 then Pow2(b - 1) else 0) + z, b) == 2 * Rev(z, b - 1) + c
  {
    if b > 1 {
      var y := (if c == 1 then Pow2(b - 1) else 0) + z;
      assert y % 2 == z % 2 && y / 2 == (if c == 1 then Pow2(b - 2) else 0) + z / 2;
      RevTop(c, z / 2, b - 1);
    }
  }

  lemma {:induction false} RevInvolution(x: nat, b: nat)
    requires x < Pow2(b)
    ensures Rev(Rev(x, b), b) == x
  {
    if b > 0 {
      RevInvolution(x / 2, b - 1);
      RevTop(x % 2, Rev(x / 2, b - 1), b);
    }
  }

  /** The lowest bit of x decides whether the reversal reaches the upper half, and a carry
      out of it moves on to the remaining bits. */
  lemma RevLowBit(x: nat, b: nat)
    requires b > 0 && x + 1 < Pow2(b)
    ensures Pow2(b) == 2 * Pow2(b - 1)
    ensures x % 2 == 1 ==> b > 1 && x / 2 + 1 < Pow2(b - 1)
    ensures x % 2 == 1 ==> Rev(x, b) == Pow2(b - 1) + Rev(x / 2, b - 1) && Rev(x + 1, b) == Rev(x / 2 + 1, b - 1)
    ensures x % 2 == 0 ==> Rev(x, b) == Rev(x / 2, b - 1) && Rev(x + 1, b) == Pow2(b - 1) + Rev(x / 2, b - 1)
  {
    if x % 2 == 1 {
      assert (x + 1) % 2 == 0 && (x + 1) / 2 == x / 2 + 1;
    } else {
      assert (x + 1) % 2 == 1 && (x + 1) / 2 == x / 2;
    }
  }

  /** The state of the reversed counter while its carry travels down: the bits above 2*l are
      all ones in the old value, and the rest is the reversal of the bits not yet seen. */
  ghost predicate Carrying(mr: nat, n: nat, l: nat, g: nat, x: nat, b: nat, target: nat) {
    && b > 0
    && l == Pow2(b - 1)
    && n == 2 * l * g
    && x + 1 < Pow2(b)
    && mr == n - 2 * l + Rev(x, b)
    && target == Rev(x + 1, b)
  }

  lemma CarryOn(mr: nat, n: nat, l: nat, g: nat, x: nat, b: nat, target: nat)
    requires Carrying(mr, n, l, g, x, b, target)
    ensures l > 0
    ensures mr + l > n - 1 ==> b > 1 && Carrying(mr, n, l / 2, 2 * g, x / 2, b - 1, target)
    ensures mr + l <= n - 1 ==> mr % l + l == target
  {
    RevLowBit(x, b);
    if x % 2 == 1 {
      Associate(2, l, g);
    } else {
      var r := Rev(x / 2, b - 1);
      Distribute(l, 2 * g, -2);
      Associate(l, 2, g);
      DivModUnique(mr, l, 2 * g - 2, r);
    }
  }

  /** The reversed counter: skip the leading ones, then clear them and set the bit below. The
      mask mr & (l-1) is written as a remainder, l being a power of two. */
  method NextReversed(mr0: nat, n: nat, ghost x: nat, ghost b: nat) returns (mr: nat)
    requires n == Pow2(b) && mr0 == Rev(x, b) && x + 1 < n
    ensures mr == Rev(x + 1, b)
  {
    var l: nat, nn := n / 2, n - 1;
    ghost var xj: nat, bj: nat, g: nat := x, b, 1;
    assert Carrying(mr0, n, l, g, xj, bj, Rev(x + 1, b));
    hide *;
    while mr0 + l > nn
      invariant Carrying(mr0, n, l, g, xj, bj, Rev(x + 1, b))
      decreases bj
    {
      CarryOn(mr0, n, l, g, xj, bj, Rev(x + 1, b));
      g, xj, bj, l := 2 * g, xj / 2, bj - 1, l / 2;
    }
    CarryOn(mr0, n, l, g, xj, bj, Rev(x + 1, b));
    mr := mr0 % l + l;
  }

  /** The bit-reversed copy of x, with the indices below k and their partners already moved. */
  ghost function Swapped(x: seq<Cpx>, b: nat, k: nat): (y: seq<Cpx>)
    requires |x| == Pow2(b)
    ensures |y| == |x|
  {
    seq(|x|, i requires 0 <= i < |x| => if i < k || Rev(i, b) < k then x[Rev(i, b)] else x[i])
  }

  lemma SwapStep(x: seq<Cpx>, b: nat, k: nat)
    requires |x| == Pow2(b) && k < |x|
    ensures var y, r := Swapped(x, b, k), Rev(k, b);
      Swapped(x, b, k + 1) == if r > k then y[k := y[r]][r := y[k]] else y
  {
    RevInvolution(k, b);
    forall i | 0 <= i < |x| && Rev(i, b) == k ensures i == Rev(k, b) { RevInvolution(i, b); }
    hide Rev, Pow2;
  }

  lemma {:induction false} RevZero(b: nat)
    ensures Rev(0, b) == 0
  {
    if b > 0 { RevZero(b - 1); }
  }

  /** The re-ordering loop. */
  method BitReverse(f: array<Cpx>, n: nat, ghost b: nat)
    requires n == Pow2(b) && n <= f.Length
    modifies f
    ensures f[..n] == Swapped(old(f[..n]), b, n)
    ensures forall i :: n <= i < f.Length ==> f[i] == old(f[i])
  {
    ghost var x := f[..n];
    RevZero(b);
    SwapStep(x, b, 0);
    hide Pow2, Rev, Swapped;
    var mr, m := 0, 1;
    while m <= n - 1
      invariant 1 <= m <= n && mr == Rev(m - 1, b)
      invariant f[..n] == Swapped(x, b, m)
      invariant forall i :: n <= i < f.Length ==> f[i] == old(f[i])
    {
      mr := NextReversed(mr, n, m - 1, b);
      SwapStep(x, b, m);
      ghost var y := f[..n];
      if mr > m {
        var t := f[m];
        f[m] := f[mr];
        f[mr] := t;
        assert f[..n] == y[m := y[mr]][mr := y[m]];
      }
      m := m + 1;
    }
  }

  // ------------------------------------------------------- the stages

  /** The offset of index i inside its run of l. */
  ghost function Lane(i: int, l: int): int
    requires l > 0
  {
    i % l
  }

  /** The run that index i lies in. */
  ghost function RunNo(i: int, l: int): int
    requires l > 0
  {
    i / l
  }

  ghost predicate FirstHalf(i: int, l: int)
    requires l > 0
  {
    RunNo(i, l) % 2 == 0
  }

  /** One stage: every pair of runs of length l becomes one run of length 2*l. */
  ghost function StageOut(F: seq<Cpx>, w: int -> Cpx, l: nat, s: nat): (G: seq<Cpx>)
    requires l > 0
    ensures |G| == |F|
  {
    seq(|F|, i requires 0 <= i < |F| => StageAt(F, w, l, s, i))
  }

  ghost function StageAt(F: seq<Cpx>, w: int -> Cpx, l: nat, s: nat, i: nat): Cpx
    requires l > 0 && i < |F|
  {
    var t := w(Lane(i, l) * s);
    if FirstHalf(i, l) && i + l < |F| then Add(F[i], Mul(F[i + l], t))
    else if !FirstHalf(i, l) && i >= l then Sub(F[i - l], Mul(F[i], t))
    else F[i]
  }

  /** F with the lanes below m done, and lane m done up to index i. */
  ghost function StageDone(F: seq<Cpx>, G: seq<Cpx>, l: nat, m: nat, i: int): (H: seq<Cpx>)
    requires l > 0 && |F| == |G|
    ensures |H| == |F|
  {
    seq(|F|, k requires 0 <= k < |F| => if Lane(k, l) < m || (Lane(k, l) == m && k < i) then G[k] else F[k])
  }

  /** n is made of g pairs of runs of length l. */
  ghost predicate Pairs(n: nat, l: nat, g: nat) { n == 2 * l * g }

  /** Index i starts pair c of lane m. */
  ghost predicate PairStart(i: nat, m: nat, l: nat, c: nat) { i == m + 2 * l * c }

  lemma PairOf(i: nat, m: nat, l: nat, c: nat, n: nat, g: nat)
    requires m < l && Pairs(n, l, g) && PairStart(i, m, l, c) && i < n
    ensures i + l < n && PairStart(i + 2 * l, m, l, c + 1)
    ensures Lane(i, l) == Lane(i + l, l) == m && FirstHalf(i, l) && !FirstHalf(i + l, l)
  {
    Associate(2, l, c);
    Associate(l, 2, c);
    DivModUnique(i, l, 2 * c, m);
    DivModUnique(i + l, l, 2 * c + 1, m) by { Distribute(l, 2 * c, 1); }
    Distribute(2 * l, c, 1);
    if c >= g { MulMonotone(g, c, 2 * l); }
    MulMonotone(c + 1, g, 2 * l);
  }

  lemma PairOnly(i: nat, m: nat, l: nat, c: nat, k: nat)
    requires m < l && PairStart(i, m, l, c) && Lane(k, l) == m && i <= k < i + 2 * l
    ensures k == i || k == i + l
  {
    Associate(2, l, c);
    Associate(l, 2, c);
    var t := k / l;
    assert k == m + l * t;
    Distribute(l, t, -(2 * c));
    if t < 2 * c { MulMonotone(t - 2 * c, -1, l); }
    if t > 2 * c + 1 { MulMonotone(2, t - 2 * c, l); }
  }

  /** One butterfly of lane m moves the stage on by one pair. */
  lemma PairStep(F: seq<Cpx>, w: int -> Cpx, l: nat, s: nat, m: nat, i: nat, c: nat, g: nat)
    requires m < l && Pairs(|F|, l, g) && PairStart(i, m, l, c) && i < |F|
    ensures i + l < |F| && PairStart(i + 2 * l, m, l, c + 1)
    ensures var H := StageDone(F, StageOut(F, w, l, s), l, m, i); var t := Mul(w(m * s), H[i + l]);
      H[i + l := Sub(H[i], t)][i := Add(H[i], t)] == StageDone(F, StageOut(F, w, l, s), l, m, i + 2 * l)
  {
    PairOf(i, m, l, c, |F|, g);
    MulLaws(w(m * s), F[i + l], ONE);
    forall k | 0 <= k < |F| && i <= k < i + 2 * l && Lane(k, l) == m ensures k == i || k == i + l {
      PairOnly(i, m, l, c, k);
    }
    hide Lane, FirstHalf, PairStart, Pairs, Mul, Add, Sub;
  }

  lemma LaneEnds(F: seq<Cpx>, G: seq<Cpx>, l: nat, m: nat, i: int)
    requires l > 0 && |F| == |G|
    ensures i >= |F| ==> StageDone(F, G, l, m, i) == StageDone(F, G, l, m + 1, m + 1)
    ensures StageDone(F, G, l, 0, 0) == F && StageDone(F, G, l, l, l) == G
  {
    forall k | 0 <= k < |F| ensures 0 <= Lane(k, l) < l && Lane(k, l) <= k { RunOffset(k, l); }
    hide Lane;
  }

  lemma RunOffset(k: nat, l: nat)
    requires l > 0
    ensures 0 <= Lane(k, l) < l && Lane(k, l) <= k && RunNo(k, l) >= 0
    ensures k == l * RunNo(k, l) + Lane(k, l)
  {
    MulMonotone(0, k / l, l);
    assert k == l * (k / l) + k % l;
  }

  /** The pass over one lane: the inner loop, with the twiddle fixed. */
  method LanePass(f: array<Cpx>, n: nat, l: nat, m: nat, w: Cpx, ghost F: seq<Cpx>, ghost W: int -> Cpx, ghost s: nat, ghost g: nat)
    requires m < l && n <= f.Length && n == |F| && Pairs(n, l, g) && w == W(m * s)
    requires f[..n] == StageDone(F, StageOut(F, W, l, s), l, m, m)
    modifies f
    ensures f[..n] == StageDone(F, StageOut(F, W, l, s), l, m + 1, m + 1)
    ensures forall i :: n <= i < f.Length ==> f[i] == old(f[i])
  {
    ghost var G := StageOut(F, W, l, s);
    var i: nat := m;
    ghost var c: nat := 0;
    assert PairStart(i, m, l, c);
    hide *;
    while i < n
      invariant PairStart(i, m, l, c)
      invariant f[..n] == StageDone(F, G, l, m, i)
      invariant forall k :: n <= k < f.Length ==> f[k] == old(f[k])
      decreases n - i
    {
      ghost var H := f[..n];
      var j := i + l;
      PairStep(F, W, l, s, m, i, c, g);
      var t := Mul(w, f[j]);
      var q := f[i];
      f[j] := Sub(q, t);
      f[i] := Add(q, t);
      assert f[..n] == H[j := Sub(H[i], t)][i := Add(H[i], t)];
      i, c := i + 2 * l, c + 1;
    }
    LaneEnds(F, G, l, m, i);
  }

  /** The twiddles computed in the loop, cos(2*pi*m/istep) and -sin(2*pi*m/istep), are powers
      of one n-th root. */
  ghost predicate Computes(root: (nat, nat) -> Cpx, w: int -> Cpx, l: nat, s: nat) {
    forall m :: 0 <= m < l ==> root(m, 2 * l) == w(m * s)
  }

  ghost function Direction(w: int -> Cpx, inverse: bool): int -> Cpx { if inverse then Backward(w) else w }

  /** One stage: the loop over the lanes. */
  method Stage(f: array<Cpx>, n: nat, l: nat, inverse: bool, root: (nat, nat) -> Cpx, ghost w: int -> Cpx, ghost s: nat, ghost g: nat)
    requires l > 0 && n <= f.Length && Pairs(n, l, g) && Turn(w, n) && Computes(root, w, l, s)
    modifies f
    ensures f[..n] == StageOut(old(f[..n]), Direction(w, inverse), l, s)
    ensures forall i :: n <= i < f.Length ==> f[i] == old(f[i])
  {
    ghost var F := f[..n];
    ghost var W := Direction(w, inverse);
    ghost var G := StageOut(F, W, l, s);
    LaneEnds(F, G, l, 0, 0);
    hide StageOut, StageDone, Pairs;
    var m, istep := 0, 2 * l;
    while m < l
      invariant 0 <= m <= l
      invariant f[..n] == StageDone(F, G, l, m, m)
      invariant forall k :: n <= k < f.Length ==> f[k] == old(f[k])
    {
      var tw := root(m, istep);
      if inverse {
        tw := Conj(tw);
        assert ConjugateAt(w, m * s);
      }
      LanePass(f, n, l, m, tw, F, W, s, g);
      m := m + 1;
    }
  }

  // ------------------------------------------------------- what a stage leaves

  /** The samples whose transform run c holds when runs are Pow2(a) long. */
  ghost function RunInput(x: int -> Cpx, b: nat, a: nat, c: nat): int -> Cpx
    requires a <= b
  {
    j => x(Rev(c, b - a) + j * Pow2(b - a))
  }

  ghost function RunBin(x: int -> Cpx, w: int -> Cpx, b: nat, a: nat, c: nat, u: nat): Cpx
    requires a <= b
  {
    Dft(Pow2(a), RunInput(x, b, a, c), w, u * Pow2(b - a))
  }

  /** Every run of length Pow2(a) holds the transform of its decimated subsequence. */
  ghost predicate RunsHold(F: seq<Cpx>, x: int -> Cpx, w: int -> Cpx, b: nat, a: nat) {
    && a <= b
    && |F| == Pow2(b)
    && forall i :: 0 <= i < |F| ==> Holds(F, x, w, b, a, i)
  }

  ghost predicate Holds(F: seq<Cpx>, x: int -> Cpx, w: int -> Cpx, b: nat, a: nat, i: nat)
    requires a <= b && i < |F|
  {
    var l := Pow2(a);
    RunNo(i, l) >= 0 && Lane(i, l) >= 0 && F[i] == RunBin(x, w, b, a, RunNo(i, l), Lane(i, l))
  }

  /** A stage turns runs of length l holding transforms into runs of length 2*l holding them. */
  lemma StageCorrect(F: seq<Cpx>, x: int -> Cpx, w: int -> Cpx, b: nat, a: nat)
    requires a < b && Turn(w, Pow2(b)) && RunsHold(F, x, w, b, a)
    ensures RunsHold(StageOut(F, w, Pow2(a), Pow2(b - a - 1)), x, w, b, a + 1)
  {
    hide Turn, Holds, StageOut, Pow2;
    var G, a' := StageOut(F, w, Pow2(a), Pow2(b - a - 1)), a + 1;
    forall i | 0 <= i < |F| ensures Holds(G, x, w, b, a', i) {
      StageEntry(F, x, w, b, a, i);
    }
  }

  /** Index i = (2c+h)*l + u lies in half h of pair c. */
  lemma Halves(i: nat, l: nat, n: nat, g: nat) returns (c: nat, h: nat, u: nat)
    requires l > 0 && i < n && Pairs(n, l, g)
    ensures h <= 1 && u < l && u == Lane(i, l) && RunNo(i, l) == 2 * c + h && (FirstHalf(i, l) <==> h == 0)
    ensures RunNo(i, 2 * l) == c && Lane(i, 2 * l) == (if h == 0 then u else l + u)
    ensures h == 0 ==> i + l < n && RunNo(i + l, l) == 2 * c + 1 && Lane(i + l, l) == u
    ensures h == 1 ==> i >= l && RunNo(i - l, l) == 2 * c && Lane(i - l, l) == u
  {
    RunOffset(i, l);
    var r := RunNo(i, l);
    u, c, h := Lane(i, l), r / 2, r % 2;
    HalvesSum(i, l, r, u, c, h, if h == 0 then u else l + u);
    NextRun(i, l);
    hide Pairs, PairStart, Lane, RunNo;
    if h == 0 { PairOf(i, u, l, c, n, g); }
  }

  lemma NextRun(i: nat, l: nat)
    requires l > 0
    ensures RunNo(i + l, l) == RunNo(i, l) + 1 && Lane(i + l, l) == Lane(i, l)
    ensures i >= l ==> RunNo(i - l, l) == RunNo(i, l) - 1 && Lane(i - l, l) == Lane(i, l)
  {
    ModShift(i, l, 1);
    ModShift(i, l, -1);
  }

  lemma HalvesSum(i: nat, l: nat, r: nat, u: nat, c: nat, h: nat, v: nat)
    requires u < l && i == l * r + u && r == 2 * c + h && h <= 1 && v == if h == 0 then u else l + u
    ensures (h == 0 ==> PairStart(i, u, l, c)) && (h == 1 ==> i >= l)
    ensures RunNo(i, 2 * l) == c && Lane(i, 2 * l) == v
  {
    MulMonotone(0, c, 2 * l);
    Distribute(l, 2 * c, h);
    Associate(l, 2, c);
    Associate(2, l, c);
    DivModUnique(i, 2 * l, c, v);
  }

  /** The inputs of run c, taken alternately, are those of runs 2c and 2c+1. */
  lemma RunInputSplit(x: int -> Cpx, b: nat, a: nat, c: nat, q: nat, j: int)
    requires a < b && q <= 1
    ensures Decimated(RunInput(x, b, a + 1, c), 2, q)(j) == RunInput(x, b, a, 2 * c + q)(j)
  {
    SplitIndex(b - a - 1, c, q, j);
  }

  lemma SplitIndex(t: nat, c: nat, q: nat, j: int)
    requires q <= 1
    ensures Rev(2 * c + q, t + 1) + j * Pow2(t + 1) == Rev(c, t) + (q + 2 * j) * Pow2(t)
  {
    hide *;
    var s := Pow2(t);
    RevAppended(c, q, t);
    Distribute(s, q, 2 * j);
    Associate(2, j, s);
    Associate(j, 2, s);
  }

  lemma RevAppended(c: nat, q: nat, t: nat)
    requires q <= 1
    ensures Pow2(t + 1) == 2 * Pow2(t) && Rev(2 * c + q, t + 1) == q * Pow2(t) + Rev(c, t)
  {
  }

  /** The transform in run c, entry u of half h, from those in runs 2c and 2c+1. */
  lemma RunBinSplit(x: int -> Cpx, w: int -> Cpx, b: nat, a: nat, c: nat, h: nat, u: nat, k: nat)
    requires a < b && Turn(w, Pow2(b)) && h <= 1 && k == if h == 0 then u else Pow2(a) + u
    ensures var E, O, t := RunBin(x, w, b, a, 2 * c, u), RunBin(x, w, b, a, 2 * c + 1, u), w(u * Pow2(b - a - 1));
      RunBin(x, w, b, a + 1, c, k) == if h == 0 then Add(E, Mul(O, t)) else Sub(E, Mul(O, t))
  {
    hide *;
    var E, O, t := RunBin(x, w, b, a, 2 * c, u), RunBin(x, w, b, a, 2 * c + 1, u), w(u * Pow2(b - a - 1));
    var e := k * Pow2(b - a - 1);
    StageTwiddle(w, b, a, h, u, k);
    TwoPoints(SubDfts(2, Pow2(a), RunInput(x, b, a + 1, c), w, e), w, Pow2(b), e);
    RunBinSubs(x, w, b, a, c, h, u, k, 0);
    RunBinSubs(x, w, b, a, c, h, u, k, 1);
    RunBinWhole(x, w, b, a, c, k);
    NegatedProduct(O, t);
    AddNegative(E, Mul(O, t));
  }

  /** The twiddle of the second half is that of the first, turned by half a circle. */
  lemma StageTwiddle(w: int -> Cpx, b: nat, a: nat, h: nat, u: nat, k: nat)
    requires a < b && Turn(w, Pow2(b)) && h <= 1 && k == if h == 0 then u else Pow2(a) + u
    ensures var t := w(u * Pow2(b - a - 1)); w(k * Pow2(b - a - 1)) == if h == 0 then t else Scale(-1.0, t)
  {
    hide Turn;
    SplitExponents(b, a, h, u, k);
    HalfTwiddle(w, Pow2(b), Pow2(a) * Pow2(b - a - 1), u * Pow2(b - a - 1), h);
  }

  lemma SplitExponents(b: nat, a: nat, h: nat, u: nat, k: nat)
    requires a < b && h <= 1 && k == if h == 0 then u else Pow2(a) + u
    ensures var n, l, s := Pow2(b), Pow2(a), Pow2(b - a - 1);
      && Pow2(a + 1) == 2 * l && Pow2(b - (a + 1)) == s && n == 2 * (l * s) && l * s > 0
      && 2 * (k * s) == u * Pow2(b - a) + n * h
      && k * s == u * s + (if h == 0 then 0 else l * s)
      && h * l + u == k
  {
    var n, l, s := Pow2(b), Pow2(a), Pow2(b - a - 1);
    Pow2Sum(a + 1, b - a - 1);
    assert Pow2(a + 1) == 2 * l && Pow2(b - a) == 2 * s;
    hide Pow2;
    Associate(2, l, s);
    MulMonotone(1, l, s);
    Distribute(s, l, u);
    Associate(2, u, s);
    assert u * (2 * s) == 2 * (u * s);
  }

  lemma HalfTwiddle(w: int -> Cpx, n: nat, half: nat, e: int, h: nat)
    requires half > 0 && n == 2 * half && Turn(w, n)
    ensures w(e + (if h == 0 then 0 else half)) == if h == 0 then w(e) else Scale(-1.0, w(e))
  {
    HalfTurn(w, half);
    TurnAdd(w, n, e, half);
  }

  lemma NegatedProduct(a: Cpx, b: Cpx)
    ensures Mul(a, Scale(-1.0, b)) == Scale(-1.0, Mul(a, b))
  {
  }

  lemma RunBinSubs(x: int -> Cpx, w: int -> Cpx, b: nat, a: nat, c: nat, h: nat, u: nat, k: nat, q: nat)
    requires a < b && Turn(w, Pow2(b)) && h <= 1 && q <= 1 && k == if h == 0 then u else Pow2(a) + u
    ensures SubDfts(2, Pow2(a), RunInput(x, b, a + 1, c), w, k * Pow2(b - a - 1))(q) == RunBin(x, w, b, a, 2 * c + q, u)
  {
    var n, l, s := Pow2(b), Pow2(a), Pow2(b - a - 1);
    var y, z := RunInput(x, b, a + 1, c), RunInput(x, b, a, 2 * c + q);
    SplitExponents(b, a, h, u, k);
    hide Pow2, Rev, Turn, Dft, RunInput, Decimated;
    forall j ensures Decimated(y, 2, q)(j) == z(j) { RunInputSplit(x, b, a, c, q, j); }
    DftEq(l, Decimated(y, 2, q), z, w, 2 * (k * s));
    DftPeriod(l, z, w, u * Pow2(b - a), n, h);
  }

  lemma RunBinWhole(x: int -> Cpx, w: int -> Cpx, b: nat, a: nat, c: nat, k: nat)
    requires a < b && Turn(w, Pow2(b))
    ensures RunBin(x, w, b, a + 1, c, k)
      == Dft(2, SubDfts(2, Pow2(a), RunInput(x, b, a + 1, c), w, k * Pow2(b - a - 1)), w, k * Pow2(b - a - 1))
  {
    var l, s := Pow2(a), Pow2(b - a - 1);
    assert Pow2(a + 1) == 2 * l && b - (a + 1) == b - a - 1;
    hide Pow2, Turn, Dft, SubDfts, RunInput;
    Decimation(2, l, RunInput(x, b, a + 1, c), w, k * s, Pow2(b));
  }

  lemma StagePairs(b: nat, a: nat)
    requires a < b
    ensures Pairs(Pow2(b), Pow2(a), Pow2(b - a - 1)) && Pow2(a + 1) == 2 * Pow2(a)
  {
    Pow2Sum(a + 1, b - a - 1);
  }

  lemma StageEntry(F: seq<Cpx>, x: int -> Cpx, w: int -> Cpx, b: nat, a: nat, i: nat)
    requires a < b && Turn(w, Pow2(b)) && RunsHold(F, x, w, b, a) && i < |F|
    ensures Holds(StageOut(F, w, Pow2(a), Pow2(b - a - 1)), x, w, b, a + 1, i)
  {
    hide Pow2, RunBin, Turn, Mul, Add, Sub, RunNo, Lane, FirstHalf, Pairs;
    var l, s := Pow2(a), Pow2(b - a - 1);
    StagePairs(b, a);
    var c, h, u := Halves(i, l, |F|, s);
    RunBinSplit(x, w, b, a, c, h, u, Lane(i, 2 * l));
    assert Holds(F, x, w, b, a, i);
    if h == 0 { assert Holds(F, x, w, b, a, i + l); } else { assert Holds(F, x, w, b, a, i - l); }
  }

  // ------------------------------------------------------- the whole transform

  /** The re-ordered input is the collection of its one-point transforms. */
  lemma FirstRuns(x: seq<Cpx>, w: int -> Cpx, b: nat)
    requires |x| == Pow2(b) && Turn(w, |x|)
    ensures RunsHold(Swapped(x, b, |x|), Signal(x), w, b, 0)
  {
    var F := Swapped(x, b, |x|);
    hide Holds, Turn, Swapped;
    forall i | 0 <= i < |F| ensures Holds(F, Signal(x), w, b, 0, i) { FirstRun(x, w, b, i); }
  }

  lemma FirstInput(x: seq<Cpx>, b: nat, i: nat)
    requires |x| == Pow2(b) && i < |x|
    ensures RunInput(Signal(x), b, 0, i)(0) == Swapped(x, b, |x|)[i]
  {
    assert b - 0 == b;
    hide Pow2, Rev;
  }

  lemma FirstRun(x: seq<Cpx>, w: int -> Cpx, b: nat, i: nat)
    requires |x| == Pow2(b) && Turn(w, |x|) && i < |x|
    ensures Holds(Swapped(x, b, |x|), Signal(x), w, b, 0, i)
  {
    assert w(0) == ONE && Pow2(0) == 1;
    hide Turn, Dft, RunInput, Swapped, Pow2;
    DivModUnique(i, 1, i, 0);
    FirstInput(x, b, i);
    PointDft(RunInput(Signal(x), b, 0, i), w);
  }

  lemma LastInput(x: int -> Cpx, b: nat)
    ensures forall j :: RunInput(x, b, b, 0)(j) == x(j)
  {
    assert b - b == 0 && Pow2(0) == 1 && Rev(0, 0) == 0;
  }

  /** One run of full length is the transform of the whole input. */
  lemma LastRun(F: seq<Cpx>, x: int -> Cpx, w: int -> Cpx, b: nat)
    requires RunsHold(F, x, w, b, b)
    ensures forall k :: 0 <= k < |F| ==> F[k] == Dft(|F|, x, w, k)
  {
    hide Holds, Dft;
    forall k | 0 <= k < |F| ensures F[k] == Dft(|F|, x, w, k) {
      assert Holds(F, x, w, b, b, k);
      LastEntry(F, x, w, b, k);
    }
  }

  lemma LastEntry(F: seq<Cpx>, x: int -> Cpx, w: int -> Cpx, b: nat, k: nat)
    requires |F| == Pow2(b) && k < |F| && Holds(F, x, w, b, b, k)
    ensures F[k] == Dft(|F|, x, w, k)
  {
    assert Pow2(b - b) == 1;
    LastInput(x, b);
    hide Dft, RunInput, Pow2;
    DivModUnique(k, Pow2(b), 0, k);
    DftEq(|F|, RunInput(x, b, b, 0), x, w, k);
  }

  /** Every stage finds the twiddles it needs. */
  ghost predicate AllRoots(root: (nat, nat) -> Cpx, w: int -> Cpx, b: nat) {
    forall a :: 0 <= a < b ==> Computes(root, w, Pow2(a), Pow2(b - a - 1))
  }

  /** The loop over the stages. */
  method Stages(f: array<Cpx>, n: nat, inverse: bool, root: (nat, nat) -> Cpx, ghost w: int -> Cpx, ghost b: nat, ghost x: seq<Cpx>)
    requires n == Pow2(b) == |x| && n <= f.Length && Turn(w, n) && AllRoots(root, w, b)
    requires f[..n] == Swapped(x, b, n)
    modifies f
    ensures forall k :: 0 <= k < n ==> f[k] == Dft(n, Signal(x), Direction(w, inverse), k)
    ensures forall i :: n <= i < f.Length ==> f[i] == old(f[i])
  {
    ghost var W := Direction(w, inverse);
    BackwardTurn(w, n);
    FirstRuns(x, W, b);
    hide Turn, RunsHold, Swapped, StageOut, Direction, Computes;
    var l := 1;
    ghost var a: nat := 0;
    while l < n
      invariant a <= b && l == Pow2(a)
      invariant RunsHold(f[..n], Signal(x), W, b, a)
      invariant forall i :: n <= i < f.Length ==> f[i] == old(f[i])
      decreases n - l
    {
      if a == b { assert false; }
      StageShape(b, a);
      StageCorrect(f[..n], Signal(x), W, b, a);
      Stage(f, n, l, inverse, root, w, Pow2(b - a - 1), Pow2(b - a - 1));
      l, a := 2 * l, a + 1;
    }
    if a < b { Pow2Strict(a, b); }
    LastRun(f[..n], Signal(x), W, b);
  }

  lemma StageShape(b: nat, a: nat)
    requires a < b
    ensures Pairs(Pow2(b), Pow2(a), Pow2(b - a - 1))
  {
    Pow2Sum(a + 1, b - a - 1);
  }

  lemma Pow2Strict(a: nat, b: nat)
    requires a < b
    ensures Pow2(a) < Pow2(b)
  {
    Pow2Monotone(a + 1, b);
  }

  /** The division by n that ends an inverse transform. */
  method ScaleDown(f: array<Cpx>, n: nat)
    requires 0 < n <= f.Length
    modifies f
    ensures forall k :: 0 <= k < n ==> f[k] == Scale(1.0 / n as real, old(f[k]))
    ensures forall i :: n <= i < f.Length ==> f[i] == old(f[i])
  {
    hide Scale;
    for i := 0 to n
      invariant forall k :: 0 <= k < i ==> f[k] == Scale(1.0 / n as real, old(f[k]))
      invariant forall k :: i <= k < f.Length ==> f[k] == old(f[k])
    {
      DivideAsScale(f[i], n as real);
      f[i] := Cpx(f[i].re / n as real, f[i].im / n as real);
    }
  }

  lemma DivideAsScale(a: Cpx, r: real)
    requires r != 0.0
    ensures Cpx(a.re / r, a.im / r) == Scale(1.0 / r, a)
  {
    assert a.re / r == 1.0 / r * a.re;
    assert a.im / r == 1.0 / r * a.im;
  }

  /** fft_cfp: the n = 2^m point transform, or its inverse divided by n. */
  method FftCfp(f: array<Cpx>, m: nat, inverse: bool, root: (nat, nat) -> Cpx, ghost w: int -> Cpx)
    requires Pow2(m) <= f.Length && Turn(w, Pow2(m)) && AllRoots(root, w, m)
    modifies f
    ensures var n := Pow2(m); var x := Signal(old(f[..n]));
      forall k :: 0 <= k < n ==>
        f[k] == if inverse then Scale(1.0 / n as real, Dft(n, x, Backward(w), k)) else Dft(n, x, w, k)
    ensures forall i :: Pow2(m) <= i < f.Length ==> f[i] == old(f[i])
  {
    hide Turn, Swapped, Dft, AllRoots, Pow2, Scale;
    var n := Pow2(m);
    ghost var x := f[..n];
    BitReverse(f, n, m);
    Stages(f, n, inverse, root, w, m, x);
    if inverse { ScaleDown(f, n); }
  }
}
