/** The mixed-radix transform of kiss_fft.c: butterflies that combine p transforms of
    length m in place, and the recursion over the factor list. */
module KissFft {
  import opened Arith
  import opened Complex
  import opened Factor
  import opened Fourier

  /** What kiss_fft_alloc prepares: size, direction, factor list and twiddle table. */
  datatype Config = Config(nfft: nat, inverse: bool, factors: seq<nat>, twiddles: seq<Cpx>)

  /** The table holds the powers of a primitive nfft-th root, a quarter turn being
      clockwise in the forward direction and anticlockwise in the inverse one. */
  ghost predicate Tabulates(cfg: Config, w: int -> Cpx) {
    && Turn(w, cfg.nfft)
    && |cfg.twiddles| == cfg.nfft
    && (forall i :: 0 <= i < cfg.nfft ==> cfg.twiddles[i] == w(i))
    && (cfg.nfft % 4 == 0 ==> w(cfg.nfft / 4) == if cfg.inverse then Cpx(0.0, 1.0) else Cpx(0.0, -1.0))
  }

  // --------------------------------------------- what one stage must compute

  /** The inputs of one butterfly: element u of each of the sub-transforms. */
  ghost function Lane(F: seq<Cpx>, m: int, u: int): int -> Cpx {
    q => if 0 <= u + m * q < |F| then F[u + m * q] else ZERO
  }

  /** The p interleaved lanes of F, each replaced by its twiddled p-point transform. */
  ghost function Combined(F: seq<Cpx>, w: int -> Cpx, p: nat, m: nat, s: nat): (G: seq<Cpx>)
    requires m > 0
    ensures |G| == |F|
  {
    seq(|F|, i requires 0 <= i < |F| => Dft(p, Lane(F, m, i % m), w, i * s))
  }

  /** The lane that index i belongs to. */
  ghost function LaneNo(i: int, m: int): int
    requires m > 0
  {
    i % m
  }

  /** F with its first u lanes already replaced. */
  ghost function Partly(F: seq<Cpx>, G: seq<Cpx>, m: nat, u: nat): (H: seq<Cpx>)
    requires m > 0 && |F| == |G|
    ensures |H| == |F|
  {
    seq(|F|, i requires 0 <= i < |F| => if LaneNo(i, m) < u then G[i] else F[i])
  }

  /** A lane's transform, with the inputs twiddled first as every butterfly does. */
  lemma LaneDft(p: nat, L: int -> Cpx, w: int -> Cpx, u: int, m: int, q1: int, s: int, N: int)
    requires Turn(w, N)
    ensures Dft(p, L, w, (u + m * q1) * s) == Dft(p, Twiddled(L, w, u * s), w, q1 * (m * s))
  {
    hide Mul, Turn;
    forall q ensures Twiddled(L, w, (u + m * q1) * s)(q) == Twiddled(Twiddled(L, w, u * s), w, q1 * (m * s))(q) {
      var a, b := u * s, q1 * (m * s);
      assert (u + m * q1) * s == a + b by { Distribute(s, u, m * q1); Associate(m, q1, s); }
      Distribute(q, a, b);
      TurnAdd(w, N, q * a, q * b);
      MulLaws(L(q), w(q * a), w(q * b));
    }
    SumEq(p, Twiddled(L, w, (u + m * q1) * s), Twiddled(Twiddled(L, w, u * s), w, q1 * (m * s)));
  }

  // --------------------------------------------- roots of small order

  lemma ThirdTurn(w: int -> Cpx, h: int)
    requires h > 0 && Turn(w, 3 * h)
    ensures w(h).re == -0.5 && w(2 * h) == Conj(w(h))
  {
    var z := w(h);
    TurnAdd(w, 3 * h, h, h);
    TurnPeriod(w, 3 * h, -h, 1);
    assert -h + 3 * h * 1 == 2 * h;
    assert ConjugateAt(w, h);
    var q := Add(Add(Mul(z, z), z), ONE);
    TurnAdd(w, 3 * h, 2 * h, h);
    assert Mul(Sub(z, ONE), q) == Sub(Mul(Mul(z, z), z), ONE);
    NoZeroDivisors(Sub(z, ONE), q);
    assert q == ZERO;
  }

  /** The powers of the n-th root reduce modulo the order n. */
  lemma RootPower(w: int -> Cpx, h: int, n: int, a: int, r: int, t: int)
    requires n > 0 && h > 0 && Turn(w, n * h) && a == r + n * t
    ensures w(a * h) == w(r * h)
  {
    assert a * h == r * h + (n * h) * t by { Distribute(h, r, n * t); Associate(n, t, h); Associate(n, h, t); Associate(h, t, n); }
    TurnPeriod(w, n * h, r * h, t);
  }

  lemma Radix2(t: int -> Cpx, w: int -> Cpx, h: int)
    requires h > 0 && Turn(w, 2 * h)
    ensures Dft(2, t, w, 0 * h) == Add(t(0), t(1))
    ensures Dft(2, t, w, 1 * h) == Sub(t(0), t(1))
  {
    assert w(0) == ONE && 0 * h == 0;
    HalfTurn(w, h);
    hide *;
    TwoPoints(t, w, 2 * h, 0);
    TwoPoints(t, w, 2 * h, h);
    MulLaws(t(1), ONE, ONE);
    Negate(t(1));
    AddNegative(t(0), t(1));
  }

  lemma Radix3(t: int -> Cpx, w: int -> Cpx, h: int, q: int)
    requires h > 0 && Turn(w, 3 * h) && 0 <= q < 3
    ensures w(h).re == -0.5
    ensures var z := w(h); var z' := Conj(z);
      Dft(3, t, w, q * h) == Add(Add(t(0), Mul(t(1), [ONE, z, z'][q])), Mul(t(2), [ONE, z', z][q]))
  {
    assert w(0) == ONE;
    hide Mul, Turn;
    ThirdTurn(w, h);
    SmallSums(Twiddled(t, w, q * h));
    Associate(2, q, h);
    RootPower(w, h, 3, 4, 1, 1);
    MulLaws(t(0), ONE, ONE);
  }

  /** The powers of a quarter turn: 1, z, -1, -z. */
  ghost function Fourth(z: Cpx, k: int): Cpx {
    match k % 4
    case 0 => ONE
    case 1 => z
    case 2 => Cpx(-1.0, 0.0)
    case _ => Scale(-1.0, z)
  }

  lemma FourthRoots(w: int -> Cpx, h: int, k: int)
    requires h > 0 && Turn(w, 4 * h)
    ensures w(k * h) == Fourth(w(h), k)
  {
    HalfTurn(w, 2 * h);
    TurnAdd(w, 4 * h, 2 * h, h);
    hide Turn;
    RootPower(w, h, 4, k, k % 4, k / 4);
    assert k % 4 == 3 ==> w(k * h) == w(2 * h + h);
  }

  lemma Radix4(t: int -> Cpx, w: int -> Cpx, h: int, q: int)
    requires h > 0 && Turn(w, 4 * h)
    ensures var z := w(h);
      Dft(4, t, w, q * h) ==
        Add(Add(Add(t(0), Mul(t(1), Fourth(z, q))), Mul(t(2), Fourth(z, 2 * q))), Mul(t(3), Fourth(z, 3 * q)))
  {
    assert w(0) == ONE;
    hide Mul, Turn, Fourth;
    SmallSums(Twiddled(t, w, q * h));
    FourthRoots(w, h, q);
    FourthRoots(w, h, 2 * q);
    FourthRoots(w, h, 3 * q);
    Associate(2, q, h);
    Associate(3, q, h);
    MulLaws(t(0), ONE, ONE);
  }

  /** The powers of a fifth root: 1, a, b and their conjugates. */
  ghost function Fifth(a: Cpx, b: Cpx, k: int): Cpx {
    match k % 5
    case 0 => ONE
    case 1 => a
    case 2 => b
    case 3 => Conj(b)
    case _ => Conj(a)
  }

  lemma FifthRoots(w: int -> Cpx, h: int, k: int)
    requires h > 0 && Turn(w, 5 * h)
    ensures w(k * h) == Fifth(w(h), w(2 * h), k)
  {
    assert ConjugateAt(w, h) && ConjugateAt(w, 2 * h);
    RootPower(w, h, 5, -1, 4, -1);
    RootPower(w, h, 5, -2, 3, -1);
    RootPower(w, h, 5, k, k % 5, k / 5);
  }

  lemma Radix5(t: int -> Cpx, w: int -> Cpx, h: int, q: int)
    requires h > 0 && Turn(w, 5 * h)
    ensures var a, b := w(h), w(2 * h);
      Dft(5, t, w, q * h) ==
        Add(Add(Add(Add(t(0), Mul(t(1), Fifth(a, b, q))), Mul(t(2), Fifth(a, b, 2 * q))),
                Mul(t(3), Fifth(a, b, 3 * q))), Mul(t(4), Fifth(a, b, 4 * q)))
  {
    assert w(0) == ONE;
    hide Mul, Turn, Fifth;
    SmallSums(Twiddled(t, w, q * h));
    FifthRoots(w, h, q);
    FifthRoots(w, h, 2 * q);
    FifthRoots(w, h, 3 * q);
    FifthRoots(w, h, 4 * q);
    Associate(2, q, h);
    Associate(3, q, h);
    Associate(4, q, h);
    MulLaws(t(0), ONE, ONE);
  }

  // --------------------------------------------- stepping through the lanes

  lemma LaneOf(i: int, m: int, p: int)
    requires m > 0 && 0 <= i < p * m
    ensures 0 <= i / m < p && 0 <= i % m < m && i == i % m + m * (i / m)
  {
    var q := i / m;
    if q >= p { MulMonotone(p, q, m); }
  }

  /** The twiddled inputs of lane u, one by one. */
  lemma TwiddledLane(F: seq<Cpx>, w: int -> Cpx, m: nat, u: nat, e: int)
    requires u < |F| && w(0) == ONE
    ensures var t := Twiddled(Lane(F, m, u), w, e);
      && t(0) == F[u]
      && (u + m < |F| ==> t(1) == Mul(F[u + m], w(e)))
      && (u + 2 * m < |F| ==> t(2) == Mul(F[u + 2 * m], w(2 * e)))
      && (u + 3 * m < |F| ==> t(3) == Mul(F[u + 3 * m], w(3 * e)))
      && (u + 4 * m < |F| ==> t(4) == Mul(F[u + 4 * m], w(4 * e)))
  {
    hide Mul;
    MulLaws(F[u], ONE, ONE);
  }

  /** Entry u + m*q1 of the combination, as the transform of the twiddled lane. */
  lemma LaneTarget(F: seq<Cpx>, w: int -> Cpx, p: nat, m: nat, s: nat, N: int, u: nat, q1: nat)
    requires Turn(w, N) && |F| == p * m && u < m && q1 < p
    ensures u + m * q1 < p * m && (u + m * q1) % m == u
    ensures Combined(F, w, p, m, s)[u + m * q1] == Dft(p, Twiddled(Lane(F, m, u), w, u * s), w, q1 * (m * s))
  {
    hide Dft, Turn;
    RowIndex(u, q1, m, p);
    LaneDft(p, Lane(F, m, u), w, u, m, q1, s, N);
  }

  /** One more lane is done when its entries are right and nothing else moved. */
  lemma LaneStep(F: seq<Cpx>, G: seq<Cpx>, m: nat, u: nat, H: seq<Cpx>, H': seq<Cpx>)
    requires m > 0 && |F| == |G| == |H'| && H == Partly(F, G, m, u)
    requires forall i :: 0 <= i < |F| && LaneNo(i, m) == u ==> H'[i] == G[i]
    requires forall i :: 0 <= i < |F| && LaneNo(i, m) != u ==> H'[i] == H[i]
    ensures H' == Partly(F, G, m, u + 1)
  {
    hide LaneNo;
  }

  lemma AllLanes(F: seq<Cpx>, G: seq<Cpx>, m: nat)
    requires m > 0 && |F| == |G|
    ensures Partly(F, G, m, 0) == F && Partly(F, G, m, m) == G
  {
    forall i | 0 <= i < |F| ensures 0 <= LaneNo(i, m) < m { }
  }

  ghost predicate MemberOfSmall(i: int, u: int, m: int) {
    i == u || i == u + m || i == u + 2 * m || i == u + 3 * m || i == u + 4 * m
  }

  lemma LaneMember(i: int, u: nat, m: nat, p: nat)
    requires u < m && 2 <= p <= 5 && 0 <= i < p * m && LaneNo(i, m) == u
    ensures MemberOfSmall(i, u, m)
  {
    LaneOf(i, m, p);
    var q := i / m;
    assert q == 0 || q == 1 || q == 2 || q == 3 || q == 4;
  }

  lemma LaneShifts(u: nat, m: nat)
    requires u < m
    ensures LaneNo(u, m) == LaneNo(u + m, m) == LaneNo(u + 2 * m, m) == LaneNo(u + 3 * m, m) == LaneNo(u + 4 * m, m) == u
  {
    ModShift(u, m, 1);
    ModShift(u, m, 2);
    ModShift(u, m, 3);
    ModShift(u, m, 4);
  }

  /** The members of one lane, for the fixed radices. */
  lemma LaneMembers(u: nat, m: nat, p: nat, n: nat)
    requires u < m && 2 <= p <= 5 && n == p * m
    ensures LaneNo(u, m) == LaneNo(u + m, m) == LaneNo(u + 2 * m, m) == LaneNo(u + 3 * m, m) == LaneNo(u + 4 * m, m) == u
    ensures forall i | 0 <= i < n && LaneNo(i, m) == u :: MemberOfSmall(i, u, m)
  {
    LaneShifts(u, m);
    hide MemberOfSmall, LaneNo;
    forall i | 0 <= i < n && LaneNo(i, m) == u ensures MemberOfSmall(i, u, m) {
      LaneMember(i, u, m, p);
    }
  }

  /** The largest table index a lane needs, (p-1)*u*s, stays below the period p*m*s. */
  lemma TableIndex(u: nat, s: nat, p: nat, m: nat, N: nat)
    requires p > 0 && u < m && s > 0 && N == p * m * s
    ensures 0 <= u * s && (p - 1) * (u * s) < N
  {
    Associate(p, m, s);
    MulMonotone(0, u, s);
    MulMonotone(u + 1, m, s);
    MulMonotone(u * s, m * s - 1, p - 1);
    Distribute(m * s, p, -1);
    Distribute(p - 1, m * s, -1);
  }

  lemma FirstTwiddles(m: nat, s: nat, p: nat, N: nat)
    requires m > 0 && s > 0 && N == p * m * s
    ensures s * m == m * s > 0 && p * (m * s) == N
  {
    Associate(p, m, s);
    MulMonotone(1, m, s);
  }

  /** Radix 2, kf_bfly2. */
  method Bfly2(Fout: array<Cpx>, off: nat, fstride: nat, st: Config, m: nat, ghost w: int -> Cpx)
    requires Tabulates(st, w) && m > 0 && fstride > 0 && st.nfft == 2 * m * fstride
    requires off + 2 * m <= Fout.Length
    modifies Fout
    ensures Fout[off..off + 2 * m] == Combined(old(Fout[off..off + 2 * m]), w, 2, m, fstride)
    ensures forall i :: 0 <= i < Fout.Length && !(off <= i < off + 2 * m) ==> Fout[i] == old(Fout[i])
  {
    hide Mul, Combined, Partly, Turn;
    ghost var F := Fout[off..off + 2 * m];
    ghost var G := Combined(F, w, 2, m, fstride);
    AllLanes(F, G, m);
    var fo, fo2, tw1, k := off, off + m, 0, m;
    ghost var u := 0;
    while k != 0
      invariant u == m - k && 0 <= k <= m && fo == off + u && fo2 == off + m + u && tw1 == u * fstride
      invariant Fout[off..off + 2 * m] == Partly(F, G, m, u)
      invariant forall i :: 0 <= i < Fout.Length && !(off <= i < off + 2 * m) ==> Fout[i] == old(Fout[i])
    {
      ghost var H := Fout[off..off + 2 * m];
      TableIndex(u, fstride, 2, m, st.nfft);
      var t := Mul(Fout[fo2], st.twiddles[tw1]);
      tw1 := tw1 + fstride;
      Step2(F, w, m, fstride, st.nfft, u, H, t);
      Fout[fo2] := Sub(Fout[fo], t);
      Fout[fo] := Add(Fout[fo], t);
      assert Fout[off..off + 2 * m] == H[u + m := Sub(H[u], t)][u := Add(H[u], t)];
      Distribute(fstride, u, 1);
      fo, fo2, k, u := fo + 1, fo2 + 1, k - 1, u + 1;
    }
  }

  /** Lane u holds the radix-2 outputs, in the order the code stores them. */
  lemma Lane2(F: seq<Cpx>, w: int -> Cpx, m: nat, s: nat, N: int, u: nat)
    requires Turn(w, N) && u < m && |F| == 2 * m && s > 0 && N == 2 * m * s
    ensures var G := Combined(F, w, 2, m, s); var t := Mul(F[u + m], w(u * s));
      G[u] == Add(F[u], t) && G[u + m] == Sub(F[u], t)
  {
    assert w(0) == ONE;
    hide Turn, Mul, Combined, Dft, Lane, Twiddled;
    LaneTarget(F, w, 2, m, s, N, u, 0);
    LaneTarget(F, w, 2, m, s, N, u, 1);
    TwiddledLane(F, w, m, u, u * s);
    Associate(2, m, s);
    MulMonotone(1, m, s);
    Radix2(Twiddled(Lane(F, m, u), w, u * s), w, m * s);
  }

  lemma Step2(F: seq<Cpx>, w: int -> Cpx, m: nat, s: nat, N: int, u: nat, H: seq<Cpx>, t: Cpx)
    requires Turn(w, N) && u < m && |F| == 2 * m && s > 0 && N == 2 * m * s
    requires H == Partly(F, Combined(F, w, 2, m, s), m, u) && t == Mul(H[u + m], w(u * s))
    ensures H[u + m := Sub(H[u], t)][u := Add(H[u], t)] == Partly(F, Combined(F, w, 2, m, s), m, u + 1)
  {
    hide LaneNo, Turn, Mul, Combined;
    LaneMembers(u, m, 2, 2 * m);
    Lane2(F, w, m, s, N, u);
    LaneStep(F, Combined(F, w, 2, m, s), m, u, H, H[u + m := Sub(H[u], t)][u := Add(H[u], t)]);
  }

  /** Radix 3, kf_bfly3. */
  method Bfly3(Fout: array<Cpx>, off: nat, fstride: nat, st: Config, m: nat, ghost w: int -> Cpx)
    requires Tabulates(st, w) && m > 0 && fstride > 0 && st.nfft == 3 * m * fstride
    requires off + 3 * m <= Fout.Length
    modifies Fout
    ensures Fout[off..off + 3 * m] == Combined(old(Fout[off..off + 3 * m]), w, 3, m, fstride)
    ensures forall i :: 0 <= i < Fout.Length && !(off <= i < off + 3 * m) ==> Fout[i] == old(Fout[i])
  {
    hide Mul, Combined, Partly, Turn, Scale, Out3;
    ghost var F := Fout[off..off + 3 * m];
    ghost var G := Combined(F, w, 3, m, fstride);
    AllLanes(F, G, m);
    FirstTwiddles(m, fstride, 3, st.nfft);
    var epi3 := st.twiddles[fstride * m];
    ThirdTurn(w, m * fstride);
    var fo, tw1, tw2, k := off, 0, 0, m;
    ghost var u := 0;
    while k != 0
      invariant u == m - k && 0 <= k <= m && fo == off + u && tw1 == u * fstride && tw2 == 2 * (u * fstride)
      invariant Fout[off..off + 3 * m] == Partly(F, G, m, u)
      invariant forall i :: 0 <= i < Fout.Length && !(off <= i < off + 3 * m) ==> Fout[i] == old(Fout[i])
    {
      Pass3(Fout, off, fo, fstride, st, m, tw1, tw2, epi3, w, F, u);
      Distribute(fstride, u, 1);
      tw1, tw2 := tw1 + fstride, tw2 + fstride * 2;
      fo, k, u := fo + 1, k - 1, u + 1;
    }
  }

  /** One pass of kf_bfly3's loop. */
  method Pass3(Fout: array<Cpx>, off: nat, fo: nat, fstride: nat, st: Config, m: nat, tw1: nat, tw2: nat, epi3: Cpx,
               ghost w: int -> Cpx, ghost F: seq<Cpx>, ghost u: nat)
    requires Tabulates(st, w) && u < m && fstride > 0 && st.nfft == 3 * m * fstride
    requires |F| == 3 * m && off + 3 * m <= Fout.Length && fo == off + u
    requires tw1 == u * fstride && tw2 == 2 * tw1 && epi3 == w(m * fstride) && epi3.re == -0.5
    requires Fout[off..off + 3 * m] == Partly(F, Combined(F, w, 3, m, fstride), m, u)
    modifies Fout
    ensures Fout[off..off + 3 * m] == Partly(F, Combined(F, w, 3, m, fstride), m, u + 1)
    ensures forall i :: 0 <= i < Fout.Length && !(off <= i < off + 3 * m) ==> Fout[i] == old(Fout[i])
  {
    hide Mul, Combined, Partly, Turn, Scale, Out3;
    ghost var H := Fout[off..off + 3 * m];
    TableIndex(u, fstride, 3, m, st.nfft);
    var s1 := Mul(Fout[fo + m], st.twiddles[tw1]);
    var s2 := Mul(Fout[fo + 2 * m], st.twiddles[tw2]);
    Step3(F, w, m, fstride, st.nfft, u, H, s1, s2);
    Store3(Fout, fo, m, epi3, s1, s2);
    assert Fout[off..off + 3 * m] == H[u := Out3(epi3, H[u], s1, s2, 0)]
      [u + m := Out3(epi3, H[u], s1, s2, 1)][u + 2 * m := Out3(epi3, H[u], s1, s2, 2)];
  }

  /** The part of kf_bfly3's loop body after the twiddle products. */
  method Store3(Fout: array<Cpx>, fo: nat, m: nat, epi3: Cpx, s1: Cpx, s2: Cpx)
    requires m > 0 && fo + 2 * m < Fout.Length
    requires epi3.re == -0.5
    modifies Fout
    ensures Fout[fo] == Out3(epi3, old(Fout[fo]), s1, s2, 0)
    ensures Fout[fo + m] == Out3(epi3, old(Fout[fo]), s1, s2, 1)
    ensures Fout[fo + 2 * m] == Out3(epi3, old(Fout[fo]), s1, s2, 2)
    ensures forall i :: 0 <= i < Fout.Length && i !in {fo, fo + m, fo + 2 * m} ==> Fout[i] == old(Fout[i])
  {
    hide *;
    Radix3Outputs(epi3, Fout[fo], s1, s2);
    var m2 := 2 * m;
    var s3, s0 := Add(s1, s2), Sub(s1, s2);
    Fout[fo + m] := Sub(Fout[fo], Scale(0.5, s3));
    s0 := Scale(epi3.im, s0);
    Fout[fo] := Add(Fout[fo], s3);
    Fout[fo + m2] := Cpx(Fout[fo + m].re + s0.im, Fout[fo + m].im - s0.re);
    Fout[fo + m] := Cpx(Fout[fo + m].re - s0.im, Fout[fo + m].im + s0.re);
  }

  /** Output q of a 3-point transform with root z. */
  ghost function Out3(z: Cpx, t0: Cpx, t1: Cpx, t2: Cpx, q: int): Cpx
    requires 0 <= q < 3
  {
    var z' := Conj(z);
    Add(Add(t0, Mul(t1, [ONE, z, z'][q])), Mul(t2, [ONE, z', z][q]))
  }

  /** The outputs as kf_bfly3 forms them, from sum, difference and the root's imaginary part. */
  lemma Radix3Outputs(z: Cpx, t0: Cpx, t1: Cpx, t2: Cpx)
    requires z.re == -0.5
    ensures var s3 := Add(t1, t2); var s0 := Scale(z.im, Sub(t1, t2)); var mid := Sub(t0, Scale(0.5, s3));
      && Out3(z, t0, t1, t2, 0) == Add(t0, s3)
      && Out3(z, t0, t1, t2, 1) == Cpx(mid.re - s0.im, mid.im + s0.re)
      && Out3(z, t0, t1, t2, 2) == Cpx(mid.re + s0.im, mid.im - s0.re)
  {
    MulLaws(t1, ONE, ONE);
    MulLaws(t2, ONE, ONE);
    ThirdProducts(z, t1);
    ThirdProducts(z, t2);
    ScaledDifference(z.im, t1, t2);
    hide Mul;
  }

  /** The products with a third of a turn and its conjugate. */
  lemma ThirdProducts(z: Cpx, t: Cpx)
    requires z.re == -0.5
    ensures Mul(t, z) == Cpx(-0.5 * t.re - SMul(z.im, t.im), -0.5 * t.im + SMul(z.im, t.re))
    ensures Mul(t, Conj(z)) == Cpx(-0.5 * t.re + SMul(z.im, t.im), -0.5 * t.im - SMul(z.im, t.re))
  {
  }

  lemma ScaledDifference(r: real, a: Cpx, b: Cpx)
    ensures Scale(r, Sub(a, b)) == Cpx(SMul(r, a.re) - SMul(r, b.re), SMul(r, a.im) - SMul(r, b.im))
  {
  }

  lemma Lane3(F: seq<Cpx>, w: int -> Cpx, m: nat, s: nat, N: int, u: nat, q: nat)
    requires Turn(w, N) && u < m && |F| == 3 * m && s > 0 && N == 3 * m * s && q < 3
    ensures u + m * q < 3 * m
    ensures Combined(F, w, 3, m, s)[u + m * q] ==
      Out3(w(m * s), F[u], Mul(F[u + m], w(u * s)), Mul(F[u + 2 * m], w(2 * (u * s))), q)
  {
    assert w(0) == ONE;
    hide Turn, Mul, Combined, Dft, Lane, Twiddled;
    LaneTarget(F, w, 3, m, s, N, u, q);
    TwiddledLane(F, w, m, u, u * s);
    Associate(3, m, s);
    MulMonotone(1, m, s);
    Radix3(Twiddled(Lane(F, m, u), w, u * s), w, m * s, q);
  }

  lemma Step3(F: seq<Cpx>, w: int -> Cpx, m: nat, s: nat, N: int, u: nat, H: seq<Cpx>, t1: Cpx, t2: Cpx)
    requires Turn(w, N) && u < m && |F| == 3 * m && s > 0 && N == 3 * m * s
    requires H == Partly(F, Combined(F, w, 3, m, s), m, u)
    requires t1 == Mul(H[u + m], w(u * s)) && t2 == Mul(H[u + 2 * m], w(2 * (u * s)))
    ensures var z := w(m * s); var x := H[u];
      H[u := Out3(z, x, t1, t2, 0)][u + m := Out3(z, x, t1, t2, 1)][u + 2 * m := Out3(z, x, t1, t2, 2)]
        == Partly(F, Combined(F, w, 3, m, s), m, u + 1)
  {
    hide LaneNo, Turn, Mul, Combined, Out3;
    LaneMembers(u, m, 3, 3 * m);
    Lane3(F, w, m, s, N, u, 0);
    Lane3(F, w, m, s, N, u, 1);
    Lane3(F, w, m, s, N, u, 2);
    var z, x := w(m * s), H[u];
    LaneStep(F, Combined(F, w, 3, m, s), m, u, H,
      H[u := Out3(z, x, t1, t2, 0)][u + m := Out3(z, x, t1, t2, 1)][u + 2 * m := Out3(z, x, t1, t2, 2)]);
  }

  /** Radix 4, kf_bfly4. */
  method Bfly4(Fout: array<Cpx>, off: nat, fstride: nat, st: Config, m: nat, ghost w: int -> Cpx)
    requires Tabulates(st, w) && m > 0 && fstride > 0 && st.nfft == 4 * m * fstride
    requires off + 4 * m <= Fout.Length
    modifies Fout
    ensures Fout[off..off + 4 * m] == Combined(old(Fout[off..off + 4 * m]), w, 4, m, fstride)
    ensures forall i :: 0 <= i < Fout.Length && !(off <= i < off + 4 * m) ==> Fout[i] == old(Fout[i])
  {
    hide Mul, Combined, Partly, Turn, Out4, Fourth;
    ghost var F := Fout[off..off + 4 * m];
    ghost var G := Combined(F, w, 4, m, fstride);
    AllLanes(F, G, m);
    Associate(4, m, fstride);
    ghost var z := w(m * fstride);
    assert st.nfft / 4 == m * fstride && z == if st.inverse then Cpx(0.0, 1.0) else Cpx(0.0, -1.0);
    var fo, tw1, tw2, tw3, k := off, 0, 0, 0, m;
    ghost var u := 0;
    while k != 0
      invariant u == m - k && 0 <= k <= m && fo == off + u
      invariant tw1 == u * fstride && tw2 == 2 * (u * fstride) && tw3 == 3 * (u * fstride)
      invariant Fout[off..off + 4 * m] == Partly(F, G, m, u)
      invariant forall i :: 0 <= i < Fout.Length && !(off <= i < off + 4 * m) ==> Fout[i] == old(Fout[i])
    {
      Pass4(Fout, off, fo, fstride, st, m, tw1, tw2, tw3, w, F, u, z);
      Distribute(fstride, u, 1);
      tw1, tw2, tw3 := tw1 + fstride, tw2 + fstride * 2, tw3 + fstride * 3;
      fo, k, u := fo + 1, k - 1, u + 1;
    }
  }

  /** One pass of kf_bfly4's loop. */
  method Pass4(Fout: array<Cpx>, off: nat, fo: nat, fstride: nat, st: Config, m: nat, tw1: nat, tw2: nat, tw3: nat,
               ghost w: int -> Cpx, ghost F: seq<Cpx>, ghost u: nat, ghost z: Cpx)
    requires Tabulates(st, w) && u < m && fstride > 0 && st.nfft == 4 * m * fstride
    requires |F| == 4 * m && off + 4 * m <= Fout.Length && fo == off + u
    requires tw1 == u * fstride && tw2 == 2 * tw1 && tw3 == 3 * tw1 && z == w(m * fstride)
    requires z == if st.inverse then Cpx(0.0, 1.0) else Cpx(0.0, -1.0)
    requires Fout[off..off + 4 * m] == Partly(F, Combined(F, w, 4, m, fstride), m, u)
    modifies Fout
    ensures Fout[off..off + 4 * m] == Partly(F, Combined(F, w, 4, m, fstride), m, u + 1)
    ensures forall i :: 0 <= i < Fout.Length && !(off <= i < off + 4 * m) ==> Fout[i] == old(Fout[i])
  {
    hide Mul, Combined, Partly, Turn, Out4, Fourth;
    ghost var H := Fout[off..off + 4 * m];
    TableIndex(u, fstride, 4, m, st.nfft);
    var s0 := Mul(Fout[fo + m], st.twiddles[tw1]);
    var s1 := Mul(Fout[fo + 2 * m], st.twiddles[tw2]);
    var s2 := Mul(Fout[fo + 3 * m], st.twiddles[tw3]);
    Step4(F, w, m, fstride, st.nfft, u, H, s0, s1, s2);
    Store4(Fout, fo, m, st.inverse, s0, s1, s2, z);
    assert Fout[off..off + 4 * m] ==
      H[u := Out4(z, H[u], s0, s1, s2, 0)][u + m := Out4(z, H[u], s0, s1, s2, 1)]
       [u + 2 * m := Out4(z, H[u], s0, s1, s2, 2)][u + 3 * m := Out4(z, H[u], s0, s1, s2, 3)];
  }

  /** The part of kf_bfly4's loop body after the twiddle products. */
  method Store4(Fout: array<Cpx>, fo: nat, m: nat, inverse: bool, s0: Cpx, s1: Cpx, s2: Cpx, ghost z: Cpx)
    requires m > 0 && fo + 3 * m < Fout.Length
    requires z == if inverse then Cpx(0.0, 1.0) else Cpx(0.0, -1.0)
    modifies Fout
    ensures Fout[fo] == Out4(z, old(Fout[fo]), s0, s1, s2, 0)
    ensures Fout[fo + m] == Out4(z, old(Fout[fo]), s0, s1, s2, 1)
    ensures Fout[fo + 2 * m] == Out4(z, old(Fout[fo]), s0, s1, s2, 2)
    ensures Fout[fo + 3 * m] == Out4(z, old(Fout[fo]), s0, s1, s2, 3)
    ensures forall i :: 0 <= i < Fout.Length && i !in {fo, fo + m, fo + 2 * m, fo + 3 * m} ==> Fout[i] == old(Fout[i])
  {
    hide *;
    Radix4Outputs(z, Fout[fo], s0, s1, s2);
    var m2, m3 := 2 * m, 3 * m;
    var s5 := Sub(Fout[fo], s1);
    Fout[fo] := Add(Fout[fo], s1);
    var s3, s4 := Add(s0, s2), Sub(s0, s2);
    Fout[fo + m2] := Sub(Fout[fo], s3);
    Fout[fo] := Add(Fout[fo], s3);
    if inverse {
      Fout[fo + m] := Cpx(s5.re - s4.im, s5.im + s4.re);
      Fout[fo + m3] := Cpx(s5.re + s4.im, s5.im - s4.re);
    } else {
      Fout[fo + m] := Cpx(s5.re + s4.im, s5.im - s4.re);
      Fout[fo + m3] := Cpx(s5.re - s4.im, s5.im + s4.re);
    }
  }

  /** Output q of a 4-point transform with root z. */
  ghost function Out4(z: Cpx, t0: Cpx, t1: Cpx, t2: Cpx, t3: Cpx, q: int): Cpx {
    Add(Add(Add(t0, Mul(t1, Fourth(z, q))), Mul(t2, Fourth(z, 2 * q))), Mul(t3, Fourth(z, 3 * q)))
  }

  /** The outputs as kf_bfly4 forms them: the quarter turn only swaps components. */
  lemma Radix4Outputs(z: Cpx, t0: Cpx, t1: Cpx, t2: Cpx, t3: Cpx)
    requires z == Cpx(0.0, 1.0) || z == Cpx(0.0, -1.0)
    ensures var s5, s3, s4 := Sub(t0, t2), Add(t1, t3), Sub(t1, t3);
      var ahead, behind := Cpx(s5.re - s4.im, s5.im + s4.re), Cpx(s5.re + s4.im, s5.im - s4.re);
      && Out4(z, t0, t1, t2, t3, 0) == Add(Add(t0, t2), s3)
      && Out4(z, t0, t1, t2, t3, 1) == (if z.im == 1.0 then ahead else behind)
      && Out4(z, t0, t1, t2, t3, 2) == Sub(Add(t0, t2), s3)
      && Out4(z, t0, t1, t2, t3, 3) == (if z.im == 1.0 then behind else ahead)
  {
    hide Mul, Fourth;
    FourthValues(z);
    QuarterMul(z, t1);
    QuarterMul(z, t3);
    MulLaws(t2, ONE, ONE);
    MulLaws(t1, ONE, ONE);
    MulLaws(t3, ONE, ONE);
    Negate(t1);
    Negate(t2);
    Negate(t3);
  }

  lemma FourthValues(z: Cpx)
    ensures Fourth(z, 0) == Fourth(z, 4) == ONE && Fourth(z, 1) == Fourth(z, 9) == z
    ensures Fourth(z, 2) == Fourth(z, 6) == Cpx(-1.0, 0.0) && Fourth(z, 3) == Scale(-1.0, z)
  {
  }

  lemma Negate(t: Cpx)
    ensures Mul(t, Cpx(-1.0, 0.0)) == Scale(-1.0, t)
  {
  }

  lemma QuarterMul(z: Cpx, t: Cpx)
    requires z == Cpx(0.0, 1.0) || z == Cpx(0.0, -1.0)
    ensures Mul(t, z) == if z.im == 1.0 then Cpx(-t.im, t.re) else Cpx(t.im, -t.re)
    ensures Mul(t, Scale(-1.0, z)) == if z.im == 1.0 then Cpx(t.im, -t.re) else Cpx(-t.im, t.re)
  {
  }

  lemma Lane4(F: seq<Cpx>, w: int -> Cpx, m: nat, s: nat, N: int, u: nat, q: nat)
    requires Turn(w, N) && u < m && |F| == 4 * m && s > 0 && N == 4 * m * s && q < 4
    ensures u + m * q < 4 * m
    ensures Combined(F, w, 4, m, s)[u + m * q] ==
      Out4(w(m * s), F[u], Mul(F[u + m], w(u * s)), Mul(F[u + 2 * m], w(2 * (u * s))), Mul(F[u + 3 * m], w(3 * (u * s))), q)
  {
    assert w(0) == ONE;
    hide Turn, Mul, Combined, Dft, Fourth, Lane, Twiddled;
    LaneTarget(F, w, 4, m, s, N, u, q);
    TwiddledLane(F, w, m, u, u * s);
    Associate(4, m, s);
    MulMonotone(1, m, s);
    Radix4(Twiddled(Lane(F, m, u), w, u * s), w, m * s, q);
  }

  lemma Step4(F: seq<Cpx>, w: int -> Cpx, m: nat, s: nat, N: int, u: nat, H: seq<Cpx>, t1: Cpx, t2: Cpx, t3: Cpx)
    requires Turn(w, N) && u < m && |F| == 4 * m && s > 0 && N == 4 * m * s
    requires H == Partly(F, Combined(F, w, 4, m, s), m, u)
    requires t1 == Mul(H[u + m], w(u * s)) && t2 == Mul(H[u + 2 * m], w(2 * (u * s)))
    requires t3 == Mul(H[u + 3 * m], w(3 * (u * s)))
    ensures var z := w(m * s); var x := H[u];
      H[u := Out4(z, x, t1, t2, t3, 0)][u + m := Out4(z, x, t1, t2, t3, 1)]
       [u + 2 * m := Out4(z, x, t1, t2, t3, 2)][u + 3 * m := Out4(z, x, t1, t2, t3, 3)]
        == Partly(F, Combined(F, w, 4, m, s), m, u + 1)
  {
    hide LaneNo, Turn, Mul, Combined, Out4;
    var G := Combined(F, w, 4, m, s);
    var z, x := w(m * s), H[u];
    LaneMembers(u, m, 4, 4 * m);
    Lane4(F, w, m, s, N, u, 0);
    Lane4(F, w, m, s, N, u, 1);
    Lane4(F, w, m, s, N, u, 2);
    Lane4(F, w, m, s, N, u, 3);
    LaneStep(F, G, m, u, H,
      H[u := Out4(z, x, t1, t2, t3, 0)][u + m := Out4(z, x, t1, t2, t3, 1)]
       [u + 2 * m := Out4(z, x, t1, t2, t3, 2)][u + 3 * m := Out4(z, x, t1, t2, t3, 3)]);
  }

  /** Radix 5, kf_bfly5. */
  method Bfly5(Fout: array<Cpx>, off: nat, fstride: nat, st: Config, m: nat, ghost w: int -> Cpx)
    requires Tabulates(st, w) && m > 0 && fstride > 0 && st.nfft == 5 * m * fstride
    requires off + 5 * m <= Fout.Length
    modifies Fout
    ensures Fout[off..off + 5 * m] == Combined(old(Fout[off..off + 5 * m]), w, 5, m, fstride)
    ensures forall i :: 0 <= i < Fout.Length && !(off <= i < off + 5 * m) ==> Fout[i] == old(Fout[i])
  {
    hide Mul, Combined, Partly, Turn, Out5;
    ghost var F := Fout[off..off + 5 * m];
    ghost var G := Combined(F, w, 5, m, fstride);
    AllLanes(F, G, m);
    FirstTwiddles(m, fstride, 5, st.nfft);
    var fm := fstride * m;
    var ya := st.twiddles[fm];
    var yb := st.twiddles[2 * fm];
    var f0, u := off, 0;
    while u < m
      invariant 0 <= u <= m && f0 == off + u
      invariant Fout[off..off + 5 * m] == Partly(F, G, m, u)
      invariant forall i :: 0 <= i < Fout.Length && !(off <= i < off + 5 * m) ==> Fout[i] == old(Fout[i])
    {
      Pass5(Fout, off, f0, fstride, st, m, u, ya, yb, w, F);
      f0, u := f0 + 1, u + 1;
    }
  }

  /** One pass of kf_bfly5's loop. */
  method Pass5(Fout: array<Cpx>, off: nat, f0: nat, fstride: nat, st: Config, m: nat, u: nat, ya: Cpx, yb: Cpx,
               ghost w: int -> Cpx, ghost F: seq<Cpx>)
    requires Tabulates(st, w) && u < m && fstride > 0 && st.nfft == 5 * m * fstride
    requires |F| == 5 * m && off + 5 * m <= Fout.Length && f0 == off + u
    requires ya == w(m * fstride) && yb == w(2 * (m * fstride))
    requires Fout[off..off + 5 * m] == Partly(F, Combined(F, w, 5, m, fstride), m, u)
    modifies Fout
    ensures Fout[off..off + 5 * m] == Partly(F, Combined(F, w, 5, m, fstride), m, u + 1)
    ensures forall i :: 0 <= i < Fout.Length && !(off <= i < off + 5 * m) ==> Fout[i] == old(Fout[i])
  {
    hide Mul, Combined, Partly, Turn, Out5;
    ghost var H := Fout[off..off + 5 * m];
    TableIndex(u, fstride, 5, m, st.nfft);
    var tw, uf := st.twiddles, u * fstride;
    var s1 := Mul(Fout[f0 + m], tw[uf]);
    var s2 := Mul(Fout[f0 + 2 * m], tw[2 * uf]);
    var s3 := Mul(Fout[f0 + 3 * m], tw[3 * uf]);
    var s4 := Mul(Fout[f0 + 4 * m], tw[4 * uf]);
    Step5(F, w, m, fstride, st.nfft, u, H, s1, s2, s3, s4);
    Store5(Fout, f0, m, ya, yb, s1, s2, s3, s4);
    assert Fout[off..off + 5 * m] == Lane5Stored(H, m, u, ya, yb, s1, s2, s3, s4);
  }

  function SMul(a: real, b: real): real { a * b }

  /** The part of kf_bfly5's loop body after the twiddle products. */
  method Store5(Fout: array<Cpx>, f0: nat, m: nat, ya: Cpx, yb: Cpx, s1: Cpx, s2: Cpx, s3: Cpx, s4: Cpx)
    requires m > 0 && f0 + 4 * m < Fout.Length
    modifies Fout
    ensures Fout[f0] == Out5(ya, yb, old(Fout[f0]), s1, s2, s3, s4, 0)
    ensures Fout[f0 + m] == Out5(ya, yb, old(Fout[f0]), s1, s2, s3, s4, 1)
    ensures Fout[f0 + 2 * m] == Out5(ya, yb, old(Fout[f0]), s1, s2, s3, s4, 2)
    ensures Fout[f0 + 3 * m] == Out5(ya, yb, old(Fout[f0]), s1, s2, s3, s4, 3)
    ensures Fout[f0 + 4 * m] == Out5(ya, yb, old(Fout[f0]), s1, s2, s3, s4, 4)
    ensures forall i | 0 <= i < Fout.Length && i !in {f0, f0 + m, f0 + 2 * m, f0 + 3 * m, f0 + 4 * m} ::
              Fout[i] == old(Fout[i])
  {
    hide Out5, Add, Sub, Mul, SMul;
    var s0 := Fout[f0];
    var s7, s10, s8, s9 := Add(s1, s4), Sub(s1, s4), Add(s2, s3), Sub(s2, s3);
    Out5Sum(ya, yb, s0, s1, s2, s3, s4);
    NearOutputs(ya, yb, s0, s1, s2, s3, s4);
    FarOutputs(ya, yb, s0, s1, s2, s3, s4);
    Fout[f0] := Cpx(Fout[f0].re + (s7.re + s8.re), Fout[f0].im + (s7.im + s8.im));
    var s5 := Cpx(s0.re + SMul(s7.re, ya.re) + SMul(s8.re, yb.re), s0.im + SMul(s7.im, ya.re) + SMul(s8.im, yb.re));
    var s6 := Cpx(SMul(s10.im, ya.im) + SMul(s9.im, yb.im), -SMul(s10.re, ya.im) - SMul(s9.re, yb.im));
    assert (s5, s6) == Near5(ya, yb, s0, s1, s2, s3, s4);
    Fout[f0 + m] := Sub(s5, s6);
    Fout[f0 + 4 * m] := Add(s5, s6);
    var s11 := Cpx(s0.re + SMul(s7.re, yb.re) + SMul(s8.re, ya.re), s0.im + SMul(s7.im, yb.re) + SMul(s8.im, ya.re));
    var s12 := Cpx(-SMul(s10.im, yb.im) + SMul(s9.im, ya.im), SMul(s10.re, yb.im) - SMul(s9.re, ya.im));
    assert (s11, s12) == Far5(ya, yb, s0, s1, s2, s3, s4);
    Fout[f0 + 2 * m] := Add(s11, s12);
    Fout[f0 + 3 * m] := Sub(s11, s12);
  }

  /** Output q of a 5-point transform whose root is a, with square b. */
  ghost function Out5(a: Cpx, b: Cpx, t0: Cpx, t1: Cpx, t2: Cpx, t3: Cpx, t4: Cpx, q: int): Cpx {
    Add(Add(Add(Add(t0, Mul(t1, Fifth(a, b, q))), Mul(t2, Fifth(a, b, 2 * q))),
            Mul(t3, Fifth(a, b, 3 * q))), Mul(t4, Fifth(a, b, 4 * q)))
  }

  /** H with lane u replaced by the five outputs. */
  ghost function Lane5Stored(H: seq<Cpx>, m: nat, u: nat, a: Cpx, b: Cpx,
                             t1: Cpx, t2: Cpx, t3: Cpx, t4: Cpx): seq<Cpx>
    requires u < m && |H| == 5 * m
  {
    H[u := Out5(a, b, H[u], t1, t2, t3, t4, 0)]
     [u + m := Out5(a, b, H[u], t1, t2, t3, t4, 1)]
     [u + 2 * m := Out5(a, b, H[u], t1, t2, t3, t4, 2)]
     [u + 3 * m := Out5(a, b, H[u], t1, t2, t3, t4, 3)]
     [u + 4 * m := Out5(a, b, H[u], t1, t2, t3, t4, 4)]
  }

  /** A root and its conjugate applied to two inputs, through their sum and difference. */
  ghost function ConjugatePair(t: Cpx, t': Cpx, z: Cpx): Cpx {
    var sum, dif := Add(t, t'), Sub(t, t');
    Cpx(SMul(sum.re, z.re) - SMul(dif.im, z.im), SMul(sum.im, z.re) + SMul(dif.re, z.im))
  }

  lemma PairProduct(t: Cpx, t': Cpx, z: Cpx)
    ensures Add(Mul(t, z), Mul(t', Conj(z))) == ConjugatePair(t, t', z)
  {
  }

  lemma PairOf(t: Cpx, t': Cpx, z: Cpx)
    ensures var sum, dif := Add(t, t'), Sub(t, t');
      && ConjugatePair(t, t', z)
          == Cpx(SMul(sum.re, z.re) - SMul(dif.im, z.im), SMul(sum.im, z.re) + SMul(dif.re, z.im))
      && ConjugatePair(t, t', Conj(z))
          == Cpx(SMul(sum.re, z.re) + SMul(dif.im, z.im), SMul(sum.im, z.re) - SMul(dif.re, z.im))
  {
    var dif := Sub(t, t');
    assert SMul(dif.im, -z.im) == -SMul(dif.im, z.im);
    assert SMul(dif.re, -z.im) == -SMul(dif.re, z.im);
    hide SMul;
  }

  lemma PairOfOne(t: Cpx, t': Cpx)
    ensures ConjugatePair(t, t', ONE) == Add(t, t')
  {
  }

  lemma FifthConjugates(a: Cpx, b: Cpx, q: int)
    ensures Fifth(a, b, 4 * q) == Conj(Fifth(a, b, q))
    ensures Fifth(a, b, 3 * q) == Conj(Fifth(a, b, 2 * q))
  {
    var r, t := q % 5, q / 5;
    ModShift(2 * r, 5, 2 * t);
    ModShift(3 * r, 5, 3 * t);
    ModShift(4 * r, 5, 4 * t);
  }

  lemma Out5Pairs(a: Cpx, b: Cpx, t0: Cpx, t1: Cpx, t2: Cpx, t3: Cpx, t4: Cpx, q: int)
    ensures Out5(a, b, t0, t1, t2, t3, t4, q)
      == Add(t0, Add(ConjugatePair(t1, t4, Fifth(a, b, q)), ConjugatePair(t2, t3, Fifth(a, b, 2 * q))))
  {
    hide Mul, Fifth;
    FifthConjugates(a, b, q);
    PairProduct(t1, t4, Fifth(a, b, q));
    PairProduct(t2, t3, Fifth(a, b, 2 * q));
  }

  /** The two combinations kf_bfly5 forms for outputs 1 and 4. */
  ghost function Near5(a: Cpx, b: Cpx, t0: Cpx, t1: Cpx, t2: Cpx, t3: Cpx, t4: Cpx): (Cpx, Cpx) {
    var s7, s10, s8, s9 := Add(t1, t4), Sub(t1, t4), Add(t2, t3), Sub(t2, t3);
    (Cpx(t0.re + SMul(s7.re, a.re) + SMul(s8.re, b.re), t0.im + SMul(s7.im, a.re) + SMul(s8.im, b.re)),
     Cpx(SMul(s10.im, a.im) + SMul(s9.im, b.im), -SMul(s10.re, a.im) - SMul(s9.re, b.im)))
  }

  /** The two combinations kf_bfly5 forms for outputs 2 and 3. */
  ghost function Far5(a: Cpx, b: Cpx, t0: Cpx, t1: Cpx, t2: Cpx, t3: Cpx, t4: Cpx): (Cpx, Cpx) {
    var s7, s10, s8, s9 := Add(t1, t4), Sub(t1, t4), Add(t2, t3), Sub(t2, t3);
    (Cpx(t0.re + SMul(s7.re, b.re) + SMul(s8.re, a.re), t0.im + SMul(s7.im, b.re) + SMul(s8.im, a.re)),
     Cpx(-SMul(s10.im, b.im) + SMul(s9.im, a.im), SMul(s10.re, b.im) - SMul(s9.re, a.im)))
  }

  lemma Out5Sum(a: Cpx, b: Cpx, t0: Cpx, t1: Cpx, t2: Cpx, t3: Cpx, t4: Cpx)
    ensures var s7, s8 := Add(t1, t4), Add(t2, t3);
      Out5(a, b, t0, t1, t2, t3, t4, 0) == Cpx(t0.re + (s7.re + s8.re), t0.im + (s7.im + s8.im))
  {
    assert Fifth(a, b, 0) == ONE;
    hide Out5, Fifth, ConjugatePair;
    Out5Pairs(a, b, t0, t1, t2, t3, t4, 0);
    PairOfOne(t1, t4);
    PairOfOne(t2, t3);
  }

  lemma RegroupNear(t: Cpx, a: real, b: real, c: real, d: real, e: real, f: real, g: real, h: real)
    ensures var even, odd := Cpx(t.re + a + e, t.im + c + g), Cpx(b + f, -d - h);
      && Add(t, Add(Cpx(a - b, c + d), Cpx(e - f, g + h))) == Sub(even, odd)
      && Add(t, Add(Cpx(a + b, c - d), Cpx(e + f, g - h))) == Add(even, odd)
  {
  }

  lemma RegroupFar(t: Cpx, a: real, b: real, c: real, d: real, e: real, f: real, g: real, h: real)
    ensures var even, odd := Cpx(t.re + a + e, t.im + c + g), Cpx(-b + f, d - h);
      && Add(t, Add(Cpx(a - b, c + d), Cpx(e + f, g - h))) == Add(even, odd)
      && Add(t, Add(Cpx(a + b, c - d), Cpx(e - f, g + h))) == Sub(even, odd)
  {
  }

  lemma NearFifths(a: Cpx, b: Cpx)
    ensures Fifth(a, b, 1) == a && Fifth(a, b, 2) == b && Fifth(a, b, 4) == Conj(a) && Fifth(a, b, 8) == Conj(b)
  {
  }

  lemma NearOutputs(a: Cpx, b: Cpx, t0: Cpx, t1: Cpx, t2: Cpx, t3: Cpx, t4: Cpx)
    ensures var (s5, s6) := Near5(a, b, t0, t1, t2, t3, t4);
      && Out5(a, b, t0, t1, t2, t3, t4, 1) == Sub(s5, s6)
      && Out5(a, b, t0, t1, t2, t3, t4, 4) == Add(s5, s6)
  {
    NearFifths(a, b);
    hide Out5, Fifth, SMul, Conj, ConjugatePair, Add, Sub;
    Out5Pairs(a, b, t0, t1, t2, t3, t4, 1);
    Out5Pairs(a, b, t0, t1, t2, t3, t4, 4);
    PairOf(t1, t4, a);
    PairOf(t2, t3, b);
    var s7, s10, s8, s9 := Add(t1, t4), Sub(t1, t4), Add(t2, t3), Sub(t2, t3);
    RegroupNear(t0, SMul(s7.re, a.re), SMul(s10.im, a.im), SMul(s7.im, a.re), SMul(s10.re, a.im),
                SMul(s8.re, b.re), SMul(s9.im, b.im), SMul(s8.im, b.re), SMul(s9.re, b.im));
  }

  lemma FarOutputs(a: Cpx, b: Cpx, t0: Cpx, t1: Cpx, t2: Cpx, t3: Cpx, t4: Cpx)
    ensures var (s11, s12) := Far5(a, b, t0, t1, t2, t3, t4);
      && Out5(a, b, t0, t1, t2, t3, t4, 2) == Add(s11, s12)
      && Out5(a, b, t0, t1, t2, t3, t4, 3) == Sub(s11, s12)
  {
    assert Fifth(a, b, 2) == b && Fifth(a, b, 3) == Conj(b) && Fifth(a, b, 4) == Conj(a) && Fifth(a, b, 6) == a;
    hide Out5, Fifth, SMul, Conj, ConjugatePair, Add, Sub;
    Out5Pairs(a, b, t0, t1, t2, t3, t4, 2);
    Out5Pairs(a, b, t0, t1, t2, t3, t4, 3);
    PairOf(t1, t4, b);
    PairOf(t2, t3, a);
    var s7, s10, s8, s9 := Add(t1, t4), Sub(t1, t4), Add(t2, t3), Sub(t2, t3);
    RegroupFar(t0, SMul(s7.re, b.re), SMul(s10.im, b.im), SMul(s7.im, b.re), SMul(s10.re, b.im),
               SMul(s8.re, a.re), SMul(s9.im, a.im), SMul(s8.im, a.re), SMul(s9.re, a.im));
  }

  lemma Lane5(F: seq<Cpx>, w: int -> Cpx, m: nat, s: nat, N: int, u: nat, q: nat)
    requires Turn(w, N) && u < m && |F| == 5 * m && s > 0 && N == 5 * m * s && q < 5
    ensures u + m * q < 5 * m
    ensures Combined(F, w, 5, m, s)[u + m * q] ==
      Out5(w(m * s), w(2 * (m * s)), F[u], Mul(F[u + m], w(u * s)), Mul(F[u + 2 * m], w(2 * (u * s))),
           Mul(F[u + 3 * m], w(3 * (u * s))), Mul(F[u + 4 * m], w(4 * (u * s))), q)
  {
    assert w(0) == ONE;
    hide Turn, Mul, Combined, Dft, Fifth, Lane, Twiddled;
    LaneTarget(F, w, 5, m, s, N, u, q);
    TwiddledLane(F, w, m, u, u * s);
    Associate(5, m, s);
    MulMonotone(1, m, s);
    Radix5(Twiddled(Lane(F, m, u), w, u * s), w, m * s, q);
  }

  lemma Step5(F: seq<Cpx>, w: int -> Cpx, m: nat, s: nat, N: int, u: nat, H: seq<Cpx>,
              t1: Cpx, t2: Cpx, t3: Cpx, t4: Cpx)
    requires Turn(w, N) && u < m && |F| == 5 * m && s > 0 && N == 5 * m * s
    requires H == Partly(F, Combined(F, w, 5, m, s), m, u)
    requires t1 == Mul(H[u + m], w(u * s)) && t2 == Mul(H[u + 2 * m], w(2 * (u * s)))
    requires t3 == Mul(H[u + 3 * m], w(3 * (u * s))) && t4 == Mul(H[u + 4 * m], w(4 * (u * s)))
    ensures Lane5Stored(H, m, u, w(m * s), w(2 * (m * s)), t1, t2, t3, t4)
      == Partly(F, Combined(F, w, 5, m, s), m, u + 1)
  {
    hide LaneNo, Turn, Mul, Combined, Out5;
    LaneMembers(u, m, 5, 5 * m);
    Lane5(F, w, m, s, N, u, 0);
    Lane5(F, w, m, s, N, u, 1);
    Lane5(F, w, m, s, N, u, 2);
    Lane5(F, w, m, s, N, u, 3);
    Lane5(F, w, m, s, N, u, 4);
    LaneStep(F, Combined(F, w, 5, m, s), m, u, H,
      Lane5Stored(H, m, u, w(m * s), w(2 * (m * s)), t1, t2, t3, t4));
  }

  // --------------------------------------------- any radix

  /** Any radix, kf_bfly_generic, with the twiddle index wrapped modulo nfft. */
  method BflyGeneric(Fout: array<Cpx>, off: nat, fstride: nat, st: Config, m: nat, p: nat, ghost w: int -> Cpx,
                     ghost n: nat)
    requires Tabulates(st, w) && m > 0 && p > 0 && fstride > 0 && n == p * m && st.nfft == n * fstride
    requires off + n <= Fout.Length
    modifies Fout
    ensures Fout[off..off + n] == Combined(old(Fout[off..off + n]), w, p, m, fstride)
    ensures forall i :: 0 <= i < Fout.Length && !(off <= i < off + n) ==> Fout[i] == old(Fout[i])
  {
    hide Mul, Combined, Partly, Turn, Lane, LaneNo, AtRow;
    ghost var F := Fout[off..off + n];
    ghost var G := Combined(F, w, p, m, fstride);
    AllLanes(F, G, m);
    var u := 0;
    while u < m
      invariant 0 <= u <= m
      invariant Fout[off..off + n] == Partly(F, G, m, u)
      invariant forall i :: 0 <= i < Fout.Length && !(off <= i < off + n) ==> Fout[i] == old(Fout[i])
    {
      ghost var H := Fout[off..off + n];
      var scratch := Gather(Fout, off, m, p, u);
      LaneOfPartly(F, G, m, p, u, scratch);
      var k, q1 := u, 0;
      FirstRow(u, m);
      while q1 < p
        invariant 0 <= q1 <= p && AtRow(k, u, m, q1) && (q1 == p ==> n <= k)
        invariant forall i :: 0 <= i < n && LaneNo(i, m) != u ==> Fout[off + i] == H[i]
        invariant forall i :: 0 <= i < n && LaneNo(i, m) == u && i < k ==> Fout[off + i] == G[i]
        invariant forall i :: 0 <= i < Fout.Length && !(off <= i < off + n) ==> Fout[i] == old(Fout[i])
      {
        NextInLane(u, m, p, n, q1, k);
        var sum := TwiddledSum(scratch, k, fstride, st, p, w, n);
        GenericTarget(F, w, p, m, n, fstride, u, q1, k, scratch);
        Fout[off + k] := sum;
        k, q1 := k + m, q1 + 1;
      }
      assert forall i :: 0 <= i < n && LaneNo(i, m) == u ==> i < k;
      LaneStep(F, G, m, u, H, Fout[off..off + n]);
      u := u + 1;
    }
  }

  /** Index k is element q of lane u. */
  ghost predicate AtRow(k: nat, u: nat, m: nat, q: nat) { k == u + m * q }

  /** Lane u is visited in steps of m and nothing of it is skipped. */
  lemma NextInLane(u: nat, m: nat, p: nat, n: nat, q1: nat, k: nat)
    requires u < m && q1 < p && n == p * m && AtRow(k, u, m, q1)
    ensures k < n && LaneNo(k, m) == u && AtRow(k + m, u, m, q1 + 1)
    ensures q1 == p - 1 ==> n <= k + m
    ensures forall i :: 0 <= i < n && LaneNo(i, m) == u && i < k + m ==> i <= k
  {
    RowIndex(u, q1, m, p);
    Distribute(m, q1, 1);
    hide LaneNo;
    forall i | 0 <= i < n && LaneNo(i, m) == u && i < k + m ensures i <= k {
      NoneBetween(i, u, m, p, q1);
    }
  }

  lemma FirstRow(u: nat, m: nat)
    requires u < m
    ensures AtRow(u, u, m, 0)
    ensures forall i :: 0 <= i < u ==> LaneNo(i, m) != u
  {
    forall i | 0 <= i < u ensures LaneNo(i, m) != u { DivModUnique(i, m, 0, i); }
  }

  lemma NoneBetween(i: nat, u: nat, m: nat, p: nat, q1: nat)
    requires u < m && i < p * m && LaneNo(i, m) == u && i < u + m * q1 + m
    ensures i <= u + m * q1
  {
    LaneOf(i, m, p);
    var t := i / m;
    if t > q1 {
      MulMonotone(q1 + 1, t, m);
      Distribute(m, q1, 1);
    } else {
      MulMonotone(t, q1, m);
    }
  }

  /** The scratch copy of lane u. */
  method Gather(Fout: array<Cpx>, off: nat, m: nat, p: nat, u: nat) returns (scratch: seq<Cpx>)
    requires u < m && off + p * m <= Fout.Length
    ensures |scratch| == p
    ensures forall q :: 0 <= q < p ==> scratch[q] == Lane(Fout[off..off + p * m], m, u)(q)
  {
    scratch := [];
    var k, q1 := u, 0;
    while q1 < p
      invariant 0 <= q1 <= p && k == u + m * q1 && |scratch| == q1
      invariant forall q :: 0 <= q < q1 ==> scratch[q] == Lane(Fout[off..off + p * m], m, u)(q)
    {
      RowIndex(u, q1, m, p);
      scratch := scratch + [Fout[off + k]];
      Distribute(m, q1, 1);
      k, q1 := k + m, q1 + 1;
    }
  }

  /** The inner loop of kf_bfly_generic: the twiddle index is q*fstride*k modulo nfft,
      kept in range by at most one subtraction a step. */
  method TwiddledSum(scratch: seq<Cpx>, k: nat, fstride: nat, st: Config, p: nat, ghost w: int -> Cpx, ghost n: nat)
    returns (sum: Cpx)
    requires Tabulates(st, w) && fstride > 0 && st.nfft == n * fstride
    requires |scratch| == p > 0 && k < n
    ensures sum == Dft(p, Signal(scratch), w, k * fstride)
  {
    ghost var e := k * fstride;
    assert 0 <= e < st.nfft by { BinIndex(k, fstride, n); }
    var Norig, twidx, q := st.nfft, 0, 1;
    sum := scratch[0];
    ghost var f := Twiddled(Signal(scratch), w, e);
    SmallSums(f);
    MulLaws(scratch[0], ONE, ONE);
    hide Mul, Add, Turn;
    ghost var turns := 0;
    while q < p
      invariant 1 <= q <= p && 0 <= twidx < Norig
      invariant twidx + Norig * turns == (q - 1) * e
      invariant sum == Sum(q, f)
    {
      ghost var before, gone := twidx, turns;
      twidx := twidx + fstride * k;
      if twidx >= Norig {
        twidx, turns := twidx - Norig, turns + 1;
      }
      Wrapped(w, Norig, before, gone, twidx, turns, e, q);
      var t := Mul(scratch[q], st.twiddles[twidx]);
      sum := Add(sum, t);
      q := q + 1;
    }
  }

  lemma BinIndex(k: nat, s: nat, n: nat)
    requires k < n && s > 0
    ensures 0 <= k * s < n * s
  {
    MulMonotone(k + 1, n, s);
    Distribute(s, k, 1);
  }

  /** One step of the running twiddle index. */
  lemma Wrapped(w: int -> Cpx, N: int, before: int, gone: int, idx: int, turns: int, e: int, q: int)
    requires Turn(w, N) && before + N * gone == (q - 1) * e
    requires (idx == before + e && turns == gone) || (idx == before + e - N && turns == gone + 1)
    ensures idx + N * turns == q * e && w(idx) == w(q * e)
  {
    hide Turn;
    Distribute(e, q - 1, 1);
    Distribute(N, gone, 1);
    TurnPeriod(w, N, idx, turns);
  }

  lemma LaneOfPartly(F: seq<Cpx>, G: seq<Cpx>, m: nat, p: nat, u: nat, scratch: seq<Cpx>)
    requires u < m && |F| == |G| == p * m && |scratch| == p
    requires forall q :: 0 <= q < p ==> scratch[q] == Lane(Partly(F, G, m, u), m, u)(q)
    ensures forall q :: 0 <= q < p ==> scratch[q] == Lane(F, m, u)(q)
  {
    forall q | 0 <= q < p ensures scratch[q] == Lane(F, m, u)(q) { RowIndex(u, q, m, p); }
  }

  lemma GenericTarget(F: seq<Cpx>, w: int -> Cpx, p: nat, m: nat, n: nat, s: nat, u: nat, q1: nat, k: nat, scratch: seq<Cpx>)
    requires u < m && q1 < p && |F| == n == p * m && |scratch| == p && AtRow(k, u, m, q1)
    requires forall q :: 0 <= q < p ==> scratch[q] == Lane(F, m, u)(q)
    ensures k < n
    ensures Combined(F, w, p, m, s)[k] == Dft(p, Signal(scratch), w, k * s)
  {
    hide Dft, Lane, Combined;
    RowIndex(u, q1, m, p);
    CombinedAt(F, w, p, m, s, k);
    DftEq(p, Signal(scratch), Lane(F, m, u), w, k * s);
  }

  // --------------------------------------------- the recursion

  /** Every step-th sample from base on. */
  ghost function Strided(f: seq<Cpx>, base: int, step: int): int -> Cpx {
    j => if 0 <= base + j * step < |f| then f[base + j * step] else ZERO
  }

  /** The n bins of a transform whose bin number advances the twiddle index by s. */
  ghost function Bins(n: nat, x: int -> Cpx, w: int -> Cpx, s: int): (b: seq<Cpx>)
    ensures |b| == n
  {
    seq(n, k => Dft(n, x, w, k * s))
  }

  /** The p sub-transforms of length m, one after another. */
  ghost function SubBins(p: nat, m: nat, x: int -> Cpx, w: int -> Cpx, s: int): (b: seq<Cpx>)
    requires m > 0
    ensures |b| == p * m
  {
    seq(p * m, i => Dft(m, Decimated(x, p, i / m), w, (i % m) * s))
  }

  /** Recombining the sub-transforms with any radix gives the whole transform. */
  lemma StageDft(p: nat, m: nat, n: nat, x: int -> Cpx, w: int -> Cpx, s: nat, N: int)
    requires Turn(w, N) && m > 0 && n == p * m && N == n * s
    ensures Combined(SubBins(p, m, x, w, s * p), w, p, m, s) == Bins(n, x, w, s)
  {
    hide Turn, Dft, Decimated, Combined, SubBins;
    var F := SubBins(p, m, x, w, s * p);
    forall i | 0 <= i < n ensures Combined(F, w, p, m, s)[i] == Dft(n, x, w, i * s) {
      LaneOf(i, m, p);
      StageBin(p, m, n, x, w, s, N, F, i % m, i / m);
      CombinedAt(F, w, p, m, s, i);
    }
  }

  lemma CombinedAt(F: seq<Cpx>, w: int -> Cpx, p: nat, m: nat, s: nat, i: nat)
    requires m > 0 && i < |F|
    ensures Combined(F, w, p, m, s)[i] == Dft(p, Lane(F, m, i % m), w, i * s)
  {
  }

  /** Bin u + m*t of the whole from lane u of the sub-transforms. */
  lemma StageBin(p: nat, m: nat, n: nat, x: int -> Cpx, w: int -> Cpx, s: nat, N: int, F: seq<Cpx>, u: nat, t: nat)
    requires Turn(w, N) && n == p * m && N == n * s && u < m && t < p && F == SubBins(p, m, x, w, s * p)
    ensures Dft(p, Lane(F, m, u), w, (u + m * t) * s) == Dft(n, x, w, (u + m * t) * s)
  {
    hide Turn, Dft, Decimated;
    var e := (u + m * t) * s;
    forall q | 0 <= q < p ensures Lane(F, m, u)(q) == SubDfts(p, m, x, w, e)(q) {
      RowIndex(u, q, m, p);
      StageExponent(p, m, s, u, t);
      DftPeriod(m, Decimated(x, p, q), w, u * (s * p), N, t);
    }
    DftEq(p, Lane(F, m, u), SubDfts(p, m, x, w, e), w, e);
    Decimation(p, m, x, w, e, N);
  }

  lemma StageExponent(p: int, m: int, s: int, u: int, t: int)
    ensures p * ((u + m * t) * s) == u * (s * p) + p * m * s * t
  {
    Distribute(s, u, m * t);
    Associate(m, t, s);
    Associate(m, s, t);
    Distribute(p, u * s, m * (t * s));
    Associate(u, s, p);
    Associate(p, m, s);
    Associate(p, m * s, t);
    assert s * t == t * s;
    assert p * (u * s) == u * (s * p);
  }

  /** The samples a sub-transform reads are a decimation of those of the whole. */
  lemma StridedDecimates(f: seq<Cpx>, base: int, step: int, p: int, q: int, j: int)
    ensures Strided(f, base + q * step, p * step)(j) == Decimated(Strided(f, base, step), p, q)(j)
  {
    Distribute(step, q, p * j);
    Associate(p, j, step);
    Associate(j, p, step);
  }

  /** The last sample of a sub-transform is no later than the last of the whole. */
  lemma LastSample(p: nat, m: nat, q: nat, step: nat)
    requires q < p && m > 0
    ensures q * step + (m - 1) * (p * step) <= (p * m - 1) * step
  {
    Associate(m - 1, p, step);
    Distribute(step, q, (m - 1) * p);
    Distribute(p, m, -1);
    MulMonotone(q + (m - 1) * p, p * m - 1, step);
  }

  /** An n-point transform with twiddle stride fstride spans the whole table, and the
      n samples it reads from base on lie within the input. */
  ghost predicate Fits(nfft: nat, n: nat, fstride: nat, inStride: nat, base: nat, length: nat) {
    && fstride > 0
    && nfft == n * fstride
    && base + (n - 1) * (fstride * inStride) < length
  }

  /** The samples read by a transform at base. */
  ghost function Samples(f: seq<Cpx>, base: nat, fstride: nat, inStride: nat): int -> Cpx {
    Strided(f, base, fstride * inStride)
  }

  /** kf_work: p sub-transforms of length m over decimated inputs, then one butterfly pass. */
  method KfWork(Fout: array<Cpx>, off: nat, f: array<Cpx>, base: nat, fstride: nat, inStride: nat,
                factors: seq<nat>, st: Config, ghost w: int -> Cpx, ghost n: nat)
    requires Fout != f && Tabulates(st, w) && Stages(factors, n)
    requires off + n <= Fout.Length && Fits(st.nfft, n, fstride, inStride, base, f.Length)
    modifies Fout
    ensures Fout[off..off + n] == Bins(n, Samples(f[..], base, fstride, inStride), w, fstride)
    ensures forall i :: 0 <= i < Fout.Length && !(off <= i < off + n) ==> Fout[i] == old(Fout[i])
    decreases |factors|
  {
    var p, m := factors[0], factors[1];
    assert p > 0 && m > 0 && p * m == n && fstride > 0 && w(0) == ONE;
    hide *;
    if m == 1 {
      CopyInputs(Fout, off, f, base, fstride, inStride, p, st, w);
    } else {
      SubTransforms(Fout, off, f, base, fstride, inStride, factors, st, w, n);
    }
    FinishStage(Fout, off, fstride, st, m, p, w, n, Samples(f[..], base, fstride, inStride), inStride, base, f.Length);
  }

  /** The butterfly pass over finished sub-transforms. */
  method FinishStage(Fout: array<Cpx>, off: nat, fstride: nat, st: Config, m: nat, p: nat, ghost w: int -> Cpx,
                     ghost n: nat, ghost x: int -> Cpx, ghost inStride: nat, ghost base: nat, ghost length: nat)
    requires Tabulates(st, w) && m > 0 && p > 0 && n == p * m && Fits(st.nfft, n, fstride, inStride, base, length)
    requires off + n <= Fout.Length && Fout[off..off + n] == SubBins(p, m, x, w, fstride * p)
    modifies Fout
    ensures Fout[off..off + n] == Bins(n, x, w, fstride)
    ensures forall i :: 0 <= i < Fout.Length && !(off <= i < off + n) ==> Fout[i] == old(Fout[i])
  {
    assert Turn(w, st.nfft) && fstride > 0 && st.nfft == n * fstride;
    hide *;
    StageDft(p, m, n, x, w, fstride, st.nfft);
    Recombine(Fout, off, fstride, st, m, p, w, n);
  }

  /** The switch over the radix that ends kf_work. */
  method Recombine(Fout: array<Cpx>, off: nat, fstride: nat, st: Config, m: nat, p: nat, ghost w: int -> Cpx,
                   ghost n: nat)
    requires Tabulates(st, w) && m > 0 && p > 0 && fstride > 0 && n == p * m && st.nfft == n * fstride
    requires off + n <= Fout.Length
    modifies Fout
    ensures Fout[off..off + n] == Combined(old(Fout[off..off + n]), w, p, m, fstride)
    ensures forall i :: 0 <= i < Fout.Length && !(off <= i < off + n) ==> Fout[i] == old(Fout[i])
  {
    hide *;
    match p {
      case 2 => Bfly2(Fout, off, fstride, st, m, w);
      case 3 => Bfly3(Fout, off, fstride, st, m, w);
      case 4 => Bfly4(Fout, off, fstride, st, m, w);
      case 5 => Bfly5(Fout, off, fstride, st, m, w);
      case _ => BflyGeneric(Fout, off, fstride, st, m, p, w, n);
    }
  }

  /** The branch of kf_work for m == 1: the inputs are their own transforms. */
  method CopyInputs(Fout: array<Cpx>, off: nat, f: array<Cpx>, base: nat, fstride: nat, inStride: nat, p: nat,
                    st: Config, ghost w: int -> Cpx)
    requires Fout != f && p > 0 && w(0) == ONE && off + p <= Fout.Length
    requires Fits(st.nfft, p, fstride, inStride, base, f.Length)
    modifies Fout
    ensures Fout[off..off + p] == SubBins(p, 1, Samples(f[..], base, fstride, inStride), w, fstride * p)
    ensures forall i :: 0 <= i < Fout.Length && !(off <= i < off + p) ==> Fout[i] == old(Fout[i])
  {
    var step := fstride * inStride;
    assert base + (p - 1) * step < f.Length;
    ghost var x := Samples(f[..], base, fstride, inStride);
    assert x == Strided(f[..], base, step);
    hide Dft, Samples, Fits, SubBins;
    var fo, fi := off, base;
    while fo != off + p
      invariant off <= fo <= off + p && fi == base + (fo - off) * step
      invariant forall i :: off <= i < fo ==> Fout[i] == x(i - off)
      invariant forall i :: 0 <= i < Fout.Length && !(off <= i < off + p) ==> Fout[i] == old(Fout[i])
    {
      MulMonotone(fo - off, p - 1, step);
      MulMonotone(0, fo - off, step);
      Distribute(step, fo - off, 1);
      Fout[fo] := f[fi];
      fo, fi := fo + 1, fi + step;
    }
    PointSubBins(p, x, w, fstride * p);
    assert forall i :: 0 <= i < p ==> Fout[off..off + p][i] == x(i);
  }

  lemma PointSubBins(p: nat, x: int -> Cpx, w: int -> Cpx, s: int)
    requires w(0) == ONE
    ensures forall i :: 0 <= i < p ==> SubBins(p, 1, x, w, s)[i] == x(i)
  {
    hide Dft;
    forall i | 0 <= i < p ensures SubBins(p, 1, x, w, s)[i] == x(i) {
      PointDft(Decimated(x, p, i), w);
    }
  }

  /** The moving pointers of the loop over the residue classes, before its q-th call. */
  ghost predicate Cursor(q: nat, fo: nat, fi: nat, off: nat, base: nat, m: nat, fstride: nat, inStride: nat) {
    fo == off + q * m && fi == base + q * (fstride * inStride)
  }

  lemma CursorStep(q: nat, fo: nat, fi: nat, off: nat, base: nat, m: nat, fstride: nat, inStride: nat)
    requires Cursor(q, fo, fi, off, base, m, fstride, inStride)
    ensures Cursor(q + 1, fo + m, fi + fstride * inStride, off, base, m, fstride, inStride)
  {
    Distribute(m, q, 1);
    Distribute(fstride * inStride, q, 1);
  }

  /** The arguments of the q-th recursive call fit. */
  lemma SubCall(p: nat, m: nat, n: nat, q: nat, fstride: nat, inStride: nat, off: nat, fo: nat, base: nat, fi: nat,
                length: nat, nfft: nat)
    requires q < p && m > 0 && n == p * m && Fits(nfft, n, fstride, inStride, base, length)
    requires Cursor(q, fo, fi, off, base, m, fstride, inStride)
    ensures Fits(nfft, m, fstride * p, inStride, fi, length) && off <= fo && fo + m <= off + n
  {
    var step := fstride * inStride;
    MulMonotone(1, p, fstride);
    Associate(p, m, fstride);
    Associate(m, p, fstride);
    Associate(p, fstride, inStride);
    LastSample(p, m, q, step);
    RowIndex(0, q, m, p);
  }

  /** What the q-th recursive call stores is its part of the sub-transforms. */
  lemma SubResult(f: seq<Cpx>, base: nat, fi: nat, fstride: nat, inStride: nat, p: nat, m: nat, n: nat, q: nat,
                  w: int -> Cpx, off: nat, fo: nat)
    requires q < p && m > 0 && n == p * m && Cursor(q, fo, fi, off, base, m, fstride, inStride)
    ensures off <= fo && fo + m <= off + n
    ensures Bins(m, Samples(f, fi, fstride * p, inStride), w, fstride * p)
      == SubBins(p, m, Samples(f, base, fstride, inStride), w, fstride * p)[fo - off..fo - off + m]
  {
    RowIndex(0, q, m, p);
    Associate(p, fstride, inStride);
    var step := fstride * inStride;
    var x := Strided(f, base, step);
    var sub := Strided(f, base + q * step, p * step);
    assert x == Samples(f, base, fstride, inStride) && sub == Samples(f, fi, fstride * p, inStride);
    hide Dft, Strided, Decimated, Samples, Bins, SubBins;
    forall j ensures sub(j) == Decimated(x, p, q)(j) { StridedDecimates(f, base, step, p, q, j); }
    BinsAt(p, m, n, x, sub, w, fstride * p, q, fo - off);
  }

  lemma BinsAt(p: nat, m: nat, n: nat, x: int -> Cpx, sub: int -> Cpx, w: int -> Cpx, s: int, q: nat, at: nat)
    requires q < p && m > 0 && n == p * m && at == q * m && at + m <= n
    requires forall j :: sub(j) == Decimated(x, p, q)(j)
    ensures Bins(m, sub, w, s) == SubBins(p, m, x, w, s)[at..at + m]
  {
    hide Dft, Decimated, SubBins, Bins;
    forall i | 0 <= i < m ensures Bins(m, sub, w, s)[i] == SubBins(p, m, x, w, s)[at + i] {
      BinAt(p, m, n, x, sub, w, s, q, at, i);
    }
  }

  lemma BinAt(p: nat, m: nat, n: nat, x: int -> Cpx, sub: int -> Cpx, w: int -> Cpx, s: int, q: nat, at: nat, i: nat)
    requires q < p && i < m && n == p * m && at == q * m && at + m <= n
    requires forall j :: sub(j) == Decimated(x, p, q)(j)
    ensures Bins(m, sub, w, s)[i] == SubBins(p, m, x, w, s)[at + i]
  {
    hide Dft, Decimated;
    RowIndex(i, q, m, p);
    DftEq(m, sub, Decimated(x, p, q), w, i * s);
  }

  /** The branch of kf_work for m > 1: one recursive call per residue class. */
  method SubTransforms(Fout: array<Cpx>, off: nat, f: array<Cpx>, base: nat, fstride: nat, inStride: nat,
                       factors: seq<nat>, st: Config, ghost w: int -> Cpx, ghost n: nat)
    requires Fout != f && Tabulates(st, w) && Stages(factors, n) && factors[1] != 1
    requires off + n <= Fout.Length && Fits(st.nfft, n, fstride, inStride, base, f.Length)
    modifies Fout
    ensures Fout[off..off + n]
      == SubBins(factors[0], factors[1], Samples(f[..], base, fstride, inStride), w, fstride * factors[0])
    ensures forall i :: 0 <= i < Fout.Length && !(off <= i < off + n) ==> Fout[i] == old(Fout[i])
    decreases |factors|, 0
  {
    var p, m := factors[0], factors[1];
    assert m > 0 && p > 0 && n == p * m && Stages(factors[2..], m) && Cursor(0, off, base, off, base, m, fstride, inStride);
    forall fo: nat, fi: nat | Cursor(p, fo, fi, off, base, m, fstride, inStride) ensures fo == off + n { }
    hide *;
    ghost var all := SubBins(p, m, Samples(f[..], base, fstride, inStride), w, fstride * p);
    var q: nat, fo: nat, fi: nat := 0, off, base;
    while q != p
      invariant 0 <= q <= p && off <= fo <= off + n && Cursor(q, fo, fi, off, base, m, fstride, inStride)
      invariant Fout[off..fo] == all[..fo - off]
      invariant forall i :: 0 <= i < Fout.Length && !(off <= i < off + n) ==> Fout[i] == old(Fout[i])
    {
      SubCall(p, m, n, q, fstride, inStride, off, fo, base, fi, f.Length, st.nfft);
      SubResult(f[..], base, fi, fstride, inStride, p, m, n, q, w, off, fo);
      OneSubTransform(Fout, off, fo, f, fi, fstride * p, inStride, factors[2..], st, w, m, all);
      CursorStep(q, fo, fi, off, base, m, fstride, inStride);
      q, fo, fi := q + 1, fo + m, fi + fstride * inStride;
    }
  }

  /** The recursive call inside the loop. */
  method OneSubTransform(Fout: array<Cpx>, off: nat, fo: nat, f: array<Cpx>, fi: nat, fs: nat, inStride: nat,
                         factors: seq<nat>, st: Config, ghost w: int -> Cpx, ghost m: nat, ghost all: seq<Cpx>)
    requires Fout != f && Tabulates(st, w) && Stages(factors, m)
    requires off <= fo && fo + m <= Fout.Length && fo - off + m <= |all|
    requires Fits(st.nfft, m, fs, inStride, fi, f.Length)
    requires Bins(m, Samples(f[..], fi, fs, inStride), w, fs) == all[fo - off..fo - off + m]
    requires Fout[off..fo] == all[..fo - off]
    modifies Fout
    ensures Fout[off..fo + m] == all[..fo - off + m]
    ensures forall i :: 0 <= i < Fout.Length && !(off <= i < fo + m) ==> Fout[i] == old(Fout[i])
    decreases |factors| + 1
  {
    hide *;
    KfWork(Fout, fo, f, fi, fs, inStride, factors, st, w, m);
    JoinRange(Fout[..], off, fo, fo + m, all, fo - off, fo - off + m);
  }

  lemma JoinRange(F: seq<Cpx>, a: nat, b: nat, c: nat, G: seq<Cpx>, j: nat, k: nat)
    requires a <= b <= c <= |F| && j <= k <= |G| && F[a..b] == G[..j] && F[b..c] == G[j..k]
    ensures F[a..c] == G[..k]
  {
    assert F[a..c] == F[a..b] + F[b..c];
    assert G[..k] == G[..j] + G[j..k];
  }

  // ------------------------------------------------- configurations

  /** kiss_fft_alloc, with the table of twiddles given: it adds the factor list. */
  method Alloc(nfft: nat, inverse: bool, twiddles: seq<Cpx>) returns (st: Config)
    requires 1 <= nfft < 0x8000_0000
    ensures st.nfft == nfft && st.inverse == inverse && st.twiddles == twiddles
    ensures Stages(st.factors, nfft)
  {
    var facbuf := new nat[2 * MAXFACTORS](_ => 0);
    var len := KfFactor(nfft, facbuf);
    st := Config(nfft, inverse, facbuf[..len], twiddles);
  }

  /** kiss_fft_stride: in place through a temporary buffer, otherwise straight into fout. */
  method TransformStride(st: Config, fin: array<Cpx>, fout: array<Cpx>, inStride: nat, ghost w: int -> Cpx)
    requires Tabulates(st, w) && Stages(st.factors, st.nfft)
    requires st.nfft <= fout.Length && (st.nfft - 1) * inStride < fin.Length
    modifies fout
    ensures fout[..st.nfft] == Bins(st.nfft, Strided(old(fin[..]), 0, inStride), w, 1)
    ensures forall i :: st.nfft <= i < fout.Length ==> fout[i] == old(fout[i])
  {
    assert Fits(st.nfft, st.nfft, 1, inStride, 0, fin.Length);
    assert Samples(fin[..], 0, 1, inStride) == Strided(fin[..], 0, inStride);
    hide *;
    if fin == fout {
      var tmpbuf := new Cpx[st.nfft](_ => ZERO);
      KfWork(tmpbuf, 0, fin, 0, 1, inStride, st.factors, st, w, st.nfft);
      ghost var done := tmpbuf[0..0 + st.nfft];
      forall i | 0 <= i < st.nfft { fout[i] := tmpbuf[i]; }
      assert fout[..st.nfft] == done;
    } else {
      KfWork(fout, 0, fin, 0, 1, inStride, st.factors, st, w, st.nfft);
      assert fout[..st.nfft] == fout[0..0 + st.nfft];
    }
  }

  /** kiss_fft: every bin of the output is the transform of the input. */
  method Transform(st: Config, fin: array<Cpx>, fout: array<Cpx>, ghost w: int -> Cpx)
    requires Tabulates(st, w) && Stages(st.factors, st.nfft)
    requires st.nfft <= fout.Length && st.nfft <= fin.Length
    modifies fout
    ensures forall k :: 0 <= k < st.nfft ==> fout[k] == Dft(st.nfft, Signal(old(fin[..])), w, k)
    ensures forall i :: st.nfft <= i < fout.Length ==> fout[i] == old(fout[i])
  {
    hide Turn, Dft, Stages;
    ghost var x := Strided(fin[..], 0, 1);
    TransformStride(st, fin, fout, 1, w);
    forall k | 0 <= k < st.nfft ensures fout[k] == Dft(st.nfft, Signal(old(fin[..])), w, k) {
      assert fout[k] == fout[..st.nfft][k] == Dft(st.nfft, x, w, k * 1);
      DftEq(st.nfft, x, Signal(old(fin[..])), w, k);
    }
  }
}
