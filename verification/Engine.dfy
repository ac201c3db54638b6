/** The sample loop of main.c in its software form: direct filter, ring of input spectra,
    header runs and overlap-add, for both channels of a stereo stream. */
module Engine {
  import opened Arith
  import opened Complex
  import opened Fourier
  import opened Partition
  import Factor
  import KissFft
  import FftCfp

  const HEADER_IN_BLOCK_MIN := 28
  const HEADER_IN_BLOCK_MAX := 41
  const SRAM_BLOCKS := 56

  /** What the library calls for sine and cosine must deliver for the 512-point transforms:
      a table for the forward one and the stage twiddles for the inverse one. */
  datatype Oracle = Oracle(table: seq<Cpx>, root: (nat, nat) -> Cpx)

  ghost predicate Delivers(o: Oracle, w: int -> Cpx) {
    && KissFft.Tabulates(KissFft.Config(HEADER_BLOCK_SIZE_ZE, false, [], o.table), w)
    && FftCfp.AllRoots(o.root, w, 9)
  }

  ghost function Samples(s: seq<real>): int -> real { i => if 0 <= i < |s| then s[i] else 0.0 }

  /** What is read for sample n of a file: the sample, and past the file's end whatever lies behind
      it in memory. */
  function Read(inp: seq<real>, behind: nat -> real, n: nat): real { if n < |inp| then inp[n] else behind(n) }

  ghost function Heard(inp: seq<real>, behind: nat -> real): int -> real { i => if i < 0 then 0.0 else Read(inp, behind, i) }

  lemma HeardIsCausal(inp: seq<real>, behind: nat -> real)
    ensures Causal(Heard(inp, behind))
  {
  }

  // ------------------------------------------------------- the ring

  /** The SRAM block that holds the spectrum of input block t (left channel): the ring starts
      at its last block and wraps from there. */
  ghost function Slot(t: int): int { HEADER_IN_BLOCK_MIN + (t + 13) % HEADER_BLOCK_NUM }

  function NextSlot(latest: nat): nat {
    if latest == HEADER_IN_BLOCK_MAX then HEADER_IN_BLOCK_MIN else latest + 1
  }

  function PreviousSlot(p: nat): nat
    requires p > 0
  {
    if p == HEADER_IN_BLOCK_MIN then HEADER_IN_BLOCK_MAX else p - 1
  }

  lemma SlotSteps(t: int)
    ensures HEADER_IN_BLOCK_MIN <= Slot(t) <= HEADER_IN_BLOCK_MAX
    ensures NextSlot(Slot(t)) == Slot(t + 1) && PreviousSlot(Slot(t)) == Slot(t - 1)
    ensures Slot(t - HEADER_BLOCK_NUM) == Slot(t)
  {
  }

  /** Fourteen consecutive blocks occupy fourteen different slots. */
  lemma SlotsDiffer(t: int, d: int)
    requires 0 < d < HEADER_BLOCK_NUM
    ensures Slot(t) != Slot(t - d)
  {
  }

  ghost predicate SpectrumIs(s: seq<Cpx>, x: int -> real, t: int, w: int -> Cpx) {
    |s| == HEADER_BLOCK_SIZE_ZE && forall k :: 0 <= k < |s| ==> s[k] == BlockBin(x, t, w, k)
  }

  /** The partitions of the impulse response are stored from the channel's base on. */
  ghost predicate Partitions(sram: seq<seq<Cpx>>, base: nat, h: int -> real, w: int -> Cpx)
    requires |sram| == SRAM_BLOCKS && base <= HEADER_BLOCK_NUM
  {
    forall b :: 0 <= b < HEADER_BLOCK_NUM ==> PartitionAt(sram, base, h, w, b)
  }

  ghost predicate PartitionAt(sram: seq<seq<Cpx>>, base: nat, h: int -> real, w: int -> Cpx, b: nat)
    requires base + b < |sram|
  {
    SpectrumIs(sram[base + b], h, b + 2, w)
  }

  /** The ring holds the spectra of the last 14 input blocks, newest at Slot(runs - 1). */
  ghost predicate Ring(sram: seq<seq<Cpx>>, base: nat, x: int -> real, runs: nat, w: int -> Cpx)
    requires |sram| == SRAM_BLOCKS && base <= HEADER_BLOCK_NUM
  {
    forall t {:trigger Slot(t)} :: runs - HEADER_BLOCK_NUM <= t < runs ==>
      HEADER_IN_BLOCK_MIN <= Slot(t) <= HEADER_IN_BLOCK_MAX && SpectrumIs(sram[base + Slot(t)], x, t, w)
  }

  /** Storing the next spectrum replaces the oldest one and no other. */
  lemma RingStep(sram: seq<seq<Cpx>>, base: nat, x: int -> real, runs: nat, w: int -> Cpx, s: seq<Cpx>)
    requires |sram| == SRAM_BLOCKS && base <= HEADER_BLOCK_NUM
    requires Ring(sram, base, x, runs, w) && SpectrumIs(s, x, runs, w)
    ensures HEADER_IN_BLOCK_MIN <= Slot(runs) <= HEADER_IN_BLOCK_MAX
    ensures Ring(sram[base + Slot(runs) := s], base, x, runs + 1, w)
  {
    hide Slot, SpectrumIs;
    SlotSteps(runs);
    forall t | runs + 1 - HEADER_BLOCK_NUM <= t < runs ensures Slot(t) != Slot(runs) {
      SlotsDiffer(runs, runs - t);
      assert runs - (runs - t) == t;
    }
    forall t {:trigger Slot(t)} | runs + 1 - HEADER_BLOCK_NUM <= t < runs + 1
      ensures HEADER_IN_BLOCK_MIN <= Slot(t) <= HEADER_IN_BLOCK_MAX
      ensures SpectrumIs(sram[base + Slot(runs) := s][base + Slot(t)], x, t, w)
    {
      SlotSteps(t);
    }
  }

  function ZeroBlock(): seq<Cpx> { seq(HEADER_BLOCK_SIZE_ZE, _ => ZERO) }

  /** Before any run the ring holds zero blocks, the spectra of silence. */
  lemma RingStart(sram: seq<seq<Cpx>>, base: nat, x: int -> real, w: int -> Cpx)
    requires |sram| == SRAM_BLOCKS && base <= HEADER_BLOCK_NUM && Causal(x)
    requires forall i :: base + HEADER_IN_BLOCK_MIN <= i <= base + HEADER_IN_BLOCK_MAX ==> sram[i] == ZeroBlock()
    ensures Ring(sram, base, x, 0, w)
  {
    forall t {:trigger Slot(t)} | -HEADER_BLOCK_NUM <= t < 0
      ensures HEADER_IN_BLOCK_MIN <= Slot(t) <= HEADER_IN_BLOCK_MAX && SpectrumIs(sram[base + Slot(t)], x, t, w)
    {
      SlotSteps(t);
      forall k | 0 <= k < HEADER_BLOCK_SIZE_ZE ensures BlockBin(x, t, w, k) == ZERO { SilentBin(x, t, w, k); }
    }
  }

  lemma SilentBin(x: int -> real, t: int, w: int -> Cpx, k: int)
    requires Causal(x) && t < 0
    ensures BlockBin(x, t, w, k) == ZERO
  {
    hide Mul;
    var f := Twiddled(Block(x, t), w, k);
    forall i ensures f(i) == ZERO {
      if 0 <= i < HEADER_BLOCK_SIZE { assert x(HEADER_BLOCK_SIZE * t + i) == 0.0; }
      assert Block(x, t)(i) == ZERO;
      MulLaws(w(i * k), ZERO, ZERO);
    }
    SumZero(HEADER_BLOCK_SIZE_ZE, f);
  }

  /** The first p samples of block t of x are in the buffer. */
  ghost predicate Collected(inp: array<Cpx>, x: int -> real, t: int, p: nat)
    requires p <= inp.Length
    reads inp
  {
    forall j :: 0 <= j < p ==> inp[j] == Re(x(HEADER_BLOCK_SIZE * t + j))
  }

  // ------------------------------------------------------- one channel

  /** The buffers of one channel; both channels share the SRAM, the right one 14 blocks further. */
  class Channel {
    const base: nat
    const sram: array<seq<Cpx>>
    const firH: array<real>
    const firI: array<real>
    const iIn: array<Cpx>
    const output: array<real>

    ghost predicate Valid()
      reads sram
    {
      && (base == 0 || base == HEADER_BLOCK_NUM)
      && sram.Length == SRAM_BLOCKS
      && firH.Length == firI.Length == FIR_SIZE && iIn.Length == HEADER_BLOCK_SIZE_ZE
      && firH != firI && firH != output && firI != output
      && (forall i :: 0 <= i < sram.Length ==> |sram[i]| == HEADER_BLOCK_SIZE_ZE)
    }

    /** fir_filter_setup_sw and the zeroed buffers. */
    constructor (base: nat, sram: array<seq<Cpx>>, ir: seq<real>, behind: nat -> real, samples: nat)
      requires (base == 0 || base == HEADER_BLOCK_NUM) && sram.Length == SRAM_BLOCKS
      requires forall i :: 0 <= i < sram.Length ==> |sram[i]| == HEADER_BLOCK_SIZE_ZE
      ensures this.base == base && this.sram == sram && Valid()
      ensures fresh(firH) && fresh(firI) && fresh(iIn) && fresh(output)
      ensures Taps(Heard(ir, behind)) && output.Length == 2 * samples
      ensures forall j :: 0 <= j < FIR_SIZE ==> firI[j] == 0.0
      ensures forall n :: 0 <= n < output.Length ==> output[n] == 0.0
    {
      this.base, this.sram := base, sram;
      firH := new real[FIR_SIZE](i requires 0 <= i < FIR_SIZE => Read(ir, behind, i));
      firI := new real[FIR_SIZE](_ => 0.0);
      iIn := new Cpx[HEADER_BLOCK_SIZE_ZE](_ => ZERO);
      output := new real[2 * samples](_ => 0.0);
    }

    /** The shift register holds the last 512 input samples, the newest last. */
    ghost predicate Shifted(x: int -> real, n: nat)
      requires firI.Length == FIR_SIZE
      reads firI
    {
      forall j :: 0 <= j < FIR_SIZE ==> firI[j] == x(n - FIR_SIZE + j)
    }

    ghost predicate Taps(h: int -> real)
      requires firH.Length == FIR_SIZE
      reads firH
    {
      forall k :: 0 <= k < FIR_SIZE ==> firH[k] == h(k)
    }

    /** Every output sample holds the direct taps of the samples below fir and the first runs. */
    ghost predicate Outputs(h: int -> real, x: int -> real, fir: nat, runs: nat)
      reads output
    {
      forall n :: 0 <= n < output.Length ==> output[n] == Accumulated(h, x, fir, runs, n)
    }

    /** The shift register loop. */
    method ShiftIn(sample: real)
      requires firI.Length == FIR_SIZE
      modifies firI
      ensures firI[..] == old(firI[..])[1..] + [sample]
    {
      for j := 1 to FIR_SIZE
        invariant forall k :: 0 <= k < j - 1 ==> firI[k] == old(firI[k + 1])
        invariant forall k :: j - 1 <= k < FIR_SIZE ==> firI[k] == old(firI[k])
      {
        firI[j - 1] := firI[j];
      }
      firI[FIR_SIZE - 1] := sample;
    }

    /** fir_filter_sample_sw. */
    method FirSample(ghost h: int -> real, ghost x: int -> real, ghost n: int) returns (result: real)
      requires Valid() && Taps(h) && n >= 0 && Shifted(x, n + 1)
      ensures result == Filtered(FIR_SIZE, h, x, n)
    {
      result := 0.0;
      for kk := 0 to FIR_SIZE
        invariant result == RealSum(kk, Tap(h, x, n))
      {
        assert firI[FIR_SIZE - 1 - kk] == x(n - kk);
        var temp := firH[kk] * firI[FIR_SIZE - 1 - kk];
        result := result + temp;
      }
    }

    /** process_header_block: zero-extend, transform, store. */
    method ProcessHeaderBlock(inp: array<Cpx>, block: nat, oracle: Oracle, ghost x: int -> real, ghost t: int, ghost w: int -> Cpx)
      requires Valid() && Delivers(oracle, w) && inp.Length == HEADER_BLOCK_SIZE_ZE && Collected(inp, x, t, HEADER_BLOCK_SIZE)
      requires base + block < SRAM_BLOCKS
      modifies inp, sram
      ensures Valid() && Collected(inp, x, t, HEADER_BLOCK_SIZE)
      ensures SpectrumIs(sram[base + block], x, t, w)
      ensures sram[..] == old(sram[..])[base + block := sram[base + block]]
    {
      var cfg := KissFft.Alloc(HEADER_BLOCK_SIZE_ZE, false, oracle.table);
      TableServes(oracle, w, cfg);
      hide Delivers, KissFft.Tabulates, Factor.Stages, Dft, BlockBin;
      var out := new Cpx[HEADER_BLOCK_SIZE_ZE](_ => ZERO);
      ZeroExtend(inp);
      ExtendedBlock(inp[..], x, t, w);
      KissFft.Transform(cfg, inp, out, w);
      sram[base + block] := out[..];
    }

    /** The loop over the partitions: newest input block first, backwards through the ring. */
    method HeaderMac(latest: nat, ghost h: int -> real, ghost x: int -> real, ghost t: nat, ghost w: int -> Cpx)
      returns (mac: array<Cpx>)
      requires Valid() && latest == Slot(t)
      requires Ring(sram[..], base, x, t + 1, w) && Partitions(sram[..], base, h, w)
      ensures fresh(mac) && mac.Length == HEADER_BLOCK_SIZE_ZE
      ensures forall k :: 0 <= k < mac.Length ==> mac[k] == PartialBin(h, x, t, w, HEADER_BLOCK_NUM, k)
    {
      assert sram.Length == SRAM_BLOCKS && base <= HEADER_BLOCK_NUM;
      hide *;
      mac := new Cpx[HEADER_BLOCK_SIZE_ZE](_ => ZERO);
      EmptyBins(h, x, t, w);
      var inPointer := latest;
      for irPointer := 0 to HEADER_BLOCK_NUM
        invariant inPointer == Slot(t - irPointer)
        invariant forall k :: 0 <= k < mac.Length ==> mac[k] == PartialBin(h, x, t, w, irPointer, k)
      {
        SlotSteps(t - irPointer);
        MacPair(mac, inPointer, irPointer, h, x, t, w);
        inPointer := PreviousSlot(inPointer);
      }
    }

    /** One turn of that loop: the blocks are read from the SRAM and multiplied in. */
    method MacPair(mac: array<Cpx>, inPointer: nat, irPointer: nat, ghost h: int -> real, ghost x: int -> real, ghost t: nat,
                   ghost w: int -> Cpx)
      requires Valid() && irPointer < HEADER_BLOCK_NUM && inPointer == Slot(t - irPointer)
      requires Ring(sram[..], base, x, t + 1, w) && Partitions(sram[..], base, h, w)
      requires mac.Length == HEADER_BLOCK_SIZE_ZE
      requires forall k :: 0 <= k < mac.Length ==> mac[k] == PartialBin(h, x, t, w, irPointer, k)
      modifies mac
      ensures forall k :: 0 <= k < mac.Length ==> mac[k] == PartialBin(h, x, t, w, irPointer + 1, k)
    {
      assert sram.Length == SRAM_BLOCKS && base <= HEADER_BLOCK_NUM;
      hide *;
      PairProducts(sram[..], base, h, x, t, w, irPointer);
      FreqMacBlocks(mac, sram[base + inPointer], sram[base + irPointer]);
    }

    /** The loop that adds a run's output to the output buffer. */
    method AddHeader(iH: nat, res: seq<real>, ghost h: int -> real, ghost x: int -> real, ghost fir: nat)
      requires |res| == HEADER_BLOCK_SIZE_ZE && Outputs(h, x, fir, iH)
      requires HEADER_BLOCK_SIZE_ZE + (iH + 2) * HEADER_BLOCK_SIZE <= output.Length
      requires forall i :: 0 <= i < |res| ==> res[i] == HeaderOut(h, x, iH)(i).re
      modifies output
      ensures Outputs(h, x, fir, iH + 1)
    {
      hide HeaderOut, Accumulated;
      var start, end := HEADER_BLOCK_SIZE_ZE + iH * HEADER_BLOCK_SIZE, HEADER_BLOCK_SIZE_ZE + (iH + 2) * HEADER_BLOCK_SIZE;
      var ii := 0;
      for i := start to end
        invariant ii == i - start
        invariant forall n :: start <= n < i ==> output[n] == old(output[n]) + res[n - start]
        invariant forall n :: 0 <= n < output.Length && !(start <= n < i) ==> output[n] == old(output[n])
      {
        output[i] := output[i] + res[ii];
        ii := ii + 1;
      }
      forall n | 0 <= n < output.Length ensures output[n] == Accumulated(h, x, fir, iH + 1, n) {
        AccumulateRun(h, x, fir, iH, n);
      }
    }

    /** Everything the loop does when a block is complete. */
    method HeaderRun(latest: nat, iH: nat, oracle: Oracle, ghost h: int -> real, ghost x: int -> real, ghost fir: nat, ghost w: int -> Cpx)
      requires Valid() && Delivers(oracle, w) && latest == Slot(iH)
      requires Collected(iIn, x, iH, HEADER_BLOCK_SIZE) && Outputs(h, x, fir, iH)
      requires Ring(sram[..], base, x, iH, w) && Partitions(sram[..], base, h, w)
      requires HEADER_BLOCK_SIZE_ZE + (iH + 2) * HEADER_BLOCK_SIZE <= output.Length
      modifies iIn, sram, output
      ensures Valid() && Outputs(h, x, fir, iH + 1)
      ensures Ring(sram[..], base, x, iH + 1, w) && Partitions(sram[..], base, h, w)
      ensures forall i :: 0 <= i < SRAM_BLOCKS && i != base + latest ==> sram[i] == old(sram[i])
    {
      SlotSteps(iH);
      hide Ring, Partitions, Collected, Outputs, SpectrumIs, Delivers, Slot;
      ghost var before := sram[..];
      ProcessHeaderBlock(iIn, latest, oracle, x, iH, w);
      RingStep(before, base, x, iH, w, sram[base + latest]);
      PartitionsKept(before, base, h, w, base + latest, sram[base + latest]);
      var mac := HeaderMac(latest, h, x, iH, w);
      var res := Ifft(mac, oracle, h, x, iH, w);
      AddHeader(iH, res, h, x, fir);
    }
  }

  lemma TableServes(o: Oracle, w: int -> Cpx, cfg: KissFft.Config)
    requires Delivers(o, w) && cfg.nfft == HEADER_BLOCK_SIZE_ZE && !cfg.inverse && cfg.twiddles == o.table
    ensures KissFft.Tabulates(cfg, w)
  {
  }

  /** The zero-extended buffer is the block as a signal. */
  lemma ExtendedBlock(F: seq<Cpx>, x: int -> real, t: int, w: int -> Cpx)
    requires |F| == HEADER_BLOCK_SIZE_ZE
    requires forall j :: 0 <= j < HEADER_BLOCK_SIZE ==> F[j] == Re(x(HEADER_BLOCK_SIZE * t + j))
    requires forall j :: HEADER_BLOCK_SIZE <= j < HEADER_BLOCK_SIZE_ZE ==> F[j] == ZERO
    ensures forall k :: Dft(HEADER_BLOCK_SIZE_ZE, Signal(F), w, k) == BlockBin(x, t, w, k)
  {
    hide Dft;
    forall k ensures Dft(HEADER_BLOCK_SIZE_ZE, Signal(F), w, k) == BlockBin(x, t, w, k) {
      DftEq(HEADER_BLOCK_SIZE_ZE, Signal(F), Block(x, t), w, k);
    }
  }

  lemma PartitionsKept(sram: seq<seq<Cpx>>, base: nat, h: int -> real, w: int -> Cpx, at: nat, s: seq<Cpx>)
    requires |sram| == SRAM_BLOCKS && base <= HEADER_BLOCK_NUM && base + HEADER_BLOCK_NUM <= at < SRAM_BLOCKS
    requires Partitions(sram, base, h, w)
    ensures Partitions(sram[at := s], base, h, w)
  {
    var sram' := sram[at := s];
    forall b | 0 <= b < HEADER_BLOCK_NUM ensures PartitionAt(sram', base, h, w, b) {
      assert PartitionAt(sram, base, h, w, b);
    }
  }

  /** The accumulator after the first b partitions. */
  ghost function PartialBin(h: int -> real, x: int -> real, t: int, w: int -> Cpx, b: nat, k: int): Cpx {
    Sum(b, BinProducts(h, x, t, w, k))
  }

  lemma EmptyBins(h: int -> real, x: int -> real, t: int, w: int -> Cpx)
    ensures forall k :: PartialBin(h, x, t, w, 0, k) == ZERO
  {
  }

  /** The two spectra met at step b are those of the next product. */
  lemma PairProducts(sram: seq<seq<Cpx>>, base: nat, h: int -> real, x: int -> real, t: nat, w: int -> Cpx, b: nat)
    requires |sram| == SRAM_BLOCKS && base <= HEADER_BLOCK_NUM && b < HEADER_BLOCK_NUM
    requires Ring(sram, base, x, t + 1, w) && Partitions(sram, base, h, w)
    ensures HEADER_IN_BLOCK_MIN <= Slot(t - b) <= HEADER_IN_BLOCK_MAX
    ensures |sram[base + Slot(t - b)]| == |sram[base + b]| == HEADER_BLOCK_SIZE_ZE
    ensures forall k | 0 <= k < HEADER_BLOCK_SIZE_ZE :: PartialBin(h, x, t, w, b + 1, k)
              == Add(PartialBin(h, x, t, w, b, k), Mul(sram[base + Slot(t - b)][k], sram[base + b][k]))
  {
    hide Mul, Add, BlockBin, Slot;
    assert SpectrumIs(sram[base + Slot(t - b)], x, t - b, w);
    assert PartitionAt(sram, base, h, w, b);
    forall k | 0 <= k < HEADER_BLOCK_SIZE_ZE ensures PartialBin(h, x, t, w, b + 1, k)
      == Add(PartialBin(h, x, t, w, b, k), Mul(sram[base + Slot(t - b)][k], sram[base + b][k]))
    {
      assert BinProducts(h, x, t, w, k)(b) == Mul(BlockBin(x, t - b, w, k), BlockBin(h, b + 2, w, k));
    }
  }

  /** Run iH changes sample n by its contribution, which is zero outside its 512 samples. */
  lemma AccumulateRun(h: int -> real, x: int -> real, fir: nat, iH: nat, n: nat)
    ensures var i := n - HEADER_BLOCK_SIZE_ZE - HEADER_BLOCK_SIZE * iH;
      Accumulated(h, x, fir, iH + 1, n) == Accumulated(h, x, fir, iH, n)
        + if 0 <= i < HEADER_BLOCK_SIZE_ZE then HeaderOut(h, x, iH)(i).re else 0.0
  {
    hide Filtered, HeaderOut;
    AddedAt(h, x, n, iH);
    assert RealSum(iH + 1, Added(h, x, n)) == RealSum(iH, Added(h, x, n)) + Added(h, x, n)(iH);
  }

  lemma AddedAt(h: int -> real, x: int -> real, n: int, t: int)
    ensures var i := n - HEADER_BLOCK_SIZE_ZE - HEADER_BLOCK_SIZE * t;
      Added(h, x, n)(t) == if 0 <= i < HEADER_BLOCK_SIZE_ZE then HeaderOut(h, x, t)(i).re else 0.0
  {
    hide HeaderOut;
    assert Added(h, x, n)(t) == Contribution(h, x, n)(t).re;
  }

  /** freq_mac_blocks: one pair of spectra into the accumulator. */
  method FreqMacBlocks(mac: array<Cpx>, inBlock: seq<Cpx>, irBlock: seq<Cpx>)
    requires mac.Length == |inBlock| == |irBlock| == HEADER_BLOCK_SIZE_ZE
    modifies mac
    ensures forall k :: 0 <= k < mac.Length ==> mac[k] == Add(old(mac[k]), Mul(inBlock[k], irBlock[k]))
  {
    hide Mul, Add;
    for k := 0 to HEADER_BLOCK_SIZE_ZE
      invariant forall i :: 0 <= i < k ==> mac[i] == Add(old(mac[i]), Mul(inBlock[i], irBlock[i]))
      invariant forall i :: k <= i < mac.Length ==> mac[i] == old(mac[i])
    {
      mac[k] := Add(mac[k], Mul(inBlock[k], irBlock[k]));
    }
  }

  /** ifft_on_mac_buffer: the real parts of the inverse transform. */
  method Ifft(mac: array<Cpx>, oracle: Oracle, ghost h: int -> real, ghost x: int -> real, ghost t: nat, ghost w: int -> Cpx)
    returns (res: seq<real>)
    requires mac.Length == HEADER_BLOCK_SIZE_ZE && Delivers(oracle, w)
    requires forall k :: 0 <= k < mac.Length ==> mac[k] == PartialBin(h, x, t, w, HEADER_BLOCK_NUM, k)
    ensures |res| == HEADER_BLOCK_SIZE_ZE
    ensures forall i :: 0 <= i < |res| ==> res[i] == HeaderOut(h, x, t)(i).re
  {
    hide *;
    var f := new Cpx[HEADER_BLOCK_SIZE_ZE](_ => ZERO);
    for i := 0 to HEADER_BLOCK_SIZE_ZE
      invariant forall k :: 0 <= k < i ==> f[k] == mac[k]
    {
      f[i] := mac[i];
    }
    RunOutputs(h, x, t, w, f[..], oracle);
    Inverse512(f, oracle, w);
    res := [];
    for i := 0 to HEADER_BLOCK_SIZE_ZE
      invariant |res| == i
      invariant forall k :: 0 <= k < i ==> res[k] == HeaderOut(h, x, t)(k).re
    {
      res := res + [f[i].re];
    }
  }

  ghost function InverseBin(M: seq<Cpx>, w: int -> Cpx, i: int): Cpx {
    Scale(1.0 / HEADER_BLOCK_SIZE_ZE as real, Dft(HEADER_BLOCK_SIZE_ZE, Signal(M), Backward(w), i))
  }

  lemma RunOutputs(h: int -> real, x: int -> real, t: nat, w: int -> Cpx, M: seq<Cpx>, o: Oracle)
    requires |M| == HEADER_BLOCK_SIZE_ZE && Delivers(o, w)
    requires forall k :: 0 <= k < |M| ==> M[k] == PartialBin(h, x, t, w, HEADER_BLOCK_NUM, k)
    ensures forall i :: 0 <= i < HEADER_BLOCK_SIZE_ZE ==> InverseBin(M, w, i) == HeaderOut(h, x, t)(i)
  {
    hide Turn, Dft, Scale, Sum;
    forall i: nat | i < HEADER_BLOCK_SIZE_ZE ensures InverseBin(M, w, i) == HeaderOut(h, x, t)(i) {
      RunOutput(h, x, t, w, M, i);
    }
  }

  /** The 512-point inverse transform. */
  method Inverse512(f: array<Cpx>, oracle: Oracle, ghost w: int -> Cpx)
    requires f.Length == HEADER_BLOCK_SIZE_ZE && Delivers(oracle, w)
    modifies f
    ensures forall i :: 0 <= i < HEADER_BLOCK_SIZE_ZE ==> f[i] == InverseBin(old(f[..]), w, i)
  {
    Pow2Values();
    hide Turn, Dft, Scale, FftCfp.AllRoots, Pow2;
    assert f[..Pow2(9)] == f[..];
    FftCfp.FftCfp(f, 9, true, oracle.root, w);
  }

  /** The pairing the software uses: kiss_fft forwards and fft_cfp backwards give the input back. */
  method ThereAndBack(st: KissFft.Config, fin: array<Cpx>, m: nat, oracle: Oracle, ghost w: int -> Cpx) returns (out: array<Cpx>)
    requires KissFft.Tabulates(st, w) && Factor.Stages(st.factors, st.nfft) && FftCfp.AllRoots(oracle.root, w, m)
    requires st.nfft == Pow2(m) <= fin.Length
    ensures out.Length == st.nfft && forall k | 0 <= k < st.nfft :: out[k] == fin[k]
  {
    out := new Cpx[st.nfft](_ => ZERO);
    hide Turn, Dft, Scale, FftCfp.AllRoots, Pow2, Factor.Stages;
    KissFft.Transform(st, fin, out, w);
    ghost var y := out[..];
    assert out[..st.nfft] == y;
    FftCfp.FftCfp(out, m, true, oracle.root, w);
    forall k: nat | k < st.nfft
      ensures out[k] == fin[k]
    {
      InverseOfForward(st.nfft, Signal(fin[..]), y, w, k);
    }
  }

  /** pre_process_h_header for one channel: the partitions of the impulse response. */
  method PreProcess(c: Channel, ir: seq<real>, behind: nat -> real, oracle: Oracle, ghost w: int -> Cpx)
    requires c.Valid() && Delivers(oracle, w)
    modifies c.sram
    ensures c.Valid() && Partitions(c.sram[..], c.base, Heard(ir, behind), w)
    ensures forall i :: 0 <= i < SRAM_BLOCKS && !(c.base <= i < c.base + HEADER_BLOCK_NUM) ==> c.sram[i] == old(c.sram[i])
  {
    hide Delivers, SpectrumIs;
    ghost var h := Heard(ir, behind);
    for block := 0 to HEADER_BLOCK_NUM
      invariant c.Valid()
      invariant forall b :: 0 <= b < block ==> PartitionAt(c.sram[..], c.base, h, w, b)
      invariant forall i :: 0 <= i < SRAM_BLOCKS && !(c.base <= i < c.base + block) ==> c.sram[i] == old(c.sram[i])
    {
      ghost var before := c.sram[..];
      var cin := new Cpx[HEADER_BLOCK_SIZE_ZE](_ => ZERO);
      var sampleCounterIr := HEADER_BLOCK_SIZE_ZE + block * HEADER_BLOCK_SIZE;
      for i := 0 to HEADER_BLOCK_SIZE
        invariant sampleCounterIr == HEADER_BLOCK_SIZE_ZE + block * HEADER_BLOCK_SIZE + i
        invariant forall j :: 0 <= j < i ==> cin[j] == Re(h(HEADER_BLOCK_SIZE * (block + 2) + j))
        invariant c.sram[..] == before
      {
        cin[i] := Cpx(Read(ir, behind, sampleCounterIr), 0.0);
        sampleCounterIr := sampleCounterIr + 1;
      }
      c.ProcessHeaderBlock(cin, block, oracle, h, block + 2, w);
      forall b | 0 <= b < block ensures PartitionAt(c.sram[..], c.base, h, w, b) {
        assert PartitionAt(before, c.base, h, w, b);
      }
      assert PartitionAt(c.sram[..], c.base, h, w, block);
    }
  }

  /** zero_extend_256. */
  method ZeroExtend(samples: array<Cpx>)
    requires samples.Length == HEADER_BLOCK_SIZE_ZE
    modifies samples
    ensures forall i :: 0 <= i < HEADER_BLOCK_SIZE ==> samples[i] == old(samples[i])
    ensures forall i :: HEADER_BLOCK_SIZE <= i < HEADER_BLOCK_SIZE_ZE ==> samples[i] == ZERO
  {
    for i := HEADER_BLOCK_SIZE to HEADER_BLOCK_SIZE_ZE
      invariant forall k :: 0 <= k < HEADER_BLOCK_SIZE ==> samples[k] == old(samples[k])
      invariant forall k :: HEADER_BLOCK_SIZE <= k < i ==> samples[k] == ZERO
    {
      samples[i] := Cpx(0.0, 0.0);
    }
  }

  // ------------------------------------------------------- the stereo loop

  /** The two channels use the two halves of one SRAM and nothing else in common. */
  ghost predicate Paired(l: Channel, r: Channel) {
    && l != r
    && l.base == 0 && r.base == HEADER_BLOCK_NUM
    && l.sram == r.sram
    && {l.firI, l.output, l.firH} !! {r.firI, r.output, r.firH}
    && l.iIn != r.iIn
  }

  /** The state of one channel in the middle of sample n: fir samples filtered, p samples of
      the current block collected, runs header runs added. */
  ghost predicate Holds(c: Channel, h: int -> real, x: int -> real, fir: nat, p: nat, runs: nat, w: int -> Cpx)
    reads c.sram, c.firH, c.firI, c.iIn, c.output
  {
    && c.Valid() && p <= HEADER_BLOCK_SIZE
    && c.Taps(h) && c.Shifted(x, fir)
    && Collected(c.iIn, x, runs, p)
    && c.Outputs(h, x, fir, runs)
    && Ring(c.sram[..], c.base, x, runs, w)
    && Partitions(c.sram[..], c.base, h, w)
  }

  lemma FilterSampleStep(h: int -> real, x: int -> real, n: nat, runs: nat, i: nat)
    ensures Accumulated(h, x, n + 1, runs, i) == Accumulated(h, x, n, runs, i) + if i == n then Filtered(FIR_SIZE, h, x, n) else 0.0
  {
  }

  /** The part of the loop before the header: collect the sample, filter it, add the result. */
  method TakeSample(c: Channel, sample: real, p: nat, n: nat, ghost runs: nat, ghost h: int -> real, ghost x: int -> real, ghost w: int -> Cpx)
    requires Holds(c, h, x, n, p, runs, w) && p < HEADER_BLOCK_SIZE && n == HEADER_BLOCK_SIZE * runs + p
    requires sample == x(n) && n < c.output.Length
    modifies c.iIn, c.firI, c.output
    ensures Holds(c, h, x, n + 1, p + 1, runs, w)
  {
    hide Ring, Partitions, Accumulated, Filtered;
    c.iIn[p] := Cpx(sample, 0.0);
    c.ShiftIn(sample);
    assert c.Shifted(x, n + 1) by {
      forall j | 0 <= j < FIR_SIZE ensures c.firI[j] == x(n + 1 - FIR_SIZE + j) {
        assert c.firI[j] == (old(c.firI[..])[1..] + [sample])[j];
      }
    }
    var sampleResult := c.FirSample(h, x, n);
    forall i | 0 <= i < c.output.Length { FilterSampleStep(h, x, n, runs, i); }
    c.output[n] := c.output[n] + sampleResult;
  }

  /** A run of one channel leaves the other channel's half of the SRAM alone. */
  lemma OtherHalf(before: seq<seq<Cpx>>, after: seq<seq<Cpx>>, base: nat, at: nat, h: int -> real, x: int -> real, runs: nat, w: int -> Cpx)
    requires |before| == |after| == SRAM_BLOCKS && (base == 0 || base == HEADER_BLOCK_NUM)
    requires HEADER_IN_BLOCK_MIN <= at < SRAM_BLOCKS
    requires !(base + HEADER_IN_BLOCK_MIN <= at <= base + HEADER_IN_BLOCK_MAX)
    requires forall i :: 0 <= i < SRAM_BLOCKS && i != at ==> after[i] == before[i]
    requires Ring(before, base, x, runs, w) && Partitions(before, base, h, w)
    ensures Ring(after, base, x, runs, w) && Partitions(after, base, h, w)
  {
    hide Slot, SpectrumIs;
    forall b | 0 <= b < HEADER_BLOCK_NUM ensures PartitionAt(after, base, h, w, b) {
      assert PartitionAt(before, base, h, w, b);
    }
  }

  /** What the two channels are proved against: impulse responses, inputs, twiddles. */
  datatype Signals = Signals(h1: int -> real, h2: int -> real, x1: int -> real, x2: int -> real, w: int -> Cpx)

  ghost predicate Both(l: Channel, r: Channel, g: Signals, fir: nat, p: nat, runs: nat)
    reads l.sram, l.firH, l.firI, l.iIn, l.output, r.sram, r.firH, r.firI, r.iIn, r.output
  {
    && Paired(l, r) && l.output.Length == r.output.Length && Causal(g.x1) && Causal(g.x2)
    && Holds(l, g.h1, g.x1, fir, p, runs, g.w) && Holds(r, g.h2, g.x2, fir, p, runs, g.w)
  }

  /** Both channels take their sample. */
  method TakeBoth(l: Channel, r: Channel, sample1: real, sample2: real, p: nat, n: nat, ghost iH: nat, ghost g: Signals)
    requires Both(l, r, g, n, p, iH) && p < HEADER_BLOCK_SIZE && n == HEADER_BLOCK_SIZE * iH + p
    requires sample1 == g.x1(n) && sample2 == g.x2(n) && n < l.output.Length
    modifies l.iIn, l.firI, l.output, r.iIn, r.firI, r.output
    ensures Both(l, r, g, n + 1, p + 1, iH)
  {
    hide Ring, Partitions, Accumulated;
    TakeSample(l, sample1, p, n, iH, g.h1, g.x1, g.w);
    TakeSample(r, sample2, p, n, iH, g.h2, g.x2, g.w);
  }

  /** The header part of the loop, for both channels. */
  method BothRuns(l: Channel, r: Channel, latest: nat, iH: nat, oracle: Oracle, ghost g: Signals, ghost n: nat)
    requires Both(l, r, g, n, HEADER_BLOCK_SIZE, iH) && Delivers(oracle, g.w) && latest == Slot(iH)
    requires HEADER_BLOCK_SIZE_ZE + (iH + 2) * HEADER_BLOCK_SIZE <= l.output.Length
    modifies l.iIn, l.output, r.iIn, r.output, l.sram
    ensures Both(l, r, g, n, 0, iH + 1)
  {
    SlotSteps(iH);
    hide Ring, Partitions, Accumulated, Slot, Delivers, SpectrumIs;
    ghost var s0 := l.sram[..];
    l.HeaderRun(latest, iH, oracle, g.h1, g.x1, n, g.w);
    ghost var s1 := l.sram[..];
    OtherHalf(s0, s1, r.base, l.base + latest, g.h2, g.x2, iH, g.w);
    r.HeaderRun(latest, iH, oracle, g.h2, g.x2, n, g.w);
    OtherHalf(s1, r.sram[..], l.base, r.base + latest, g.h1, g.x1, iH + 1, g.w);
  }

  // ------------------------------------------------------- the loop and its end

  const BODY_BLOCK_SIZE := 4096
  const BODY_BLOCK_SIZE_ZE := 8192

  /** Three body blocks: the samples the loop takes before it returns. */
  const LOOP_SAMPLES := 12288

  /** The output buffer ends where the last header run of those samples does. */
  const LOOP_OUTPUT := 13056

  /** The first n output samples are x filtered by the first 4096 samples of h. */
  ghost predicate Finished(output: seq<real>, h: int -> real, x: int -> real, n: nat) {
    && n <= |output|
    && forall k | 0 <= k < n :: output[k] == Filtered(FIR_SIZE + HEADER_BLOCK_NUM * HEADER_BLOCK_SIZE, h, x, k)
  }

  lemma AllFinished(c: Channel, h: int -> real, x: int -> real, fir: nat, p: nat, runs: nat, w: int -> Cpx)
    requires Holds(c, h, x, fir, p, runs, w) && Causal(x)
    requires fir <= c.output.Length && fir <= HEADER_BLOCK_SIZE * (runs + 1)
    ensures Finished(c.output[..], h, x, fir)
  {
    hide Accumulated, Filtered;
    forall n: nat | n < fir
      ensures c.output[n] == Filtered(FIR_SIZE + HEADER_BLOCK_NUM * HEADER_BLOCK_SIZE, h, x, n)
    {
      SampleFinished(h, x, fir, runs, n);
    }
  }

  ghost predicate BothFinished(l: Channel, r: Channel, g: Signals, n: nat)
    reads l.output, r.output
  {
    Finished(l.output[..], g.h1, g.x1, n) && Finished(r.output[..], g.h2, g.x2, n)
  }

  lemma NowFinished(l: Channel, r: Channel, g: Signals, fir: nat, p: nat, runs: nat)
    requires Both(l, r, g, fir, p, runs) && fir <= l.output.Length && fir <= HEADER_BLOCK_SIZE * (runs + 1)
    ensures BothFinished(l, r, g, fir)
  {
    hide Finished, Holds;
    AllFinished(l, g.h1, g.x1, fir, p, runs, g.w);
    AllFinished(r, g.h2, g.x2, fir, p, runs, g.w);
  }

  /** A filtered sample depends on no later input: what lies behind the file does not matter. */
  lemma FilteredSame(len: nat, h: int -> real, x: int -> real, y: int -> real, n: int)
    requires forall i | i <= n :: x(i) == y(i)
    ensures Filtered(len, h, x, n) == Filtered(len, h, y, n)
  {
    RealSumSame(len, Tap(h, x, n), Tap(h, y, n));
  }

  lemma {:induction false} RealSumSame(n: nat, f: int -> real, g: int -> real)
    requires forall i | 0 <= i < n :: f(i) == g(i)
    ensures RealSum(n, f) == RealSum(n, g)
  {
    if n > 0 { RealSumSame(n - 1, f, g); }
  }

  /** Sample n and the header run that it completes write inside an output buffer of this length. */
  predicate Inside(length: nat, n: nat) {
    && n < length
    && ((n + 1) % HEADER_BLOCK_SIZE == 0 && n > 0 ==> HEADER_BLOCK_SIZE_ZE + (n / HEADER_BLOCK_SIZE + 2) * HEADER_BLOCK_SIZE <= length)
  }

  /** All writes of the loop stay inside exactly when the last run's do. */
  lemma AllInside(length: nat)
    ensures (forall n | 0 <= n < LOOP_SAMPLES :: Inside(length, n)) <==> LOOP_OUTPUT <= length
  {
    assert Inside(length, LOOP_SAMPLES - 1) ==> LOOP_OUTPUT <= length;
  }

  /** The first sample whose writes leave an output buffer of this length. */
  function FirstOutside(length: nat): nat {
    if length < HEADER_BLOCK_SIZE then length
    else if length < 4 * HEADER_BLOCK_SIZE then HEADER_BLOCK_SIZE - 1
    else HEADER_BLOCK_SIZE * (length / HEADER_BLOCK_SIZE - 2) - 1
  }

  lemma FirstOutsideIs(length: nat)
    ensures !Inside(length, FirstOutside(length)) && forall n | 0 <= n < FirstOutside(length) :: Inside(length, n)
  {
  }

  /** The body's results are added over an empty range: its end is computed from the header's sizes. */
  lemma BodyAddsNothing(iHBody: nat)
    ensures HEADER_BLOCK_SIZE_ZE + (iHBody + 2) * HEADER_BLOCK_SIZE <= BODY_BLOCK_SIZE_ZE + iHBody * BODY_BLOCK_SIZE
  {
  }

  /** The counters of the loop. */
  datatype Counters = Counters(sample: nat, header: nat, iH: nat, latest: nat, bodyRuns: nat, iHBody: nat)

  /** All of them are determined by the number of samples. */
  ghost predicate Counting(c: Counters) {
    && c.header == c.sample % HEADER_BLOCK_SIZE && c.iH == c.sample / HEADER_BLOCK_SIZE && c.latest == Slot(c.iH)
    && c.bodyRuns == c.iHBody == c.sample / BODY_BLOCK_SIZE && c.sample < LOOP_SAMPLES
  }

  lemma CountingIs(c: Counters)
    requires Counting(c)
    ensures c.header == c.sample % HEADER_BLOCK_SIZE && c.iH == c.sample / HEADER_BLOCK_SIZE && c.sample < LOOP_SAMPLES
  {
  }

  /** The end of the loop body: the header's counters, the body's, and the one way out. */
  method MoveOn(c: Counters) returns (last: bool, d: Counters)
    requires Counting(c)
    ensures last <==> c.sample == LOOP_SAMPLES - 1
    ensures !last ==> Counting(d) && d.sample == c.sample + 1 < LOOP_SAMPLES
  {
    SlotSteps(c.iH);
    BodyAddsNothing(c.iHBody);
    hide Slot, NextSlot;
    d := c.(header := c.header + 1);
    if (c.sample + 1) % HEADER_BLOCK_SIZE == 0 && c.sample > 0 {
      d := d.(header := 0, iH := c.iH + 1, latest := NextSlot(c.latest));
    }
    if (c.sample + 1) % BODY_BLOCK_SIZE == 0 && c.sample > 0 {
      if c.bodyRuns == 2 {
        return true, d;
      }
      d := d.(bodyRuns := c.bodyRuns + 1, iHBody := c.iHBody + 1);
    }
    d := d.(sample := c.sample + 1);
    last := false;
  }

  /** The state of both channels before sample c.sample. */
  ghost predicate Ready(l: Channel, r: Channel, g: Signals, c: Counters)
    reads l.sram, l.firH, l.firI, l.iIn, l.output, r.sram, r.firH, r.firI, r.iIn, r.output
  {
    Counting(c) && c.sample <= l.output.Length && Both(l, r, g, c.sample, c.header, c.iH)
  }

  /** The body of the sample loop up to the first write outside the output buffers. */
  method OneSample(l: Channel, r: Channel, sample1: real, sample2: real, c: Counters, oracle: Oracle, ghost g: Signals)
    returns (inside: bool)
    requires Ready(l, r, g, c) && Delivers(oracle, g.w)
    requires sample1 == g.x1(c.sample) && sample2 == g.x2(c.sample)
    modifies l.iIn, l.firI, l.output, r.iIn, r.firI, r.output, l.sram
    ensures inside == Inside(l.output.Length, c.sample)
    ensures inside ==> Both(l, r, g, c.sample + 1, (c.sample + 1) % HEADER_BLOCK_SIZE, (c.sample + 1) / HEADER_BLOCK_SIZE)
    ensures BothFinished(l, r, g, if c.sample < l.output.Length then c.sample + 1 else c.sample)
  {
    hide Both, BothFinished, Slot, Delivers;
    if c.sample >= l.output.Length {
      NowFinished(l, r, g, c.sample, c.header, c.iH);
      return false;
    }
    TakeBoth(l, r, sample1, sample2, c.header, c.sample, c.iH, g);
    NowFinished(l, r, g, c.sample + 1, c.header + 1, c.iH);
    if (c.sample + 1) % HEADER_BLOCK_SIZE == 0 && c.sample > 0 {
      if HEADER_BLOCK_SIZE_ZE + (c.iH + 2) * HEADER_BLOCK_SIZE > l.output.Length {
        return false;
      }
      BothRuns(l, r, c.latest, c.iH, oracle, g, c.sample + 1);
      NowFinished(l, r, g, c.sample + 1, 0, c.iH + 1);
    }
    inside := true;
  }

  /** The input file and what lies behind it in memory, for both channels. */
  datatype Source = Source(in1: seq<real>, in2: seq<real>, behind1: nat -> real, behind2: nat -> real)

  /** g hears what the loop reads. */
  ghost predicate Hears(g: Signals, src: Source) {
    && |src.in1| == |src.in2|
    && (forall n: nat :: g.x1(n) == Read(src.in1, src.behind1, n))
    && (forall n: nat :: g.x2(n) == Read(src.in2, src.behind2, n))
  }

  /** How a turn of the loop ends. */
  datatype Turned = Outside | Returned | Next(c: Counters)

  /** One turn of the loop. */
  method LoopTurn(l: Channel, r: Channel, src: Source, c: Counters, oracle: Oracle, ghost g: Signals) returns (t: Turned)
    requires Ready(l, r, g, c) && Delivers(oracle, g.w) && Hears(g, src)
    modifies l.iIn, l.firI, l.output, r.iIn, r.firI, r.output, l.sram
    ensures t.Outside? <==> !Inside(l.output.Length, c.sample)
    ensures t.Returned? ==> c.sample == LOOP_SAMPLES - 1
    ensures t.Next? ==> Ready(l, r, g, t.c) && t.c.sample == c.sample + 1
    ensures BothFinished(l, r, g, Min(c.sample + 1, l.output.Length))
  {
    hide Both, Counting, Delivers, BothFinished, Inside, Read;
    InsideIsBelow(l.output.Length, c.sample);
    var inside := OneSample(l, r, Read(src.in1, src.behind1, c.sample), Read(src.in2, src.behind2, c.sample), c, oracle, g);
    if !inside {
      return Outside;
    }
    var last, next := MoveOn(c);
    if last {
      return Returned;
    }
    CountingIs(next);
    t := Next(next);
  }

  /** How the loop ends: it returns when all its writes fit, having taken the samples of three body
      blocks, of which those past the file's end are read from behind it. */
  ghost predicate Ended(l: Channel, r: Channel, src: Source, g: Signals, returned: bool, taken: nat, pastEnd: bool)
    reads l.output, r.output
  {
    && (returned <==> LOOP_OUTPUT <= l.output.Length)
    && 0 < taken <= LOOP_SAMPLES && (returned ==> taken == LOOP_SAMPLES) && (pastEnd <==> taken > |src.in1|)
    && (!returned ==> taken == FirstOutside(l.output.Length) + 1)
    && BothFinished(l, r, g, Min(taken, l.output.Length))
  }

  lemma EndsWith(l: Channel, r: Channel, src: Source, g: Signals, n: nat, t: Turned, pastEnd: bool)
    requires n < LOOP_SAMPLES && !t.Next? && (pastEnd <==> n >= |src.in1|)
    requires (t.Outside? <==> !Inside(l.output.Length, n)) && (t.Returned? ==> n == LOOP_SAMPLES - 1)
    requires forall k | 0 <= k < n :: Inside(l.output.Length, k)
    requires BothFinished(l, r, g, Min(n + 1, l.output.Length))
    ensures Ended(l, r, src, g, t.Returned?, n + 1, pastEnd)
  {
    hide BothFinished, Inside, Min, FirstOutside;
    AllInside(l.output.Length);
    FirstOutsideIs(l.output.Length);
    assert t.Outside? ==> n == FirstOutside(l.output.Length);
  }

  /** Before sample c.sample, with every write so far inside the buffers. */
  ghost predicate Looping(l: Channel, r: Channel, src: Source, g: Signals, c: Counters, pastEnd: bool)
    reads l.sram, l.firH, l.firI, l.iIn, l.output, r.sram, r.firH, r.firI, r.iIn, r.output
  {
    && Ready(l, r, g, c) && Hears(g, src) && (pastEnd <==> c.sample > |src.in1|)
    && forall n | 0 <= n < c.sample :: Inside(l.output.Length, n)
  }

  /** One turn, and whether the loop goes on. */
  method Advance(l: Channel, r: Channel, src: Source, c: Counters, pastEnd: bool, oracle: Oracle, ghost g: Signals)
    returns (t: Turned, past: bool)
    requires Looping(l, r, src, g, c, pastEnd) && Delivers(oracle, g.w)
    modifies l.iIn, l.firI, l.output, r.iIn, r.firI, r.output, l.sram
    ensures t.Next? ==> Looping(l, r, src, g, t.c, past) && t.c.sample == c.sample + 1 < LOOP_SAMPLES
    ensures !t.Next? ==> Ended(l, r, src, g, t.Returned?, c.sample + 1, past)
  {
    hide Ready, Delivers, Inside, Hears, BothFinished, Ended;
    ReadyIs(l, r, g, c);
    past := pastEnd || c.sample >= |src.in1|;
    t := LoopTurn(l, r, src, c, oracle, g);
    if t.Next? {
      ReadyIs(l, r, g, t.c);
    } else {
      EndsWith(l, r, src, g, c.sample, t, past);
    }
  }

  /** The sample loop. It has no end at the end of the input; it returns when the third body block
      is full, unless a write leaves the output buffers first. taken counts the samples read. */
  method SampleLoop(l: Channel, r: Channel, src: Source, oracle: Oracle, ghost g: Signals)
    returns (returned: bool, taken: nat, pastEnd: bool)
    requires Looping(l, r, src, g, Counters(0, 0, 0, HEADER_IN_BLOCK_MAX, 0, 0), false) && Delivers(oracle, g.w)
    modifies l.iIn, l.firI, l.output, r.iIn, r.firI, r.output, l.sram
    ensures Ended(l, r, src, g, returned, taken, pastEnd)
  {
    var c := Counters(0, 0, 0, HEADER_IN_BLOCK_MAX, 0, 0);
    pastEnd := false;
    hide *;
    while true
      invariant Looping(l, r, src, g, c, pastEnd)
      decreases LOOP_SAMPLES - c.sample
    {
      var t;
      t, pastEnd := Advance(l, r, src, c, pastEnd, oracle, g);
      if !t.Next? {
        return t.Returned?, c.sample + 1, pastEnd;
      }
      c := t.c;
    }
  }

  lemma ReadyIs(l: Channel, r: Channel, g: Signals, c: Counters)
    requires Ready(l, r, g, c)
    ensures c.sample < LOOP_SAMPLES
  {
  }

  function Min(a: nat, b: nat): nat { if a < b then a else b }

  lemma InsideIsBelow(length: nat, n: nat)
    ensures Inside(length, n) ==> n < length
  {
  }

  lemma Started(c: Channel, h: int -> real, x: int -> real, w: int -> Cpx)
    requires c.Valid() && c.Taps(h) && Partitions(c.sram[..], c.base, h, w) && Causal(x)
    requires forall j :: 0 <= j < FIR_SIZE ==> c.firI[j] == 0.0
    requires forall n :: 0 <= n < c.output.Length ==> c.output[n] == 0.0
    requires forall i :: c.base + HEADER_IN_BLOCK_MIN <= i <= c.base + HEADER_IN_BLOCK_MAX ==> c.sram[i] == ZeroBlock()
    ensures Holds(c, h, x, 0, 0, 0, w)
  {
    hide Partitions;
    RingStart(c.sram[..], c.base, x, w);
  }

  /** The first n samples of the output are the input filtered by the first 4096 samples of h. */
  ghost predicate Convolved(output: seq<real>, h: int -> real, inp: seq<real>, n: nat) {
    n <= |inp| && Finished(output, h, Samples(inp), n)
  }

  lemma ConvolvedInput(output: seq<real>, h: int -> real, inp: seq<real>, behind: nat -> real, done: nat, n: nat)
    requires Finished(output, h, Heard(inp, behind), done) && n <= done && n <= |inp|
    ensures Convolved(output, h, inp, n)
  {
    hide Filtered;
    forall k | 0 <= k < n
      ensures output[k] == Filtered(FIR_SIZE + HEADER_BLOCK_NUM * HEADER_BLOCK_SIZE, h, Samples(inp), k)
    {
      FilteredSame(FIR_SIZE + HEADER_BLOCK_NUM * HEADER_BLOCK_SIZE, h, Heard(inp, behind), Samples(inp), k);
    }
  }

  /** test(): clear the input half of the SRAM, prepare both channels, run the loop. The contents of
      the SRAM before the call do not matter, nor does what lies behind the input in memory; a response
      of fewer than 4096 samples goes on with what lies behind it. The loop
      returns, its writes inside the buffers, exactly when the file has at least 6528 samples; it
      reads inside the file exactly when that has 12288. All samples it has taken from the file come
      out convolved, however it ends. */
  method Test(sram: array<seq<Cpx>>, ir1: seq<real>, ir2: seq<real>, in1: seq<real>, in2: seq<real>,
              behindIr1: nat -> real, behindIr2: nat -> real, behind1: nat -> real, behind2: nat -> real, oracle: Oracle,
              ghost w: int -> Cpx)
    returns (output1: array<real>, output2: array<real>, returned: bool, taken: nat, pastEnd: bool)
    requires sram.Length == SRAM_BLOCKS && (forall i :: 0 <= i < sram.Length ==> |sram[i]| == HEADER_BLOCK_SIZE_ZE)
    requires |in1| == |in2| && Delivers(oracle, w)
    modifies sram
    ensures output1.Length == output2.Length == 2 * |in1|
    ensures returned <==> 6528 <= |in1|
    ensures taken <= LOOP_SAMPLES && (returned ==> taken == LOOP_SAMPLES && (pastEnd <==> |in1| < LOOP_SAMPLES))
    ensures !returned ==> taken == FirstOutside(2 * |in1|) + 1
    ensures pastEnd <==> taken > |in1|
    ensures Convolved(output1[..], Heard(ir1, behindIr1), in1, Min(taken, |in1|))
    ensures Convolved(output2[..], Heard(ir2, behindIr2), in2, Min(taken, |in2|))
  {
    hide Delivers, Partitions, Finished, Convolved, Holds;
    for i := HEADER_IN_BLOCK_MIN to SRAM_BLOCKS
      invariant forall k :: 0 <= k < sram.Length ==> |sram[k]| == HEADER_BLOCK_SIZE_ZE
      invariant forall k :: HEADER_IN_BLOCK_MIN <= k < i ==> sram[k] == ZeroBlock()
    {
      sram[i] := ZeroBlock();
    }
    var l := new Channel(0, sram, ir1, behindIr1, |in1|);
    var r := new Channel(HEADER_BLOCK_NUM, sram, ir2, behindIr2, |in2|);
    PreProcess(l, ir1, behindIr1, oracle, w);
    ghost var s := sram[..];
    PreProcess(r, ir2, behindIr2, oracle, w);
    SamePartitions(s, sram[..], 0, Heard(ir1, behindIr1), w);
    ghost var g := Signals(Heard(ir1, behindIr1), Heard(ir2, behindIr2), Heard(in1, behind1), Heard(in2, behind2), w);
    HeardIsCausal(in1, behind1);
    HeardIsCausal(in2, behind2);
    Started(l, g.h1, g.x1, w);
    Started(r, g.h2, g.x2, w);
    returned, taken, pastEnd := SampleLoop(l, r, Source(in1, in2, behind1, behind2), oracle, g);
    output1, output2 := l.output, r.output;
    ConvolvedInput(output1[..], g.h1, in1, behind1, Min(taken, l.output.Length), Min(taken, |in1|));
    ConvolvedInput(output2[..], g.h2, in2, behind2, Min(taken, l.output.Length), Min(taken, |in2|));
  }

  lemma SamePartitions(before: seq<seq<Cpx>>, after: seq<seq<Cpx>>, base: nat, h: int -> real, w: int -> Cpx)
    requires |before| == |after| == SRAM_BLOCKS && base <= HEADER_BLOCK_NUM && Partitions(before, base, h, w)
    requires forall i :: base <= i < base + HEADER_BLOCK_NUM ==> after[i] == before[i]
    ensures Partitions(after, base, h, w)
  {
    forall b | 0 <= b < HEADER_BLOCK_NUM ensures PartitionAt(after, base, h, w, b) {
      assert PartitionAt(before, base, h, w, b);
    }
  }
}
