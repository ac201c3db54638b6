// The 9q23 fixed-point multiply of complex.c and the multiply-accumulate of
// freq_mac_blocks in main.c, at the widths the program uses: 32-bit words that
// wrap, a 64-bit product, and an arithmetic shift that rounds down.
module FixedPoint {
  import opened Arith
  import Complex

  const WORD := 0x1_0000_0000
  const HALF := 0x8000_0000
  const UNIT := 0x80_0000
  const LONG_HALF := 0x8000_0000_0000_0000

  type Word = x: int | 0 <= x < WORD

  // One complex sample as stored in SRAM: two words, each read as a signed 9q23.
  datatype Fixed = Fixed(r: Word, i: Word)

  function Signed(w: Word): (x: int)
    ensures -HALF <= x < HALF
  {
    if w < HALF then w else w - WORD
  }

  function Wrap(x: int): Word {
    x % WORD
  }

  predicate InWord(x: int) {
    -HALF <= x < HALF
  }

  // The two 64-bit intermediates of c_mul, before the shift.
  function RealPart(x: Fixed, y: Fixed): int {
    Signed(x.r) * Signed(y.r) - Signed(x.i) * Signed(y.i)
  }

  function ImagPart(x: Fixed, y: Fixed): int {
    Signed(x.r) * Signed(y.i) + Signed(x.i) * Signed(y.r)
  }

  // A stored sample as the complex number it stands for, in units of 2^-23.
  function Number(x: Fixed): Complex.Cpx {
    Complex.Cpx(Signed(x.r) as real, Signed(x.i) as real)
  }

  // The intermediates are the parts of the complex product.
  lemma PartsOfProduct(x: Fixed, y: Fixed)
    ensures Complex.Mul(Number(x), Number(y)) == Complex.Cpx(RealPart(x, y) as real, ImagPart(x, y) as real)
  {
    ProductAsReal(Signed(x.r), Signed(y.r));
    ProductAsReal(Signed(x.i), Signed(y.i));
    ProductAsReal(Signed(x.r), Signed(y.i));
    ProductAsReal(Signed(x.i), Signed(y.r));
  }

  lemma ProductAsReal(a: int, b: int)
    ensures (a * b) as real == a as real * b as real
  {
  }

  // Dafny's division by a positive number rounds down, as >> does on int64.
  function Shifted(x: int): int {
    x / UNIT
  }

  function CMul(x: Fixed, y: Fixed): Fixed {
    Fixed(Wrap(Shifted(RealPart(x, y))), Wrap(Shifted(ImagPart(x, y))))
  }

  function AddTo(acc: Fixed, x: Fixed): Fixed {
    Fixed(Wrap(acc.r + x.r), Wrap(acc.i + x.i))
  }

  lemma SignedWrap(x: int)
    ensures Signed(Wrap(x)) == x <==> InWord(x)
  {
    if InWord(x) {
      if x < 0 {
        assert x % WORD == x + WORD;
      }
    }
  }

  lemma MagnitudeRange(c: nat, d: nat, p: nat, q: nat)
    requires c <= p && d <= q
    ensures 0 <= c * d <= p * q
  {
    MulMonotone(c, p, d);
    MulMonotone(d, q, p);
  }

  lemma ProductRange(a: int, b: int)
    requires InWord(a) && InWord(b)
    ensures -HALF * (HALF - 1) <= a * b <= HALF * HALF
    ensures a * b == HALF * HALF <==> a == -HALF && b == -HALF
    ensures a * b != HALF * HALF ==> a * b <= HALF * (HALF - 1)
  {
    var c: nat, d: nat := if a < 0 then -a else a, if b < 0 then -b else b;
    assert a * b == c * d || a * b == -(c * d);
    MagnitudeRange(c, d, HALF, HALF);
    if c < HALF {
      MagnitudeRange(c, d, HALF - 1, HALF);
    } else if d < HALF {
      MagnitudeRange(c, d, HALF, HALF - 1);
    } else {
      assert a == -HALF && b == -HALF;
    }
  }

  // The difference of products always fits the 64-bit intermediate; the sum
  // overflows for exactly one pair of operands.
  lemma IntermediateFits(x: Fixed, y: Fixed)
    ensures -LONG_HALF <= RealPart(x, y) < LONG_HALF
    ensures -LONG_HALF <= ImagPart(x, y) <= LONG_HALF
    ensures ImagPart(x, y) < LONG_HALF <==>
      !(Signed(x.r) == Signed(x.i) == Signed(y.r) == Signed(y.i) == -HALF)
  {
    ProductRange(Signed(x.r), Signed(y.r));
    ProductRange(Signed(x.i), Signed(y.i));
    ProductRange(Signed(x.r), Signed(y.i));
    ProductRange(Signed(x.i), Signed(y.r));
  }

  // A run of operand pairs, the exact sums of their products (in units of
  // 2^-46), and the sums of the products rounded down one by one.
  type Run = seq<(Fixed, Fixed)>

  function ExactReal(run: Run): int {
    if run == [] then 0 else ExactReal(run[..|run| - 1]) + RealPart(run[|run| - 1].0, run[|run| - 1].1)
  }

  function ExactImag(run: Run): int {
    if run == [] then 0 else ExactImag(run[..|run| - 1]) + ImagPart(run[|run| - 1].0, run[|run| - 1].1)
  }

  function FloorReal(run: Run): int {
    if run == [] then 0 else FloorReal(run[..|run| - 1]) + Shifted(RealPart(run[|run| - 1].0, run[|run| - 1].1))
  }

  function FloorImag(run: Run): int {
    if run == [] then 0 else FloorImag(run[..|run| - 1]) + Shifted(ImagPart(run[|run| - 1].0, run[|run| - 1].1))
  }

  function Accumulated(run: Run): Fixed {
    if run == [] then Fixed(0, 0)
    else AddTo(Accumulated(run[..|run| - 1]), CMul(run[|run| - 1].0, run[|run| - 1].1))
  }

  lemma WrapZero()
    ensures Wrap(0) == 0
  {
  }

  lemma WrapAdd(x: int, y: int)
    ensures Wrap(Wrap(x) + Wrap(y)) == Wrap(x + y)
  {
  }

  // Wrap-around along the way is harmless: the accumulator is the rounded sum
  // modulo 2^32.
  lemma {:induction false} AccumulatedWraps(run: Run)
    ensures Accumulated(run) == Fixed(Wrap(FloorReal(run)), Wrap(FloorImag(run)))
  {
    WrapZero();
    hide RealPart, ImagPart, Shifted, Wrap;
    if run != [] {
      var rest, last := run[..|run| - 1], run[|run| - 1];
      AccumulatedWraps(rest);
      WrapAdd(FloorReal(rest), Shifted(RealPart(last.0, last.1)));
      WrapAdd(FloorImag(rest), Shifted(ImagPart(last.0, last.1)));
    }
  }

  lemma {:induction false} FloorBelowExact(run: Run)
    ensures FloorReal(run) * UNIT <= ExactReal(run) <= (FloorReal(run) + |run|) * UNIT - |run|
    ensures FloorImag(run) * UNIT <= ExactImag(run) <= (FloorImag(run) + |run|) * UNIT - |run|
  {
    if run != [] {
      FloorBelowExact(run[..|run| - 1]);
    }
  }

  // The accumulator read back, against the exact sum scaled by 2^23: never
  // above it and less than one unit in the last place below it per call.
  predicate Close(got: int, exact: int, calls: nat) {
    && got * UNIT <= exact
    && (calls > 0 ==> exact < (got + calls) * UNIT)
    && (calls == 0 ==> exact == got * UNIT)
  }

  // The accumulator equals the rounded sum exactly when that sum fits a word,
  // and then it meets the error bound, whatever wrapped on the way.
  lemma ErrorBound(run: Run)
    ensures Signed(Accumulated(run).r) == FloorReal(run) <==> InWord(FloorReal(run))
    ensures Signed(Accumulated(run).i) == FloorImag(run) <==> InWord(FloorImag(run))
    ensures InWord(FloorReal(run)) ==> Close(Signed(Accumulated(run).r), ExactReal(run), |run|)
    ensures InWord(FloorImag(run)) ==> Close(Signed(Accumulated(run).i), ExactImag(run), |run|)
  {
    AccumulatedWraps(run);
    SignedWrap(FloorReal(run));
    SignedWrap(FloorImag(run));
    FloorBelowExact(run);
  }

  // >> 23 rounds down.
  lemma ShiftRoundsDown(x: int)
    ensures Shifted(x) == (x as real / 8388608.0).Floor
  {
    var q, r := x / UNIT, x % UNIT;
    assert x as real == q as real * UNIT as real + r as real;
    assert x as real / UNIT as real == q as real + r as real / UNIT as real;
  }

  ghost function Products(run: Run): int -> Complex.Cpx {
    j => if 0 <= j < |run| then Complex.Mul(Number(run[j].0), Number(run[j].1)) else Complex.ZERO
  }

  // The exact sums are those of the complex products.
  lemma {:induction false} ExactIsSum(run: Run)
    ensures Complex.Sum(|run|, Products(run)) == Complex.Cpx(ExactReal(run) as real, ExactImag(run) as real)
  {
    hide RealPart, ImagPart, Number, Complex.Mul;
    if run != [] {
      var n := |run| - 1;
      ExactIsSum(run[..n]);
      Complex.SumEq(n, Products(run), Products(run[..n]));
      PartsOfProduct(run[n].0, run[n].1);
    }
  }

  // A component of the accumulator against that of the sum of the products:
  // scaled by 2^23 at or below it, and less than one unit per product from it.
  predicate CloseTo(got: real, exact: real, n: nat) {
    && got * UNIT as real <= exact
    && (n > 0 ==> exact < (got + n as real) * UNIT as real)
    && (n == 0 ==> exact == got * UNIT as real)
  }

  // The sum of n products, rounded down one by one, fits a word.
  predicate Representable(exact: real, n: nat) {
    (-HALF + n) as real * UNIT as real <= exact < HALF as real * UNIT as real
  }

  lemma CloseAsReal(got: int, exact: int, n: nat)
    ensures Close(got, exact, n) <==> CloseTo(got as real, exact as real, n)
  {
    assert (got * UNIT) as real == got as real * UNIT as real;
    assert ((got + n) * UNIT) as real == (got as real + n as real) * UNIT as real;
  }

  lemma RoundedFits(floors: int, exact: int, n: nat)
    requires floors * UNIT <= exact <= (floors + n) * UNIT - n && Representable(exact as real, n)
    ensures InWord(floors)
  {
    assert ((-HALF + n) * UNIT) as real == (-HALF + n) as real * UNIT as real;
    assert (HALF * UNIT) as real == HALF as real * UNIT as real;
  }

  // Whatever wrapped on the way, the accumulator is close to the sum of the
  // complex products wherever that is representable.
  lemma CloseToSum(run: Run)
    ensures var exact, got := Complex.Sum(|run|, Products(run)), Number(Accumulated(run));
            && (Representable(exact.re, |run|) ==> CloseTo(got.re, exact.re, |run|))
            && (Representable(exact.im, |run|) ==> CloseTo(got.im, exact.im, |run|))
  {
    ExactIsSum(run);
    ErrorBound(run);
    FloorBelowExact(run);
    hide ExactReal, ExactImag, FloorReal, FloorImag, Accumulated, Products, Complex.Sum, Representable, CloseTo;
    hide Close, InWord;
    CloseAsReal(Signed(Accumulated(run).r), ExactReal(run), |run|);
    CloseAsReal(Signed(Accumulated(run).i), ExactImag(run), |run|);
    if Representable(ExactReal(run) as real, |run|) {
      RoundedFits(FloorReal(run), ExactReal(run), |run|);
    }
    if Representable(ExactImag(run) as real, |run|) {
      RoundedFits(FloorImag(run), ExactImag(run), |run|);
    }
  }

  // freq_mac_blocks: one pass over a block pair, accumulating in place.
  method FreqMacBlocks(output: array<Fixed>, input: seq<Fixed>, response: seq<Fixed>)
    requires output.Length == |input| == |response|
    modifies output
    ensures forall k :: 0 <= k < output.Length ==>
      output[k] == AddTo(old(output[k]), CMul(input[k], response[k]))
  {
    var k := 0;
    while k < output.Length
      invariant 0 <= k <= output.Length
      invariant forall m :: 0 <= m < k ==> output[m] == AddTo(old(output[m]), CMul(input[m], response[m]))
      invariant forall m :: k <= m < output.Length ==> output[m] == old(output[m])
    {
      var product := CMul(input[k], response[k]);
      output[k] := AddTo(output[k], product);
      k := k + 1;
    }
  }

  // The operands that meet in bin k over the blocks.
  function Bin(inputs: seq<seq<Fixed>>, responses: seq<seq<Fixed>>, k: nat): (run: Run)
    requires |inputs| == |responses|
    requires forall j :: 0 <= j < |inputs| ==> |inputs[j]| > k && |responses[j]| > k
    ensures |run| == |inputs|
  {
    seq(|inputs|, j requires 0 <= j < |inputs| => (inputs[j][k], responses[j][k]))
  }

  predicate Blocks(blocks: seq<seq<Fixed>>, size: nat) {
    forall j :: 0 <= j < |blocks| ==> |blocks[j]| == size
  }

  lemma NoBlockYet(inputs: seq<seq<Fixed>>, responses: seq<seq<Fixed>>, k: nat)
    requires |inputs[..0]| == |responses[..0]|
    ensures Accumulated(Bin(inputs[..0], responses[..0], k)) == Fixed(0, 0)
  {
  }

  // Block j adds one product to bin k.
  lemma OneBlockMore(inputs: seq<seq<Fixed>>, responses: seq<seq<Fixed>>, j: nat, k: nat)
    requires j < |inputs| == |responses|
    requires forall i | 0 <= i <= j :: k < |inputs[i]| && k < |responses[i]|
    ensures Accumulated(Bin(inputs[..j + 1], responses[..j + 1], k))
         == AddTo(Accumulated(Bin(inputs[..j], responses[..j], k)), CMul(inputs[j][k], responses[j][k]))
  {
    var longer := Bin(inputs[..j + 1], responses[..j + 1], k);
    assert longer[..j] == Bin(inputs[..j], responses[..j], k);
    assert longer[j] == (inputs[j][k], responses[j][k]);
    hide AddTo, CMul;
  }

  // The sum of the complex products that meet in bin k.
  ghost function BinSum(inputs: seq<seq<Fixed>>, responses: seq<seq<Fixed>>, k: nat): Complex.Cpx
    requires |inputs| == |responses|
    requires forall j :: 0 <= j < |inputs| ==> |inputs[j]| > k && |responses[j]| > k
  {
    Complex.Sum(|inputs|, j => if 0 <= j < |inputs| then Complex.Mul(Number(inputs[j][k]), Number(responses[j][k])) else Complex.ZERO)
  }

  lemma BinSumIs(inputs: seq<seq<Fixed>>, responses: seq<seq<Fixed>>, k: nat)
    requires |inputs| == |responses|
    requires forall j :: 0 <= j < |inputs| ==> |inputs[j]| > k && |responses[j]| > k
    ensures BinSum(inputs, responses, k) == Complex.Sum(|inputs|, Products(Bin(inputs, responses, k)))
  {
    hide Complex.Mul, Number;
    Complex.SumEq(|inputs|,
      j => if 0 <= j < |inputs| then Complex.Mul(Number(inputs[j][k]), Number(responses[j][k])) else Complex.ZERO,
      Products(Bin(inputs, responses, k)));
  }

  // Bin k of the output is close to the sum.
  ghost predicate BinClose(inputs: seq<seq<Fixed>>, responses: seq<seq<Fixed>>, k: nat, got: Fixed)
    requires |inputs| == |responses|
    requires forall j :: 0 <= j < |inputs| ==> |inputs[j]| > k && |responses[j]| > k
  {
    var exact, n := BinSum(inputs, responses, k), |inputs|;
    && (Representable(exact.re, n) ==> CloseTo(Number(got).re, exact.re, n))
    && (Representable(exact.im, n) ==> CloseTo(Number(got).im, exact.im, n))
  }

  // The accumulation of all header blocks of one output block, from zero.
  method MacRun(inputs: seq<seq<Fixed>>, responses: seq<seq<Fixed>>, size: nat) returns (output: array<Fixed>)
    requires |inputs| == |responses| && Blocks(inputs, size) && Blocks(responses, size)
    ensures output.Length == size
    ensures forall k :: 0 <= k < size ==> output[k] == Accumulated(Bin(inputs, responses, k))
    ensures forall k :: 0 <= k < size ==> BinClose(inputs, responses, k, output[k])
  {
    hide Accumulated, AddTo, CMul, Bin, BinClose;
    output := new Fixed[size](_ => Fixed(0, 0));
    var j := 0;
    forall k: nat | k < size
      ensures Accumulated(Bin(inputs[..0], responses[..0], k)) == Fixed(0, 0)
    {
      NoBlockYet(inputs, responses, k);
    }
    while j < |inputs|
      invariant 0 <= j <= |inputs|
      invariant forall k :: 0 <= k < size ==>
        output[k] == Accumulated(Bin(inputs[..j], responses[..j], k))
    {
      ghost var before := output[..];
      FreqMacBlocks(output, inputs[j], responses[j]);
      forall k: nat | k < size
        ensures output[k] == Accumulated(Bin(inputs[..j + 1], responses[..j + 1], k))
      {
        OneBlockMore(inputs, responses, j, k);
        assert output[k] == AddTo(before[k], CMul(inputs[j][k], responses[j][k]));
      }
      j := j + 1;
    }
    assert inputs[..j] == inputs && responses[..j] == responses;
    forall k: nat | k < size
      ensures BinClose(inputs, responses, k, output[k])
    {
      BinIsClose(inputs, responses, k);
    }
  }

  lemma BinIsClose(inputs: seq<seq<Fixed>>, responses: seq<seq<Fixed>>, k: nat)
    requires |inputs| == |responses|
    requires forall j :: 0 <= j < |inputs| ==> |inputs[j]| > k && |responses[j]| > k
    ensures BinClose(inputs, responses, k, Accumulated(Bin(inputs, responses, k)))
  {
    BinSumIs(inputs, responses, k);
    CloseToSum(Bin(inputs, responses, k));
    hide BinSum, Bin, Products, Accumulated, CloseTo, Representable, Number, Complex.Sum;
  }
}
