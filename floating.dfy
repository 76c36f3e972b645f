/** Exact-real versions of the multiprecision helpers of
    src/ltitop/arithmetic/floating_point.py: the most significant bit of a
    value (`mpmsb`) and quantization to an integer mantissa (`mpquantize`). */
module FloatingPoint {
  import opened Numerics
  import opened Intervals
  import opened Values
  import opened Errors
  import opened Mantissas
  import opened Rounding

  // ---- Binary logarithms, exactly ----

  /** floor(log2 x): the unique k with 2^k <= x < 2^(k+1). */
  function FloorLog2(x: real): (k: int)
    requires x > 0.0
    ensures Exp2(k) <= x < Exp2(k + 1)
    decreases x < 1.0, if x >= 1.0 then x.Floor else (1.0 / x).Floor
  {
    if x >= 2.0 then
      var k := FloorLog2(x / 2.0) + 1;
      Exp2Step(k);
      Exp2Step(k + 1);
      k
    else if x < 1.0 then
      HalvingReciprocal(x);
      var k := FloorLog2(2.0 * x) - 1;
      Exp2Step(k + 1);
      Exp2Step(k + 2);
      k
    else
      Exp2Step(1);
      0
  }

  lemma HalvingReciprocal(x: real)
    requires 0.0 < x < 1.0
    ensures 2.0 * x < 1.0 ==> (1.0 / (2.0 * x)).Floor < (1.0 / x).Floor
  {
    if 2.0 * x < 1.0 {
      var y := 1.0 / x;
      assert 1.0 / (2.0 * x) == y / 2.0;
      assert y > 2.0;
    }
  }

  /** The bracketing determines the logarithm. */
  lemma FloorLog2Unique(x: real, k: int)
    requires x > 0.0 && Exp2(k) <= x < Exp2(k + 1)
    ensures FloorLog2(x) == k
  {
    var j := FloorLog2(x);
    if j < k {
      Exp2Monotone(j + 1, k);
    } else if j > k {
      Exp2Monotone(k + 1, j);
    }
  }

  /** ceil(log2 y): the unique k with 2^(k-1) < y <= 2^k. */
  function CeilLog2(y: real): (k: int)
    requires y > 0.0
    ensures Exp2(k - 1) < y <= Exp2(k)
  {
    var f := FloorLog2(y);
    if Exp2(f) == y then
      Exp2StrictMonotone(f - 1, f);
      f
    else
      f + 1
  }

  // ---- mpmsb ----

  /** An MSB position, or minus infinity (the MSB of zero). */
  datatype Msb = NegInf | Bit(k: int)

  /** `np.max` of two positions. */
  function MaxMsb(a: Msb, b: Msb): (r: Msb)
    ensures r == a || r == b
    ensures a.Bit? && b.Bit? ==> r.k >= a.k && r.k >= b.k
    ensures r.NegInf? <==> a.NegInf? && b.NegInf?
  {
    match (a, b)
    case (NegInf, _) => b
    case (_, NegInf) => a
    case (Bit(i), Bit(j)) => if i >= j then a else b
  }

  /** `mpmsb(x, signed)` on a real: floor(log2 x) + signed for x > 0,
      ceil(log2(-x)) for x < 0, minus infinity for 0. */
  function MsbOfReal(x: real, signed: bool): (r: Msb)
    ensures r.NegInf? <==> x == 0.0
  {
    if x > 0.0 then Bit(FloorLog2(x) + (if signed then 1 else 0))
    else if x < 0.0 then Bit(CeilLog2(-x))
    else NegInf
  }

  /** `mpmsb(value, signed)`: the larger of the two bounds' MSBs for an interval. */
  function MsbOf(v: Value, signed: bool): (r: Msb)
    ensures r.NegInf? <==> match v { case Real(x) => x == 0.0 case Span(a) => a.lo == 0.0 && a.hi == 0.0 }
    ensures v.Span? ==> r == MsbOfReal(v.iv.lo, signed) || r == MsbOfReal(v.iv.hi, signed)
  {
    match v
    case Real(x) => MsbOfReal(x, signed)
    case Span(a) => MaxMsb(MsbOfReal(a.lo, signed), MsbOfReal(a.hi, signed))
  }

  /** What the MSB means: a positive x has its leading one at bit
      msb - signed, and a negative x is no less than -2^msb with nothing
      below -2^(msb - 1) left to spare. */
  lemma MsbOfRealMeans(x: real, signed: bool)
    ensures x > 0.0 ==> var k := MsbOfReal(x, signed).k - (if signed then 1 else 0);
      Exp2(k) <= x < Exp2(k + 1)
    ensures x < 0.0 ==> var k := MsbOfReal(x, signed).k;
      -Exp2(k) <= x < -Exp2(k - 1)
  {
  }

  /** A signed MSB bounds its value on both sides: -2^msb <= x < 2^msb. */
  lemma SignedMsbBounds(x: real)
    requires x != 0.0
    ensures -Exp2(MsbOfReal(x, true).k) <= x < Exp2(MsbOfReal(x, true).k)
  {
    var k := MsbOfReal(x, true).k;
    Exp2Positive(k);
    Exp2Positive(k - 1);
  }

  /** Every nonzero member of an interval lies within the signed MSB of
      the interval. */
  lemma SpanMsbBounds(a: Interval, x: real)
    requires In(x, a) && x != 0.0
    ensures MsbOf(Span(a), true).Bit?
    ensures -Exp2(MsbOf(Span(a), true).k) <= x < Exp2(MsbOf(Span(a), true).k)
  {
    var m := MsbOf(Span(a), true);
    if x > 0.0 {
      var j := MsbOfReal(a.hi, true).k;
      SignedMsbBounds(a.hi);
      Exp2Monotone(j, m.k);
    } else {
      var j := MsbOfReal(a.lo, true).k;
      SignedMsbBounds(a.lo);
      Exp2Monotone(j, m.k);
    }
  }

  lemma MsbExamples()
    ensures MsbOfReal(1.0, true) == Bit(1) && MsbOfReal(-1.0, true) == Bit(0)
    ensures MsbOfReal(1200.0, true) == Bit(11)
    ensures MsbOfReal(0.0, false) == NegInf
  {
    Exp2Step(1);
    FloorLog2Unique(1.0, 0);
    Pow2Exp2(10);
    Pow2Exp2(11);
    FloorLog2Unique(1200.0, 10);
  }

  lemma Pow2Exp2(n: nat)
    ensures Exp2(n) == Pow2(n) as real
  {
    Exp2Nat(n);
  }

  // ---- mpquantize ----

  /** `mpquantize(x, nbits, rounding_method)` on a real, with the rounding
      function applied directly: rm(x * 2^nbits). */
  function QuantizeReal(x: real, nbits: int, m: Method): (r: int)
    ensures m.NearestInteger? || m.BuiltinRound? ==> -0.5 <= r as real - Ldexp(x, nbits) <= 0.5
    ensures m.Floor? ==> r as real <= Ldexp(x, nbits) < r as real + 1.0
    ensures m.Ceil? ==> r as real - 1.0 < Ldexp(x, nbits) <= r as real
    ensures m.Truncate? ==> -1.0 < r as real - Ldexp(x, nbits) < 1.0
  {
    Apply(m, Ldexp(x, nbits))
  }

  /** `mpquantize(value, nbits, rounding_method)`: an interval is quantized
      bound-wise, which always yields an interval because every rounding
      function is monotone. */
  function Quantize(v: Value, nbits: int, m: Method): (r: Mantissa)
    ensures r.Scalar? <==> v.Real?
  {
    match v
    case Real(x) => Scalar(QuantizeReal(x, nbits, m))
    case Span(a) =>
      QuantizeRealMonotone(a.lo, a.hi, nbits, m);
      Span2(QuantizeReal(a.lo, nbits, m), QuantizeReal(a.hi, nbits, m))
  }

  /** `mpquantize` as written: it calls `rounding_method.apply`, an attribute
      neither the builtin `round`, `mpmath.nint` nor the annotated rounding
      functions have (an interval fails on its first bound). */
  function QuantizeAsWritten(v: Value, nbits: int, m: Method): (r: Result<Mantissa>)
    ensures r == Err(AttributeError)
  {
    Err(AttributeError)
  }

  /** The quantized mantissa, scaled back by 2^-nbits, is within one step of
      the value (half a step for the nearest-integer roundings), and on the
      side each method promises. */
  lemma QuantizeRealError(x: real, nbits: int, m: Method)
    ensures var d := QuantizeReal(x, nbits, m) as real - Ldexp(x, nbits);
      && (m.NearestInteger? || m.BuiltinRound? ==> -0.5 <= d <= 0.5)
      && (m.Floor? ==> -1.0 < d <= 0.0)
      && (m.Ceil? ==> 0.0 <= d < 1.0)
      && (m.Truncate? ==> -1.0 < d < 1.0)
  {
    ApplyError(m, Ldexp(x, nbits));
  }

  lemma QuantizeRealMonotone(x: real, y: real, nbits: int, m: Method)
    requires x <= y
    ensures QuantizeReal(x, nbits, m) <= QuantizeReal(y, nbits, m)
  {
    LdexpMonotone(x, y, nbits);
    ApplyMonotone(m, Ldexp(x, nbits), Ldexp(y, nbits));
  }

  lemma QuantizeBounds(v: Value, nbits: int, m: Method)
    ensures v.Span? ==> Lo(Quantize(v, nbits, m)) == QuantizeReal(v.iv.lo, nbits, m)
    ensures v.Span? ==> Hi(Quantize(v, nbits, m)) == QuantizeReal(v.iv.hi, nbits, m)
  {
  }

  /** Quantizing keeps membership: the quantization of every member of an
      interval is held by the quantized interval. */
  lemma QuantizeHolds(v: Value, nbits: int, m: Method, x: real)
    requires Denotes(v, x)
    ensures Holds(Quantize(v, nbits, m), QuantizeReal(x, nbits, m))
  {
    QuantizeBounds(v, nbits, m);
    if v.Span? {
      QuantizeRealMonotone(v.iv.lo, x, nbits, m);
      QuantizeRealMonotone(x, v.iv.hi, nbits, m);
    }
  }
}
