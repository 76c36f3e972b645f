/** Fixed-point formats (src/ltitop/arithmetic/fixed_point/formats.py): a
    most and a least significant bit position and a signedness, the ranges
    they give mantissas and values, and the search for the best format of a
    value at a given wordlength. */
module Formats {
  import opened Numerics
  import opened Intervals
  import opened Values
  import opened Errors
  import opened Mantissas
  import opened Rounding
  import opened FloatingPoint

  datatype FormatSpec = Format(msb: int, lsb: int, signed: bool)

  /** A format that got past `__post_init__`: lsb <= msb. */
  type Format = f: FormatSpec | f.lsb <= f.msb witness Format(0, 0, true)

  /** `Format(msb, lsb, signed)`: ValueError when lsb > msb. */
  function MakeFormat(msb: int, lsb: int, signed: bool): (r: Result<Format>)
    ensures r.Ok? <==> lsb <= msb
    ensures r.Ok? ==> r.value == Format(msb, lsb, signed)
    ensures r.Err? ==> r.error == ValueError
  {
    if lsb > msb then Err(ValueError) else Ok(Format(msb, lsb, signed))
  }

  function SignBit(signed: bool): nat {
    if signed then 1 else 0
  }

  /** msb - lsb + signed. */
  function Wordlength(f: Format): (r: nat)
    ensures f.signed ==> r >= 1
  {
    f.msb - f.lsb + SignBit(f.signed)
  }

  /** The bits below the sign bit, msb - lsb: the wordlength less the sign. */
  function Magnitude(f: Format): (r: nat)
    ensures r == Wordlength(f) - SignBit(f.signed)
  {
    f.msb - f.lsb
  }

  /** `mantissa_interval`: [-2^(w-1), 2^(w-1) - 1] signed, [0, 2^w - 1]
      unsigned, which is [-2^k, 2^k - 1] or [0, 2^k - 1] for k = msb - lsb. */
  function MantissaRange(f: Format): (r: Range)
    ensures r.hi - r.lo + 1 == Pow2(Wordlength(f))
    ensures f.signed ==> r.lo == -(r.hi + 1)
    ensures !f.signed ==> r.lo == 0
  {
    assert f.signed ==> Pow2(Magnitude(f) + 1) == 2 * Pow2(Magnitude(f));
    var top: int := Pow2(Magnitude(f));
    if f.signed then IntBounds(-top, top - 1) else IntBounds(0, top - 1)
  }

  /** `value_epsilon`: 2^lsb, the value of the mantissa 1. */
  function Epsilon(f: Format): (r: real)
    ensures r > 0.0 && Scaled(Scalar(1), f.lsb) == Real(r)
  {
    Exp2Positive(f.lsb);
    Exp2(f.lsb)
  }

  /** `value_interval`: [-2^msb, 2^msb - 2^lsb] signed, [0, 2^msb - 2^lsb]
      unsigned, which is the mantissa range scaled by the epsilon. */
  function ValueRange(f: Format): (r: Interval)
    ensures var m := MantissaRange(f);
      r == Bounds(Ldexp(m.lo as real, f.lsb), Ldexp(m.hi as real, f.lsb))
  {
    ScaledMantissaEnds(f);
    Exp2Monotone(f.lsb, f.msb);
    Exp2Positive(f.msb);
    if f.signed then Bounds(-Exp2(f.msb), Exp2(f.msb) - Exp2(f.lsb))
    else Bounds(0.0, Exp2(f.msb) - Exp2(f.lsb))
  }

  /** `overflows_with(mantissa)`: the mantissa is not in the mantissa range,
      which is exactly when the value it stands for is not in the value range. */
  predicate OverflowsWith(f: Format, m: Mantissa)
    ensures OverflowsWith(f, m) <==> !CanRepresent(f, Scaled(m, f.lsb))
  {
    var range := MantissaRange(f);
    LdexpOrder(range.lo as real, Lo(m) as real, f.lsb);
    LdexpOrder(Hi(m) as real, range.hi as real, f.lsb);
    !Within(m, range)
  }

  /** `can_represent(value)`: every real the value stands for is in the
      value range. */
  predicate CanRepresent(f: Format, v: Value)
    ensures CanRepresent(f, v) <==> forall x :: Denotes(v, x) ==> In(x, ValueRange(f))
  {
    match v
    case Real(x) => In(x, ValueRange(f))
    case Span(a) => Contains(ValueRange(f), a)
  }

  /** `Q(a, b)` = Format(a - 1, -b, signed); `Q(b)` is `Q(1, b)`. */
  function Q(a: int, b: int): (r: Result<Format>)
    ensures r.Ok? <==> a + b >= 1
    ensures r.Err? ==> r.error == ValueError
    ensures r.Ok? ==> r.value.signed && Wordlength(r.value) == a + b && Epsilon(r.value) == Exp2(-b)
  {
    MakeFormat(a - 1, -b, true)
  }

  /** `uQ(a, b)` = Format(a, -b, unsigned). */
  function UQ(a: int, b: int): (r: Result<Format>)
    ensures r.Ok? <==> a + b >= 0
    ensures r.Err? ==> r.error == ValueError
    ensures r.Ok? ==> !r.value.signed && Wordlength(r.value) == a + b && Epsilon(r.value) == Exp2(-b)
  {
    MakeFormat(a, -b, false)
  }

  /** `P(a, b)` and `uP(a, b)` take the bit positions directly. */
  function P(a: int, b: int): (r: Result<Format>)
    ensures r.Ok? <==> b <= a
    ensures r.Err? ==> r.error == ValueError
    ensures r.Ok? ==> r.value.signed && Wordlength(r.value) == a - b + 1 && Epsilon(r.value) == Exp2(b)
    ensures r.Ok? ==> ValueRange(r.value).lo == -Exp2(a)
  {
    MakeFormat(a, b, true)
  }

  function UP(a: int, b: int): (r: Result<Format>)
    ensures r.Ok? <==> b <= a
    ensures r.Err? ==> r.error == ValueError
    ensures r.Ok? ==> !r.value.signed && Wordlength(r.value) == a - b && Epsilon(r.value) == Exp2(b)
    ensures r.Ok? ==> ValueRange(r.value).lo == 0.0
  {
    MakeFormat(a, b, false)
  }

  // ---- What the ranges mean ----

  /** The ends of the mantissa range, scaled by the epsilon, are the ends of
      the value range as `value_interval` writes them. */
  lemma ScaledMantissaEnds(f: Format)
    ensures var m := MantissaRange(f);
      && Ldexp(m.hi as real, f.lsb) == Exp2(f.msb) - Exp2(f.lsb)
      && Ldexp(m.lo as real, f.lsb) == (if f.signed then -Exp2(f.msb) else 0.0)
  {
    var k := Magnitude(f);
    var p: int, e, top := Pow2(k), Exp2(f.lsb), Exp2(f.msb);
    assert f.lsb + k == f.msb;
    PowerScale(f.lsb, k, p, e, top);
    var m := MantissaRange(f);
    var lo, hi := m.lo, m.hi;
    var l, h := Ldexp(lo as real, f.lsb), Ldexp(hi as real, f.lsb);
    LdexpIs(lo as real, f.lsb, e);
    LdexpIs(hi as real, f.lsb, e);
    assert hi == p - 1;
    assert lo == -p || lo == 0;
    ScaledRange(lo, hi, p, e, top, l, h);
  }

  /** Scaling by 2^n keeps the order both ways. */
  lemma LdexpOrder(x: real, y: real, n: int)
    ensures x <= y <==> Ldexp(x, n) <= Ldexp(y, n)
  {
    if x <= y {
      LdexpMonotone(x, y, n);
    } else {
      Exp2Positive(n);
      assert (x - y) * Exp2(n) > 0.0;
      assert Ldexp(x, n) - Ldexp(y, n) == (x - y) * Exp2(n);
    }
  }

  lemma LdexpIs(x: real, n: int, e: real)
    requires e == Exp2(n)
    ensures Ldexp(x, n) == x * e
  {
  }

  /** 2^k * 2^lsb = 2^(lsb + k). */
  lemma PowerScale(lsb: int, k: nat, p: int, e: real, t: real)
    requires p == Pow2(k) && e == Exp2(lsb) && t == Exp2(lsb + k)
    ensures p as real * e == t
  {
    Exp2Nat(k);
    Exp2Add(lsb, k);
  }

  lemma ScaledRange(lo: int, hi: int, p: int, e: real, top: real, l: real, h: real)
    requires top == p as real * e && hi == p - 1 && (lo == -p || lo == 0)
    requires l == lo as real * e && h == hi as real * e
    ensures h == top - e
    ensures lo == -p ==> l == -top
    ensures lo == 0 ==> l == 0.0
  {
  }

  /** The integers that fit, and the reals that the format can hold, as a
      Q/P descriptor promises: a signed format of wordlength w holds exactly
      the two's complement integers of w bits. */
  lemma MantissaRangeWidth(f: Format)
    ensures MantissaRange(f).hi - MantissaRange(f).lo + 1 == Pow2(Wordlength(f))
  {
    if f.signed {
      assert Pow2(Magnitude(f) + 1) == 2 * Pow2(Magnitude(f));
    }
  }

  lemma FormatExamples(a: Format, b: Format, c: Format, d: Format)
    requires a == Format(7, 2, true) && b == Format(3, -4, true)
    requires c == Format(0, -7, true) && d == Format(8, 0, false)
    ensures Wordlength(a) == 6 && MantissaRange(a) == IntBounds(-32, 31)
    ensures ValueRange(a) == Bounds(-128.0, 124.0) && Epsilon(a) == 4.0
    ensures Wordlength(b) == 8 && Epsilon(b) == 0.0625
    ensures ValueRange(c) == Bounds(-1.0, 0.9921875)
    ensures Wordlength(d) == 8 && MantissaRange(d) == IntBounds(0, 255)
  {
    assert Pow2(5) == 32 && Pow2(8) == 256;
    Pow2Exp2(7);
    Pow2Exp2(2);
    assert Exp2(-4) == 0.0625 by {
      assert Exp2(-1) == 0.5;
      assert Exp2(-2) == 0.25;
      assert Exp2(-3) == 0.125;
    }
    assert Exp2(-7) == 0.0078125 by {
      assert Exp2(-4) == 0.0625;
      assert Exp2(-5) == 0.03125;
      assert Exp2(-6) == 0.015625;
    }
  }

  lemma QExamples()
    ensures Q(1, 15) == Ok(Format(0, -15, true)) && Q(3, -1) == Ok(Format(2, 1, true))
    ensures UQ(1, 15) == Ok(Format(1, -15, false)) && UQ(4, -2) == Ok(Format(4, 2, false))
    ensures P(0, 2).Err? && UP(4, 2) == Ok(Format(4, 2, false))
  {
  }

  // ---- Format.best ----

  /** `np.all(value >= 0)`. */
  predicate NonNegativeValue(v: Value) {
    match v
    case Real(x) => x >= 0.0
    case Span(a) => a.lo >= 0.0
  }

  /** The MSB estimate of `best`: mpmsb, with minus infinity (a zero value)
      taken as 0. */
  function EstimateMsb(v: Value, signed: bool): int {
    match MsbOf(v, signed)
    case NegInf => 0
    case Bit(k) => k
  }

  /** The MSB after `best`'s one-step adjustment: one up if a mantissa
      reached 2^(w - signed), one down if every mantissa is negative and
      above -2^(w-2). */
  function AdjustedMsb(msb: int, mantissa: Mantissa, w: int, signed: bool): int {
    var up := if !(Hi(mantissa) as real < Exp2(w - SignBit(signed))) then msb + 1 else msb;
    if Hi(mantissa) < 0 && Lo(mantissa) as real > -Exp2(w - 2) then msb - 1 else up
  }

  /** `Format.best(value, wordlength, rounding_method, signed)`, with the
      rounding functions applied directly (see FloatingPoint.QuantizeAsWritten).
      After an adjustment the mantissa is re-quantized with `mpmath.nint`
      whatever method was supplied. */
  function Best(v: Value, w: int, m: Method, signed: bool): (r: Result<(Mantissa, Format)>)
    ensures r.Err? ==> r.error == ValueError
    ensures r.Ok? <==> (signed || NonNegativeValue(v)) && w >= SignBit(signed)
  {
    if !NonNegativeValue(v) && !signed then Err(ValueError)
    else
      var msb := EstimateMsb(v, signed);
      var lsb := msb - w + SignBit(signed);
      var mantissa := Quantize(v, -lsb, m);
      var adjusted := AdjustedMsb(msb, mantissa, w, signed);
      if adjusted != msb then
        var lsb' := adjusted - w + SignBit(signed);
        var f :- MakeFormat(adjusted, lsb', signed);
        Ok((Quantize(v, -lsb', BuiltinRound), f))
      else
        var f :- MakeFormat(msb, lsb, signed);
        Ok((mantissa, f))
  }

  /** The format `best` finds has exactly the requested wordlength, and its
      LSB is where the mantissa was quantized. */
  lemma BestWordlength(v: Value, w: int, m: Method, signed: bool)
    requires Best(v, w, m, signed).Ok?
    ensures var (mantissa, f) := Best(v, w, m, signed).value;
      Wordlength(f) == w && f.signed == signed &&
      (mantissa == Quantize(v, -f.lsb, m) || mantissa == Quantize(v, -f.lsb, BuiltinRound))
  {
  }

  /** `best` without an adjustment, given the MSB estimate and the first
      quantization. */
  lemma BestUnadjusted(v: Value, w: int, m: Method, signed: bool, msb: int, mantissa: Mantissa)
    requires signed && w >= 1
    requires EstimateMsb(v, signed) == msb && Quantize(v, w - 1 - msb, m) == mantissa
    requires AdjustedMsb(msb, mantissa, w, signed) == msb
    ensures Best(v, w, m, signed) == Ok((mantissa, Format(msb, msb - w + 1, signed)))
  {
  }

  lemma Exp2Small()
    ensures Exp2(6) == 64.0 && Exp2(7) == 128.0 && Exp2(-4) == 0.0625
  {
    Pow2Exp2(6);
    Pow2Exp2(7);
    assert Exp2(-4) == 0.0625 by {
      assert Exp2(-1) == 0.5;
      assert Exp2(-2) == 0.25;
      assert Exp2(-3) == 0.125;
    }
  }

  /** The source's own examples at wordlength 8: 1.0 -> 64 in (1, -6),
      -1.0 -> -128 in (0, -7), 1200 -> 75 in (11, 4), 0 -> 0 in (0, -7). */
  lemma BestExamples()
    ensures Best(Real(1.0), 8, NearestInteger, true) == Ok((Scalar(64), Format(1, -6, true)))
    ensures Best(Real(-1.0), 8, NearestInteger, true) == Ok((Scalar(-128), Format(0, -7, true)))
    ensures Best(Real(1200.0), 8, NearestInteger, true) == Ok((Scalar(75), Format(11, 4, true)))
    ensures Best(Real(0.0), 8, NearestInteger, true) == Ok((Scalar(0), Format(0, -7, true)))
  {
    MsbExamples();
    Exp2Small();
    assert QuantizeReal(1.0, 6, NearestInteger) == 64 by {
      assert Ldexp(1.0, 6) == 64.0;
      assert RoundHalfEven(64.0) == 64;
    }
    BestUnadjusted(Real(1.0), 8, NearestInteger, true, 1, Scalar(64));
    assert QuantizeReal(-1.0, 7, NearestInteger) == -128 by {
      assert Ldexp(-1.0, 7) == -128.0;
      assert RoundHalfEven(-128.0) == -128;
    }
    Exp2Step(6);
    BestUnadjusted(Real(-1.0), 8, NearestInteger, true, 0, Scalar(-128));
    assert QuantizeReal(1200.0, -4, NearestInteger) == 75 by {
      assert Ldexp(1200.0, -4) == 75.0;
      assert RoundHalfEven(75.0) == 75;
    }
    BestUnadjusted(Real(1200.0), 8, NearestInteger, true, 11, Scalar(75));
    assert QuantizeReal(0.0, 7, NearestInteger) == 0 by {
      assert Ldexp(0.0, 7) == 0.0;
      assert RoundHalfEven(0.0) == 0;
    }
    BestUnadjusted(Real(0.0), 8, NearestInteger, true, 0, Scalar(0));
  }
}
