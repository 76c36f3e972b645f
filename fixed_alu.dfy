/** The fixed-format arithmetic logic unit
    (src/ltitop/arithmetic/fixed_point/fixed_format_arithmetic_logic_unit.py):
    every operand and every result is in the unit's one format, and a
    mantissa that leaves the format's range either raises OverflowError or
    is handed to the unit's overflow behaviour. */
module FixedAlu {
  import opened Wrappers
  import opened Numerics
  import opened Intervals
  import opened Values
  import opened Errors
  import opened Mantissas
  import opened Rounding
  import opened Overflow
  import Modular
  import FloatingPoint
  import opened Formats
  import opened Representations
  import U = Units

  /** The unit's format. */
  function UnitFormat(u: U.Config): Format
    requires u.kind.FixedFormat?
  {
    u.kind.format
  }

  /** What `operation_method` demands of every operand. */
  predicate Handles(u: U.Config, x: Representation)
    requires u.kind.FixedFormat?
  {
    x.format == UnitFormat(u)
  }

  /** The tail every operation shares: a mantissa that fits is kept; one that
      does not raises OverflowError (with the offending value and the value
      range) unless the operation may overflow, in which case the overflow
      behaviour brings it back into the mantissa range. */
  function Settle(u: U.Config, op: U.Op, m: Mantissa, value: Value): (r: Result<Representation>)
    requires u.kind.FixedFormat?
    ensures r.Ok? ==> Valid(r.value) && r.value.format == UnitFormat(u)
    ensures r.Ok? <==> !OverflowsWith(UnitFormat(u), m) || U.AllowsOverflow(u, op)
    ensures r.Err? ==> r.error == OverflowError(Some(value), Some(ValueRange(UnitFormat(u))))
    ensures !OverflowsWith(UnitFormat(u), m) ==> r == Ok(Rep(m, UnitFormat(u)))
    ensures r.Ok? && OverflowsWith(UnitFormat(u), m) ==>
      r.value.mantissa == Handle(u.overflow, m, MantissaRange(UnitFormat(u))).value
  {
    var f := UnitFormat(u);
    if !OverflowsWith(f, m) then Ok(Rep(m, f))
    else if !U.AllowsOverflow(u, op) then Err(OverflowError(Some(value), Some(ValueRange(f))))
    else Ok(Rep(Handle(u.overflow, m, MantissaRange(f)).value, f))
  }

  /** `represent(value)`: a representation already in the unit format is
      returned as it is; anything else is represented with
      `nearest_integer`, whatever rounding the unit was configured with,
      raising UnderflowError (value, epsilon) when underflow is not allowed
      and then handling overflow. */
  function Represent(u: U.Config, x: Operand): (r: Result<Representation>)
    requires u.kind.FixedFormat?
    ensures x.Represented? && Handles(u, x.rep) ==> r == Ok(x.rep)
    ensures r.Ok? ==> r.value.format == UnitFormat(u)
    ensures r.Ok? && !(x.Represented? && Handles(u, x.rep)) ==> Valid(r.value)
    ensures r.Err? ==> r.error.ValueError? || r.error.UnderflowError? || r.error.OverflowError?
    ensures r.Err? && r.error.ValueError? ==> !UnitFormat(u).signed
    ensures !(x.Represented? && Handles(u, x.rep)) ==>
      var f, rr := UnitFormat(u), Representations.Represent(UnitFormat(u), x, NearestInteger);
      var refused := rr.Ok? && rr.value.underflow && !U.AllowsUnderflow(u, U.Represent);
      && (rr.Err? ==> r == Err(rr.error))
      && (refused ==> r == Err(UnderflowError(Some(OperandValue(x)), Some(Epsilon(f)))))
      && (rr.Ok? && !refused && !rr.value.overflow ==> r == Ok(Rep(rr.value.mantissa, f)))
      && (rr.Ok? && !refused && rr.value.overflow ==>
            && (r.Ok? <==> U.AllowsOverflow(u, U.Represent))
            && (r.Err? ==> r.error == OverflowError(Some(OperandValue(x)), Some(ValueRange(f))))
            && (r.Ok? ==> r.value.mantissa == Handle(u.overflow, rr.value.mantissa, MantissaRange(f)).value))
  {
    var f := UnitFormat(u);
    if x.Represented? && x.rep.format == f then Ok(x.rep)
    else
      var rr :- Representations.Represent(f, x, NearestInteger);
      if rr.underflow && !U.AllowsUnderflow(u, U.Represent) then
        Err(UnderflowError(Some(OperandValue(x)), Some(Epsilon(f))))
      else
        Settle(u, U.Represent, rr.mantissa, OperandValue(x))
  }

  /** `rinfo()`: the step and the ends of the value range. The ends are the
      values of the least and greatest mantissas, 2^w - 1 steps apart. */
  function Rinfo(u: U.Config): (r: U.Info)
    requires u.kind.FixedFormat?
    ensures var f := UnitFormat(u); var m := MantissaRange(f);
      && r.eps > 0.0
      && Scaled(Scalar(m.lo), f.lsb) == Real(r.min)
      && Scaled(Scalar(m.hi), f.lsb) == Real(r.max)
      && r.max - r.min == (Pow2(Wordlength(f)) - 1) as real * r.eps
  {
    var f := UnitFormat(u);
    var m := MantissaRange(f);
    assert m.hi as real * Exp2(f.lsb) - m.lo as real * Exp2(f.lsb) == (m.hi - m.lo) as real * Exp2(f.lsb);
    U.Info(Epsilon(f), ValueRange(f).lo, ValueRange(f).hi)
  }

  /** `add(x, y)`: the mantissa sum, in the unit format. */
  function Add(u: U.Config, x: Representation, y: Representation): (r: Result<Representation>)
    requires u.kind.FixedFormat?
    ensures !Handles(u, x) || !Handles(u, y) ==> r == Err(ValueError)
    ensures r.Ok? ==> Valid(r.value) && r.value.format == UnitFormat(u)
  {
    if !Handles(u, x) || !Handles(u, y) then Err(ValueError)
    else
      var m := Mantissas.Add(x.mantissa, y.mantissa);
      Settle(u, U.Add, m, Scaled(m, UnitFormat(u).lsb))
  }

  /** `substract(x, y)`: the mantissa difference, in the unit format. */
  function Substract(u: U.Config, x: Representation, y: Representation): (r: Result<Representation>)
    requires u.kind.FixedFormat?
    ensures !Handles(u, x) || !Handles(u, y) ==> r == Err(ValueError)
    ensures r.Ok? ==> Valid(r.value) && r.value.format == UnitFormat(u)
  {
    if !Handles(u, x) || !Handles(u, y) then Err(ValueError)
    else
      var m := Mantissas.Sub(x.mantissa, y.mantissa);
      Settle(u, U.Substract, m, Scaled(m, UnitFormat(u).lsb))
  }

  /** The double-width format the exact product is formed in. */
  function ProductFormat(f: Format): Format {
    Format(2 * f.msb + 1, 2 * f.lsb, f.signed)
  }

  /** `multiply(x, y)`: the exact product in the double-width format,
      represented back in the unit format with the unit's rounding;
      underflow is checked before overflow, and both report the exact
      product's value. */
  function Multiply(u: U.Config, x: Representation, y: Representation): (r: Result<Representation>)
    requires u.kind.FixedFormat?
    ensures !Handles(u, x) || !Handles(u, y) ==> r == Err(ValueError)
    ensures r.Ok? ==> Valid(r.value) && r.value.format == UnitFormat(u)
  {
    if !Handles(u, x) || !Handles(u, y) then Err(ValueError)
    else
      var f := UnitFormat(u);
      var z :- MakeRepresentation(Mantissas.Mul(x.mantissa, y.mantissa), ProductFormat(f));
      var rr :- Representations.Represent(f, Represented(z), u.rounding);
      if rr.underflow && !U.AllowsUnderflow(u, U.Multiply) then
        Err(UnderflowError(Some(ValueOf(z)), Some(Epsilon(f))))
      else
        Settle(u, U.Multiply, rr.mantissa, ValueOf(z))
  }

  /** `negate(x)`: RuntimeError in an unsigned format, zero unchanged,
      otherwise the negated mantissa. */
  function Negate(u: U.Config, x: Representation): (r: Result<Representation>)
    requires u.kind.FixedFormat?
    ensures !Handles(u, x) ==> r == Err(ValueError)
    ensures Handles(u, x) && !UnitFormat(u).signed ==> r == Err(RuntimeError)
    ensures Handles(u, x) && UnitFormat(u).signed && IsZero(x.mantissa) ==> r == Ok(x)
    ensures r.Ok? && !IsZero(x.mantissa) ==> Valid(r.value) && r.value.format == UnitFormat(u)
  {
    if !Handles(u, x) then Err(ValueError)
    else if !UnitFormat(u).signed then Err(RuntimeError)
    else if IsZero(x.mantissa) then Ok(x)
    else
      var m := Mantissas.Neg(x.mantissa);
      Settle(u, U.Negate, m, Scaled(m, UnitFormat(u).lsb))
  }

  /** `compare(x, y)`: the raw mantissa difference, never rounded or
      range-checked. */
  function Compare(u: U.Config, x: Representation, y: Representation): (r: Result<Mantissa>)
    requires u.kind.FixedFormat?
    ensures r.Err? <==> !Handles(u, x) || !Handles(u, y)
    ensures r.Err? ==> r.error == ValueError
  {
    if !Handles(u, x) || !Handles(u, y) then Err(ValueError)
    else Ok(Mantissas.Sub(x.mantissa, y.mantissa))
  }

  /** `lshift(x, n)`: the mantissa shifted left by n bits, in the same format. */
  function LShift(u: U.Config, x: Representation, n: int): (r: Result<Representation>)
    requires u.kind.FixedFormat?
    ensures !Handles(u, x) || n < 0 ==> r == Err(ValueError)
    ensures r.Ok? ==> Valid(r.value) && r.value.format == UnitFormat(u)
  {
    if !Handles(u, x) || n < 0 then Err(ValueError)
    else
      var m := ShiftLeft(x.mantissa, n);
      Settle(u, U.LShift, m, Scaled(m, UnitFormat(u).lsb))
  }

  /** `rshift(x, n)`: the mantissa shifted right by n bits (a floor), in
      the same format; it never leaves the range. */
  function RShift(u: U.Config, x: Representation, n: int): (r: Result<Representation>)
    requires u.kind.FixedFormat?
    ensures !Handles(u, x) || n < 0 ==> r == Err(ValueError)
    ensures Handles(u, x) && n >= 0 && Valid(x) ==> r.Ok?
    ensures r.Ok? ==> Valid(r.value) && r.value.format == UnitFormat(u)
  {
    if !Handles(u, x) || n < 0 then Err(ValueError)
    else
      var m := ShiftRight(x.mantissa, n);
      if Valid(x) then
        ShiftRightStays(x.mantissa, n, MantissaRange(x.format));
        MakeRepresentation(m, UnitFormat(u))
      else
        MakeRepresentation(m, UnitFormat(u))
  }

  // ---- truncate, floor, ceil and nearest ----


  /** `truncate`, `floor`, `ceil` and `nearest` as written. An operand with
      no fractional bits comes back as it is. Otherwise the first three call
      `truncate`, `floor` and `ceil`, which the module never imports
      (NameError). `nearest` rounds the value to an integer and represents
      it with the default rounding, the builtin `round`; an unsigned format
      refuses a negative value (ValueError), and otherwise the quantization
      calls `round.apply`, which always fails (AttributeError, see
      `FloatingPoint.QuantizeAsWritten`), so the overflow test and the
      construction of the result after it are never reached.
      `round` of an interval value is a TypeError. */
  function RoundAsWritten(u: U.Config, x: Representation, m: Method): (r: Result<Representation>)
    requires u.kind.FixedFormat?
    ensures r.Ok? <==> Handles(u, x) && IsInteger(x)
    ensures r.Ok? ==> r.value == x
    ensures !Handles(u, x) ==> r == Err(ValueError)
    ensures Handles(u, x) && !IsInteger(x) && !(m.NearestInteger? || m.BuiltinRound?) ==> r == Err(NameError)
    ensures r.Err? ==> r.error == ValueError || r.error == NameError || r.error == AttributeError || r.error == TypeError
    ensures r == Err(AttributeError) ==> (m.NearestInteger? || m.BuiltinRound?) && x.mantissa.Scalar?
  {
    var f := UnitFormat(u);
    if !Handles(u, x) then Err(ValueError)
    else if IsInteger(x) then Ok(x)
    else if !(m.NearestInteger? || m.BuiltinRound?) then Err(NameError)
    else
      match x.mantissa
      case Ranged(_) => Err(TypeError)
      case Scalar(_) =>
        var k := RoundHalfEven(ValueOf(x).x);
        if !f.signed && k < 0 then Err(ValueError) else Err(AttributeError)
  }

  /** The rounding operations as intended: the value rounded to an integer
      with the given method, represented exactly in the unit format, and
      settled like every other result. */
  function Round(u: U.Config, x: Representation, m: Method): (r: Result<Representation>)
    requires u.kind.FixedFormat?
    ensures !Handles(u, x) ==> r == Err(ValueError)
    ensures Handles(u, x) && IsInteger(x) ==> r == Ok(x)
    ensures r.Ok? && !IsInteger(x) ==> Valid(r.value) && r.value.format == UnitFormat(u)
  {
    var f := UnitFormat(u);
    if !Handles(u, x) then Err(ValueError)
    else if IsInteger(x) then Ok(x)
    else
      match x.mantissa
      case Ranged(_) => Err(TypeError)
      case Scalar(_) =>
        var k := Apply(m, ValueOf(x).x);
        var rr :- Representations.Represent(f, Number(Real(k as real)), BuiltinRound);
        Settle(u, U.RoundingOp(m), rr.mantissa, Scaled(rr.mantissa, f.lsb))
  }

  // ---- What the operations mean ----

  /** An arithmetic shift right moves a value toward zero without crossing it. */
  lemma ShrBetween(v: int, n: nat)
    ensures v >= 0 ==> 0 <= Shr(v, n) <= v
    ensures v < 0 ==> v <= Shr(v, n) < 0
  {
    var p := Pow2(n);
    var q := Shr(v, n);
    var c := q + 1;
    assert q * p <= v < c * p;
    MulAtLeastOne(q, p);
    MulAtLeastOne(c, p);
  }

  /** Multiplying by a positive integer moves away from zero. */
  lemma MulAtLeastOne(a: int, b: int)
    requires b >= 1
    ensures a >= 0 ==> a * b >= a
    ensures a <= 0 ==> a * b <= a
  {
    var d := b - 1;
    assert a * b == a + a * d;
    if a >= 0 {
      assert a * d >= 0;
    } else {
      assert a * d <= 0;
    }
  }

  lemma ShiftRightStays(m: Mantissa, n: nat, range: Range)
    requires Within(m, range) && range.lo <= 0 <= range.hi
    ensures Within(ShiftRight(m, n), range)
  {
    ShrBetween(Lo(m), n);
    ShrBetween(Hi(m), n);
  }

  /** A sum that fits is the exact mantissa sum, standing for the sum of the
      operands' values. */
  lemma AddInRange(u: U.Config, x: Representation, y: Representation)
    requires u.kind.FixedFormat? && Handles(u, x) && Handles(u, y)
    requires !OverflowsWith(UnitFormat(u), Mantissas.Add(x.mantissa, y.mantissa))
    ensures Add(u, x, y) == Ok(Rep(Mantissas.Add(x.mantissa, y.mantissa), UnitFormat(u)))
    ensures ValueOf(Add(u, x, y).value) == Plus(ValueOf(x), ValueOf(y))
  {
    ScaledAdd(x.mantissa, y.mantissa, UnitFormat(u).lsb);
  }

  /** A sum that does not fit raises OverflowError carrying the exact sum
      of the values, or is wrapped or saturated when `add` may overflow. */
  lemma AddOverflow(u: U.Config, x: Representation, y: Representation)
    requires u.kind.FixedFormat? && Handles(u, x) && Handles(u, y)
    requires OverflowsWith(UnitFormat(u), Mantissas.Add(x.mantissa, y.mantissa))
    ensures !U.AllowsOverflow(u, U.Add) ==>
      Add(u, x, y) == Err(OverflowError(Some(Plus(ValueOf(x), ValueOf(y))), Some(ValueRange(UnitFormat(u)))))
    ensures U.AllowsOverflow(u, U.Add) ==>
      var f := UnitFormat(u);
      Add(u, x, y) == Ok(Rep(Handle(u.overflow, Mantissas.Add(x.mantissa, y.mantissa), MantissaRange(f)).value, f))
  {
    ScaledAdd(x.mantissa, y.mantissa, UnitFormat(u).lsb);
  }

  /** With wraparound, a scalar sum is the exact sum modulo 2^wordlength:
      two's complement addition. */
  lemma AddWraps(u: U.Config, x: Representation, y: Representation)
    requires u.kind.FixedFormat? && Handles(u, x) && Handles(u, y)
    requires x.mantissa.Scalar? && y.mantissa.Scalar?
    requires u.overflow == Wrapping && U.AllowsOverflow(u, U.Add)
    ensures Add(u, x, y).Ok? && Add(u, x, y).value.mantissa.Scalar?
    ensures (Add(u, x, y).value.mantissa.v - (x.mantissa.v + y.mantissa.v)) % Pow2(Wordlength(UnitFormat(u))) == 0
  {
    var f := UnitFormat(u);
    var s := x.mantissa.v + y.mantissa.v;
    MantissaRangeWidth(f);
    Modular.WrapIntSound(s, MantissaRange(f));
  }

  /** With saturation, a scalar sum past either end of the range sticks to
      that end. */
  lemma AddSaturates(u: U.Config, x: Representation, y: Representation)
    requires u.kind.FixedFormat? && Handles(u, x) && Handles(u, y)
    requires x.mantissa.Scalar? && y.mantissa.Scalar?
    requires u.overflow == Saturating && U.AllowsOverflow(u, U.Add)
    ensures var s, range := x.mantissa.v + y.mantissa.v, MantissaRange(UnitFormat(u));
      && (s > range.hi ==> Add(u, x, y) == Ok(Rep(Scalar(range.hi), UnitFormat(u))))
      && (s < range.lo ==> Add(u, x, y) == Ok(Rep(Scalar(range.lo), UnitFormat(u))))
  {
  }

  /** Q4.4: 4 + 4 is 8, one step past the top of [-8, 7.9375]; it wraps to
      -8, saturates to 7.9375, or raises OverflowError with the value 8. */
  lemma AddOverflowExamples(w: U.Config, s: U.Config, e: U.Config, x: Representation)
    requires w.kind == U.FixedFormat(Format(3, -4, true)) && s.kind == w.kind && e.kind == w.kind
    requires w.overflow == Wrapping && U.AllowsOverflow(w, U.Add)
    requires s.overflow == Saturating && U.AllowsOverflow(s, U.Add)
    requires !U.AllowsOverflow(e, U.Add)
    requires x == Rep(Scalar(64), Format(3, -4, true))
    ensures Add(w, x, x) == Ok(Rep(Scalar(-128), Format(3, -4, true)))
    ensures Add(s, x, x) == Ok(Rep(Scalar(127), Format(3, -4, true)))
    ensures Add(e, x, x) == Err(OverflowError(Some(Real(8.0)), Some(Bounds(-8.0, 7.9375))))
  {
    var f := Format(3, -4, true);
    assert Pow2(7) == 128;
    assert Magnitude(f) == 7;
    Exp2Four();
    assert Exp2(3) == 8.0;
    assert Ldexp(128.0, -4) == 8.0;
  }

  /** A difference that fits is the exact mantissa difference, standing for
      the difference of the operands' values. */
  lemma SubstractInRange(u: U.Config, x: Representation, y: Representation)
    requires u.kind.FixedFormat? && Handles(u, x) && Handles(u, y)
    requires !OverflowsWith(UnitFormat(u), Mantissas.Sub(x.mantissa, y.mantissa))
    ensures Substract(u, x, y) == Ok(Rep(Mantissas.Sub(x.mantissa, y.mantissa), UnitFormat(u)))
    ensures ValueOf(Substract(u, x, y).value) == Minus(ValueOf(x), ValueOf(y))
  {
    ScaledSub(x.mantissa, y.mantissa, UnitFormat(u).lsb);
  }

  /** A difference that does not fit raises OverflowError carrying the
      exact difference of the values, unless `substract` may overflow. */
  lemma SubstractOverflow(u: U.Config, x: Representation, y: Representation)
    requires u.kind.FixedFormat? && Handles(u, x) && Handles(u, y)
    requires OverflowsWith(UnitFormat(u), Mantissas.Sub(x.mantissa, y.mantissa))
    ensures !U.AllowsOverflow(u, U.Substract) ==>
      Substract(u, x, y) == Err(OverflowError(Some(Minus(ValueOf(x), ValueOf(y))), Some(ValueRange(UnitFormat(u)))))
    ensures U.AllowsOverflow(u, U.Substract) ==>
      var f := UnitFormat(u);
      Substract(u, x, y) == Ok(Rep(Handle(u.overflow, Mantissas.Sub(x.mantissa, y.mantissa), MantissaRange(f)).value, f))
  {
    ScaledSub(x.mantissa, y.mantissa, UnitFormat(u).lsb);
  }

  /** With wraparound, a scalar difference is exact modulo 2^wordlength. */
  lemma SubstractWraps(u: U.Config, x: Representation, y: Representation)
    requires u.kind.FixedFormat? && Handles(u, x) && Handles(u, y)
    requires x.mantissa.Scalar? && y.mantissa.Scalar?
    requires u.overflow == Wrapping && U.AllowsOverflow(u, U.Substract)
    ensures Substract(u, x, y).Ok? && Substract(u, x, y).value.mantissa.Scalar?
    ensures (Substract(u, x, y).value.mantissa.v - (x.mantissa.v - y.mantissa.v)) % Pow2(Wordlength(UnitFormat(u))) == 0
  {
    var f := UnitFormat(u);
    var s := x.mantissa.v - y.mantissa.v;
    MantissaRangeWidth(f);
    Modular.WrapIntSound(s, MantissaRange(f));
  }

  // ---- multiply ----

  /** One corner product of two mantissas of magnitude k fits the
      double-width format: |a * b| <= 2^2k. */
  lemma CornerFits(a: int, b: int, lo: int, p: int)
    requires p >= 1 && (lo == -p || lo == 0)
    requires lo <= a <= p - 1 && lo <= b <= p - 1
    ensures lo == 0 ==> a * b >= 0
    ensures -2 * (p * p) <= a * b <= 2 * (p * p) - 1
  {
    var aa, bb := Abs(a), Abs(b);
    assert a * b == aa * bb || a * b == -(aa * bb) by {
      if a < 0 && b < 0 {
        assert a * b == (-a) * (-b);
      } else if a < 0 {
        assert a * b == -((-a) * b);
      } else if b < 0 {
        assert a * b == -(a * (-b));
      }
    }
    Scale(aa, p, bb);
    Scale(bb, p, p);
    Scale(1, p, p);
    assert aa * bb <= p * p;
    if lo == 0 {
      assert a >= 0 && b >= 0;
    }
  }

  /** The exact product of two mantissas of a format always fits the
      product format, so `multiply` never fails building it. */
  lemma ProductFits(f: Format, m: Mantissa, n: Mantissa)
    requires Within(m, MantissaRange(f)) && Within(n, MantissaRange(f))
    ensures !OverflowsWith(ProductFormat(f), Mantissas.Mul(m, n))
    ensures !f.signed ==> NonNegative(Mantissas.Mul(m, n))
  {
    var k := Magnitude(f);
    var p: int := Pow2(k);
    Pow2Add(k, k);
    assert Magnitude(ProductFormat(f)) == k + k + 1;
    assert Pow2(k + k + 1) == 2 * (p * p);
    var lo := if f.signed then -p else 0;
    CornerFits(Lo(m), Lo(n), lo, p);
    CornerFits(Lo(m), Hi(n), lo, p);
    CornerFits(Hi(m), Lo(n), lo, p);
    CornerFits(Hi(m), Hi(n), lo, p);
    MulBounds(m, n);
  }

  /** The value of a nonnegative mantissa is nonnegative. */
  lemma ScaledNonNegative(m: Mantissa, lsb: int)
    requires NonNegative(m)
    ensures NonNegativeValue(Scaled(m, lsb))
  {
    Exp2Positive(lsb);
    LdexpMonotone(0.0, Lo(m) as real, lsb);
  }

  /** On operands that fit, `multiply` fails only with UnderflowError or
      OverflowError: the product format and the rounding never raise. */
  lemma MultiplyErrors(u: U.Config, x: Representation, y: Representation)
    requires u.kind.FixedFormat? && Handles(u, x) && Handles(u, y) && Valid(x) && Valid(y)
    ensures Multiply(u, x, y).Err? ==>
      Multiply(u, x, y).error.UnderflowError? || Multiply(u, x, y).error.OverflowError?
  {
    var f := UnitFormat(u);
    var m := Mantissas.Mul(x.mantissa, y.mantissa);
    ProductFits(f, x.mantissa, y.mantissa);
    if !f.signed {
      ScaledNonNegative(m, ProductFormat(f).lsb);
    }
  }

  /** For scalar operands with a fractional format, an accepted product is
      the exact product of the values rounded to the unit's step, off by no
      more than the rounding's `error_bounds` (when overflow is an error). */
  lemma MultiplyRounds(u: U.Config, x: Representation, y: Representation)
    requires u.kind.FixedFormat? && Handles(u, x) && Handles(u, y) && Valid(x) && Valid(y)
    requires x.mantissa.Scalar? && y.mantissa.Scalar?
    requires HasShift(u.rounding) && UnitFormat(u).lsb < 0 && !U.AllowsOverflow(u, U.Multiply)
    ensures var f := UnitFormat(u);
      ErrorBounds(u.rounding, f.lsb, Some(2 * f.lsb)).Ok?
    ensures var f, r := UnitFormat(u), Multiply(u, x, y);
      r.Ok? ==> (r.value.mantissa.Scalar? &&
        In(ValueOf(r.value).x - Times(ValueOf(x), ValueOf(y)).x,
           ErrorBounds(u.rounding, f.lsb, Some(2 * f.lsb)).value))
  {
    var f := UnitFormat(u);
    var m := Mantissas.Mul(x.mantissa, y.mantissa);
    ProductFits(f, x.mantissa, y.mantissa);
    var z := Rep(m, ProductFormat(f));
    ScaledMul(x.mantissa.v, y.mantissa.v, f.lsb, f.lsb);
    RepresentCoarserError(f, z, u.rounding);
  }

  /** Q1.7 with `nearest_integer`: 0.5 * 0.5 is 0.25, held as 32. */
  lemma MultiplyExample(u: U.Config, half: Representation)
    requires u.kind == U.FixedFormat(Format(0, -7, true)) && u.rounding == NearestInteger
    requires half == Rep(Scalar(64), Format(0, -7, true))
    ensures Multiply(u, half, half) == Ok(Rep(Scalar(32), Format(0, -7, true)))
  {
    var f := Format(0, -7, true);
    assert Pow2(7) == 128;
    assert Pow2(15) == 32768;
    var z := Rep(Scalar(4096), ProductFormat(f));
    RepresentShifted(f, z, NearestInteger);
    assert Pow2(6) == 64;
    assert Shr(4096, 7) == 32 && Shr(4096, 6) == 64;
  }

  // ---- negate, compare and the shifts ----

  /** A negation that fits stands for the negated value. */
  lemma NegateInRange(u: U.Config, x: Representation)
    requires u.kind.FixedFormat? && Handles(u, x) && UnitFormat(u).signed
    requires !OverflowsWith(UnitFormat(u), Mantissas.Neg(x.mantissa))
    ensures Negate(u, x).Ok?
    ensures ValueOf(Negate(u, x).value) == Negated(ValueOf(x))
  {
    ScaledNeg(x.mantissa, UnitFormat(u).lsb);
    if IsZero(x.mantissa) {
      assert x.mantissa == Scalar(0) || x.mantissa == Span2(0, 0);
      Exp2Positive(x.format.lsb);
    }
  }

  /** In a signed format the only scalar whose negation does not fit is the
      most negative one, -2^(w-1). */
  lemma NegateOverflowsOnlyAtMinimum(f: Format, v: int)
    requires f.signed && Within(Scalar(v), MantissaRange(f))
    ensures OverflowsWith(f, Mantissas.Neg(Scalar(v))) <==> v == -(Pow2(Magnitude(f)) as int)
  {
  }

  /** `compare` orders as the values do: its sign is the sign of x - y. */
  lemma CompareOrders(u: U.Config, x: Representation, y: Representation)
    requires u.kind.FixedFormat? && Handles(u, x) && Handles(u, y)
    requires x.mantissa.Scalar? && y.mantissa.Scalar?
    ensures Compare(u, x, y).Ok? && Compare(u, x, y).value.Scalar?
    ensures Compare(u, x, y).value.v < 0 <==> ValueOf(x).x < ValueOf(y).x
    ensures Compare(u, x, y).value.v == 0 <==> ValueOf(x).x == ValueOf(y).x
  {
    var e := Exp2(UnitFormat(u).lsb);
    Exp2Positive(UnitFormat(u).lsb);
    var a, b := x.mantissa.v, y.mantissa.v;
    ScaleOrder(a, b, e);
  }

  /** A left shift that fits multiplies the value by 2^n. */
  lemma LShiftScales(u: U.Config, x: Representation, n: nat)
    requires u.kind.FixedFormat? && Handles(u, x)
    requires !OverflowsWith(UnitFormat(u), ShiftLeft(x.mantissa, n))
    ensures LShift(u, x, n) == Ok(Rep(ShiftLeft(x.mantissa, n), UnitFormat(u)))
    ensures ValueOf(LShift(u, x, n).value) == Scaled(x.mantissa, x.format.lsb + n)
  {
    ScaledShiftLeft(x.mantissa, n, x.format.lsb);
  }

  /** A right shift of a scalar is the floor of its value over 2^n, on the
      unit's step. */
  lemma RShiftFloors(u: U.Config, x: Representation, n: nat)
    requires u.kind.FixedFormat? && Handles(u, x) && Valid(x) && x.mantissa.Scalar?
    ensures RShift(u, x, n) == Ok(Rep(Scalar(Shr(x.mantissa.v, n)), UnitFormat(u)))
    ensures Shr(x.mantissa.v, n) == Numerics.Floor(Ldexp(x.mantissa.v as real, -(n as int)))
  {
    assert Shr(x.mantissa.v, n) == Numerics.Floor(Ldexp(x.mantissa.v as real, -(n as int))) by {
      if n > 0 {
        ShrIsFloor(x.mantissa.v, -(n as int));
      }
    }
    assert RShift(u, x, n) == Ok(Rep(Scalar(Shr(x.mantissa.v, n)), UnitFormat(u)));
  }

  // ---- represent and rinfo ----

  /** `represent` does not depend on the rounding the unit was built with. */
  lemma RepresentIgnoresRounding(u: U.Config, m: Method, x: Operand)
    requires u.kind.FixedFormat?
    ensures Represent(u.(rounding := m), x) == Represent(u, x)
  {
  }

  /** A real inside the unit's value range is represented to within half a
      step, whatever the unit's rounding. It fails only with UnderflowError,
      exactly when it is nonzero but within half a step of zero and the
      unit does not allow `represent` to underflow. */
  lemma RepresentRealNearest(u: U.Config, x: real)
    requires u.kind.FixedFormat? && (UnitFormat(u).signed || x >= 0.0)
    requires CanRepresent(UnitFormat(u), Real(x))
    ensures var r, e := Represent(u, Number(Real(x))), Epsilon(UnitFormat(u));
      && (r.Err? <==> !U.AllowsUnderflow(u, U.Represent) && x != 0.0 && -0.5 * e <= x <= 0.5 * e)
      && (r.Err? ==> r.error == UnderflowError(Some(Real(x)), Some(e)))
      && (r.Ok? ==> r.value.mantissa.Scalar? && -0.5 * e <= ValueOf(r.value).x - x <= 0.5 * e)
  {
    var f := UnitFormat(u);
    RepresentRealError(f, x, NearestInteger);
    RepresentRealUnderflow(f, x, NearestInteger);
    RepresentableNeverOverflows(f, x, NearestInteger);
  }

  /** Q1.7 represents 0.3 as 38 and -0.3 as -38 (0.296875 and -0.296875),
      rounding to nearest whatever the unit's rounding. */
  lemma RepresentExamples(u: U.Config)
    requires u.kind == U.FixedFormat(Format(0, -7, true))
    ensures Represent(u, Number(Real(0.3))) == Ok(Rep(Scalar(38), Format(0, -7, true)))
    ensures Represent(u, Number(Real(-0.3))) == Ok(Rep(Scalar(-38), Format(0, -7, true)))
  {
    var f := Format(0, -7, true);
    assert Pow2(7) == 128;
    Exp2Seven();
    RepresentReal(f, 0.3, NearestInteger);
    RepresentReal(f, -0.3, NearestInteger);
    assert Ldexp(0.3, 7) == 38.4;
    assert Ldexp(-0.3, 7) == -38.4;
    assert (38.4).Floor == 38 && (-38.4).Floor == -39;
  }

  /** Q1.7: a step of 2^-7 and values in [-1, 1 - 2^-7]. */
  lemma RinfoExample(u: U.Config)
    requires u.kind == U.FixedFormat(Format(0, -7, true))
    ensures Rinfo(u) == U.Info(0.0078125, -1.0, 0.9921875)
  {
    Exp2Seven();
  }

  lemma Exp2Seven()
    ensures Exp2(7) == 128.0 && Exp2(-7) == 0.0078125 && Exp2(0) == 1.0
  {
    Exp2Nat(7);
    Reciprocal(7);
  }

  // ---- truncate, floor, ceil and nearest ----

  /** As written, no rounding operation ever rounds: every operand with
      fractional bits ends in an exception. */
  lemma RoundAsWrittenNeverRounds(u: U.Config, x: Representation, m: Method)
    requires u.kind.FixedFormat? && Handles(u, x) && !IsInteger(x)
    ensures RoundAsWritten(u, x, m).Err?
    ensures !(m.NearestInteger? || m.BuiltinRound?) ==> RoundAsWritten(u, x, m) == Err(NameError)
  {
  }

  /** Q1.7 holding 0.296875 (38): `floor` raises NameError as written and
      gives 0 as intended; `nearest` raises AttributeError as written and
      gives 0 as intended. */
  lemma RoundExample(u: U.Config, x: Representation)
    requires u.kind == U.FixedFormat(Format(0, -7, true))
    requires x == Rep(Scalar(38), Format(0, -7, true))
    ensures RoundAsWritten(u, x, Method.Floor) == Err(NameError)
    ensures RoundAsWritten(u, x, NearestInteger) == Err(AttributeError)
    ensures Round(u, x, Method.Floor) == Ok(Rep(Scalar(0), Format(0, -7, true)))
    ensures Round(u, x, NearestInteger) == Ok(Rep(Scalar(0), Format(0, -7, true)))
  {
    Exp2Seven();
    assert ValueOf(x).x == 0.296875;
    assert RoundHalfEven(0.296875) == 0;
    RepresentReal(Format(0, -7, true), 0.0, BuiltinRound);
  }

  /** As written, `nearest` (or the builtin-`round` method) on an operand
      with fractional bits raises TypeError for an interval, ValueError when
      an unsigned format meets a negative rounded value, and AttributeError
      in every other case, the error of the quantization, whether or not the
      rounded value fits. */
  lemma RoundAsWrittenNearest(u: U.Config, x: Representation, m: Method)
    requires u.kind.FixedFormat? && Handles(u, x) && !IsInteger(x)
    requires m.NearestInteger? || m.BuiltinRound?
    ensures x.mantissa.Ranged? ==> RoundAsWritten(u, x, m) == Err(TypeError)
    ensures x.mantissa.Scalar? ==> (RoundAsWritten(u, x, m) ==
      if !UnitFormat(u).signed && RoundHalfEven(ValueOf(x).x) < 0 then Err(ValueError) else Err(AttributeError))
    ensures Valid(x) && x.mantissa.Scalar? ==> RoundAsWritten(u, x, m) == Err(AttributeError)
    ensures x.mantissa.Scalar? && RoundAsWritten(u, x, m) != Err(ValueError) ==>
      RoundAsWritten(u, x, m) == Err(FloatingPoint.QuantizeAsWritten(Real(RoundHalfEven(ValueOf(x).x) as real), -UnitFormat(u).lsb, BuiltinRound).error)
  {
    if Valid(x) && x.mantissa.Scalar? && !UnitFormat(u).signed {
      ScaledNonNegative(x.mantissa, x.format.lsb);
    }
  }

  /** Q1.7 holding 127 (0.9921875): it rounds to 1, mantissa 128, which
      does not fit; the quantization fails first, so `nearest` as written
      raises AttributeError before the overflow is looked at. */
  lemma RoundAsWrittenOverflowExample(u: U.Config, x: Representation)
    requires u.kind == U.FixedFormat(Format(0, -7, true))
    requires x == Rep(Scalar(127), Format(0, -7, true))
    ensures OverflowsWith(Format(0, -7, true), Scalar(RoundHalfEven(ValueOf(x).x) * Pow2(7)))
    ensures RoundAsWritten(u, x, NearestInteger) == Err(AttributeError)
  {
    Exp2Seven();
    assert ValueOf(x).x == 0.9921875;
    assert RoundHalfEven(0.9921875) == 1;
    assert Pow2(7) == 128;
  }

  /** A rounded value that fits is the integer the method rounds the value
      to, held exactly as that integer times 2^-lsb, so it is off from the
      operand by less than one (at most a half when rounding to nearest). */
  lemma RoundExact(u: U.Config, x: Representation, m: Method)
    requires u.kind.FixedFormat? && Handles(u, x) && !IsInteger(x) && x.mantissa.Scalar?
    requires UnitFormat(u).signed || Apply(m, ValueOf(x).x) >= 0
    requires !OverflowsWith(UnitFormat(u), Scalar(Apply(m, ValueOf(x).x) * Pow2(-UnitFormat(u).lsb)))
    ensures var k, f := Apply(m, ValueOf(x).x), UnitFormat(u);
      Round(u, x, m) == Ok(Rep(Scalar(k * Pow2(-f.lsb)), f)) && ValueOf(Round(u, x, m).value) == Real(k as real)
    ensures var d := ValueOf(Round(u, x, m).value).x - ValueOf(x).x;
      && (m.NearestInteger? || m.BuiltinRound? ==> -0.5 <= d <= 0.5)
      && (m.Floor? ==> -1.0 < d <= 0.0)
      && (m.Ceil? ==> 0.0 <= d < 1.0)
      && (m.Truncate? ==> -1.0 < d < 1.0)
  {
    RepresentInteger(UnitFormat(u), Apply(m, ValueOf(x).x));
    ApplyError(m, ValueOf(x).x);
  }
}
