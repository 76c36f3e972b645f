/** The multi-format arithmetic logic unit
    (src/ltitop/arithmetic/fixed_point/multi_format_arithmetic_logic_unit.py):
    operands may come in any format no wider than the unit's wordlength,
    results get a format of their own, and a result that outgrows its format
    gains a most significant bit and gives up least significant ones. */
module MultiAlu {
  import opened Wrappers
  import opened Numerics
  import Intervals
  import FloatingPoint
  import opened Values
  import opened Errors
  import opened Mantissas
  import opened Rounding
  import opened Overflow
  import opened Formats
  import opened Representations
  import U = Units

  /** What construction guarantees of a multi-format unit. */
  predicate Unit(u: U.Config) {
    u.kind.MultiFormat? && U.ValidConfig(u)
  }

  /** A format the unit can handle: no wider than its wordlength. */
  predicate Fits(u: U.Config, f: Format) {
    Wordlength(f) <= u.wordlength
  }

  /** What `operation_method` demands of two operands: both fit, and
      they agree in sign. */
  predicate Accepts(u: U.Config, x: Representation, y: Representation) {
    Fits(u, x.format) && Fits(u, y.format) && x.format.signed == y.format.signed
  }

  /** Whether the span of two formats of one sign fits the wordlength, so
      that the common format loses no bit of either. */
  predicate Lossless(u: U.Config, fx: Format, fy: Format) {
    Max2(fx.msb, fy.msb) - Min2(fx.lsb, fy.lsb) + SignBit(fx.signed) <= u.wordlength
  }

  // ---- represent and rinfo ----

  /** `represent(value, format_=target)`. With a target: ValueError if it is
      too wide, then `Format.represent` with the unit's rounding, with
      UnderflowError (message only) and Python's builtin OverflowError unless allowed, and
      the overflow behaviour otherwise. Without one: a representation the
      unit can handle comes back as it is, anything else gets the best
      format of the unit's wordlength, rounding to nearest. */
  function Represent(u: U.Config, x: Operand, target: Option<Format>): (r: Result<Representation>)
    requires Unit(u)
    ensures target.Some? && !Fits(u, target.value) ==> r == Err(ValueError)
    ensures target.Some? && r.Ok? ==> r.value.format == target.value && Valid(r.value)
    ensures target.None? && x.Represented? && Fits(u, x.rep.format) ==> r == Ok(x.rep)
    ensures r.Ok? ==> Fits(u, r.value.format)
    ensures r.Err? ==> r.error.ValueError? || r.error == UnderflowError(None, None) || r.error == BuiltinOverflowError
    ensures target.Some? && Fits(u, target.value) ==>
      var f, rr := target.value, Representations.Represent(target.value, x, u.rounding);
      var refused := rr.Ok? && rr.value.underflow && !U.AllowsUnderflow(u, U.Represent);
      && (rr.Err? ==> r == Err(rr.error))
      && (refused ==> r == Err(UnderflowError(None, None)))
      && (rr.Ok? && !refused && !rr.value.overflow ==> r == Ok(Rep(rr.value.mantissa, f)))
      && (rr.Ok? && !refused && rr.value.overflow ==>
            && (!U.AllowsOverflow(u, U.Represent) ==> r == Err(BuiltinOverflowError))
            && (U.AllowsOverflow(u, U.Represent) ==>
                  r == Ok(Rep(Handle(u.overflow, rr.value.mantissa, MantissaRange(f)).value, f))))
    ensures target.None? && !(x.Represented? && Fits(u, x.rep.format)) ==>
      var b := Best(OperandValue(x), u.wordlength, NearestInteger, true);
      b.Ok? && r == MakeRepresentation(b.value.0, b.value.1) &&
      Wordlength(b.value.1) == u.wordlength && b.value.1.signed
  {
    match target
    case Some(f) =>
      if !Fits(u, f) then Err(ValueError)
      else
        var rr :- Representations.Represent(f, x, u.rounding);
        if rr.underflow && !U.AllowsUnderflow(u, U.Represent) then Err(UnderflowError(None, None))
        else if rr.overflow && !U.AllowsOverflow(u, U.Represent) then Err(BuiltinOverflowError)
        else if rr.overflow then MakeRepresentation(Handle(u.overflow, rr.mantissa, MantissaRange(f)).value, f)
        else MakeRepresentation(rr.mantissa, f)
    case None =>
      if x.Represented? && Fits(u, x.rep.format) then Ok(x.rep)
      else
        var best := Best(OperandValue(x), u.wordlength, NearestInteger, true).value;
        BestWordlength(OperandValue(x), u.wordlength, NearestInteger, true);
        MakeRepresentation(best.0, best.1)
  }

  /** `rinfo(signed)`: a step of 2^(1-w) and the signed w-bit mantissa
      range, or a step of 2^-w, zero and 2^w. */
  function Rinfo(u: U.Config, signed: bool): (r: U.Info)
    requires Unit(u)
    ensures var w := u.wordlength;
      var si, ui := Format(w - 1, 0, true), Format(w, 0, false);
      && (signed ==> r == U.Info(Epsilon(Format(0, 1 - w, true)), MantissaRange(si).lo as real, MantissaRange(si).hi as real))
      && (!signed ==> r == U.Info(Epsilon(Format(0, -(w as int), false)), MantissaRange(ui).lo as real, (MantissaRange(ui).hi + 1) as real))
  {
    Exp2Nat(u.wordlength - 1);
    Exp2Nat(u.wordlength);
    var w := u.wordlength;
    if signed then U.Info(Exp2(1 - w), -Exp2(w - 1), Exp2(w - 1) - 1.0)
    else U.Info(Exp2(-(w as int)), 0.0, Exp2(w))
  }

  // ---- The common format, alignment and overflow ----

  /** `_find_common_format(fx, fy)`: equal formats are kept; formats of
      different signs fail an assertion; otherwise the highest MSB and the
      lowest LSB, giving up low bits to stay within the wordlength. */
  function CommonFormat(u: U.Config, fx: Format, fy: Format): (r: Result<Format>)
    requires Unit(u)
    ensures r.Err? <==> fx != fy && fx.signed != fy.signed
    ensures r.Err? ==> r.error == AssertionError
    ensures fx == fy ==> r == Ok(fx)
  {
    if fx == fy then Ok(fx)
    else if fx.signed != fy.signed then Err(AssertionError)
    else
      var s := fx.signed;
      var msb := Max2(fx.msb, fy.msb);
      var lsb := Min2(fx.lsb, fy.lsb);
      var lsb' := if msb - lsb + SignBit(s) > u.wordlength then msb - u.wordlength + SignBit(s) else lsb;
      Ok(Format(msb, lsb', s))
  }

  /** `_align_operand_mantissa(x, f, allows_underflow)`: x's mantissa if x
      is already in f, else x represented in f with the unit's rounding,
      UnderflowError (message only) unless allowed, and a failed assertion
      on overflow. */
  function Align(u: U.Config, x: Representation, f: Format, allowsUnderflow: bool): (r: Result<Mantissa>)
    ensures x.format == f ==> r == Ok(x.mantissa)
    ensures r.Err? ==> r.error.ValueError? || r.error == UnderflowError(None, None) || r.error.AssertionError?
  {
    if x.format == f then Ok(x.mantissa)
    else
      var rr :- Representations.Represent(f, Represented(x), u.rounding);
      if rr.underflow && !allowsUnderflow then Err(UnderflowError(None, None))
      else if rr.overflow then Err(AssertionError)
      else Ok(rr.mantissa)
  }

  /** `_handle_overflow(op, m, f, off_by)`. When the operation may not
      overflow, the format grows by off_by bits at the top and is cut back
      to the wordlength at the bottom, and the mantissa is re-represented
      there with the unit's rounding (an assertion fails if that underflows
      or overflows). Otherwise the overflow behaviour brings the mantissa
      back into f. */
  function HandleOverflow(u: U.Config, op: U.Op, m: Mantissa, f: Format, offBy: nat): (r: Result<(Mantissa, Format)>)
    requires Unit(u)
    ensures r.Ok? && U.AllowsOverflow(u, op) ==> r.value.1 == f
    ensures r.Ok? && !U.AllowsOverflow(u, op) ==>
      r.value.1 == Format(f.msb + offBy, f.msb + offBy - u.wordlength + SignBit(f.signed), f.signed)
    ensures r.Ok? ==> !OverflowsWith(r.value.1, r.value.0)
  {
    if !U.AllowsOverflow(u, op) then
      var s := f.signed;
      var msb := f.msb + offBy;
      var extended := Format(msb, f.lsb, s);
      var g := Format(msb, msb - u.wordlength + SignBit(s), s);
      var src :- MakeRepresentation(m, extended);
      var rr :- Representations.Represent(g, Represented(src), u.rounding);
      if rr.underflow || rr.overflow then Err(AssertionError)
      else Ok((rr.mantissa, g))
    else
      Ok((Handle(u.overflow, m, MantissaRange(f)).value, f))
  }

  /** The tail of add, substract and negate: a mantissa that fits f makes
      the result; one that does not goes through HandleOverflow, one bit
      off. */
  function Output(u: U.Config, op: U.Op, m: Mantissa, f: Format): (r: Result<Representation>)
    requires Unit(u)
    ensures !OverflowsWith(f, m) ==> r == Ok(Rep(m, f))
    ensures r.Ok? ==> Valid(r.value)
  {
    if OverflowsWith(f, m) then
      var h :- HandleOverflow(u, op, m, f, 1);
      MakeRepresentation(h.0, h.1)
    else MakeRepresentation(m, f)
  }

  // ---- The operations ----

  /** `add(x, y)`: both operands aligned to the common format and added. */
  function Add(u: U.Config, x: Representation, y: Representation): (r: Result<Representation>)
    requires Unit(u)
    ensures !Accepts(u, x, y) ==> r == Err(ValueError)
    ensures r.Ok? ==> Valid(r.value) && r.value.format.signed == x.format.signed
  {
    if !Accepts(u, x, y) then Err(ValueError)
    else
      var f := CommonFormat(u, x.format, y.format).value;
      var a :- Align(u, x, f, U.AllowsUnderflow(u, U.Add));
      var b :- Align(u, y, f, U.AllowsUnderflow(u, U.Add));
      Output(u, U.Add, Mantissas.Add(a, b), f)
  }

  /** `substract(x, y)` as written: the aligned mantissa is unpacked into
      two names, which an int (or an interval of ints) refuses with
      TypeError, so once x aligns the operation always fails. */
  function SubstractAsWritten(u: U.Config, x: Representation, y: Representation): (r: Result<Representation>)
    requires Unit(u)
    ensures r.Err?
  {
    if !Accepts(u, x, y) then Err(ValueError)
    else
      var f := CommonFormat(u, x.format, y.format).value;
      var _ :- Align(u, x, f, U.AllowsUnderflow(u, U.Substract));
      Err(TypeError)
  }

  /** `substract(x, y)` as intended: like `add`, except that an unsigned
      difference that overflows raises Python's builtin OverflowError when
      `substract` may not overflow. */
  function Substract(u: U.Config, x: Representation, y: Representation): (r: Result<Representation>)
    requires Unit(u)
    ensures !Accepts(u, x, y) ==> r == Err(ValueError)
    ensures r.Ok? ==> Valid(r.value) && r.value.format.signed == x.format.signed
  {
    if !Accepts(u, x, y) then Err(ValueError)
    else
      var f := CommonFormat(u, x.format, y.format).value;
      var a :- Align(u, x, f, U.AllowsUnderflow(u, U.Substract));
      var b :- Align(u, y, f, U.AllowsUnderflow(u, U.Substract));
      var m := Mantissas.Sub(a, b);
      if OverflowsWith(f, m) && !U.AllowsOverflow(u, U.Substract) && !f.signed then
        Err(BuiltinOverflowError)
      else Output(u, U.Substract, m, f)
  }

  /** The format the exact product is formed in: MSBs and LSBs add up. */
  function ProductFormat(fx: Format, fy: Format): (r: Format)
    ensures Magnitude(r) == Magnitude(fx) + Magnitude(fy)
  {
    Format(fx.msb + fy.msb, fx.lsb + fy.lsb, fx.signed)
  }

  /** `multiply(x, y)`: the mantissa product in the product format; when
      that is wider than the unit, the best format of the unit's wordlength
      for its value, with the unit's rounding. Building the product's
      representation raises ValueError when the product does not fit. */
  function Multiply(u: U.Config, x: Representation, y: Representation): (r: Result<Representation>)
    requires Unit(u)
    ensures !Accepts(u, x, y) ==> r == Err(ValueError)
    ensures r.Ok? ==> Valid(r.value) && Fits(u, r.value.format)
    ensures r.Ok? && Accepts(u, x, y) && Wordlength(ProductFormat(x.format, y.format)) > u.wordlength ==>
      Best(Scaled(Mantissas.Mul(x.mantissa, y.mantissa), x.format.lsb + y.format.lsb), u.wordlength, u.rounding, x.format.signed)
        == Ok((r.value.mantissa, r.value.format))
  {
    if !Accepts(u, x, y) then Err(ValueError)
    else
      var s := x.format.signed;
      var fz := ProductFormat(x.format, y.format);
      var m := Mantissas.Mul(x.mantissa, y.mantissa);
      if Wordlength(fz) > u.wordlength then
        var z :- MakeRepresentation(m, fz);
        var best :- Best(ValueOf(z), u.wordlength, u.rounding, s);
        BestWordlength(ValueOf(z), u.wordlength, u.rounding, s);
        MakeRepresentation(best.0, best.1)
      else MakeRepresentation(m, fz)
  }

  /** `negate(x)`: ValueError for an unsigned operand, zero unchanged,
      otherwise the negated mantissa, growing a bit when it overflows. */
  function Negate(u: U.Config, x: Representation): (r: Result<Representation>)
    requires Unit(u)
    ensures !Fits(u, x.format) || !x.format.signed ==> r == Err(ValueError)
    ensures Fits(u, x.format) && x.format.signed && IsZero(x.mantissa) ==> r == Ok(x)
    ensures r.Ok? && !IsZero(x.mantissa) ==> Valid(r.value)
  {
    if !Fits(u, x.format) || !x.format.signed then Err(ValueError)
    else if IsZero(x.mantissa) then Ok(x)
    else Output(u, U.Negate, Mantissas.Neg(x.mantissa), x.format)
  }

  /** `compare(x, y)`: the difference of the aligned mantissas. */
  function Compare(u: U.Config, x: Representation, y: Representation): (r: Result<Mantissa>)
    requires Unit(u)
    ensures !Accepts(u, x, y) ==> r == Err(ValueError)
  {
    if !Accepts(u, x, y) then Err(ValueError)
    else
      var f := CommonFormat(u, x.format, y.format).value;
      var a :- Align(u, x, f, U.AllowsUnderflow(u, U.Compare));
      var b :- Align(u, y, f, U.AllowsUnderflow(u, U.Compare));
      Ok(Mantissas.Sub(a, b))
  }

  /** `lshift(x, n)`: the same mantissa, n bits higher. */
  function LShift(u: U.Config, x: Representation, n: int): (r: Result<Representation>)
    requires Unit(u)
    ensures !Fits(u, x.format) || n < 0 ==> r == Err(ValueError)
    ensures r.Ok? ==> r.value.mantissa == x.mantissa && Wordlength(r.value.format) == Wordlength(x.format)
  {
    if !Fits(u, x.format) || n < 0 then Err(ValueError)
    else MakeRepresentation(x.mantissa, Format(x.format.msb + n, x.format.lsb + n, x.format.signed))
  }

  /** `rshift(x, n)`: the same mantissa, n bits lower. */
  function RShift(u: U.Config, x: Representation, n: int): (r: Result<Representation>)
    requires Unit(u)
    ensures !Fits(u, x.format) || n < 0 ==> r == Err(ValueError)
    ensures r.Ok? ==> r.value.mantissa == x.mantissa && Wordlength(r.value.format) == Wordlength(x.format)
  {
    if !Fits(u, x.format) || n < 0 then Err(ValueError)
    else MakeRepresentation(x.mantissa, Format(x.format.msb - n, x.format.lsb - n, x.format.signed))
  }

  /** `truncate`, `floor`, `ceil` and `nearest` as written: an operand with
      no fractional bits comes back as it is; any other calls rounding
      functions and `mpfloat`, none of which the module imports (NameError). */
  function RoundAsWritten(u: U.Config, x: Representation, m: Method): (r: Result<Representation>)
    requires Unit(u)
    ensures r.Ok? <==> Fits(u, x.format) && IsInteger(x)
    ensures r.Ok? ==> r.value == x
  {
    if !Fits(u, x.format) then Err(ValueError)
    else if IsInteger(x) then Ok(x)
    else Err(NameError)
  }

  /** The rounding operations as intended: the value rounded to an integer
      with the given method and represented in the operand's own format;
      `truncate` asserts that this never overflows, the others grow the
      format by a bit when it does. */
  function Round(u: U.Config, x: Representation, m: Method): (r: Result<Representation>)
    requires Unit(u)
    ensures !Fits(u, x.format) ==> r == Err(ValueError)
    ensures Fits(u, x.format) && IsInteger(x) ==> r == Ok(x)
    ensures r.Ok? && !IsInteger(x) ==> Valid(r.value)
  {
    if !Fits(u, x.format) then Err(ValueError)
    else if IsInteger(x) then Ok(x)
    else
      match x.mantissa
      case Ranged(_) => Err(TypeError)
      case Scalar(_) =>
        var f := x.format;
        var k := Apply(m, ValueOf(x).x);
        var rr :- Representations.Represent(f, Number(Real(k as real)), BuiltinRound);
        if !rr.overflow then MakeRepresentation(rr.mantissa, f)
        else if m.Truncate? then Err(AssertionError)
        else
          var h :- HandleOverflow(u, U.RoundingOp(m), rr.mantissa, f, 1);
          MakeRepresentation(h.0, h.1)
  }


  // ---- What represent means ----

  /** A real inside the value range of a target format is represented
      there within the error of the unit's rounding: half a step to
      nearest, under a step below for floor, above for ceil, toward zero
      for truncation. It fails only with UnderflowError, when the value
      underflows and the unit does not allow that. */
  lemma RepresentTargetError(u: U.Config, x: real, f: Format)
    requires Unit(u) && Fits(u, f) && (f.signed || x >= 0.0) && CanRepresent(f, Real(x))
    ensures var r, e, m := Represent(u, Number(Real(x)), Some(f)), Epsilon(f), u.rounding;
      && (r.Err? <==> !U.AllowsUnderflow(u, U.Represent) && Representations.Represent(f, Number(Real(x)), m).value.underflow)
      && (r.Err? ==> r.error == UnderflowError(None, None))
      && (r.Ok? ==> (
            && r.value.format == f && r.value.mantissa.Scalar?
            && var d := ValueOf(r.value).x - x;
            && (m.NearestInteger? || m.BuiltinRound? ==> -0.5 * e <= d <= 0.5 * e)
            && (m.Floor? ==> -e < d <= 0.0)
            && (m.Ceil? ==> 0.0 <= d < e)
            && (m.Truncate? ==> -e < d < e)))
  {
    RepresentRealError(f, x, u.rounding);
    RepresentableNeverOverflows(f, x, u.rounding);
  }

  /** Without a target, a value the unit cannot take as it is gets a signed
      format exactly as wide as the unit, quantized at that format's LSB. */
  lemma RepresentBestFormat(u: U.Config, x: Operand)
    requires Unit(u) && !(x.Represented? && Fits(u, x.rep.format))
    ensures var r := Represent(u, x, None);
      && (r.Err? ==> r.error == ValueError)
      && (r.Ok? ==> (
            && Wordlength(r.value.format) == u.wordlength && r.value.format.signed && Valid(r.value)
            && (|| r.value.mantissa == FloatingPoint.Quantize(OperandValue(x), -r.value.format.lsb, NearestInteger)
                || r.value.mantissa == FloatingPoint.Quantize(OperandValue(x), -r.value.format.lsb, BuiltinRound))))
  {
    var r := Represent(u, x, None);
    var b := Best(OperandValue(x), u.wordlength, NearestInteger, true);
    BestWordlength(OperandValue(x), u.wordlength, NearestInteger, true);
    assert r == MakeRepresentation(b.value.0, b.value.1);
  }

  // ---- What the common format and alignment mean ----

  /** The common format of two formats of one sign the unit can handle
      keeps the higher MSB and fits the unit; it keeps the lower LSB exactly
      when the span of both fits, and is otherwise exactly as wide as the
      unit. */
  lemma CommonFormatMeans(u: U.Config, fx: Format, fy: Format)
    requires Unit(u) && fx.signed == fy.signed && Fits(u, fx) && Fits(u, fy)
    ensures CommonFormat(u, fx, fy).Ok?
    ensures var f := CommonFormat(u, fx, fy).value;
      && f.signed == fx.signed && f.msb == Max2(fx.msb, fy.msb) && Fits(u, f)
      && (Lossless(u, fx, fy) <==> f.lsb == Min2(fx.lsb, fy.lsb))
      && (!Lossless(u, fx, fy) ==> Wordlength(f) == u.wordlength)
  {
  }

  /** A mantissa of format g, read in a format f of the same sign that
      reaches at least as high and as low, is g's mantissa shifted left by
      the difference of the LSBs. */
  function Aligned(m: Mantissa, g: Format, f: Format): Mantissa
    requires f.lsb <= g.lsb
  {
    ShiftLeft(m, g.lsb - f.lsb)
  }

  /** A mantissa that fits g still fits once aligned to a format that
      covers g. */
  lemma AlignedFits(m: Mantissa, g: Format, f: Format)
    requires Within(m, MantissaRange(g)) && g.signed == f.signed
    requires f.lsb <= g.lsb && g.msb <= f.msb
    ensures Within(Aligned(m, g, f), MantissaRange(f))
    ensures IsZero(Aligned(m, g, f)) <==> IsZero(m)
  {
    var k: nat := g.lsb - f.lsb;
    var a, b := Magnitude(g), Magnitude(f);
    var P, p, Q := Pow2(a), Pow2(k), Pow2(b);
    Pow2Add(a, k);
    Pow2Monotone(a + k, b);
    BoundsScale(Lo(m), Hi(m), P, p, Q, g.signed);
  }

  /** The arithmetic behind AlignedFits: [-P, P - 1] (or [0, P - 1]) scaled
      by p lands in [-Q, Q - 1] (or [0, Q - 1]) when P * p <= Q, and only
      zero scales to zero. */
  lemma BoundsScale(lo: int, hi: int, P: int, p: int, Q: int, signed: bool)
    requires P >= 1 && p >= 1 && P * p <= Q
    requires (if signed then -P else 0) <= lo && hi <= P - 1
    ensures (if signed then -Q else 0) <= lo * p && hi * p <= Q - 1
    ensures lo * p == 0 <==> lo == 0
    ensures hi * p == 0 <==> hi == 0
  {
    Scale(hi, P - 1, p);
    assert (P - 1) * p == P * p - p;
    if signed {
      Scale(-P, lo, p);
      assert (-P) * p == -(P * p);
    } else {
      Scale(0, lo, p);
    }
    ZeroProduct(lo, p);
    ZeroProduct(hi, p);
  }

  lemma ZeroProduct(a: int, p: int)
    requires p >= 1
    ensures a * p == 0 <==> a == 0
  {
    if a > 0 {
      Scale(1, a, p);
    } else if a < 0 {
      Scale(a, -1, p);
    }
  }

  /** Representing x in a format of its sign that covers it, with a method
      that shifts mantissas, is exact: the aligned mantissa, no underflow,
      no overflow, and the same value. */
  lemma RepresentCovering(f: Format, x: Representation, meth: Method)
    requires HasShift(meth) && Valid(x) && x.format.signed == f.signed
    requires f.lsb <= x.format.lsb && x.format.msb <= f.msb
    ensures Representations.Represent(f, Represented(x), meth) == Ok(Representing(Aligned(x.mantissa, x.format, f), false, false))
    ensures Scaled(Aligned(x.mantissa, x.format, f), f.lsb) == ValueOf(x)
  {
    var k: nat := x.format.lsb - f.lsb;
    var m := x.mantissa;
    ShiftLeftExact(meth, Lo(m), k);
    ShiftLeftExact(meth, Hi(m), k);
    MantissaByBounds(Shift(meth, m, k), ShiftLeft(m, k));
    AlignedFits(m, x.format, f);
    ScaledShiftLeft(m, k, f.lsb);
    RepresentShifted(f, x, meth);
  }

  /** Aligning an operand to a format of its sign that covers it is exact. */
  lemma AlignExact(u: U.Config, x: Representation, f: Format, allowsUnderflow: bool)
    requires HasShift(u.rounding) && Valid(x) && x.format.signed == f.signed
    requires f.lsb <= x.format.lsb && x.format.msb <= f.msb
    ensures Align(u, x, f, allowsUnderflow) == Ok(Aligned(x.mantissa, x.format, f))
    ensures Scaled(Aligned(x.mantissa, x.format, f), f.lsb) == ValueOf(x)
  {
    if x.format == f {
      ShiftLeftZero(x.mantissa);
    } else {
      RepresentCovering(f, x, u.rounding);
    }
  }

  lemma ShiftLeftZero(m: Mantissa)
    ensures ShiftLeft(m, 0) == m
  {
    assert Pow2(0) == 1;
  }

  // ---- Growing by a bit ----

  /** A format one bit higher. */
  function Grown(f: Format): Format {
    Format(f.msb + 1, f.lsb, f.signed)
  }

  /** The sum of two mantissas of a format fits the format one bit higher. */
  lemma SumFitsGrown(m: Mantissa, n: Mantissa, f: Format)
    requires Within(m, MantissaRange(f)) && Within(n, MantissaRange(f))
    ensures Within(Mantissas.Add(m, n), MantissaRange(Grown(f)))
  {
    assert Pow2(Magnitude(Grown(f))) == 2 * Pow2(Magnitude(f));
  }

  /** So does the difference of two signed ones, and its negation. */
  lemma DifferenceFitsGrown(m: Mantissa, n: Mantissa, f: Format)
    requires f.signed && Within(m, MantissaRange(f)) && Within(n, MantissaRange(f))
    ensures Within(Mantissas.Sub(m, n), MantissaRange(Grown(f)))
    ensures Within(Mantissas.Neg(m), MantissaRange(Grown(f)))
  {
    assert Pow2(Magnitude(Grown(f))) == 2 * Pow2(Magnitude(f));
  }

  /** When the format has a bit to spare and the operation may not
      overflow, a result that outgrew f by one bit is kept exactly: the
      format grows at the top, and what it gives up at the bottom is below
      f's LSB. */
  lemma OutputExact(u: U.Config, op: U.Op, m: Mantissa, f: Format)
    requires Unit(u) && HasShift(u.rounding) && !U.AllowsOverflow(u, op)
    requires Wordlength(f) < u.wordlength && Within(m, MantissaRange(Grown(f)))
    ensures Output(u, op, m, f).Ok?
    ensures ValueOf(Output(u, op, m, f).value) == Scaled(m, f.lsb)
    ensures Fits(u, Output(u, op, m, f).value.format)
  {
    if OverflowsWith(f, m) {
      var s := f.signed;
      var e := Grown(f);
      var g := Format(f.msb + 1, f.msb + 1 - u.wordlength + SignBit(s), s);
      assert MakeRepresentation(m, e) == Ok(Rep(m, e));
      RepresentCovering(g, Rep(m, e), u.rounding);
      assert HandleOverflow(u, op, m, f, 1) == Ok((Aligned(m, e, g), g));
    }
  }

  // ---- What add, substract and negate mean ----

  /** The spans of two formats leave a bit to spare in the unit. */
  predicate SpareBit(u: U.Config, fx: Format, fy: Format) {
    Max2(fx.msb, fy.msb) - Min2(fx.lsb, fy.lsb) + SignBit(fx.signed) < u.wordlength
  }

  /** When the common format loses nothing, `add` aligns exactly and adds:
      what is left to settle is a mantissa worth the sum of the values, one
      bit wider at most. */
  lemma AddAligned(u: U.Config, x: Representation, y: Representation)
    requires Unit(u) && Accepts(u, x, y) && Valid(x) && Valid(y) && HasShift(u.rounding)
    requires Lossless(u, x.format, y.format)
    ensures var f := CommonFormat(u, x.format, y.format).value;
      var s := Mantissas.Add(Aligned(x.mantissa, x.format, f), Aligned(y.mantissa, y.format, f));
      && Add(u, x, y) == Output(u, U.Add, s, f)
      && Scaled(s, f.lsb) == Plus(ValueOf(x), ValueOf(y))
      && Within(s, MantissaRange(Grown(f)))
  {
    CommonFormatMeans(u, x.format, y.format);
    var f := CommonFormat(u, x.format, y.format).value;
    AlignExact(u, x, f, U.AllowsUnderflow(u, U.Add));
    AlignExact(u, y, f, U.AllowsUnderflow(u, U.Add));
    AlignedFits(x.mantissa, x.format, f);
    AlignedFits(y.mantissa, y.format, f);
    var a, b := Aligned(x.mantissa, x.format, f), Aligned(y.mantissa, y.format, f);
    ScaledAdd(a, b, f.lsb);
    SumFitsGrown(a, b, f);
  }

  /** With a bit to spare, a sum that may not overflow is exact. */
  lemma AddExact(u: U.Config, x: Representation, y: Representation)
    requires Unit(u) && Accepts(u, x, y) && Valid(x) && Valid(y) && HasShift(u.rounding)
    requires SpareBit(u, x.format, y.format) && !U.AllowsOverflow(u, U.Add)
    ensures Add(u, x, y).Ok? && Fits(u, Add(u, x, y).value.format)
    ensures ValueOf(Add(u, x, y).value) == Plus(ValueOf(x), ValueOf(y))
  {
    AddAligned(u, x, y);
    CommonFormatMeans(u, x.format, y.format);
    var f := CommonFormat(u, x.format, y.format).value;
    var s := Mantissas.Add(Aligned(x.mantissa, x.format, f), Aligned(y.mantissa, y.format, f));
    OutputExact(u, U.Add, s, f);
  }

  /** `substract`, as intended, aligns like `add`. */
  lemma SubstractAligned(u: U.Config, x: Representation, y: Representation)
    requires Unit(u) && Accepts(u, x, y) && Valid(x) && Valid(y) && HasShift(u.rounding)
    requires Lossless(u, x.format, y.format)
    ensures var f := CommonFormat(u, x.format, y.format).value;
      var d := Mantissas.Sub(Aligned(x.mantissa, x.format, f), Aligned(y.mantissa, y.format, f));
      && Substract(u, x, y) == (if OverflowsWith(f, d) && !U.AllowsOverflow(u, U.Substract) && !f.signed
                                then Err(BuiltinOverflowError) else Output(u, U.Substract, d, f))
      && Scaled(d, f.lsb) == Minus(ValueOf(x), ValueOf(y))
  {
    CommonFormatMeans(u, x.format, y.format);
    var f := CommonFormat(u, x.format, y.format).value;
    AlignExact(u, x, f, U.AllowsUnderflow(u, U.Substract));
    AlignExact(u, y, f, U.AllowsUnderflow(u, U.Substract));
    var a, b := Aligned(x.mantissa, x.format, f), Aligned(y.mantissa, y.format, f);
    ScaledSub(a, b, f.lsb);
  }

  /** With a bit to spare, a signed difference that may not overflow is exact. */
  lemma SubstractExact(u: U.Config, x: Representation, y: Representation)
    requires Unit(u) && Accepts(u, x, y) && Valid(x) && Valid(y) && HasShift(u.rounding)
    requires x.format.signed && SpareBit(u, x.format, y.format) && !U.AllowsOverflow(u, U.Substract)
    ensures Substract(u, x, y).Ok? && Fits(u, Substract(u, x, y).value.format)
    ensures ValueOf(Substract(u, x, y).value) == Minus(ValueOf(x), ValueOf(y))
  {
    SubstractAligned(u, x, y);
    CommonFormatMeans(u, x.format, y.format);
    var f := CommonFormat(u, x.format, y.format).value;
    var a, b := Aligned(x.mantissa, x.format, f), Aligned(y.mantissa, y.format, f);
    AlignedFits(x.mantissa, x.format, f);
    AlignedFits(y.mantissa, y.format, f);
    DifferenceFitsGrown(a, b, f);
    OutputExact(u, U.Substract, Mantissas.Sub(a, b), f);
  }

  /** An unsigned difference below zero cannot be kept: Python's builtin OverflowError. */
  lemma SubstractUnsignedBelowZero(u: U.Config, x: Representation, y: Representation)
    requires Unit(u) && Accepts(u, x, y) && Valid(x) && Valid(y) && HasShift(u.rounding)
    requires !x.format.signed && Lossless(u, x.format, y.format) && !U.AllowsOverflow(u, U.Substract)
    requires x.mantissa.Scalar? && y.mantissa.Scalar? && ValueOf(x).x < ValueOf(y).x
    ensures Substract(u, x, y) == Err(BuiltinOverflowError)
  {
    CommonFormatMeans(u, x.format, y.format);
    var f := CommonFormat(u, x.format, y.format).value;
    AlignExact(u, x, f, U.AllowsUnderflow(u, U.Substract));
    AlignExact(u, y, f, U.AllowsUnderflow(u, U.Substract));
    var a, b := Aligned(x.mantissa, x.format, f), Aligned(y.mantissa, y.format, f);
    ScaledScalarOrder(a.v, b.v, f.lsb);
    assert Lo(Mantissas.Sub(a, b)) < 0;
  }

  lemma ScaledScalarOrder(a: int, b: int, lsb: int)
    ensures Scaled(Scalar(a), lsb).x < Scaled(Scalar(b), lsb).x <==> a < b
    ensures Scaled(Scalar(a), lsb).x == Scaled(Scalar(b), lsb).x <==> a == b
  {
    Exp2Positive(lsb);
    ScaleOrder(a, b, Exp2(lsb));
  }

  /** As written, `substract` never returns: wherever the intended operation
      gets past aligning x, the written one raises TypeError. */
  lemma SubstractAsWrittenFails(u: U.Config, x: Representation, y: Representation)
    requires Unit(u) && Accepts(u, x, y) && Valid(x) && Valid(y) && HasShift(u.rounding)
    requires Lossless(u, x.format, y.format)
    ensures SubstractAsWritten(u, x, y) == Err(TypeError)
  {
    CommonFormatMeans(u, x.format, y.format);
    AlignExact(u, x, CommonFormat(u, x.format, y.format).value, U.AllowsUnderflow(u, U.Substract));
  }

  /** With a bit to spare, negation that may not overflow is exact. */
  lemma NegateExact(u: U.Config, x: Representation)
    requires Unit(u) && Fits(u, x.format) && x.format.signed && Valid(x) && HasShift(u.rounding)
    requires Wordlength(x.format) < u.wordlength && !U.AllowsOverflow(u, U.Negate)
    ensures Negate(u, x).Ok? && Fits(u, Negate(u, x).value.format)
    ensures ValueOf(Negate(u, x).value) == Negated(ValueOf(x))
  {
    ScaledNeg(x.mantissa, x.format.lsb);
    if !IsZero(x.mantissa) {
      DifferenceFitsGrown(x.mantissa, x.mantissa, x.format);
      OutputExact(u, U.Negate, Mantissas.Neg(x.mantissa), x.format);
    } else {
      assert Neg(x.mantissa).Scalar? == x.mantissa.Scalar?;
      MantissaByBounds(Neg(x.mantissa), x.mantissa);
    }
  }

  /** Only the most negative mantissa of a format overflows when negated. */
  lemma NegateOverflowsOnlyAtMinimum(x: Representation)
    requires Valid(x) && x.format.signed
    ensures OverflowsWith(x.format, Mantissas.Neg(x.mantissa)) <==> Lo(x.mantissa) == -(Pow2(Magnitude(x.format)) as int)
  {
  }

  // ---- What compare means ----

  /** When the common format loses nothing, the sign of `compare` is the
      order of the values. */
  lemma CompareOrders(u: U.Config, x: Representation, y: Representation)
    requires Unit(u) && Accepts(u, x, y) && Valid(x) && Valid(y) && HasShift(u.rounding)
    requires Lossless(u, x.format, y.format) && x.mantissa.Scalar? && y.mantissa.Scalar?
    ensures Compare(u, x, y).Ok? && Compare(u, x, y).value.Scalar?
    ensures Compare(u, x, y).value.v < 0 <==> ValueOf(x).x < ValueOf(y).x
    ensures Compare(u, x, y).value.v == 0 <==> ValueOf(x).x == ValueOf(y).x
  {
    CommonFormatMeans(u, x.format, y.format);
    var f := CommonFormat(u, x.format, y.format).value;
    AlignExact(u, x, f, U.AllowsUnderflow(u, U.Compare));
    AlignExact(u, y, f, U.AllowsUnderflow(u, U.Compare));
    var a, b := Aligned(x.mantissa, x.format, f), Aligned(y.mantissa, y.format, f);
    ScaledScalarOrder(a.v, b.v, f.lsb);
  }

  // ---- What multiply means ----

  lemma MulLe(a: int, b: int, c: int, d: int)
    requires 0 <= a <= c && 0 <= b <= d
    ensures a * b <= c * d
  {
    Scale(a, c, b);
    Scale(b, d, c);
  }

  /** Products of signed mantissas in [-P, P - 1] and [-Q, Q - 1] stay in
      [-PQ, PQ - 1], except (-P)(-Q) = PQ. */
  lemma SignedProductRange(a: int, b: int, P: int, Q: int)
    requires P >= 1 && Q >= 1 && -P <= a <= P - 1 && -Q <= b <= Q - 1
    ensures -(P * Q) <= a * b
    ensures a * b <= P * Q - 1 <==> !(a == -P && b == -Q)
  {
    var A, B := Abs(a), Abs(b);
    MulLe(A, B, P, Q);
    assert a * b == A * B || a * b == -(A * B);
    if (a >= 0) == (b >= 0) {
      assert a * b == A * B;
      if A <= P - 1 {
        MulLe(A, B, P - 1, Q);
        assert (P - 1) * Q == P * Q - Q;
      } else if B <= Q - 1 {
        MulLe(A, B, P, Q - 1);
        assert P * (Q - 1) == P * Q - P;
      }
    } else {
      assert a * b == -(A * B);
    }
  }

  /** Products of unsigned mantissas in [0, P - 1] and [0, Q - 1] stay in
      [0, PQ - 1]. */
  lemma UnsignedProductRange(a: int, b: int, P: int, Q: int)
    requires P >= 1 && Q >= 1 && 0 <= a <= P - 1 && 0 <= b <= Q - 1
    ensures 0 <= a * b <= P * Q - 1
  {
    MulLe(a, b, P - 1, Q - 1);
    MulLe(0, b, a, Q);
    assert (P - 1) * (Q - 1) == P * Q - P - Q + 1;
  }

  /** The product of two scalar mantissas fits the product format except
      for the signed corner: both operands at the most negative mantissa. */
  lemma ProductFitsExceptCorner(a: int, b: int, fx: Format, fy: Format)
    requires fx.signed == fy.signed
    requires Within(Scalar(a), MantissaRange(fx)) && Within(Scalar(b), MantissaRange(fy))
    ensures OverflowsWith(ProductFormat(fx, fy), Scalar(a * b)) <==>
      fx.signed && a == -(Pow2(Magnitude(fx)) as int) && b == -(Pow2(Magnitude(fy)) as int)
  {
    var P, Q := Pow2(Magnitude(fx)), Pow2(Magnitude(fy));
    Pow2Add(Magnitude(fx), Magnitude(fy));
    if fx.signed {
      SignedProductRange(a, b, P, Q);
    } else {
      UnsignedProductRange(a, b, P, Q);
    }
  }

  /** A product that fits the unit is exact: the mantissa product in the
      product format, worth the product of the values; only the signed
      corner (-2^kx)(-2^ky) is refused, with ValueError. */
  lemma MultiplyExact(u: U.Config, x: Representation, y: Representation)
    requires Unit(u) && Accepts(u, x, y) && Valid(x) && Valid(y)
    requires x.mantissa.Scalar? && y.mantissa.Scalar?
    requires Wordlength(ProductFormat(x.format, y.format)) <= u.wordlength
    ensures var corner := x.format.signed && x.mantissa.v == -(Pow2(Magnitude(x.format)) as int) &&
        y.mantissa.v == -(Pow2(Magnitude(y.format)) as int);
      && (corner ==> Multiply(u, x, y) == Err(ValueError))
      && (!corner ==> Multiply(u, x, y) == Ok(Rep(Scalar(x.mantissa.v * y.mantissa.v), ProductFormat(x.format, y.format))))
    ensures Multiply(u, x, y).Ok? ==> ValueOf(Multiply(u, x, y).value) == Times(ValueOf(x), ValueOf(y))
  {
    ProductFitsExceptCorner(x.mantissa.v, y.mantissa.v, x.format, y.format);
    ScaledMul(x.mantissa.v, y.mantissa.v, x.format.lsb, y.format.lsb);
  }

  /** The signed corner is refused whatever the wordlength. */
  lemma MultiplyCorner(u: U.Config, x: Representation, y: Representation)
    requires Unit(u) && Accepts(u, x, y) && x.format.signed
    requires x.mantissa == Scalar(-(Pow2(Magnitude(x.format)) as int))
    requires y.mantissa == Scalar(-(Pow2(Magnitude(y.format)) as int))
    ensures Multiply(u, x, y) == Err(ValueError)
  {
    ProductFitsExceptCorner(x.mantissa.v, y.mantissa.v, x.format, y.format);
  }

  /** A product wider than the unit is re-represented by `best`: the result
      is what `best` gives for the exact product's value at the unit's
      wordlength and rounding, so it has exactly that wordlength and the
      operand's sign, and its mantissa is that value quantized at the new
      LSB; for scalar operands that value is the product of theirs. */
  lemma MultiplyWide(u: U.Config, x: Representation, y: Representation)
    requires Unit(u) && Accepts(u, x, y)
    requires Wordlength(ProductFormat(x.format, y.format)) > u.wordlength
    ensures var v := Scaled(Mantissas.Mul(x.mantissa, y.mantissa), x.format.lsb + y.format.lsb);
      var r := Multiply(u, x, y);
      (r.Ok? ==> (
        && Best(v, u.wordlength, u.rounding, x.format.signed) == Ok((r.value.mantissa, r.value.format))
        && Wordlength(r.value.format) == u.wordlength
        && r.value.format.signed == x.format.signed
        && (r.value.mantissa == FloatingPoint.Quantize(v, -r.value.format.lsb, u.rounding) ||
            r.value.mantissa == FloatingPoint.Quantize(v, -r.value.format.lsb, BuiltinRound))))
    ensures x.mantissa.Scalar? && y.mantissa.Scalar? ==>
      Scaled(Mantissas.Mul(x.mantissa, y.mantissa), x.format.lsb + y.format.lsb) == Times(ValueOf(x), ValueOf(y))
  {
    var v := Scaled(Mantissas.Mul(x.mantissa, y.mantissa), x.format.lsb + y.format.lsb);
    var r := Multiply(u, x, y);
    if r.Ok? {
      BestWordlength(v, u.wordlength, u.rounding, x.format.signed);
    }
    if x.mantissa.Scalar? && y.mantissa.Scalar? {
      ScaledMul(x.mantissa.v, y.mantissa.v, x.format.lsb, y.format.lsb);
    }
  }

  // ---- What the shifts mean ----

  /** `lshift` keeps the mantissa and moves the format up: the value is
      multiplied by 2^n. */
  lemma LShiftScales(u: U.Config, x: Representation, n: nat)
    requires Unit(u) && Fits(u, x.format) && Valid(x)
    ensures LShift(u, x, n) == Ok(Rep(x.mantissa, Format(x.format.msb + n, x.format.lsb + n, x.format.signed)))
    ensures ValueOf(LShift(u, x, n).value) == Times(ValueOf(x), Real(Exp2(n)))
  {
    var f := Format(x.format.msb + n, x.format.lsb + n, x.format.signed);
    assert Valid(Rep(x.mantissa, f));
    assert LShift(u, x, n) == Ok(Rep(x.mantissa, f));
    ScaledTimesPow(x.mantissa, x.format.lsb, n);
  }

  /** `rshift` keeps the mantissa and moves the format down: the value is
      divided by 2^n, exactly. */
  lemma RShiftScales(u: U.Config, x: Representation, n: nat)
    requires Unit(u) && Fits(u, x.format) && Valid(x)
    ensures RShift(u, x, n) == Ok(Rep(x.mantissa, Format(x.format.msb - n, x.format.lsb - n, x.format.signed)))
    ensures ValueOf(RShift(u, x, n).value) == Times(ValueOf(x), Real(Exp2(-(n as int))))
  {
    ScaledTimesPow(x.mantissa, x.format.lsb, -(n as int));
  }

  /** Shifting left and then right by the same count gives x back. */
  lemma ShiftsCancel(u: U.Config, x: Representation, n: nat)
    requires Unit(u) && Fits(u, x.format) && Valid(x)
    ensures LShift(u, x, n).Ok? && RShift(u, LShift(u, x, n).value, n) == Ok(x)
  {
  }

  // ---- What rinfo and the rounding operations mean ----

  /** Signed, `rinfo` gives the step of a w-bit fraction but the ends of
      the w-bit integer mantissa range; unsigned, the step of a w-bit
      fraction, zero, and one past the top of the w-bit unsigned range. */
  lemma RinfoMeans(u: U.Config)
    requires Unit(u)
    ensures var w := u.wordlength;
      var si, ui := Format(w - 1, 0, true), Format(w, 0, false);
      && Rinfo(u, true) == U.Info(Epsilon(Format(0, 1 - w, true)),
                                 MantissaRange(si).lo as real, MantissaRange(si).hi as real)
      && Rinfo(u, false) == U.Info(Epsilon(Format(0, -(w as int), false)),
                                  MantissaRange(ui).lo as real, (MantissaRange(ui).hi + 1) as real)
  {
    Exp2Nat(u.wordlength - 1);
    Exp2Nat(u.wordlength);
  }

  /** Eight bits: 2^-7, -128 and 127 signed; 2^-8, 0 and 256 unsigned. */
  lemma RinfoExample(u: U.Config)
    requires Unit(u) && u.wordlength == 8
    ensures Rinfo(u, true) == U.Info(0.0078125, -128.0, 127.0)
    ensures Rinfo(u, false) == U.Info(0.00390625, 0.0, 256.0)
  {
    Exp2Nat(7);
    Exp2Nat(8);
    Reciprocal(7);
    Reciprocal(8);
  }

  /** As written, no rounding operation ever rounds. */
  lemma RoundAsWrittenNeverRounds(u: U.Config, x: Representation, m: Method)
    requires Unit(u) && Fits(u, x.format) && !IsInteger(x)
    ensures RoundAsWritten(u, x, m) == Err(NameError)
  {
  }

  /** As intended, a rounded value that fits the operand's format is the
      integer the method rounds the value to, off by less than one (at
      most a half to nearest). */
  lemma RoundExact(u: U.Config, x: Representation, m: Method)
    requires Unit(u) && Fits(u, x.format) && !IsInteger(x) && x.mantissa.Scalar?
    requires x.format.signed || Apply(m, ValueOf(x).x) >= 0
    requires !OverflowsWith(x.format, Scalar(Apply(m, ValueOf(x).x) * Pow2(-x.format.lsb)))
    ensures var k := Apply(m, ValueOf(x).x);
      Round(u, x, m) == Ok(Rep(Scalar(k * Pow2(-x.format.lsb)), x.format)) && ValueOf(Round(u, x, m).value) == Real(k as real)
    ensures var d := ValueOf(Round(u, x, m).value).x - ValueOf(x).x;
      && (m.NearestInteger? || m.BuiltinRound? ==> -0.5 <= d <= 0.5)
      && (m.Floor? ==> -1.0 < d <= 0.0)
      && (m.Ceil? ==> 0.0 <= d < 1.0)
      && (m.Truncate? ==> -1.0 < d < 1.0)
  {
    RepresentInteger(x.format, Apply(m, ValueOf(x).x));
    ApplyError(m, ValueOf(x).x);
  }

  // ---- The source's own examples ----

  /** The unit the examples use: eight bits, rounding to nearest, wrapping
      around, and neither overflow nor underflow allowed. */
  predicate ExampleUnit(u: U.Config) {
    u == U.MakeConfig(8, NearestInteger, Wrapping, U.Nothing, U.Nothing, U.MultiFormat).value
  }

  lemma ExampleUnitFlags(u: U.Config)
    requires ExampleUnit(u)
    ensures Unit(u) && u.wordlength == 8 && u.rounding == NearestInteger
    ensures forall op :: !U.AllowsOverflow(u, op) && !U.AllowsUnderflow(u, op)
  {
  }

  lemma Exp2Examples()
    ensures Exp2(0) == 1.0 && Exp2(1) == 2.0 && Exp2(2) == 4.0 && Exp2(3) == 8.0 && Exp2(4) == 16.0
    ensures Exp2(5) == 32.0 && Exp2(6) == 64.0 && Exp2(7) == 128.0 && Exp2(8) == 256.0
    ensures Exp2(-1) == 0.5 && Exp2(-4) == 0.0625 && Exp2(-7) == 0.0078125 && Exp2(-8) == 0.00390625
  {
    Exp2Nat(8);
    Reciprocal(1);
    Reciprocal(4);
    Reciprocal(7);
    Reciprocal(8);
  }

  /** Into a given format: 1.25 is 20 in Q3.4 and 40 in uQ3.5. */
  lemma RepresentTargetExamples(u: U.Config)
    requires ExampleUnit(u)
    ensures Represent(u, Number(Real(1.25)), Some(Format(2, -4, true))) == Ok(Rep(Scalar(20), Format(2, -4, true)))
    ensures Represent(u, Number(Real(1.25)), Some(Format(3, -5, false))) == Ok(Rep(Scalar(40), Format(3, -5, false)))
  {
    ExampleUnitFlags(u);
    Exp2Examples();
    assert Pow2(4) == 16 && Pow2(5) == 32 && Pow2(7) == 128 && Pow2(8) == 256;
    RepresentReal(Format(2, -4, true), 1.25, NearestInteger);
    RepresentReal(Format(3, -5, false), 1.25, NearestInteger);
    assert Ldexp(1.25, 4) == 20.0 && Ldexp(1.25, 5) == 40.0;
  }

  /** 12.5 is 50 in Q6.2 and 200 in uQ4.4. */
  lemma RepresentCoarseTargetExamples(u: U.Config)
    requires ExampleUnit(u)
    ensures Represent(u, Number(Real(12.5)), Some(Format(5, -2, true))) == Ok(Rep(Scalar(50), Format(5, -2, true)))
    ensures Represent(u, Number(Real(12.5)), Some(Format(4, -4, false))) == Ok(Rep(Scalar(200), Format(4, -4, false)))
  {
    ExampleUnitFlags(u);
    Exp2Examples();
    assert Pow2(2) == 4 && Pow2(3) == 8 && Pow2(4) == 16 && Pow2(7) == 128 && Pow2(8) == 256;
    RepresentReal(Format(5, -2, true), 12.5, NearestInteger);
    RepresentReal(Format(4, -4, false), 12.5, NearestInteger);
    assert Ldexp(12.5, 2) == 50.0 && Ldexp(12.5, 4) == 200.0;
  }

  /** `best` at eight bits without an adjustment, given the MSB and the
      quantization. */
  lemma BestAt(x: real, msb: int, q: int)
    requires x > 0.0 && Exp2(msb - 1) <= x < Exp2(msb)
    requires FloatingPoint.QuantizeReal(x, 7 - msb, NearestInteger) == q && 0 <= q < 128
    ensures Best(Real(x), 8, NearestInteger, true) == Ok((Scalar(q), Format(msb, msb - 7, true)))
  {
    FloatingPoint.FloorLog2Unique(x, msb - 1);
    Exp2Examples();
    BestUnadjusted(Real(x), 8, NearestInteger, true, msb, Scalar(q));
  }

  /** Without a format, a real gets the best eight-bit format. */
  lemma RepresentBestAt(u: U.Config, x: real, msb: int, q: int)
    requires ExampleUnit(u)
    requires x > 0.0 && Exp2(msb - 1) <= x < Exp2(msb)
    requires FloatingPoint.QuantizeReal(x, 7 - msb, NearestInteger) == q && 0 <= q < 128
    ensures Represent(u, Number(Real(x)), None) == Ok(Rep(Scalar(q), Format(msb, msb - 7, true)))
  {
    ExampleUnitFlags(u);
    BestAt(x, msb, q);
    assert Pow2(7) == 128;
  }

  /** The bracketing and quantization facts of the examples below. */
  lemma BestFacts()
    ensures Exp2(-1) <= 0.5 < Exp2(0) && FloatingPoint.QuantizeReal(0.5, 7, NearestInteger) == 64
    ensures Exp2(0) <= 1.25 < Exp2(1) && FloatingPoint.QuantizeReal(1.25, 6, NearestInteger) == 80
    ensures Exp2(3) <= 12.5 < Exp2(4) && FloatingPoint.QuantizeReal(12.5, 3, NearestInteger) == 100
    ensures Exp2(3) <= 15.6 < Exp2(4) && FloatingPoint.QuantizeReal(15.6, 3, NearestInteger) == 125
  {
    Exp2Examples();
    assert Ldexp(0.5, 7) == 64.0;
    assert Ldexp(1.25, 6) == 80.0;
    assert Ldexp(12.5, 3) == 100.0;
    assert Ldexp(15.6, 3) == 124.8;
    assert RoundHalfEven(124.8) == 125;
  }

  /** Without a format: the best eight-bit format, 0.5 as 64 in Q1.7,
      1.25 as 80 in Q2.6, 12.5 as 100 and 15.6 as 125 in Q5.3. */
  lemma RepresentBestExamples(u: U.Config)
    requires ExampleUnit(u)
    ensures Represent(u, Number(Real(0.5)), None) == Ok(Rep(Scalar(64), Format(0, -7, true)))
    ensures Represent(u, Number(Real(1.25)), None) == Ok(Rep(Scalar(80), Format(1, -6, true)))
    ensures Represent(u, Number(Real(12.5)), None) == Ok(Rep(Scalar(100), Format(4, -3, true)))
    ensures Represent(u, Number(Real(15.6)), None) == Ok(Rep(Scalar(125), Format(4, -3, true)))
  {
    BestFacts();
    RepresentBestAt(u, 0.5, 0, 64);
    RepresentBestAt(u, 1.25, 1, 80);
    RepresentBestAt(u, 12.5, 4, 100);
    RepresentBestAt(u, 15.6, 4, 125);
  }

  /** Zero gets the format of the least MSB estimate, Q1.7. */
  lemma RepresentZeroExample(u: U.Config)
    requires ExampleUnit(u)
    ensures Represent(u, Number(Real(0.0)), None) == Ok(Rep(Scalar(0), Format(0, -7, true)))
  {
    ExampleUnitFlags(u);
    BestExamples();
    assert Pow2(7) == 128;
  }

  /** The interval [-1, 1] is [-64, 64] in Q2.6: its MSB is the larger
      of its bounds' MSBs. */
  lemma RepresentIntervalExample(u: U.Config)
    requires ExampleUnit(u)
    ensures Represent(u, Number(Span(Intervals.Bounds(-1.0, 1.0))), None) ==
      Ok(Rep(Ranged(IntBounds(-64, 64)), Format(1, -6, true)))
  {
    ExampleUnitFlags(u);
    FloatingPoint.MsbExamples();
    Exp2Examples();
    assert Ldexp(1.0, 6) == 64.0 && Ldexp(-1.0, 6) == -64.0;
    BestUnadjusted(Span(Intervals.Bounds(-1.0, 1.0)), 8, NearestInteger, true, 1, Ranged(IntBounds(-64, 64)));
    assert Pow2(7) == 128;
  }

  /** The errors: uQ(8) is nine bits wide, so -1 is refused for its width
      before its sign is looked at; 0.001 underflows Q1.7, 10 overflows it,
      and Q(15) is sixteen bits wide. */
  lemma RepresentErrorExamples(u: U.Config)
    requires ExampleUnit(u)
    ensures Represent(u, Number(Real(-1.0)), Some(Format(1, -8, false))) == Err(ValueError)
    ensures Represent(u, Number(Real(0.001)), Some(Format(0, -7, true))) == Err(UnderflowError(None, None))
    ensures Represent(u, Number(Real(10.0)), Some(Format(0, -7, true))) == Err(BuiltinOverflowError)
    ensures Represent(u, Number(Real(0.0)), Some(Format(0, -15, true))) == Err(ValueError)
  {
    ExampleUnitFlags(u);
    Exp2Examples();
    assert Pow2(7) == 128;
    RepresentReal(Format(0, -7, true), 0.001, NearestInteger);
    RepresentReal(Format(0, -7, true), 10.0, NearestInteger);
    assert Ldexp(0.001, 7) == 0.128 && RoundHalfEven(0.128) == 0;
    assert Ldexp(10.0, 7) == 1280.0 && RoundHalfEven(1280.0) == 1280;
  }

  /** Adding: 1 + 2 in Q4.4 is 48 (3 in Q4.4). */
  lemma AddExample(u: U.Config)
    requires ExampleUnit(u)
    ensures Add(u, Rep(Scalar(16), Format(3, -4, true)), Rep(Scalar(32), Format(3, -4, true))) ==
      Ok(Rep(Scalar(48), Format(3, -4, true)))
  {
    ExampleUnitFlags(u);
    assert Pow2(7) == 128;
  }

  /** 1 in Q2.6 plus 2 or -2 in Q3.5 is 3 (96) or -1 (-32) in Q3.5: the
      finer operand is aligned to the coarser common format. */
  lemma AddAlignedExamples(u: U.Config)
    requires ExampleUnit(u)
    ensures Add(u, Rep(Scalar(64), Format(1, -6, true)), Rep(Scalar(64), Format(2, -5, true))) ==
      Ok(Rep(Scalar(96), Format(2, -5, true)))
    ensures Add(u, Rep(Scalar(64), Format(1, -6, true)), Rep(Scalar(-64), Format(2, -5, true))) ==
      Ok(Rep(Scalar(-32), Format(2, -5, true)))
  {
    ExampleUnitFlags(u);
    assert Pow2(7) == 128;
    RepresentShifted(Format(2, -5, true), Rep(Scalar(64), Format(1, -6, true)), NearestInteger);
  }

  /** [-1, 1] in Q2.6 plus [3, 5] in Q4.4 is [32, 96] in Q4.4. */
  lemma AddRangedExample(u: U.Config)
    requires ExampleUnit(u)
    ensures Add(u, Rep(Ranged(IntBounds(-64, 64)), Format(1, -6, true)),
                   Rep(Ranged(IntBounds(48, 80)), Format(3, -4, true))) ==
      Ok(Rep(Ranged(IntBounds(32, 96)), Format(3, -4, true)))
  {
    ExampleUnitFlags(u);
    assert Pow2(7) == 128;
    var x, f := Rep(Ranged(IntBounds(-64, 64)), Format(1, -6, true)), Format(3, -4, true);
    assert CommonFormat(u, x.format, f) == Ok(f);
    RepresentShifted(f, x, NearestInteger);
    assert Align(u, x, f, U.AllowsUnderflow(u, U.Add)) == Ok(Ranged(IntBounds(-16, 16)));
    assert Mantissas.Add(Ranged(IntBounds(-16, 16)), Ranged(IntBounds(48, 80))) == Ranged(IntBounds(32, 96));
  }

  /** Growing: 127 + 127 in Q8.0 overflows and is held as 127 in Q9.-1. */
  lemma AddGrowthExample(u: U.Config)
    requires ExampleUnit(u)
    ensures Add(u, Rep(Scalar(127), Format(7, 0, true)), Rep(Scalar(127), Format(7, 0, true))) ==
      Ok(Rep(Scalar(127), Format(8, 1, true)))
  {
    ExampleUnitFlags(u);
    assert Pow2(7) == 128 && Pow2(8) == 256;
    var g := Format(8, 1, true);
    var src := Rep(Scalar(254), Format(8, 0, true));
    RepresentShifted(g, src, NearestInteger);
    assert Shift(NearestInteger, Scalar(254), -1) == Scalar(127);
    assert HandleOverflow(u, U.Add, Scalar(254), Format(7, 0, true), 1) == Ok((Scalar(127), g));
  }

  /** Negating -128 in Q8.0 gives 64 in Q9.-1. */
  lemma NegateGrowthExample(u: U.Config)
    requires ExampleUnit(u)
    ensures Negate(u, Rep(Scalar(-128), Format(7, 0, true))) == Ok(Rep(Scalar(64), Format(8, 1, true)))
  {
    ExampleUnitFlags(u);
    assert Pow2(7) == 128 && Pow2(8) == 256;
    var g := Format(8, 1, true);
    var src := Rep(Scalar(128), Format(8, 0, true));
    RepresentShifted(g, src, NearestInteger);
    assert Shift(NearestInteger, Scalar(128), -1) == Scalar(64);
    assert HandleOverflow(u, U.Negate, Scalar(128), Format(7, 0, true), 1) == Ok((Scalar(64), g));
  }

  /** Multiplying 1 by 2 in Q4.4 forms 512 in a fifteen-bit format and
      settles on 64 in Q3.5. */
  lemma MultiplyExample(u: U.Config)
    requires ExampleUnit(u)
    ensures Multiply(u, Rep(Scalar(16), Format(3, -4, true)), Rep(Scalar(32), Format(3, -4, true))) ==
      Ok(Rep(Scalar(64), Format(2, -5, true)))
  {
    ExampleUnitFlags(u);
    Exp2Examples();
    assert Pow2(14) == 16384;
    assert Ldexp(512.0, -8) == 2.0 by { assert 512.0 * 0.00390625 == 2.0; }
    assert Ldexp(2.0, 5) == 64.0 && RoundHalfEven(64.0) == 64;
    BestAt(2.0, 2, 64);
  }
}
