/** Fixed-point representations (src/ltitop/arithmetic/fixed_point/representation.py)
    and `Format.represent` (src/ltitop/arithmetic/fixed_point/formats.py), which
    turns a number or another representation into a mantissa of a format,
    reporting underflow and overflow. */
module Representations {
  import opened Wrappers
  import opened Numerics
  import opened Intervals
  import opened Values
  import opened Errors
  import opened Mantissas
  import opened Rounding
  import opened FloatingPoint
  import opened Formats

  datatype Representation = Rep(mantissa: Mantissa, format: Format)

  /** The invariant `__post_init__` enforces: the mantissa fits its format. */
  predicate Valid(r: Representation) {
    Within(r.mantissa, MantissaRange(r.format))
  }

  /** `Representation(mantissa, format_)`: ValueError when the mantissa
      does not fit. */
  function MakeRepresentation(m: Mantissa, f: Format): (r: Result<Representation>)
    ensures r.Ok? <==> !OverflowsWith(f, m)
    ensures r.Ok? ==> Valid(r.value) && r.value.mantissa == m && r.value.format == f
    ensures r.Err? ==> r.error == ValueError
  {
    if Within(m, MantissaRange(f)) then Ok(Rep(m, f)) else Err(ValueError)
  }

  /** `is_integer`: no fractional bits. */
  predicate IsInteger(r: Representation)
    ensures IsInteger(r) && r.mantissa.Scalar? ==> ValueOf(r).x == ValueOf(r).x.Floor as real
  {
    assert r.format.lsb >= 0 && r.mantissa.Scalar? ==> ValueOf(r).x == (r.mantissa.v * Pow2(r.format.lsb)) as real by {
      if r.format.lsb >= 0 && r.mantissa.Scalar? {
        Exp2Nat(r.format.lsb);
        assert (r.mantissa.v * Pow2(r.format.lsb)) as real == r.mantissa.v as real * Pow2(r.format.lsb) as real;
      }
    }
    r.format.lsb >= 0
  }

  /** `astype(mpfloat)`: mantissa * 2^lsb. */
  function ValueOf(r: Representation): (v: Value)
    ensures v.Real? <==> r.mantissa.Scalar?
  {
    Scaled(r.mantissa, r.format.lsb)
  }

  /** `int(r)`: the mantissa shifted by the LSB. An interval mantissa
      shifts to an interval, which `int` refuses with TypeError. */
  function ToInt(r: Representation): (k: Result<int>)
    ensures k.Ok? <==> r.mantissa.Scalar?
    ensures k.Err? ==> k.error == TypeError
  {
    match r.mantissa
    case Scalar(v) =>
      Ok(if r.format.lsb < 0 then Shr(v, -r.format.lsb) else Shl(v, r.format.lsb))
    case Ranged(_) => Err(TypeError)
  }

  /** `bool(r)`: the mantissa is not zero (an interval is falsy only as
      [0, 0]), which is exactly when the value it stands for is not zero. */
  predicate Truthy(r: Representation)
    ensures Truthy(r) <==> !ValueIsZero(ValueOf(r))
  {
    Exp2Positive(r.format.lsb);
    assert r.mantissa.Scalar? && r.mantissa.v != 0 ==> r.mantissa.v as real * Exp2(r.format.lsb) != 0.0;
    assert r.mantissa.Ranged? && r.mantissa.r.lo != 0 ==> r.mantissa.r.lo as real * Exp2(r.format.lsb) != 0.0;
    assert r.mantissa.Ranged? && r.mantissa.r.hi != 0 ==> r.mantissa.r.hi as real * Exp2(r.format.lsb) != 0.0;
    !IsZero(r.mantissa)
  }

  /** `value == 0` on a number, with an interval equal to 0 only as [0, 0]. */
  predicate ValueIsZero(v: Value) {
    match v
    case Real(x) => x == 0.0
    case Span(a) => a.lo == 0.0 && a.hi == 0.0
  }

  // ---- What int() and bool() mean ----

  /** A power of two and its reciprocal as reals. */
  lemma Reciprocal(n: int)
    ensures Exp2(n) * Exp2(-n) == 1.0
  {
    Exp2Add(n, -n);
  }

  lemma FloorOfQuotient(k: int, v: int, p: real, e: real)
    requires p > 0.0 && p * e == 1.0
    requires k as real * p <= v as real < (k + 1) as real * p
    ensures k as real <= v as real * e < k as real + 1.0
  {
    assert e > 0.0;
    assert v as real * e - k as real == (v as real - k as real * p) * e;
    assert (k + 1) as real - v as real * e == ((k + 1) as real * p - v as real) * e;
  }

  /** Shifting right by -lsb bits is the floor of v * 2^lsb. */
  lemma ShrIsFloor(v: int, lsb: int)
    requires lsb < 0
    ensures var k := Shr(v, -lsb); k as real <= v as real * Exp2(lsb) < k as real + 1.0
  {
    var n: nat := -lsb;
    var k, p := Shr(v, n), Pow2(n);
    assert Exp2(n) * Exp2(lsb) == 1.0 by {
      Reciprocal(n);
    }
    assert Exp2(n) == p as real by {
      Exp2Nat(n);
    }
    assert k as real * p as real <= v as real < (k + 1) as real * p as real by {
      assert k * p <= v < (k + 1) * p;
      assert (k * p) as real == k as real * p as real;
      assert ((k + 1) * p) as real == (k + 1) as real * p as real;
    }
    FloorOfQuotient(k, v, p as real, Exp2(lsb));
  }

  /** Shifting left by lsb bits is exactly v * 2^lsb. */
  lemma ShlIsExact(v: int, lsb: nat)
    ensures Shl(v, lsb) as real == v as real * Exp2(lsb)
  {
    Exp2Nat(lsb);
    assert (v * Pow2(lsb)) as real == v as real * Pow2(lsb) as real;
  }

  /** `int(r)` is the floor of the value r stands for, and exact for an
      integer representation. */
  lemma ToIntIsFloor(r: Representation)
    requires r.mantissa.Scalar?
    ensures var k, x := ToInt(r).value, ValueOf(r).x; k as real <= x < k as real + 1.0
    ensures IsInteger(r) ==> ToInt(r).value as real == ValueOf(r).x
  {
    if r.format.lsb < 0 {
      ShrIsFloor(r.mantissa.v, r.format.lsb);
    } else {
      ShlIsExact(r.mantissa.v, r.format.lsb);
    }
  }

  lemma TruthyMeans(r: Representation)
    ensures Truthy(r) <==> !ValueIsZero(ValueOf(r))
  {
    Exp2Positive(r.format.lsb);
    match r.mantissa
    case Scalar(v) =>
      assert v != 0 ==> v as real * Exp2(r.format.lsb) != 0.0;
    case Ranged(b) =>
      assert b.lo != 0 ==> b.lo as real * Exp2(r.format.lsb) != 0.0;
      assert b.hi != 0 ==> b.hi as real * Exp2(r.format.lsb) != 0.0;
  }

  // ---- Format.represent ----

  /** What `represent` is given: a plain number, or another representation. */
  datatype Operand = Number(value: Value) | Represented(rep: Representation)

  /** What an operand of `represent` stands for. */
  function OperandValue(x: Operand): Value {
    match x
    case Number(v) => v
    case Represented(r) => ValueOf(r)
  }

  /** The mantissa and the (underflow, overflow) flags. */
  datatype Representing = Representing(mantissa: Mantissa, underflow: bool, overflow: bool)

  /** Whether `represent` takes the exact route: a representation, rounded
      with a method that can shift mantissas. */
  predicate ShiftsMantissa(x: Operand, m: Method) {
    x.Represented? && HasShift(m)
  }

  /** `np.all(lvalue >= 0)` on what `represent` quantizes. */
  predicate NonNegativeOperand(x: Operand, m: Method) {
    if ShiftsMantissa(x, m) then NonNegative(x.rep.mantissa)
    else NonNegativeValue(if x.Represented? then ValueOf(x.rep) else x.value)
  }

  /** `format.represent(rvalue, rounding_method)`. A representation with a
      shift-capable method is shifted by its LSB minus this LSB; anything
      else is quantized to this LSB. ValueError for a negative operand in an
      unsigned format. Underflow: a nonzero operand became a zero mantissa;
      overflow: the mantissa does not fit. */
  function Represent(f: Format, x: Operand, m: Method): (r: Result<Representing>)
    ensures r.Err? <==> !f.signed && !NonNegativeOperand(x, m)
    ensures r.Err? ==> r.error == ValueError
    ensures r.Ok? ==> (r.value.overflow <==> OverflowsWith(f, r.value.mantissa))
  {
    if ShiftsMantissa(x, m) then ShiftInto(f, x.rep, m)
    else QuantizeInto(f, if x.Represented? then ValueOf(x.rep) else x.value, m)
  }

  /** The exact route of `represent`: shift the source's mantissa. */
  function ShiftInto(f: Format, src: Representation, m: Method): Result<Representing>
    requires HasShift(m)
  {
    if !f.signed && !NonNegative(src.mantissa) then Err(ValueError)
    else
      var q := Shift(m, src.mantissa, src.format.lsb - f.lsb);
      Ok(Representing(q, IsZero(q) && !IsZero(src.mantissa), OverflowsWith(f, q)))
  }

  /** The other route of `represent`: quantize the value to this LSB. */
  function QuantizeInto(f: Format, v: Value, m: Method): Result<Representing> {
    if !f.signed && !NonNegativeValue(v) then Err(ValueError)
    else
      var q := Quantize(v, -f.lsb, m);
      Ok(Representing(q, IsZero(q) && !ValueIsZero(v), OverflowsWith(f, q)))
  }

  // ---- Representing a real ----

  /** How a real is represented: its quantization q, flagged as underflow
      when q is 0 but x is not. */
  lemma RepresentReal(f: Format, x: real, m: Method)
    requires f.signed || x >= 0.0
    ensures var q := QuantizeReal(x, -f.lsb, m);
      Represent(f, Number(Real(x)), m) ==
        Ok(Representing(Scalar(q), q == 0 && x != 0.0, OverflowsWith(f, Scalar(q))))
  {
  }

  /** How a representation is represented with a shift-capable method. */
  lemma RepresentShifted(f: Format, src: Representation, m: Method)
    requires HasShift(m) && (f.signed || NonNegative(src.mantissa))
    ensures var q := Shift(m, src.mantissa, src.format.lsb - f.lsb);
      Represent(f, Represented(src), m) ==
        Ok(Representing(q, IsZero(q) && !IsZero(src.mantissa), OverflowsWith(f, q)))
  {
  }

  /** Scaling by a positive factor keeps the order. */
  lemma PositiveScale(a: real, b: real, c: real)
    requires c > 0.0
    ensures a <= b <==> a * c <= b * c
    ensures a < b <==> a * c < b * c
  {
    assert b * c - a * c == (b - a) * c;
  }

  /** x = (x * 2^-n) * 2^n. */
  lemma Rescale(x: real, y: real, e: real, ie: real)
    requires ie * e == 1.0 && y == x * ie
    ensures x == y * e
  {
    assert y * e == x * (ie * e);
  }

  /** The steps 2^n and 2^-n. */
  lemma Steps(n: int, e: real, ie: real)
    requires e == Exp2(n) && ie == Exp2(-n)
    ensures e > 0.0 && ie * e == 1.0
  {
    Reciprocal(n);
    Exp2Positive(n);
  }

  lemma LdexpInt(k: int, n: int, e: real)
    requires e == Exp2(n)
    ensures Ldexp(k as real, n) == k as real * e
  {
  }

  lemma MulNonNeg(a: real, b: real)
    requires a >= 0.0 && b > 0.0
    ensures a * b >= 0.0
  {
  }

  lemma MulPos(a: real, b: real)
    requires a > 0.0 && b > 0.0
    ensures a * b > 0.0
  {
  }

  /** Scaling a rounding error q - y, with x = y * e, back by the step e:
      one bound per method. */
  lemma ScaledHalf(q: int, y: real, x: real, e: real)
    requires e > 0.0 && x == y * e && -0.5 <= q as real - y <= 0.5
    ensures -0.5 * e <= q as real * e - x <= 0.5 * e
  {
    var a, b := q as real - y + 0.5, 0.5 - (q as real - y);
    MulNonNeg(a, e);
    MulNonNeg(b, e);
    assert q as real * e - x + 0.5 * e == a * e;
    assert 0.5 * e - (q as real * e - x) == b * e;
  }

  lemma ScaledBelow(q: int, y: real, x: real, e: real)
    requires e > 0.0 && x == y * e && -1.0 < q as real - y <= 0.0
    ensures -e < q as real * e - x <= 0.0
  {
    var a, b := q as real - y + 1.0, y - q as real;
    MulPos(a, e);
    MulNonNeg(b, e);
    assert q as real * e - x + e == a * e;
    assert x - q as real * e == b * e;
  }

  lemma ScaledAbove(q: int, y: real, x: real, e: real)
    requires e > 0.0 && x == y * e && 0.0 <= q as real - y < 1.0
    ensures 0.0 <= q as real * e - x < e
  {
    var a, b := q as real - y, 1.0 - (q as real - y);
    MulNonNeg(a, e);
    MulPos(b, e);
    assert q as real * e - x == a * e;
    assert e - (q as real * e - x) == b * e;
  }

  lemma ScaledUnit(q: int, y: real, x: real, e: real)
    requires e > 0.0 && x == y * e && -1.0 < q as real - y < 1.0
    ensures -e < q as real * e - x < e
  {
    var a, b := q as real - y + 1.0, 1.0 - (q as real - y);
    MulPos(a, e);
    MulPos(b, e);
    assert q as real * e - x + e == a * e;
    assert e - (q as real * e - x) == b * e;
  }

  /** The rounding error of y = x / e, scaled back by e. */
  lemma RealErrorCore(m: Method, x: real, y: real, q: int, e: real)
    requires e > 0.0 && x == y * e && q == Apply(m, y)
    ensures var d := q as real * e - x;
      && (m.NearestInteger? || m.BuiltinRound? ==> -0.5 * e <= d <= 0.5 * e)
      && (m.Floor? ==> -e < d <= 0.0)
      && (m.Ceil? ==> 0.0 <= d < e)
      && (m.Truncate? ==> -e < d < e)
  {
    ApplyError(m, y);
    match m
    case NearestInteger => ScaledHalf(q, y, x, e);
    case BuiltinRound => ScaledHalf(q, y, x, e);
    case Floor => ScaledBelow(q, y, x, e);
    case Ceil => ScaledAbove(q, y, x, e);
    case Truncate => ScaledUnit(q, y, x, e);
  }

  /** The error of representing a real: the represented value
      mantissa * 2^lsb is within one epsilon of x (half an epsilon for the
      nearest-integer roundings), on the side each method promises. */
  lemma RepresentRealError(f: Format, x: real, m: Method)
    requires f.signed || x >= 0.0
    ensures Represent(f, Number(Real(x)), m).Ok?
    ensures var q := Represent(f, Number(Real(x)), m).value.mantissa;
      q.Scalar? &&
      var d, e := Ldexp(q.v as real, f.lsb) - x, Epsilon(f);
      && (m.NearestInteger? || m.BuiltinRound? ==> -0.5 * e <= d <= 0.5 * e)
      && (m.Floor? ==> -e < d <= 0.0)
      && (m.Ceil? ==> 0.0 <= d < e)
      && (m.Truncate? ==> -e < d < e)
  {
    RepresentReal(f, x, m);
    QuantizeErrorAt(m, x, f.lsb);
  }

  /** The error of quantizing x to the step 2^n. */
  lemma QuantizeErrorAt(m: Method, x: real, n: int)
    ensures var d, e := Ldexp(QuantizeReal(x, -n, m) as real, n) - x, Exp2(n);
      && (m.NearestInteger? || m.BuiltinRound? ==> -0.5 * e <= d <= 0.5 * e)
      && (m.Floor? ==> -e < d <= 0.0)
      && (m.Ceil? ==> 0.0 <= d < e)
      && (m.Truncate? ==> -e < d < e)
  {
    var e, ie := Exp2(n), Exp2(-n);
    Steps(n, e, ie);
    var y := x * ie;
    LdexpIs(x, -n, ie);
    Rescale(x, y, e, ie);
    var q := Apply(m, y);
    LdexpInt(q, n, e);
    RealErrorCore(m, x, y, q, e);
  }

  /** Which reals each method rounds to zero. */
  lemma ApplyZero(m: Method, y: real)
    ensures m.NearestInteger? || m.BuiltinRound? ==> (Apply(m, y) == 0 <==> -0.5 <= y <= 0.5)
    ensures m.Floor? ==> (Apply(m, y) == 0 <==> 0.0 <= y < 1.0)
    ensures m.Ceil? ==> (Apply(m, y) == 0 <==> -1.0 < y <= 0.0)
    ensures m.Truncate? ==> (Apply(m, y) == 0 <==> -1.0 < y < 1.0)
  {
  }

  /** The sign of a product with a positive factor is the sign of the other. */
  lemma MulSign(a: real, b: real)
    requires b > 0.0
    ensures a >= 0.0 <==> a * b >= 0.0
    ensures a > 0.0 <==> a * b > 0.0
  {
    if a > 0.0 {
      MulPos(a, b);
    } else if a < 0.0 {
      var c := -a;
      MulPos(c, b);
      assert a * b == -(c * b);
    }
  }

  /** Scaling by a positive step keeps the order of integers. */
  lemma ScaleOrder(a: int, b: int, e: real)
    requires e > 0.0
    ensures a < b <==> a as real * e < b as real * e
    ensures a == b <==> a as real * e == b as real * e
  {
    var d := (b - a) as real;
    assert b as real * e - a as real * e == d * e;
    MulSign(d, e);
  }

  /** Scaling the conditions on y back to x = y * e: the half-step bounds. */
  lemma UnscaleHalf(x: real, y: real, e: real)
    requires e > 0.0 && x == y * e
    ensures -0.5 <= y <==> -0.5 * e <= x
    ensures y <= 0.5 <==> x <= 0.5 * e
  {
    var a, b := y + 0.5, 0.5 - y;
    MulSign(a, e);
    MulSign(b, e);
    assert x + 0.5 * e == a * e;
    assert 0.5 * e - x == b * e;
  }

  /** The whole-step bounds. */
  lemma UnscaleOne(x: real, y: real, e: real)
    requires e > 0.0 && x == y * e
    ensures -1.0 < y <==> -e < x
    ensures y < 1.0 <==> x < e
  {
    var a, b := y + 1.0, 1.0 - y;
    MulSign(a, e);
    MulSign(b, e);
    assert x + e == a * e;
    assert e - x == b * e;
  }

  /** The sign. */
  lemma UnscaleSign(x: real, y: real, e: real)
    requires e > 0.0 && x == y * e
    ensures 0.0 <= y <==> 0.0 <= x
    ensures 0.0 < y <==> 0.0 < x
    ensures y <= 0.0 <==> x <= 0.0
    ensures y < 0.0 <==> x < 0.0
  {
    MulSign(y, e);
  }

  /** The underflow flag of a real, exactly: the nearest-integer roundings
      flag 0 < |x| <= epsilon/2, floor flags 0 < x < epsilon, ceil flags
      -epsilon < x < 0 and truncation 0 < |x| < epsilon. */
  lemma RepresentRealUnderflow(f: Format, x: real, m: Method)
    requires f.signed || x >= 0.0
    ensures var u, e := Represent(f, Number(Real(x)), m).value.underflow, Epsilon(f);
      && (m.NearestInteger? || m.BuiltinRound? ==> (u <==> x != 0.0 && -0.5 * e <= x <= 0.5 * e))
      && (m.Floor? ==> (u <==> 0.0 < x < e))
      && (m.Ceil? ==> (u <==> -e < x < 0.0))
      && (m.Truncate? ==> (u <==> x != 0.0 && -e < x < e))
  {
    RepresentReal(f, x, m);
    QuantizeZeroAt(m, x, f.lsb);
  }

  /** Which reals quantize to zero at the step 2^n. */
  lemma QuantizeZeroAt(m: Method, x: real, n: int)
    ensures var z, e := QuantizeReal(x, -n, m) == 0, Exp2(n);
      && (m.NearestInteger? || m.BuiltinRound? ==> (z <==> -0.5 * e <= x <= 0.5 * e))
      && (m.Floor? ==> (z <==> 0.0 <= x < e))
      && (m.Ceil? ==> (z <==> -e < x <= 0.0))
      && (m.Truncate? ==> (z <==> -e < x < e))
  {
    var e, ie := Exp2(n), Exp2(-n);
    Steps(n, e, ie);
    var y := x * ie;
    LdexpIs(x, -n, ie);
    Rescale(x, y, e, ie);
    ApplyZero(m, y);
    match m
    case NearestInteger => UnscaleHalf(x, y, e); UnscaleSign(x, y, e);
    case BuiltinRound => UnscaleHalf(x, y, e); UnscaleSign(x, y, e);
    case Floor => UnscaleOne(x, y, e); UnscaleSign(x, y, e);
    case Ceil => UnscaleOne(x, y, e); UnscaleSign(x, y, e);
    case Truncate => UnscaleOne(x, y, e); UnscaleSign(x, y, e);
  }

  /** Every method leaves a whole number alone. */
  lemma ApplyInteger(m: Method, k: int)
    ensures Apply(m, k as real) == k
  {
  }

  /** The core of the overflow argument: a y between two whole numbers
      rounds between them. */
  lemma BetweenIntegers(m: Method, lo: int, hi: int, x: real, y: real, e: real)
    requires e > 0.0 && x == y * e && lo as real * e <= x <= hi as real * e
    ensures lo <= Apply(m, y) <= hi
  {
    ScaleDownInt(lo, y, x, e);
    ScaleDownInt(hi, y, x, e);
    ApplyMonotone(m, lo as real, y);
    ApplyMonotone(m, y, hi as real);
    ApplyInteger(m, lo);
    ApplyInteger(m, hi);
  }

  /** Dividing a comparison with a whole multiple of e by e. */
  lemma ScaleDownInt(k: int, y: real, x: real, e: real)
    requires e > 0.0 && x == y * e
    ensures k as real * e <= x <==> k as real <= y
    ensures x <= k as real * e <==> y <= k as real
  {
    var a := y - k as real;
    MulSign(a, e);
    var c := -a;
    MulSign(c, e);
    assert x - k as real * e == a * e;
    assert k as real * e - x == c * e;
  }

  /** A real inside the value range never overflows, whatever the rounding:
      the range's ends are whole mantissas, which every method keeps. */
  lemma RepresentableNeverOverflows(f: Format, x: real, m: Method)
    requires CanRepresent(f, Real(x)) && (f.signed || x >= 0.0)
    ensures !Represent(f, Number(Real(x)), m).value.overflow
  {
    var range := MantissaRange(f);
    ScaledMantissaEnds(f);
    QuantizeBetweenAt(m, x, f.lsb, range.lo, range.hi);
    RepresentReal(f, x, m);
  }

  /** A real between two whole multiples of 2^n quantizes between them. */
  lemma QuantizeBetweenAt(m: Method, x: real, n: int, lo: int, hi: int)
    requires Ldexp(lo as real, n) <= x <= Ldexp(hi as real, n)
    ensures lo <= QuantizeReal(x, -n, m) <= hi
  {
    var e, ie := Exp2(n), Exp2(-n);
    Steps(n, e, ie);
    var y := x * ie;
    LdexpIs(x, -n, ie);
    Rescale(x, y, e, ie);
    LdexpInt(lo, n, e);
    LdexpInt(hi, n, e);
    BetweenIntegers(m, lo, hi, x, y, e);
  }

  // ---- Representing another representation ----

  /** The same LSB: every shift method keeps the mantissa, so nothing
      underflows. */
  lemma RepresentSameLsb(f: Format, src: Representation, m: Method)
    requires HasShift(m) && src.format.lsb == f.lsb && (f.signed || NonNegative(src.mantissa))
    ensures Represent(f, Represented(src), m).Ok?
    ensures var r := Represent(f, Represented(src), m).value;
      r.mantissa == src.mantissa && !r.underflow
  {
    RepresentShifted(f, src, m);
    ShiftLeftExact(m, Lo(src.mantissa), 0);
    ShiftLeftExact(m, Hi(src.mantissa), 0);
  }

  /** A finer LSB: the mantissa is shifted left, and the value it stands
      for is exactly the source's. */
  lemma RepresentFinerIsExact(f: Format, src: Representation, m: Method)
    requires HasShift(m) && src.mantissa.Scalar? && f.lsb <= src.format.lsb
    requires f.signed || NonNegative(src.mantissa)
    ensures Represent(f, Represented(src), m).Ok?
    ensures var q := Represent(f, Represented(src), m).value.mantissa;
      q.Scalar? && Ldexp(q.v as real, f.lsb) == ValueOf(src).x
  {
    RepresentShifted(f, src, m);
    FinerAt(m, src.mantissa.v, f.lsb, src.format.lsb, src.format.lsb - f.lsb);
  }

  /** Shifting v left by n = i - o bits keeps its value at the finer step 2^o. */
  lemma FinerAt(m: Method, v: int, o: int, i: int, n: nat)
    requires HasShift(m) && i == n + o
    ensures Ldexp(ShiftScalar(m, v, n) as real, o) == Ldexp(v as real, i)
  {
    var k := ShiftScalar(m, v, n);
    var e, es := Exp2(o), Exp2(i);
    ShiftLeftExact(m, v, n);
    assert es == Exp2(n) * e by {
      Exp2Add(n, o);
    }
    LdexpInt(k, o, e);
    LdexpInt(v, i, es);
    FinerCore(v, k, n, e, es);
  }

  lemma FinerCore(v: int, k: int, n: nat, e: real, es: real)
    requires k == v * Pow2(n) && es == Exp2(n) * e
    ensures k as real * e == v as real * es
  {
    var p := Pow2(n);
    var pe := Exp2(n);
    assert pe == p as real by {
      Exp2Nat(n);
    }
    assert k as real == v as real * p as real;
    assert v as real * pe * e == v as real * (pe * e);
  }

  /** A coarser LSB: the value changes by an amount inside the method's
      `error_bounds(f.lsb, src.lsb)`. */
  lemma RepresentCoarserError(f: Format, src: Representation, m: Method)
    requires HasShift(m) && src.mantissa.Scalar? && f.lsb > src.format.lsb
    requires f.signed || NonNegative(src.mantissa)
    ensures Represent(f, Represented(src), m).Ok?
    ensures ErrorBounds(m, f.lsb, Some(src.format.lsb)).Ok?
    ensures var q := Represent(f, Represented(src), m).value.mantissa;
      q.Scalar? && In(Ldexp(q.v as real, f.lsb) - ValueOf(src).x,
                      ErrorBounds(m, f.lsb, Some(src.format.lsb)).value)
  {
    RepresentShifted(f, src, m);
    CoarserAt(m, src.mantissa.v, f.lsb, src.format.lsb, src.format.lsb - f.lsb);
  }

  /** Shifting v right by -n bits, from the step 2^i to the coarser 2^o,
      errs within `error_bounds(o, i)`. */
  lemma CoarserAt(m: Method, v: int, o: int, i: int, n: int)
    requires HasShift(m) && n < 0 && o == i - n
    ensures ErrorBounds(m, o, Some(i)).Ok?
    ensures In(Ldexp(ShiftScalar(m, v, n) as real, o) - Ldexp(v as real, i),
               ErrorBounds(m, o, Some(i)).value)
  {
    var q := ShiftScalar(m, v, n);
    var ei, eo := Exp2(i), Exp2(o);
    ShiftWithinErrorBounds(m, v, i, n, q, ei, eo);
    LdexpInt(q, o, eo);
    LdexpInt(v, i, ei);
  }

  // ---- The source's own examples ----

  lemma Exp2Four()
    ensures Exp2(4) == 16.0 && Exp2(-4) == 0.0625
  {
    Exp2Nat(4);
    Reciprocal(4);
  }

  /** Q8.0 rounds -127.5 to the even -128 with `nearest_integer` and to
      -127 with `ceil`. */
  lemma RepresentTieExamples(f: Format)
    requires f == Format(7, 0, true)
    ensures Represent(f, Number(Real(-127.5)), NearestInteger) == Ok(Representing(Scalar(-128), false, false))
    ensures Represent(f, Number(Real(-127.5)), Ceil) == Ok(Representing(Scalar(-127), false, false))
  {
    assert Exp2(0) == 1.0;
    assert Pow2(7) == 128;
    RepresentReal(f, -127.5, NearestInteger);
    RepresentReal(f, -127.5, Ceil);
  }

  /** Q8.0 flags 0.1 as underflow: it rounds to 0. */
  lemma RepresentUnderflowExample(f: Format)
    requires f == Format(7, 0, true)
    ensures Represent(f, Number(Real(0.1)), BuiltinRound) == Ok(Representing(Scalar(0), true, false))
  {
    assert Exp2(0) == 1.0;
    assert Pow2(7) == 128;
    RepresentReal(f, 0.1, BuiltinRound);
  }

  /** Q8.0 flags 256 as overflow. */
  lemma RepresentOverflowExample(f: Format)
    requires f == Format(7, 0, true)
    ensures Represent(f, Number(Real(256.0)), BuiltinRound) == Ok(Representing(Scalar(256), false, true))
  {
    assert Exp2(0) == 1.0;
    assert Pow2(7) == 128;
    RepresentReal(f, 256.0, BuiltinRound);
  }

  /** Q4.4 holds -2.25 as -36 and 0.5 as 8. */
  lemma RepresentFractionExamples(f: Format)
    requires f == Format(3, -4, true)
    ensures Represent(f, Number(Real(-2.25)), BuiltinRound) == Ok(Representing(Scalar(-36), false, false))
    ensures Represent(f, Number(Real(0.5)), BuiltinRound) == Ok(Representing(Scalar(8), false, false))
  {
    Exp2Four();
    assert Pow2(7) == 128;
    RepresentReal(f, -2.25, BuiltinRound);
    RepresentReal(f, 0.5, BuiltinRound);
  }

  /** An unsigned format refuses every negative number, whatever the
      rounding. */
  lemma RepresentUnsignedNegative(f: Format, x: real, m: Method)
    requires !f.signed && x < 0.0
    ensures Represent(f, Number(Real(x)), m) == Err(ValueError)
  {
    assert !NonNegativeOperand(Number(Real(x)), m);
  }

  /** An integer represented in a format with fractional bits is exact:
      the integer times 2^-lsb, never an underflow, worth the integer. */
  lemma RepresentInteger(f: Format, k: int)
    requires f.lsb < 0 && (f.signed || k >= 0)
    ensures var q := k * Pow2(-f.lsb);
      && Represent(f, Number(Real(k as real)), BuiltinRound) == Ok(Representing(Scalar(q), false, OverflowsWith(f, Scalar(q))))
      && Scaled(Scalar(q), f.lsb) == Real(k as real)
  {
    var n: nat := -f.lsb;
    var q := k * Pow2(n);
    IntegerScales(k, n);
    ApplyInteger(BuiltinRound, q);
    RepresentReal(f, k as real, BuiltinRound);
    IntegerScalesBack(k, n, f.lsb);
  }

  /** k scaled up by 2^n is the integer k * 2^n, no nearer zero than k. */
  lemma IntegerScales(k: int, n: nat)
    ensures Ldexp(k as real, n) == (k * Pow2(n)) as real
    ensures k > 0 ==> k * Pow2(n) >= k
    ensures k < 0 ==> k * Pow2(n) <= k
  {
    Exp2Nat(n);
    var p := Pow2(n);
    assert p >= 1;
    if k > 0 {
      assert k * p >= k * 1;
    } else if k < 0 {
      assert k * p <= k * 1;
    }
  }

  lemma IntegerScalesBack(k: int, n: nat, lsb: int)
    requires lsb + n == 0
    ensures Scaled(Scalar(k * Pow2(n)), lsb) == Real(k as real)
  {
    LdexpShift(k, n, lsb);
    assert Ldexp(k as real, 0) == k as real;
  }
}
