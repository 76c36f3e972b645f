/** Rounding policies (src/ltitop/arithmetic/rounding.py): each one rounds a
    real to an integer, re-quantizes an integer mantissa whose LSB moves by
    n bits (`shift`), and bounds the error it makes (`error_bounds`). */
module Rounding {
  import opened Wrappers
  import opened Numerics
  import opened Intervals
  import opened Errors
  import opened Mantissas

  /** The rounding functions the package passes around. `BuiltinRound` is
      Python's own `round`, the default of `Format.represent`: it has no
      `shift` and no `error_bounds` attribute. */
  datatype Method = NearestInteger | Floor | Ceil | Truncate | BuiltinRound

  /** Calling the method on a real. `nearest_integer` is `round`, which (like
      `mpmath.nint`) rounds ties to even. Each method lands within the unit
      and on the side it promises. */
  function Apply(m: Method, x: real): (r: int)
    ensures m.NearestInteger? || m.BuiltinRound? ==> -0.5 <= r as real - x <= 0.5
    ensures m.Floor? ==> -1.0 < r as real - x <= 0.0
    ensures m.Ceil? ==> 0.0 <= r as real - x < 1.0
    ensures m.Truncate? ==> -1.0 < r as real - x < 1.0 && (x >= 0.0 ==> r >= 0) && (x <= 0.0 ==> r <= 0)
  {
    match m
    case NearestInteger => RoundHalfEven(x)
    case BuiltinRound => RoundHalfEven(x)
    case Floor => Numerics.Floor(x)
    case Ceil => Numerics.Ceil(x)
    case Truncate => Trunc(x)
  }

  /** `hasattr(rounding_method, 'shift')`. */
  predicate HasShift(m: Method) {
    !m.BuiltinRound?
  }

  /** `floor.shift(v, n)`: v << n, v >> -n, or v. A left shift is exact; a
      right shift gives the largest multiple of 2^-n steps not above v. */
  function FloorShift(v: int, n: int): (r: int)
    ensures n >= 0 ==> r == v * Pow2(n)
    ensures n < 0 ==> r * Pow2(-n) <= v < (r + 1) * Pow2(-n)
  {
    if n > 0 then Shl(v, n) else if n < 0 then Shr(v, -n) else v
  }

  /** `ceil.shift(v, n)` = -floor.shift(-v, n): exact to the left, and to
      the right the smallest multiple of 2^-n steps not below v. */
  function CeilShift(v: int, n: int): (r: int)
    ensures n >= 0 ==> r == v * Pow2(n)
    ensures n < 0 ==> (r - 1) * Pow2(-n) < v <= r * Pow2(-n)
  {
    var f := FloorShift(-v, n);
    assert n >= 0 ==> -f == v * Pow2(n) by {
      if n >= 0 {
        assert f == (-v) * Pow2(n);
      }
    }
    assert n < 0 ==> (-f - 1) * Pow2(-n) < v <= -f * Pow2(-n) by {
      if n < 0 {
        var p := Pow2(-n);
        assert (-f) * p == -(f * p) && (-f - 1) * p == -((f + 1) * p);
      }
    }
    -f
  }

  /** `nearest_integer.shift(v, n)`: the floor shift plus, when bits are
      dropped, the highest dropped bit. That is exact to the left, and to the
      right adds half a step and floors: the nearest multiple, ties up. */
  function NearestShift(v: int, n: int): (r: int)
    ensures n >= 0 ==> r == v * Pow2(n)
    ensures n < 0 ==> r == (v + Pow2(-n - 1)) / Pow2(-n)
    ensures n < 0 ==> r * Pow2(-n) - Pow2(-n - 1) <= v < r * Pow2(-n) + Pow2(-n - 1)
  {
    var r := FloorShift(v, n) + (if n < 0 then Shr(v, -n - 1) % 2 else 0);
    assert n < 0 ==> r == (v + Pow2(-n - 1)) / Pow2(-n) by {
      if n < 0 {
        var k := -n;
        var p, h := Pow2(k), Pow2(k - 1);
        assert p == 2 * h;
        HalfUp(v, h, Shr(v, k));
      }
    }
    assert n < 0 ==> r * Pow2(-n) - Pow2(-n - 1) <= v < r * Pow2(-n) + Pow2(-n - 1) by {
      if n < 0 {
        var p, h := Pow2(-n), Pow2(-n - 1);
        assert p == 2 * h;
        DivBracket(v + h, p);
      }
    }
    r
  }

  /** `truncate.shift(v, n)` as intended: of the floor and ceil shifts, the
      one of least magnitude (the first on a tie), which rounds toward zero. */
  function TruncateShift(v: int, n: int): (r: int)
    ensures r == if v >= 0 then FloorShift(v, n) else CeilShift(v, n)
  {
    FloorShiftLeCeil(v, n);
    FloorShiftSign(v, n);
    FloorShiftSign(-v, n);
    var f, c := FloorShift(v, n), CeilShift(v, n);
    if Abs(f) <= Abs(c) then f else c
  }

  /** `truncate.shift` as written: it calls `np`, which rounding.py never
      imports, so every call raises NameError (an interval recurses into its
      bounds and fails there). */
  function TruncateShiftAsWritten(x: Mantissa, n: int): (r: Result<Mantissa>)
    ensures r == Err(NameError)
  {
    Err(NameError)
  }

  function ShiftScalar(m: Method, v: int, n: int): int
    requires HasShift(m)
  {
    match m
    case NearestInteger => NearestShift(v, n)
    case Floor => FloorShift(v, n)
    case Ceil => CeilShift(v, n)
    case Truncate => TruncateShift(v, n)
  }

  /** `method.shift(x, n)`, bound-wise on an interval mantissa. */
  function Shift(m: Method, x: Mantissa, n: int): (r: Mantissa)
    requires HasShift(m)
    ensures r.Scalar? <==> x.Scalar?
    ensures Lo(r) == ShiftScalar(m, Lo(x), n) && Hi(r) == ShiftScalar(m, Hi(x), n)
  {
    match x
    case Scalar(v) => Scalar(ShiftScalar(m, v, n))
    case Ranged(b) =>
      ShiftMonotone(m, b.lo, b.hi, n);
      Ranged(IntBounds(ShiftScalar(m, b.lo, n), ShiftScalar(m, b.hi, n)))
  }

  /** `method.error_bounds(o, i)`: the interval that holds the error of a
      result rounded to LSB o, from an input exact at LSB i when one is
      given. ValueError where the bounds come out crossed (i > o);
      AttributeError for the builtin `round`. Truncation with an input LSB
      is the intended [-2^o + 2^i, 2^o - 2^i]. */
  function ErrorBounds(m: Method, o: int, i: Option<int>): (r: Result<Interval>)
    ensures m.BuiltinRound? <==> r == Err(AttributeError)
    ensures r.Err? ==> r.error == AttributeError || r.error == ValueError
  {
    match m
    case BuiltinRound => Err(AttributeError)
    case NearestInteger =>
      if i.None? then Check(Make(-Exp2(o - 1), Exp2(o - 1)))
      else Check(Make(-Exp2(o - 1) + Exp2(i.value), Exp2(o - 1)))
    case Floor =>
      if i.None? then Check(Make(-Exp2(o), 0.0))
      else Check(Make(-Exp2(o) + Exp2(i.value), 0.0))
    case Ceil =>
      if i.None? then Check(Make(0.0, Exp2(o)))
      else Check(Make(0.0, Exp2(o) - Exp2(i.value)))
    case Truncate =>
      if i.None? then Check(Make(-Exp2(o), Exp2(o)))
      else Check(Make(-Exp2(o) + Exp2(i.value), Exp2(o) - Exp2(i.value)))
  }

  /** `truncate.error_bounds(o, i)` as written: with an input LSB it adds
      `interval(2^i, -2^i)`, whose bounds are crossed, so it always raises
      ValueError. */
  function TruncateErrorBoundsAsWritten(o: int, i: Option<int>): (r: Result<Interval>)
    ensures i.Some? ==> r == Err(ValueError)
    ensures i.None? ==> r == ErrorBounds(Truncate, o, None)
  {
    Exp2Positive(o);
    Exp2Positive(if i.Some? then i.value else 0);
    match Check(Make(-Exp2(o), Exp2(o)))
    case Err(e) => Err(e)
    case Ok(bounds) =>
      if i.None? then Ok(bounds)
      else
        match Check(Make(Exp2(i.value), -Exp2(i.value)))
        case Err(e) => Err(e)
        case Ok(widen) => Ok(Intervals.Add(bounds, widen))
  }

  // ---- Shifts ----

  lemma FloorShiftMonotone(v: int, w: int, n: int)
    requires v <= w
    ensures FloorShift(v, n) <= FloorShift(w, n)
  {
    if n > 0 {
      Scale(v, w, Pow2(n));
    } else if n < 0 {
      ShrMonotone(v, w, -n);
    }
  }

  lemma HalfSteps(a: int, h: int)
    ensures (2 * a) * h == a * (2 * h)
    ensures (2 * a + 1) * h == a * (2 * h) + h
    ensures (a + 1) * (2 * h) == a * (2 * h) + 2 * h
    ensures (a + 2) * (2 * h) == a * (2 * h) + 4 * h
  {
  }

  /** The arithmetic core of round-half-up: with v in [a*2h, (a+1)*2h), the
      bit just below the step decides whether v + h reaches the next step. */
  lemma HalfUp(v: int, h: int, a: int)
    requires h > 0 && a * (2 * h) <= v < (a + 1) * (2 * h)
    ensures (v + h) / (2 * h) == a + (v / h) % 2
  {
    HalfSteps(a, h);
    if v < a * (2 * h) + h {
      DivUnique(v, h, 2 * a);
      DivUnique(v + h, 2 * h, a);
    } else {
      DivUnique(v, h, 2 * a + 1);
      DivUnique(v + h, 2 * h, a + 1);
    }
  }

  /** For dropped bits, the nearest shift adds half the step and floors:
      ties go up. */
  lemma NearestIsHalfUp(v: int, n: int)
    requires n < 0
    ensures NearestShift(v, n) == (v + Pow2(-n - 1)) / Pow2(-n)
  {
    var k := -n;
    var p, h := Pow2(k), Pow2(k - 1);
    assert p == 2 * h;
    var a, c := Shr(v, k), Shr(v, k - 1);
    assert NearestShift(v, n) == a + c % 2;
    HalfUp(v, h, a);
  }

  lemma NearestShiftMonotone(v: int, w: int, n: int)
    requires v <= w
    ensures NearestShift(v, n) <= NearestShift(w, n)
  {
    if n < 0 {
      NearestIsHalfUp(v, n);
      NearestIsHalfUp(w, n);
      ShrMonotone(v + Pow2(-n - 1), w + Pow2(-n - 1), -n);
    } else {
      FloorShiftMonotone(v, w, n);
    }
  }

  lemma FloorShiftSign(v: int, n: int)
    ensures v >= 0 ==> FloorShift(v, n) >= 0
  {
    if v >= 0 {
      FloorShiftMonotone(0, v, n);
    }
  }

  lemma FloorShiftLeCeil(v: int, n: int)
    ensures FloorShift(v, n) <= CeilShift(v, n)
  {
    if n > 0 {
      assert Shl(-v, n) == -Shl(v, n);
    } else if n < 0 {
      var p := Pow2(-n);
      var q, r := Shr(v, -n), Shr(-v, -n);
      assert q * p <= v && r * p <= -v;
      assert (q + r) * p == q * p + r * p;
      assert q + r <= 0;
    }
  }

  /** The intended truncation rounds toward zero. */
  lemma TruncateTowardZero(v: int, n: int)
    ensures TruncateShift(v, n) == if v >= 0 then FloorShift(v, n) else CeilShift(v, n)
  {
    FloorShiftLeCeil(v, n);
    FloorShiftSign(v, n);
    FloorShiftSign(-v, n);
  }

  lemma TruncateShiftMonotone(v: int, w: int, n: int)
    requires v <= w
    ensures TruncateShift(v, n) <= TruncateShift(w, n)
  {
    TruncateTowardZero(v, n);
    TruncateTowardZero(w, n);
    FloorShiftMonotone(v, w, n);
    FloorShiftMonotone(-w, -v, n);
    FloorShiftSign(w, n);
    FloorShiftSign(-v, n);
  }

  /** Every shift is monotone, so shifting an interval bound-wise yields an
      interval. */
  lemma ShiftMonotone(m: Method, v: int, w: int, n: int)
    requires HasShift(m) && v <= w
    ensures ShiftScalar(m, v, n) <= ShiftScalar(m, w, n)
  {
    match m
    case NearestInteger => NearestShiftMonotone(v, w, n);
    case Floor => FloorShiftMonotone(v, w, n);
    case Ceil => FloorShiftMonotone(-w, -v, n);
    case Truncate => TruncateShiftMonotone(v, w, n);
  }

  /** Shifting left then back right by the same count is the identity. */
  lemma FloorShiftRoundTrip(v: int, n: int)
    requires n >= 0
    ensures FloorShift(FloorShift(v, n), -n) == v
  {
    if n > 0 {
      DivUnique(v * Pow2(n), Pow2(n), v);
    }
  }

  /** For a left shift (n >= 0), every method is the exact v * 2^n. */
  lemma ShiftLeftExact(m: Method, v: int, n: nat)
    requires HasShift(m)
    ensures ShiftScalar(m, v, n) == v * Pow2(n)
  {
    var p := Pow2(n);
    assert FloorShift(v, n) == v * p;
    assert FloorShift(-v, n) == (-v) * p;
    assert (-v) * p == -(v * p);
    TruncateTowardZero(v, n);
  }

  // ---- Error bounds ----

  /** Error bounds other than the builtin's exist exactly when the input LSB,
      if any, is no coarser than the output LSB. */
  lemma ErrorBoundsDefined(m: Method, o: int, i: Option<int>)
    requires !m.BuiltinRound?
    ensures ErrorBounds(m, o, i).Ok? <==> i.None? || i.value <= o
  {
    Exp2Positive(o);
    Exp2Step(o);
    if i.Some? {
      Exp2Order(i.value, o);
      Exp2Positive(i.value);
    }
  }

  /** Without an input LSB the bounds are fixed multiples of 2^o. */
  lemma ErrorBoundsWithoutInput(o: int)
    ensures ErrorBounds(NearestInteger, o, None) == Ok(Bounds(-Exp2(o - 1), Exp2(o - 1)))
    ensures ErrorBounds(Floor, o, None) == Ok(Bounds(-Exp2(o), 0.0))
    ensures ErrorBounds(Ceil, o, None) == Ok(Bounds(0.0, Exp2(o)))
    ensures ErrorBounds(Truncate, o, None) == Ok(Bounds(-Exp2(o), Exp2(o)))
  {
    Exp2Positive(o);
    Exp2Positive(o - 1);
  }

  /** With an input LSB i < o, each bound tightens by 2^i where the input
      grid rules the extreme error out. */
  lemma ErrorBoundsWithInput(o: int, i: int)
    requires i < o
    ensures ErrorBounds(NearestInteger, o, Some(i)) == Ok(Bounds(-Exp2(o - 1) + Exp2(i), Exp2(o - 1)))
    ensures ErrorBounds(Floor, o, Some(i)) == Ok(Bounds(-Exp2(o) + Exp2(i), 0.0))
    ensures ErrorBounds(Ceil, o, Some(i)) == Ok(Bounds(0.0, Exp2(o) - Exp2(i)))
    ensures ErrorBounds(Truncate, o, Some(i)) == Ok(Bounds(-Exp2(o) + Exp2(i), Exp2(o) - Exp2(i)))
  {
    Exp2Order(i, o);
    Exp2Order(i, o - 1);
    Exp2Positive(i);
  }

  /** The as-written truncation bounds never exist with an input LSB. */
  lemma TruncateErrorBoundsAsWrittenRejects(o: int, i: int)
    ensures TruncateErrorBoundsAsWritten(o, Some(i)) == Err(ValueError)
  {
    Exp2Positive(o);
    Exp2Positive(i);
  }

  /** Integer form of the shift errors: d = q * 2^-n - v for the q that v
      shifts to when -n bits are dropped. */
  lemma FloorShiftError(v: int, n: int)
    requires n < 0
    ensures var d := FloorShift(v, n) * Pow2(-n) - v; -(Pow2(-n) - 1) <= d <= 0
  {
  }

  lemma CeilShiftError(v: int, n: int)
    requires n < 0
    ensures var d := CeilShift(v, n) * Pow2(-n) - v; 0 <= d <= Pow2(-n) - 1
  {
    FloorShiftError(-v, n);
    assert CeilShift(v, n) * Pow2(-n) == -(FloorShift(-v, n) * Pow2(-n));
  }

  lemma NearestShiftError(v: int, n: int)
    requires n < 0
    ensures var d := NearestShift(v, n) * Pow2(-n) - v; -(Pow2(-n - 1) - 1) <= d <= Pow2(-n - 1)
  {
    var h, p := Pow2(-n - 1), Pow2(-n);
    assert p == 2 * h;
    NearestIsHalfUp(v, n);
    var q := NearestShift(v, n);
    assert q == (v + h) / p;
    DivBracket(v + h, p);
  }

  lemma TruncateShiftError(v: int, n: int)
    requires n < 0
    ensures var d := TruncateShift(v, n) * Pow2(-n) - v; -(Pow2(-n) - 1) <= d <= Pow2(-n) - 1
  {
    TruncateTowardZero(v, n);
    FloorShiftError(v, n);
    CeilShiftError(v, n);
  }

  /** The steps of a shift by n < 0 from LSB i, named ei = 2^i and
      eo = 2^(i-n) (and eh = 2^(i-n-1), half of eo): eo = 2^-n * ei. Products
      with the steps are stated over these names. */
  lemma StepSizeNat(i: int, k: nat, ei: real, e: real)
    requires ei == Exp2(i) && e == Exp2(i + k)
    ensures e == Pow2(k) as real * ei
  {
    Exp2Add(i, k);
    Exp2Nat(k);
  }

  lemma StepSize(i: int, n: int, ei: real, eo: real)
    requires n < 0 && ei == Exp2(i) && eo == Exp2(i - n)
    ensures ei > 0.0
    ensures eo == Pow2(-n) as real * ei
  {
    Exp2Positive(i);
    StepSizeNat(i, -n, ei, eo);
  }

  lemma HalfStepSize(i: int, n: int, ei: real, eh: real, eo: real)
    requires n < 0 && ei == Exp2(i) && eh == Exp2(i - n - 1) && eo == Exp2(i - n)
    ensures ei > 0.0
    ensures eh == Pow2(-n - 1) as real * ei
    ensures eo == 2.0 * eh
    ensures Pow2(-n) == 2 * Pow2(-n - 1)
  {
    Exp2Positive(i);
    StepSizeNat(i, -n - 1, ei, eh);
    Exp2Step(i - n);
  }

  // The integer error bounds carried over to the reals, with the input
  // step ei, the output step eo = p * ei and q the shifted mantissa.
  lemma FloorCore(q: int, v: int, p: int, ei: real, eo: real)
    requires ei > 0.0 && eo == p as real * ei
    requires -(p - 1) <= q * p - v <= 0
    ensures -eo + ei <= q as real * eo - v as real * ei <= 0.0
  {
    var d := q * p - v;
    assert q as real * eo - v as real * ei == d as real * ei;
    assert -eo + ei == (1 - p) as real * ei;
    ScaleMonotone((1 - p) as real, d as real, ei);
  }

  lemma CeilCore(q: int, v: int, p: int, ei: real, eo: real)
    requires ei > 0.0 && eo == p as real * ei
    requires 0 <= q * p - v <= p - 1
    ensures 0.0 <= q as real * eo - v as real * ei <= eo - ei
  {
    var d := q * p - v;
    assert q as real * eo - v as real * ei == d as real * ei;
    assert eo - ei == (p - 1) as real * ei;
    ScaleMonotone(d as real, (p - 1) as real, ei);
  }

  lemma TruncateCore(q: int, v: int, p: int, ei: real, eo: real)
    requires ei > 0.0 && eo == p as real * ei
    requires -(p - 1) <= q * p - v <= p - 1
    ensures -eo + ei <= q as real * eo - v as real * ei <= eo - ei
  {
    var d := q * p - v;
    assert q as real * eo - v as real * ei == d as real * ei;
    assert -eo + ei == (1 - p) as real * ei;
    assert eo - ei == (p - 1) as real * ei;
    ScaleMonotone((1 - p) as real, d as real, ei);
    ScaleMonotone(d as real, (p - 1) as real, ei);
  }

  lemma NearestCore(q: int, v: int, h: int, ei: real, eh: real, eo: real)
    requires ei > 0.0 && eh == h as real * ei && eo == 2.0 * eh
    requires -(h - 1) <= q * (2 * h) - v <= h
    ensures -eh + ei <= q as real * eo - v as real * ei <= eh
  {
    var d := q * (2 * h) - v;
    assert q as real * eo - v as real * ei == d as real * ei;
    assert -eh + ei == (1 - h) as real * ei;
    ScaleMonotone((1 - h) as real, d as real, ei);
    ScaleMonotone(d as real, h as real, ei);
  }

  /** The real error of a shift by n < 0 from LSB i to LSB i - n, per
      method: q * 2^(i-n) - v * 2^i for the q the method shifts v to. */
  lemma FloorShiftSound(v: int, i: int, n: int, q: int, ei: real, eo: real)
    requires n < 0 && q == FloorShift(v, n) && ei == Exp2(i) && eo == Exp2(i - n)
    ensures -eo + ei <= q as real * eo - v as real * ei <= 0.0
  {
    StepSize(i, n, ei, eo);
    FloorShiftError(v, n);
    FloorCore(q, v, Pow2(-n), ei, eo);
  }

  lemma CeilShiftSound(v: int, i: int, n: int, q: int, ei: real, eo: real)
    requires n < 0 && q == CeilShift(v, n) && ei == Exp2(i) && eo == Exp2(i - n)
    ensures 0.0 <= q as real * eo - v as real * ei <= eo - ei
  {
    StepSize(i, n, ei, eo);
    CeilShiftError(v, n);
    CeilCore(q, v, Pow2(-n), ei, eo);
  }

  lemma TruncateShiftSound(v: int, i: int, n: int, q: int, ei: real, eo: real)
    requires n < 0 && q == TruncateShift(v, n) && ei == Exp2(i) && eo == Exp2(i - n)
    ensures -eo + ei <= q as real * eo - v as real * ei <= eo - ei
  {
    TruncateShiftError(v, n);
    TruncateStep(v, i, n, q, ei, eo);
  }

  /** A shifted mantissa q within 2^-n - 1 steps of v * 2^n is within one
      output step, less one input step, of the value. */
  lemma TruncateStep(v: int, i: int, n: int, q: int, ei: real, eo: real)
    requires n < 0 && ei == Exp2(i) && eo == Exp2(i - n)
    requires -(Pow2(-n) - 1) <= q * Pow2(-n) - v <= Pow2(-n) - 1
    ensures -eo + ei <= q as real * eo - v as real * ei <= eo - ei
  {
    var p := Pow2(-n);
    assert ei > 0.0 && eo == p as real * ei by {
      StepSize(i, n, ei, eo);
    }
    TruncateCore(q, v, p, ei, eo);
  }

  lemma NearestShiftSound(v: int, i: int, n: int, q: int, ei: real, eh: real, eo: real)
    requires n < 0 && q == NearestShift(v, n) && ei == Exp2(i) && eh == Exp2(i - n - 1) && eo == Exp2(i - n)
    ensures -eh + ei <= q as real * eo - v as real * ei <= eh
  {
    HalfStepSize(i, n, ei, eh, eo);
    NearestShiftError(v, n);
    NearestCore(q, v, Pow2(-n - 1), ei, eh, eo);
  }

  // The shift errors against `error_bounds(i - n, i)`, per method.
  lemma FloorShiftWithin(v: int, i: int, n: int, q: int, ei: real, eo: real)
    requires n < 0 && q == FloorShift(v, n) && ei == Exp2(i) && eo == Exp2(i - n)
    ensures ErrorBounds(Floor, i - n, Some(i)).Ok?
    ensures In(q as real * eo - v as real * ei, ErrorBounds(Floor, i - n, Some(i)).value)
  {
    ErrorBoundsWithInput(i - n, i);
    FloorShiftSound(v, i, n, q, ei, eo);
  }

  lemma CeilShiftWithin(v: int, i: int, n: int, q: int, ei: real, eo: real)
    requires n < 0 && q == CeilShift(v, n) && ei == Exp2(i) && eo == Exp2(i - n)
    ensures ErrorBounds(Ceil, i - n, Some(i)).Ok?
    ensures In(q as real * eo - v as real * ei, ErrorBounds(Ceil, i - n, Some(i)).value)
  {
    ErrorBoundsWithInput(i - n, i);
    CeilShiftSound(v, i, n, q, ei, eo);
  }

  lemma NearestShiftWithin(v: int, i: int, n: int, q: int, ei: real, eo: real)
    requires n < 0 && q == NearestShift(v, n) && ei == Exp2(i) && eo == Exp2(i - n)
    ensures ErrorBounds(NearestInteger, i - n, Some(i)).Ok?
    ensures In(q as real * eo - v as real * ei, ErrorBounds(NearestInteger, i - n, Some(i)).value)
  {
    ErrorBoundsWithInput(i - n, i);
    NearestShiftSound(v, i, n, q, ei, Exp2(i - n - 1), eo);
  }

  lemma TruncateShiftWithin(v: int, i: int, n: int, q: int, ei: real, eo: real)
    requires n < 0 && q == TruncateShift(v, n) && ei == Exp2(i) && eo == Exp2(i - n)
    ensures ErrorBounds(Truncate, i - n, Some(i)).Ok?
    ensures In(q as real * eo - v as real * ei, ErrorBounds(Truncate, i - n, Some(i)).value)
  {
    ErrorBoundsWithInput(i - n, i);
    TruncateShiftSound(v, i, n, q, ei, eo);
  }

  /** Soundness of the shift against the bounds: a mantissa v exact at LSB
      i (step ei = 2^i), shifted to q by n < 0 to LSB o = i - n (step
      eo = 2^o), changes value by an amount inside `error_bounds(o, i)`. */
  lemma ShiftWithinErrorBounds(m: Method, v: int, i: int, n: int, q: int, ei: real, eo: real)
    requires HasShift(m) && n < 0 && q == ShiftScalar(m, v, n) && ei == Exp2(i) && eo == Exp2(i - n)
    ensures ErrorBounds(m, i - n, Some(i)).Ok?
    ensures In(q as real * eo - v as real * ei, ErrorBounds(m, i - n, Some(i)).value)
  {
    match m
    case Floor => FloorShiftWithin(v, i, n, q, ei, eo);
    case Ceil => CeilShiftWithin(v, i, n, q, ei, eo);
    case NearestInteger => NearestShiftWithin(v, i, n, q, ei, eo);
    case Truncate => TruncateShiftWithin(v, i, n, q, ei, eo);
  }

  /** Rounding a real is off by at most the unit the method promises. */
  lemma ApplyError(m: Method, y: real)
    ensures m.NearestInteger? || m.BuiltinRound? ==> -0.5 <= Apply(m, y) as real - y <= 0.5
    ensures m.Floor? ==> -1.0 < Apply(m, y) as real - y <= 0.0
    ensures m.Ceil? ==> 0.0 <= Apply(m, y) as real - y < 1.0
    ensures m.Truncate? ==> -1.0 < Apply(m, y) as real - y < 1.0
  {
  }

  /** Every rounding function is monotone, so rounding both bounds of an
      interval yields an interval. */
  lemma ApplyMonotone(m: Method, x: real, y: real)
    requires x <= y
    ensures Apply(m, x) <= Apply(m, y)
  {
    if m.NearestInteger? || m.BuiltinRound? {
      RoundMonotone(x, y);
    }
  }

  lemma RoundMonotone(x: real, y: real)
    requires x <= y
    ensures RoundHalfEven(x) <= RoundHalfEven(y)
  {
    if x != y {
      var a, b := RoundHalfEven(x), RoundHalfEven(y);
      assert a as real <= x + 0.5 && y - 0.5 <= b as real;
    }
  }

  /** The scalar roundings of the source's own examples. */
  lemma ApplyExamples()
    ensures Apply(Floor, -1.4) == -2 && Apply(Ceil, -1.6) == -1
    ensures Apply(Truncate, -1.6) == -1 && Apply(Truncate, 1.6) == 1
    ensures Apply(NearestInteger, 1.6) == 2 && Apply(NearestInteger, -1.4) == -1
  {
    assert (-1.4).Floor == -2;
    assert (1.6).Floor == 1;
    assert (-1.6).Floor == -2;
  }

  /** On a tie the two nearest-integer paths part ways: the shift rounds
      1 * 2^-1 up to 1, the function rounds 0.5 to the even 0. */
  lemma NearestTiesDisagree()
    ensures NearestShift(1, -1) == 1
    ensures Apply(NearestInteger, 0.5) == 0
  {
    assert Shr(1, 0) == 1;
  }
}
