/** Numbers carrying worst-case error bounds
    (src/ltitop/arithmetic/error_bounded/number.py): a nominal value, which
    is a plain real, an interval or a fixed-point representation, paired
    with an interval that the offset from the exact value lies in. The
    arithmetic propagates the bounds analytically and, where a fixed-point
    result had to be rounded, adds the active unit's rounding error. */
module ErrorBounded {
  import opened Wrappers
  import I = Intervals
  import opened Values
  import opened Errors
  import opened Rounding
  import Numerics
  import R = Representations
  import U = Units
  import FN = FixedNumbers

  /** What the `number` field holds: a plain real or interval, or a
      fixed-point number of the active unit. */
  datatype Nominal = Plain(v: Value) | Fixed(rep: R.Representation)

  /** `Number(number, error_bounds)`. */
  datatype Number = Number(number: Nominal, error: I.Interval)

  /** The default error bounds, `Interval(0)`. */
  const Zero: I.Interval := I.Bounds(0.0, 0.0)

  /** `Number(x)` for an operand that is not yet an error-bounded number. */
  function Exact(n: Nominal): (r: Number)
    ensures r.number == n && I.EqualScalar(r.error, 0.0)
  {
    Number(n, Zero)
  }

  /** An interval nominal on the left of a fixed-point one dispatches to the
      interval's own operators, which build an interval of fixed-point
      bounds; the model leaves that pairing out. */
  predicate Mixable(a: Nominal, b: Nominal) {
    !(a.Plain? && a.v.Span? && b.Fixed?)
  }

  /** A nominal as the other operand of a fixed-point operator. */
  function AsOther(n: Nominal): FN.Other {
    match n
    case Plain(v) => FN.Plain(v)
    case Fixed(y) => FN.Num(y)
  }

  /** `mpfloat(n)`: the value a nominal stands for. */
  function ValueOfNominal(n: Nominal): Value {
    match n
    case Plain(v) => v
    case Fixed(x) => R.ValueOf(x)
  }

  /** `mpfloat(n) + e`: the nominal widened by the error bounds. */
  function Widened(n: Nominal, e: I.Interval): I.Interval {
    match ValueOfNominal(n)
    case Real(c) => I.AddScalar(e, c)
    case Span(iv) => I.Add(iv, e)
  }

  // ---- The nominal operations ----

  /** `a + b` on the nominals; a plain left operand meets a fixed-point one
      through the fixed-point `__radd__`. */
  function NominalAdd(unit: Option<U.Config>, a: Nominal, b: Nominal): (r: Result<Nominal>)
    requires FN.Slot(unit) && Mixable(a, b)
    ensures (a.Fixed? || b.Fixed?) && unit.None? ==> r == Err(RuntimeError)
  {
    match a
    case Plain(v) =>
      (match b
       case Plain(w) => Ok(Plain(Plus(v, w)))
       case Fixed(y) => var z :- FN.Add(unit, y, FN.Plain(v)); Ok(Fixed(z)))
    case Fixed(x) =>
      var z :- FN.Add(unit, x, AsOther(b)); Ok(Fixed(z))
  }

  /** `a - b` on the nominals; a plain left operand meets a fixed-point one
      through the fixed-point `__rsub__`. */
  function NominalSub(unit: Option<U.Config>, a: Nominal, b: Nominal): (r: Result<Nominal>)
    requires FN.Slot(unit) && Mixable(a, b)
    ensures (a.Fixed? || b.Fixed?) && unit.None? ==> r == Err(RuntimeError)
  {
    match a
    case Plain(v) =>
      (match b
       case Plain(w) => Ok(Plain(Minus(v, w)))
       case Fixed(y) => var z :- FN.RSub(unit, y, FN.Plain(v)); Ok(Fixed(z)))
    case Fixed(x) =>
      var z :- FN.Sub(unit, x, AsOther(b)); Ok(Fixed(z))
  }

  /** `a * b` on the nominals. */
  function NominalMul(unit: Option<U.Config>, a: Nominal, b: Nominal): (r: Result<Nominal>)
    requires FN.Slot(unit) && Mixable(a, b)
    ensures (a.Fixed? || b.Fixed?) && unit.None? ==> r == Err(RuntimeError)
  {
    match a
    case Plain(v) =>
      (match b
       case Plain(w) => Ok(Plain(Times(v, w)))
       case Fixed(y) => var z :- FN.Mul(unit, y, FN.Plain(v)); Ok(Fixed(z)))
    case Fixed(x) =>
      var z :- FN.Mul(unit, x, AsOther(b)); Ok(Fixed(z))
  }

  /** `n == c` for a scalar c: a plain value compares as Python does, a
      fixed-point one through its own `__eq__`. */
  function EqualsScalar(unit: Option<U.Config>, n: Nominal, c: real): Result<bool>
    requires FN.Slot(unit)
  {
    match n
    case Plain(v) => Ok(Equals(v, Real(c)))
    case Fixed(x) => FN.Eq(unit, x, FN.Plain(Real(c)))
  }

  /** `n == cs[0] or n == cs[1] or ...`, evaluated left to right and stopping
      at the first that holds. */
  function AnyEquals(unit: Option<U.Config>, n: Nominal, cs: seq<real>): Result<bool>
    requires FN.Slot(unit)
    decreases |cs|
  {
    if |cs| == 0 then Ok(false)
    else
      var hit :- EqualsScalar(unit, n, cs[0]);
      if hit then Ok(true) else AnyEquals(unit, n, cs[1..])
  }

  /** The `exact` test of an operation: either operand equal to one of cs. */
  function Exactness(unit: Option<U.Config>, a: Nominal, b: Nominal, cs: seq<real>): Result<bool>
    requires FN.Slot(unit)
  {
    var ea :- AnyEquals(unit, a, cs);
    if ea then Ok(true) else AnyEquals(unit, b, cs)
  }

  /** The rounding error one operand of a sum or difference contributes to a
      fixed-point result at LSB o: a fixed-point operand only when it is
      finer than the result, a plain one whenever it is nonzero. */
  function OperandTerm(m: Method, o: int, n: Nominal): Result<I.Interval> {
    match n
    case Fixed(x) =>
      if o > x.format.lsb then ErrorBounds(m, o, Some(x.format.lsb)) else Ok(Zero)
    case Plain(v) =>
      if !Equals(v, Real(0.0)) then ErrorBounds(m, o, None) else Ok(Zero)
  }

  /** The tail shared by `+` and `-`: a plain result keeps the propagated
      bounds e; a fixed-point result, unless an operand is zero, adds the
      rounding error of each operand. */
  function WithRounding(unit: Option<U.Config>, a: Nominal, b: Nominal, n: Nominal, e: I.Interval): (r: Result<Number>)
    requires FN.Slot(unit)
    ensures r.Ok? ==> r.value.number == n
    ensures n.Plain? ==> r == Ok(Number(n, e))
  {
    match n
    case Plain(_) => Ok(Number(n, e))
    case Fixed(z) =>
      var exact :- Exactness(unit, a, b, [0.0]);
      if exact then Ok(Number(n, e))
      else
        var u :- FN.Active(unit);
        var ta :- OperandTerm(u.rounding, z.format.lsb, a);
        var tb :- OperandTerm(u.rounding, z.format.lsb, b);
        Ok(Number(n, I.Add(I.Add(e, ta), tb)))
  }

  // ---- The arithmetic ----

  /** `a + b` (and `__radd__`, the same with the operands swapped): the
      error bounds add. */
  function Add(unit: Option<U.Config>, a: Number, b: Number): (r: Result<Number>)
    requires FN.Slot(unit) && Mixable(a.number, b.number)
    ensures (a.number.Fixed? || b.number.Fixed?) && unit.None? ==> r == Err(RuntimeError)
    ensures a.number.Plain? && b.number.Plain? ==>
      r == Ok(Number(Plain(Plus(a.number.v, b.number.v)), I.Add(a.error, b.error)))
  {
    var n :- NominalAdd(unit, a.number, b.number);
    WithRounding(unit, a.number, b.number, n, I.Add(a.error, b.error))
  }

  /** `a - b` as written: the error bounds add, as they do for a sum. */
  function SubAsWritten(unit: Option<U.Config>, a: Number, b: Number): (r: Result<Number>)
    requires FN.Slot(unit) && Mixable(a.number, b.number)
    ensures (a.number.Fixed? || b.number.Fixed?) && unit.None? ==> r == Err(RuntimeError)
    ensures a.number.Plain? && b.number.Plain? ==>
      r == Ok(Number(Plain(Minus(a.number.v, b.number.v)), I.Add(a.error, b.error)))
  {
    var n :- NominalSub(unit, a.number, b.number);
    WithRounding(unit, a.number, b.number, n, I.Add(a.error, b.error))
  }

  /** `a - b` as intended: the offset of a difference is the difference of
      the offsets, so the bounds are `ea - eb` = [ea.lo - eb.hi, ea.hi - eb.lo]. */
  function Sub(unit: Option<U.Config>, a: Number, b: Number): (r: Result<Number>)
    requires FN.Slot(unit) && Mixable(a.number, b.number)
    ensures (a.number.Fixed? || b.number.Fixed?) && unit.None? ==> r == Err(RuntimeError)
    ensures a.number.Plain? && b.number.Plain? ==>
      r == Ok(Number(Plain(Minus(a.number.v, b.number.v)), I.Sub(a.error, b.error)))
  {
    var n :- NominalSub(unit, a.number, b.number);
    WithRounding(unit, a.number, b.number, n, I.Sub(a.error, b.error))
  }

  /** `other - a` for an operand that is not an error-bounded number, through
      the corrected subtraction: the bounds of `other - a` are those of `a`
      negated. The source goes through its own `-`, which sums the bounds, so
      there `other - a` keeps the bounds of `a` unchanged (RSubAsWrittenExample). */
  function RSub(unit: Option<U.Config>, a: Number, other: Nominal): (r: Result<Number>)
    requires FN.Slot(unit) && Mixable(other, a.number)
    ensures r == Sub(unit, Exact(other), a)
  {
    Sub(unit, Exact(other), a)
  }

  /** `a.difference(v)`: bound by bound. */
  function DifferenceBy(a: I.Interval, v: Value): Result<I.Interval> {
    match v
    case Real(c) => Ok(I.DifferenceScalar(a, c))
    case Span(b) => Check(I.Difference(a, b))
  }

  /** The propagated error of a product: the range of the widened operands'
      product, less the nominal product. */
  function ProductError(a: Number, b: Number): Result<I.Interval> {
    var sa, sb := ValueOfNominal(a.number), ValueOfNominal(b.number);
    DifferenceBy(I.Mul(Widened(a.number, a.error), Widened(b.number, b.error)), Times(sa, sb))
  }

  /** `a * b` (and `__rmul__`): the propagated error, plus, for a fixed-point
      result with no operand equal to -1, 1 or 0, the rounding error at the
      result's LSB (from the sum of the operand LSBs when both operands are
      fixed-point). */
  function Mul(unit: Option<U.Config>, a: Number, b: Number): (r: Result<Number>)
    requires FN.Slot(unit) && Mixable(a.number, b.number)
    ensures (a.number.Fixed? || b.number.Fixed?) && unit.None? ==> r == Err(RuntimeError)
    ensures a.number.Plain? && b.number.Plain? && r.Ok? ==> r.value.number == Plain(Times(a.number.v, b.number.v))
    ensures a.number.Plain? && b.number.Plain? && ProductError(a, b).Ok? ==>
      r == Ok(Number(Plain(Times(a.number.v, b.number.v)), ProductError(a, b).value))
  {
    var n :- NominalMul(unit, a.number, b.number);
    var e :- ProductError(a, b);
    match n
    case Plain(_) => Ok(Number(n, e))
    case Fixed(z) =>
      var exact :- Exactness(unit, a.number, b.number, [-1.0, 1.0, 0.0]);
      if exact then Ok(Number(n, e))
      else
        var u :- FN.Active(unit);
        var t :- if a.number.Fixed? && b.number.Fixed?
                 then ErrorBounds(u.rounding, z.format.lsb, Some(a.number.rep.format.lsb + b.number.rep.format.lsb))
                 else ErrorBounds(u.rounding, z.format.lsb, None);
        Ok(Number(n, I.Add(e, t)))
  }

  /** `-a`: both the nominal and the bounds are negated. */
  function Neg(unit: Option<U.Config>, a: Number): (r: Result<Number>)
    requires FN.Slot(unit)
    ensures r.Ok? ==> r.value.error == I.Neg(a.error)
    ensures a.number.Plain? ==> r == Ok(Number(Plain(Negated(a.number.v)), I.Neg(a.error)))
  {
    match a.number
    case Plain(v) => Ok(Number(Plain(Negated(v)), I.Neg(a.error)))
    case Fixed(x) => var z :- FN.Neg(unit, x); Ok(Number(Fixed(z), I.Neg(a.error)))
  }

  /** `c << n` on a plain number: Python shifts integers only (a real with a
      fraction stands for a float, which raises TypeError), and a negative
      count raises ValueError. */
  function ShiftInteger(c: real, n: int): (r: Result<real>)
    ensures r.Ok? <==> c == c.Floor as real && n >= 0
  {
    if c != c.Floor as real then Err(TypeError)
    else if n < 0 then Err(ValueError)
    else Ok(c * Numerics.Exp2(n))
  }

  /** `a << n`: the nominal shifted (by the unit, for a fixed-point one) and
      the bounds scaled by 2^n. */
  function LShift(unit: Option<U.Config>, a: Number, n: int): (r: Result<Number>)
    requires FN.Slot(unit)
    ensures r.Ok? ==> r.value.error == I.MulScalar(a.error, Numerics.Exp2(n))
  {
    var m :- match a.number
      case Plain(Real(c)) => var s :- ShiftInteger(c, n); Ok(Plain(Real(s)))
      case Plain(Span(iv)) =>
        var lo :- ShiftInteger(iv.lo, n);
        var hi :- ShiftInteger(iv.hi, n);
        // Both bounds scale by the same positive power, so they stay ordered.
        Ok(Plain(Span(I.MulScalar(iv, Numerics.Exp2(n)))))
      case Fixed(x) => var z :- FN.LShift(unit, x, n); Ok(Fixed(z));
    Ok(Number(m, I.MulScalar(a.error, Numerics.Exp2(n))))
  }

  /** `math.trunc`, `math.ceil`, `math.floor` and `round` of a number: the
      method applied to the nominal (an interval has none of these
      operators), and its error bounds at LSB 0 added, from the nominal's
      LSB when it is fixed-point. */
  function Round(unit: Option<U.Config>, a: Number, m: Method): (r: Result<Number>)
    requires FN.Slot(unit)
    requires m.Truncate? || m.Ceil? || m.Floor? || m.NearestInteger?
    ensures a.number.Plain? && a.number.v.Span? ==> r == Err(TypeError)
  {
    var n :- RoundedNominal(unit, a.number, m);
    var t :- RoundingTerm(a.number, m);
    Ok(Number(n, I.Add(a.error, t)))
  }

  /** The method applied to a nominal. */
  function RoundedNominal(unit: Option<U.Config>, n: Nominal, m: Method): Result<Nominal>
    requires FN.Slot(unit)
    requires m.Truncate? || m.Ceil? || m.Floor? || m.NearestInteger?
  {
    match n
    case Plain(Real(c)) => Ok(Plain(Real(Apply(m, c) as real)))
    case Plain(Span(_)) => Err(TypeError)
    case Fixed(x) => var z :- FN.Round(unit, x, m); Ok(Fixed(z))
  }

  /** The method's error bounds at LSB 0, from a fixed-point nominal's LSB. */
  function RoundingTerm(n: Nominal, m: Method): Result<I.Interval> {
    ErrorBounds(m, 0, if n.Fixed? then Some(n.rep.format.lsb) else None)
  }

  // ---- The comparisons ----

  /** `a == b` on the nominals; a plain real on the left of a fixed-point
      number is answered by the fixed-point `__eq__`. */
  function NominalEq(unit: Option<U.Config>, a: Nominal, b: Nominal): Result<bool>
    requires FN.Slot(unit) && Mixable(a, b)
  {
    match a
    case Plain(v) =>
      (match b
       case Plain(w) => Ok(Equals(v, w))
       case Fixed(y) => FN.Eq(unit, y, FN.Plain(v)))
    case Fixed(x) => FN.Eq(unit, x, AsOther(b))
  }

  /** `a == b`: equal nominals, and both bounds exactly zero. */
  function Eq(unit: Option<U.Config>, a: Number, b: Number): (r: Result<bool>)
    requires FN.Slot(unit) && Mixable(a.number, b.number)
    ensures r.Ok? <==> NominalEq(unit, a.number, b.number).Ok?
    ensures r.Ok? && r.value ==> I.EqualScalar(a.error, 0.0) && I.EqualScalar(b.error, 0.0)
  {
    var same :- NominalEq(unit, a.number, b.number);
    Ok(same && I.Equal(a.error, b.error) && I.EqualScalar(b.error, 0.0))
  }

  function Ne(unit: Option<U.Config>, a: Number, b: Number): (r: Result<bool>)
    requires FN.Slot(unit) && Mixable(a.number, b.number)
    ensures r.Ok? <==> Eq(unit, a, b).Ok?
    ensures r.Ok? ==> r.value == !Eq(unit, a, b).value
  {
    var e :- Eq(unit, a, b);
    Ok(!e)
  }

  /** `a < b`: every value a may take lies below every value b may take. */
  function Lt(a: Number, b: Number): (r: bool)
    ensures r <==> forall x, y :: I.In(x, Widened(a.number, a.error)) && I.In(y, Widened(b.number, b.error)) ==> x < y
  {
    I.Lt(Widened(a.number, a.error), Widened(b.number, b.error))
  }

  /** `a <= b` is `a < b or a == b`. */
  function Le(unit: Option<U.Config>, a: Number, b: Number): (r: Result<bool>)
    requires FN.Slot(unit) && Mixable(a.number, b.number)
    ensures Lt(a, b) ==> r == Ok(true)
    ensures !Lt(a, b) ==> r == Eq(unit, a, b)
  {
    if Lt(a, b) then Ok(true) else Eq(unit, a, b)
  }

  function Gt(unit: Option<U.Config>, a: Number, b: Number): (r: Result<bool>)
    requires FN.Slot(unit) && Mixable(a.number, b.number)
    ensures r.Ok? <==> Le(unit, a, b).Ok?
    ensures r.Ok? ==> r.value == !Le(unit, a, b).value
  {
    var le :- Le(unit, a, b);
    Ok(!le)
  }

  function Ge(a: Number, b: Number): (r: bool)
    ensures r <==> !Lt(a, b)
  {
    !Lt(a, b)
  }

  // ---- Soundness: the exact value stays within the bounds ----

  /** The exact real x is within a plain scalar number's bounds: the offset
      `x - number` lies in them. */
  predicate Encloses(a: Number, x: real) {
    a.number.Plain? && a.number.v.Real? && I.In(x - a.number.v.x, a.error)
  }

  lemma EnclosesWidened(a: Number, x: real)
    requires a.number.Plain? && a.number.v.Real?
    ensures Encloses(a, x) <==> I.In(x, Widened(a.number, a.error))
  {
  }

  /** A sum of plain numbers encloses the sum of any exact values. */
  lemma AddSound(unit: Option<U.Config>, a: Number, b: Number, x: real, y: real)
    requires FN.Slot(unit) && Encloses(a, x) && Encloses(b, y)
    ensures Add(unit, a, b).Ok? && Encloses(Add(unit, a, b).value, x + y)
  {
    I.AddContains(a.error, b.error, x - a.number.v.x, y - b.number.v.x);
  }

  /** The intended subtraction encloses the exact difference. */
  lemma SubSound(unit: Option<U.Config>, a: Number, b: Number, x: real, y: real)
    requires FN.Slot(unit) && Encloses(a, x) && Encloses(b, y)
    ensures Sub(unit, a, b).Ok? && Encloses(Sub(unit, a, b).value, x - y)
  {
    I.SubContains(a.error, b.error, x - a.number.v.x, y - b.number.v.x);
  }

  /** The subtraction as written does not: with a = 1 within [-0.1, 0.3] and
      b = 1 within [-0.3, 0.2], the exact values 1.3 and 0.7 differ by 0.6,
      outside the bounds [-0.4, 0.5] it reports for the difference 0. */
  lemma SubAsWrittenUnsound(unit: Option<U.Config>, a: Number, b: Number)
    requires FN.Slot(unit)
    requires a == Number(Plain(Real(1.0)), I.Bounds(-0.1, 0.3))
    requires b == Number(Plain(Real(1.0)), I.Bounds(-0.3, 0.2))
    ensures Encloses(a, 1.3) && Encloses(b, 0.7)
    ensures SubAsWritten(unit, a, b) == Ok(Number(Plain(Real(0.0)), I.Bounds(-0.4, 0.5)))
    ensures !Encloses(SubAsWritten(unit, a, b).value, 1.3 - 0.7)
    ensures Sub(unit, a, b) == Ok(Number(Plain(Real(0.0)), I.Bounds(-0.3, 0.6)))
  {
  }

  /** `other - a` as written keeps the bounds of `a`: with other = 1 and
      a = 1 within [-0.3, 0.2], the difference 0 is reported within
      [-0.3, 0.2], which misses 1 - 0.7 = 0.3 for the exact value 0.7 of
      a; the corrected RSub reports [-0.2, 0.3]. */
  lemma RSubAsWrittenExample(unit: Option<U.Config>, a: Number)
    requires FN.Slot(unit)
    requires a == Number(Plain(Real(1.0)), I.Bounds(-0.3, 0.2))
    ensures SubAsWritten(unit, Exact(Plain(Real(1.0))), a) == Ok(Number(Plain(Real(0.0)), a.error))
    ensures Encloses(a, 0.7) && !Encloses(SubAsWritten(unit, Exact(Plain(Real(1.0))), a).value, 1.0 - 0.7)
    ensures RSub(unit, a, Plain(Real(1.0))) == Ok(Number(Plain(Real(0.0)), I.Bounds(-0.2, 0.3)))
  {
  }

  /** A product of plain numbers encloses the product of any exact values. */
  lemma MulSound(unit: Option<U.Config>, a: Number, b: Number, x: real, y: real)
    requires FN.Slot(unit) && Encloses(a, x) && Encloses(b, y)
    ensures Mul(unit, a, b).Ok? && Encloses(Mul(unit, a, b).value, x * y)
  {
    var ca, cb := a.number.v.x, b.number.v.x;
    var wa, wb := Widened(a.number, a.error), Widened(b.number, b.error);
    assert I.In(x, wa) && I.In(y, wb);
    I.MulContains(wa, wb, x, y);
    assert ValueOfNominal(a.number) == Real(ca) && ValueOfNominal(b.number) == Real(cb);
    assert Times(Real(ca), Real(cb)) == Real(ca * cb);
    assert ProductError(a, b) == Ok(I.DifferenceScalar(I.Mul(wa, wb), ca * cb));
  }

  lemma NegSound(unit: Option<U.Config>, a: Number, x: real)
    requires FN.Slot(unit) && Encloses(a, x)
    ensures Neg(unit, a).Ok? && Encloses(Neg(unit, a).value, -x)
  {
    I.NegContains(a.error, x - a.number.v.x);
  }

  /** Shifting a plain integer left scales the exact value and the bounds
      alike. */
  lemma LShiftSound(unit: Option<U.Config>, a: Number, n: nat, x: real)
    requires FN.Slot(unit) && Encloses(a, x)
    requires a.number.v.x == a.number.v.x.Floor as real
    ensures LShift(unit, a, n).Ok? && Encloses(LShift(unit, a, n).value, x * Numerics.Exp2(n))
  {
    var c, p := a.number.v.x, Numerics.Exp2(n);
    var d := x - c;
    I.MulScalarContains(a.error, p, d);
    assert x * p - c * p == d * p;
  }

  /** Rounding a plain real to nearest or toward zero keeps the exact value
      within the bounds: those two methods' error bounds are symmetric. */
  lemma RoundSound(unit: Option<U.Config>, a: Number, m: Method, x: real)
    requires FN.Slot(unit) && Encloses(a, x)
    requires m.NearestInteger? || m.Truncate?
    ensures Round(unit, a, m).Ok? && Encloses(Round(unit, a, m).value, x)
  {
    var c := a.number.v.x;
    ApplyError(m, c);
    ErrorBoundsWithoutInput(0);
    Numerics.Exp2Step(0);
  }

  /** Floor and ceil bound the rounded value minus the exact one, the
      opposite offset: 1.5 floors to 1 with bounds [-1, 0], and 1.5 - 1 is
      not in them. */
  lemma FloorBoundsRoundedMinusExact(unit: Option<U.Config>, a: Number)
    requires FN.Slot(unit) && a == Exact(Plain(Real(1.5)))
    ensures Round(unit, a, Floor) == Ok(Number(Plain(Real(1.0)), I.Bounds(-1.0, 0.0)))
    ensures !Encloses(Round(unit, a, Floor).value, 1.5)
  {
    ErrorBoundsWithoutInput(0);
  }

  /** The rounding with the error bounds' offset turned round: they bound
      `rounded - exact`, so the number, which keeps `exact - nominal`, adds
      their negation. The nominal is the one `Round` computes. */
  function RoundCorrected(unit: Option<U.Config>, a: Number, m: Method): (r: Result<Number>)
    requires FN.Slot(unit)
    requires m.Truncate? || m.Ceil? || m.Floor? || m.NearestInteger?
    ensures r.Ok? <==> Round(unit, a, m).Ok?
    ensures r.Ok? ==> r.value.number == Round(unit, a, m).value.number
  {
    var n :- RoundedNominal(unit, a.number, m);
    var t :- RoundingTerm(a.number, m);
    Ok(Number(n, I.Add(a.error, I.Neg(t))))
  }

  /** Rounding a plain real by any of the four methods keeps the exact value
      within the corrected bounds. */
  lemma RoundCorrectedSound(unit: Option<U.Config>, a: Number, m: Method, x: real)
    requires FN.Slot(unit) && Encloses(a, x)
    requires m.Truncate? || m.Ceil? || m.Floor? || m.NearestInteger?
    ensures RoundCorrected(unit, a, m).Ok? && Encloses(RoundCorrected(unit, a, m).value, x)
  {
    var c := a.number.v.x;
    var n := Apply(m, c) as real;
    ApplyError(m, c);
    ErrorBoundsWithoutInput(0);
    Numerics.Exp2Step(0);
    var t := ErrorBounds(m, 0, None).value;
    I.NegContains(t, n - c);
    I.AddContains(a.error, I.Neg(t), x - c, c - n);
  }

  /** The corrected floor of exactly 1.5 is 1 with bounds [0, 1], which
      hold 1.5 - 1 (the as-written bounds are [-1, 0]). */
  lemma RoundCorrectedFloorExample(unit: Option<U.Config>, a: Number)
    requires FN.Slot(unit) && a == Exact(Plain(Real(1.5)))
    ensures RoundCorrected(unit, a, Floor) == Ok(Number(Plain(Real(1.0)), I.Bounds(0.0, 1.0)))
  {
    assert RoundedNominal(unit, a.number, Floor) == Ok(Plain(Real(1.0))) by {
      FloorBoundsRoundedMinusExact(unit, a);
    }
    assert RoundingTerm(a.number, Floor) == Ok(I.Bounds(-1.0, 0.0)) by {
      ErrorBoundsWithoutInput(0);
    }
  }

  /** `a < b` holds exactly when every exact value of a lies below every
      exact value of b. */
  lemma LtMeans(a: Number, b: Number)
    requires a.number.Plain? && a.number.v.Real? && b.number.Plain? && b.number.v.Real?
    ensures Lt(a, b) <==> forall x, y :: Encloses(a, x) && Encloses(b, y) ==> x < y
  {
    var wa, wb := Widened(a.number, a.error), Widened(b.number, b.error);
    I.OrderingMeans(wa, wb);
    assert forall x :: Encloses(a, x) <==> I.In(x, wa);
    assert forall y :: Encloses(b, y) <==> I.In(y, wb);
  }

  /** Numbers compare equal only when both are exact: no inexact number is
      equal to anything, itself included; exact plain numbers are equal when
      their nominals are. */
  lemma EqMeans(unit: Option<U.Config>, a: Number, b: Number)
    requires FN.Slot(unit) && a.number.Plain? && b.number.Plain?
    ensures Eq(unit, a, b) == Ok(Equals(a.number.v, b.number.v) && I.EqualScalar(a.error, 0.0) && I.EqualScalar(b.error, 0.0))
    ensures !I.EqualScalar(a.error, 0.0) ==> Eq(unit, a, a) == Ok(false)
  {
  }

  // ---- Rounding terms only ever widen the bounds ----

  lemma ErrorBoundsHoldZero(m: Method, o: int, i: Option<int>, t: I.Interval)
    requires ErrorBounds(m, o, i) == Ok(t)
    requires i.None? || i.value < o
    ensures I.In(0.0, t)
  {
    if i.None? {
      ErrorBoundsWithoutInput(o);
    } else {
      ErrorBoundsWithInput(o, i.value);
      Numerics.Exp2Order(i.value, o - 1);
    }
    Numerics.Exp2Positive(o);
    Numerics.Exp2Positive(o - 1);
  }

  lemma OperandTermHoldsZero(m: Method, o: int, n: Nominal, t: I.Interval)
    requires OperandTerm(m, o, n) == Ok(t)
    ensures I.In(0.0, t)
  {
    match n
    case Fixed(x) =>
      if o > x.format.lsb {
        ErrorBoundsHoldZero(m, o, Some(x.format.lsb), t);
      }
    case Plain(v) =>
      if !Equals(v, Real(0.0)) {
        ErrorBoundsHoldZero(m, o, None, t);
      }
  }

  lemma WithRoundingWidens(unit: Option<U.Config>, a: Nominal, b: Nominal, n: Nominal, e: I.Interval, r: Number)
    requires FN.Slot(unit) && WithRounding(unit, a, b, n, e) == Ok(r)
    ensures I.Contains(r.error, e)
  {
    if n.Fixed? {
      var exact := Exactness(unit, a, b, [0.0]).value;
      if !exact {
        var u := FN.Active(unit).value;
        var o := n.rep.format.lsb;
        OperandTermHoldsZero(u.rounding, o, a, OperandTerm(u.rounding, o, a).value);
        OperandTermHoldsZero(u.rounding, o, b, OperandTerm(u.rounding, o, b).value);
      }
    }
  }

  /** The bounds of a sum or difference contain the propagated bounds: the
      rounding a fixed-point result adds never narrows them. */
  lemma RoundingOnlyWidens(unit: Option<U.Config>, a: Number, b: Number)
    requires FN.Slot(unit) && Mixable(a.number, b.number)
    ensures Add(unit, a, b).Ok? ==> I.Contains(Add(unit, a, b).value.error, I.Add(a.error, b.error))
    ensures Sub(unit, a, b).Ok? ==> I.Contains(Sub(unit, a, b).value.error, I.Sub(a.error, b.error))
  {
    var s := NominalAdd(unit, a.number, b.number);
    if s.Ok? {
      var e := I.Add(a.error, b.error);
      var w := WithRounding(unit, a.number, b.number, s.value, e);
      if w.Ok? {
        WithRoundingWidens(unit, a.number, b.number, s.value, e, w.value);
      }
    }
    var d := NominalSub(unit, a.number, b.number);
    if d.Ok? {
      var e := I.Sub(a.error, b.error);
      var w := WithRounding(unit, a.number, b.number, d.value, e);
      if w.Ok? {
        WithRoundingWidens(unit, a.number, b.number, d.value, e, w.value);
      }
    }
  }

  /** An operand that is not an error-bounded number brings no error: with
      plain nominals, a + 2, 1 + b (the reflected form) and a - 2 keep a's
      or b's bounds. */
  lemma PlainOperandKeepsError(unit: Option<U.Config>, a: Number, c: real)
    requires FN.Slot(unit) && a.number.Plain?
    ensures Add(unit, a, Exact(Plain(Real(c)))).Ok?
    ensures Add(unit, a, Exact(Plain(Real(c)))).value.error == a.error
    ensures Sub(unit, a, Exact(Plain(Real(c)))).Ok?
    ensures Sub(unit, a, Exact(Plain(Real(c)))).value.error == a.error
  {
  }

  // ---- The package's own examples ----

  lemma AddExamples(unit: Option<U.Config>, a: Number, b: Number, f: Number)
    requires FN.Slot(unit)
    requires a == Number(Plain(Real(1.0)), I.Bounds(-0.1, 0.3))
    requires b == Number(Plain(Real(1.0)), I.Bounds(-0.3, 0.2))
    requires f == Number(Plain(Span(I.Bounds(-1.0, 1.0))), I.Bounds(-0.1, 0.2))
    ensures Add(unit, a, b) == Ok(Number(Plain(Real(2.0)), I.Bounds(-0.4, 0.5)))
    ensures Add(unit, a, f) == Ok(Number(Plain(Span(I.Bounds(0.0, 2.0))), I.Bounds(-0.2, 0.5)))
  {
  }

  lemma MulExample(unit: Option<U.Config>, a: Number, b: Number)
    requires FN.Slot(unit)
    requires a == Number(Plain(Real(0.5)), I.Bounds(-0.1, 0.2))
    requires b == Number(Plain(Real(-4.0)), I.Bounds(-0.2, 0.3))
    ensures Mul(unit, a, b) == Ok(Number(Plain(Real(-2.0)), I.Bounds(-0.94, 0.52)))
  {
    assert Widened(a.number, a.error) == I.Bounds(0.4, 0.7);
    assert Widened(b.number, b.error) == I.Bounds(-4.2, -3.7);
    assert I.Mul(I.Bounds(0.4, 0.7), I.Bounds(-4.2, -3.7)) == I.Bounds(-2.94, -1.48);
  }

  /** `a * 2`: a plain factor scales the bounds. */
  lemma MulScalarExample(unit: Option<U.Config>, a: Number)
    requires FN.Slot(unit)
    requires a == Number(Plain(Real(0.5)), I.Bounds(-0.1, 0.2))
    ensures Mul(unit, a, Exact(Plain(Real(2.0)))) == Ok(Number(Plain(Real(1.0)), I.Bounds(-0.2, 0.4)))
  {
    var b := Exact(Plain(Real(2.0)));
    assert ProductError(a, b) == Ok(I.Bounds(-0.2, 0.4)) by {
      assert I.Mul(I.Bounds(0.4, 0.7), I.Bounds(2.0, 2.0)) == I.Bounds(0.8, 1.4);
    }
  }

  /** `0.25 * b`, through `__rmul__`. */
  lemma RMulScalarExample(unit: Option<U.Config>, b: Number)
    requires FN.Slot(unit)
    requires b == Number(Plain(Real(-4.0)), I.Bounds(-0.2, 0.3))
    ensures Mul(unit, b, Exact(Plain(Real(0.25)))) == Ok(Number(Plain(Real(-1.0)), I.Bounds(-0.05, 0.075)))
  {
    var a := Exact(Plain(Real(0.25)));
    assert ProductError(b, a) == Ok(I.Bounds(-0.05, 0.075)) by {
      assert I.Mul(I.Bounds(-4.2, -3.7), I.Bounds(0.25, 0.25)) == I.Bounds(-1.05, -0.925);
    }
  }

  lemma MulIntervalExample(unit: Option<U.Config>, a: Number, f: Number)
    requires FN.Slot(unit)
    requires a == Number(Plain(Real(0.5)), I.Bounds(-0.1, 0.2))
    requires f == Number(Plain(Span(I.Bounds(-1.0, 1.0))), I.Bounds(-0.1, 0.2))
    ensures Mul(unit, a, f) == Ok(Number(Plain(Span(I.Bounds(-0.5, 0.5))), I.Bounds(-0.27, 0.34)))
  {
    assert I.Mul(I.Bounds(0.4, 0.7), I.Bounds(-1.1, 1.2)) == I.Bounds(-0.77, 0.84);
    assert I.MulScalar(I.Bounds(-1.0, 1.0), 0.5) == I.Bounds(-0.5, 0.5);
  }
}
