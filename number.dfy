/** The ambient fixed-point number (src/ltitop/arithmetic/fixed_point/number.py):
    a representation whose operators look up the active processing unit and
    delegate to it. The active unit is a parameter here, the configuration
    of the unit in the active slot (Units.ActiveSlot.ActiveConfig), or None
    when no unit is active. */
module FixedNumbers {
  import opened Wrappers
  import Intervals
  import opened Values
  import opened Errors
  import opened Mantissas
  import opened Rounding
  import opened Formats
  import opened Representations
  import U = Units
  import FixedAlu
  import MultiAlu

  /** What the active slot can hold: units whose construction succeeded. */
  predicate Slot(unit: Option<U.Config>) {
    unit.Some? ==> U.ValidConfig(unit.value)
  }

  /** The other operand of a binary operator: a representation, or a plain
      value that is converted first. */
  datatype Other = Num(rep: Representation) | Plain(value: Value)

  /** Python's truthiness of the other operand. */
  predicate OtherTruthy(o: Other) {
    match o
    case Num(r) => Truthy(r)
    case Plain(v) => Truthiness(v)
  }

  /** `ProcessingUnit.active()`. */
  function Active(unit: Option<U.Config>): Result<U.Config> {
    match unit
    case None => Err(RuntimeError)
    case Some(u) => Ok(u)
  }

  // ---- The unit's own methods, by the class of the active unit ----

  function UnitRepresent(u: U.Config, x: Operand): Result<Representation>
    requires U.ValidConfig(u)
  {
    if u.kind.FixedFormat? then FixedAlu.Represent(u, x) else MultiAlu.Represent(u, x, None)
  }

  function UnitAdd(u: U.Config, x: Representation, y: Representation): Result<Representation>
    requires U.ValidConfig(u)
  {
    if u.kind.FixedFormat? then FixedAlu.Add(u, x, y) else MultiAlu.Add(u, x, y)
  }

  function UnitSubstract(u: U.Config, x: Representation, y: Representation): Result<Representation>
    requires U.ValidConfig(u)
  {
    if u.kind.FixedFormat? then FixedAlu.Substract(u, x, y) else MultiAlu.Substract(u, x, y)
  }

  function UnitMultiply(u: U.Config, x: Representation, y: Representation): Result<Representation>
    requires U.ValidConfig(u)
  {
    if u.kind.FixedFormat? then FixedAlu.Multiply(u, x, y) else MultiAlu.Multiply(u, x, y)
  }

  function UnitNegate(u: U.Config, x: Representation): Result<Representation>
    requires U.ValidConfig(u)
  {
    if u.kind.FixedFormat? then FixedAlu.Negate(u, x) else MultiAlu.Negate(u, x)
  }

  function UnitCompare(u: U.Config, x: Representation, y: Representation): Result<Mantissa>
    requires U.ValidConfig(u)
  {
    if u.kind.FixedFormat? then FixedAlu.Compare(u, x, y) else MultiAlu.Compare(u, x, y)
  }

  function UnitLShift(u: U.Config, x: Representation, n: int): Result<Representation>
    requires U.ValidConfig(u)
  {
    if u.kind.FixedFormat? then FixedAlu.LShift(u, x, n) else MultiAlu.LShift(u, x, n)
  }

  function UnitRShift(u: U.Config, x: Representation, n: int): Result<Representation>
    requires U.ValidConfig(u)
  {
    if u.kind.FixedFormat? then FixedAlu.RShift(u, x, n) else MultiAlu.RShift(u, x, n)
  }

  function UnitRound(u: U.Config, x: Representation, m: Method): Result<Representation>
    requires U.ValidConfig(u)
  {
    if u.kind.FixedFormat? then FixedAlu.Round(u, x, m) else MultiAlu.Round(u, x, m)
  }

  // ---- Conversion and the arithmetic operators ----

  /** `Number.from_value(value)`: the active unit's `represent`. */
  function FromValue(unit: Option<U.Config>, v: Value): (r: Result<Representation>)
    requires Slot(unit)
    ensures unit.None? ==> r == Err(RuntimeError)
    ensures unit.Some? ==> r == UnitRepresent(unit.value, Number(v))
  {
    var u :- Active(unit);
    UnitRepresent(u, Number(v))
  }

  /** The conversion every binary operator applies to a plain operand. */
  function Lift(unit: Option<U.Config>, o: Other): (r: Result<Representation>)
    requires Slot(unit)
    ensures o.Num? ==> r == Ok(o.rep)
    ensures o.Plain? ==> r == FromValue(unit, o.value)
  {
    match o
    case Num(y) => Ok(y)
    case Plain(v) => FromValue(unit, v)
  }

  /** `x + other` (and `other + x`, which is the same method). */
  function Add(unit: Option<U.Config>, x: Representation, o: Other): (r: Result<Representation>)
    requires Slot(unit)
    ensures unit.None? ==> r == Err(RuntimeError)
    ensures Lift(unit, o).Err? ==> r == Err(Lift(unit, o).error)
    ensures unit.Some? && Lift(unit, o).Ok? ==> r == UnitAdd(unit.value, x, Lift(unit, o).value)
  {
    var y :- Lift(unit, o);
    var u :- Active(unit);
    UnitAdd(u, x, y)
  }

  /** `x - other`. */
  function Sub(unit: Option<U.Config>, x: Representation, o: Other): (r: Result<Representation>)
    requires Slot(unit)
    ensures unit.None? ==> r == Err(RuntimeError)
    ensures Lift(unit, o).Err? ==> r == Err(Lift(unit, o).error)
    ensures unit.Some? && Lift(unit, o).Ok? ==> r == UnitSubstract(unit.value, x, Lift(unit, o).value)
  {
    var y :- Lift(unit, o);
    var u :- Active(unit);
    UnitSubstract(u, x, y)
  }

  /** `other - x`: the operands are swapped before delegating. */
  function RSub(unit: Option<U.Config>, x: Representation, o: Other): (r: Result<Representation>)
    requires Slot(unit)
    ensures unit.None? ==> r == Err(RuntimeError)
    ensures Lift(unit, o).Err? ==> r == Err(Lift(unit, o).error)
    ensures unit.Some? && Lift(unit, o).Ok? ==> r == UnitSubstract(unit.value, Lift(unit, o).value, x)
  {
    var y :- Lift(unit, o);
    var u :- Active(unit);
    UnitSubstract(u, y, x)
  }

  /** `x * other` (and `other * x`). */
  function Mul(unit: Option<U.Config>, x: Representation, o: Other): (r: Result<Representation>)
    requires Slot(unit)
    ensures unit.None? ==> r == Err(RuntimeError)
    ensures Lift(unit, o).Err? ==> r == Err(Lift(unit, o).error)
    ensures unit.Some? && Lift(unit, o).Ok? ==> r == UnitMultiply(unit.value, x, Lift(unit, o).value)
  {
    var y :- Lift(unit, o);
    var u :- Active(unit);
    UnitMultiply(u, x, y)
  }

  /** `-x`. */
  function Neg(unit: Option<U.Config>, x: Representation): (r: Result<Representation>)
    requires Slot(unit)
    ensures unit.None? ==> r == Err(RuntimeError)
    ensures unit.Some? ==> r == UnitNegate(unit.value, x)
  {
    var u :- Active(unit);
    UnitNegate(u, x)
  }

  /** `x << n` and `x >> n`. */
  function LShift(unit: Option<U.Config>, x: Representation, n: int): (r: Result<Representation>)
    requires Slot(unit)
    ensures unit.None? ==> r == Err(RuntimeError)
    ensures unit.Some? ==> r == UnitLShift(unit.value, x, n)
  {
    var u :- Active(unit);
    UnitLShift(u, x, n)
  }

  function RShift(unit: Option<U.Config>, x: Representation, n: int): (r: Result<Representation>)
    requires Slot(unit)
    ensures unit.None? ==> r == Err(RuntimeError)
    ensures unit.Some? ==> r == UnitRShift(unit.value, x, n)
  {
    var u :- Active(unit);
    UnitRShift(u, x, n)
  }

  /** `math.trunc`, `math.ceil`, `math.floor` and `round` on x: the unit's
      truncate, ceil, floor and nearest. */
  function Round(unit: Option<U.Config>, x: Representation, m: Method): (r: Result<Representation>)
    requires Slot(unit)
    requires m.Truncate? || m.Ceil? || m.Floor? || m.NearestInteger?
    ensures unit.None? ==> r == Err(RuntimeError)
    ensures unit.Some? ==> r == UnitRound(unit.value, x, m)
  {
    var u :- Active(unit);
    UnitRound(u, x, m)
  }

  // ---- The comparisons ----

  /** The active unit's `compare`. */
  function Compared(unit: Option<U.Config>, x: Representation, y: Representation): (r: Result<Mantissa>)
    requires Slot(unit)
    ensures unit.None? ==> r == Err(RuntimeError)
    ensures unit.Some? ==> r == UnitCompare(unit.value, x, y)
  {
    var u :- Active(unit);
    UnitCompare(u, x, y)
  }

  /** `other < vi.lower_bound` and `other > vi.upper_bound` on a plain
      value: an interval is below only when all of it is. */
  predicate Below(v: Value, lo: real) {
    match v
    case Real(c) => c < lo
    case Span(a) => a.hi < lo
  }

  predicate Above(v: Value, hi: real) {
    match v
    case Real(c) => c > hi
    case Span(a) => a.lo > hi
  }

  /** `x == other`. Either side zero decides at once (both must be); a
      plain value outside x's value range is unequal without being
      converted; otherwise the unit's compare must give zero. */
  function Eq(unit: Option<U.Config>, x: Representation, o: Other): (r: Result<bool>)
    requires Slot(unit)
    ensures !Truthy(x) || !OtherTruthy(o) ==> r == Ok(!Truthy(x) && !OtherTruthy(o))
    ensures Truthy(x) && OtherTruthy(o) && o.Plain? && !CanRepresent(x.format, o.value) ==> r == Ok(false)
    ensures unit.None? && r.Err? ==> r.error == RuntimeError
  {
    if !Truthy(x) || !OtherTruthy(o) then Ok(!Truthy(x) && !OtherTruthy(o))
    else if o.Plain? && !CanRepresent(x.format, o.value) then Ok(false)
    else
      var y :- Lift(unit, o);
      var d :- Compared(unit, x, y);
      Ok(IsZero(d))
  }

  /** `x != other`. */
  function Ne(unit: Option<U.Config>, x: Representation, o: Other): (r: Result<bool>)
    requires Slot(unit)
    ensures r.Ok? <==> Eq(unit, x, o).Ok?
    ensures r.Ok? ==> r.value == !Eq(unit, x, o).value
  {
    var e :- Eq(unit, x, o);
    Ok(!e)
  }

  /** `x < other` (strict) and `x <= other`: a plain value below x's value
      range gives False and one above it True, without conversion;
      otherwise the unit's compare must be negative (at most zero), all of
      it for an interval. */
  function Order(unit: Option<U.Config>, x: Representation, o: Other, strict: bool): (r: Result<bool>)
    requires Slot(unit)
    ensures o.Plain? && Below(o.value, ValueRange(x.format).lo) ==> r == Ok(false)
    ensures o.Plain? && !Below(o.value, ValueRange(x.format).lo) && Above(o.value, ValueRange(x.format).hi) ==> r == Ok(true)
    ensures unit.None? && r.Err? ==> r.error == RuntimeError
  {
    if o.Plain? && Below(o.value, ValueRange(x.format).lo) then Ok(false)
    else if o.Plain? && Above(o.value, ValueRange(x.format).hi) then Ok(true)
    else
      var y :- Lift(unit, o);
      var d :- Compared(unit, x, y);
      Ok(if strict then Hi(d) < 0 else Hi(d) <= 0)
  }

  function Lt(unit: Option<U.Config>, x: Representation, o: Other): (r: Result<bool>)
    requires Slot(unit)
    ensures o.Plain? && Below(o.value, ValueRange(x.format).lo) ==> r == Ok(false)
    ensures o.Plain? && !Below(o.value, ValueRange(x.format).lo) && Above(o.value, ValueRange(x.format).hi) ==> r == Ok(true)
    ensures r.Ok? <==> Le(unit, x, o).Ok?
    ensures r == Ok(true) ==> Le(unit, x, o) == Ok(true)
    ensures unit.None? && r.Err? ==> r.error == RuntimeError
  {
    Order(unit, x, o, true)
  }

  function Le(unit: Option<U.Config>, x: Representation, o: Other): (r: Result<bool>)
    requires Slot(unit)
    ensures o.Plain? && Below(o.value, ValueRange(x.format).lo) ==> r == Ok(false)
    ensures o.Plain? && !Below(o.value, ValueRange(x.format).lo) && Above(o.value, ValueRange(x.format).hi) ==> r == Ok(true)
    ensures unit.None? && r.Err? ==> r.error == RuntimeError
  {
    Order(unit, x, o, false)
  }

  /** `x > other` is `not (x <= other)` and `x >= other` is `not (x < other)`. */
  function Gt(unit: Option<U.Config>, x: Representation, o: Other): (r: Result<bool>)
    requires Slot(unit)
    ensures r.Ok? <==> Le(unit, x, o).Ok?
    ensures r.Ok? ==> r.value == !Le(unit, x, o).value
  {
    var b :- Le(unit, x, o);
    Ok(!b)
  }

  function Ge(unit: Option<U.Config>, x: Representation, o: Other): (r: Result<bool>)
    requires Slot(unit)
    ensures r.Ok? <==> Lt(unit, x, o).Ok?
    ensures r.Ok? ==> r.value == !Lt(unit, x, o).value
  {
    var b :- Lt(unit, x, o);
    Ok(!b)
  }

  // ---- What the operators mean ----

  /** A valid scalar representation's value lies in its format's value range. */
  lemma ValueInRange(x: Representation)
    requires Valid(x) && x.mantissa.Scalar?
    ensures Intervals.In(ValueOf(x).x, ValueRange(x.format))
  {
    ScaledMantissaEnds(x.format);
    var m := MantissaRange(x.format);
    Numerics.LdexpMonotone(m.lo as real, x.mantissa.v as real, x.format.lsb);
    Numerics.LdexpMonotone(x.mantissa.v as real, m.hi as real, x.format.lsb);
  }

  /** The shortcuts of `<`, `<=` and `==` against a plain scalar outside the
      value range give the answer the values give, and they need no active
      unit. */
  lemma ShortcutsSound(unit: Option<U.Config>, x: Representation, c: real)
    requires Slot(unit) && Valid(x) && x.mantissa.Scalar?
    requires c < ValueRange(x.format).lo || c > ValueRange(x.format).hi
    ensures Lt(unit, x, Plain(Real(c))) == Ok(ValueOf(x).x < c)
    ensures Le(unit, x, Plain(Real(c))) == Ok(ValueOf(x).x <= c)
    ensures Eq(unit, x, Plain(Real(c))) == Ok(ValueOf(x).x == c)
  {
    ValueInRange(x);
    TruthyMeans(x);
  }

  /** Between two representations the comparisons are decided by the
      unit's compare (and `==` by zeros first). */
  lemma ComparingRepresentations(unit: Option<U.Config>, x: Representation, y: Representation, d: Mantissa)
    requires Slot(unit) && Compared(unit, x, y) == Ok(d)
    ensures Eq(unit, x, Num(y)) == Ok(if !Truthy(x) || !Truthy(y) then !Truthy(x) && !Truthy(y) else IsZero(d))
    ensures Lt(unit, x, Num(y)) == Ok(Hi(d) < 0)
    ensures Le(unit, x, Num(y)) == Ok(Hi(d) <= 0)
  {
  }

  /** On a fixed-format unit, the comparisons of two scalars of the unit's
      format compare their mantissas. */
  lemma FixedComparisonsOfMantissas(u: U.Config, x: Representation, y: Representation)
    requires U.ValidConfig(u) && u.kind.FixedFormat?
    requires FixedAlu.Handles(u, x) && FixedAlu.Handles(u, y) && x.mantissa.Scalar? && y.mantissa.Scalar?
    ensures Eq(Some(u), x, Num(y)) == Ok(x.mantissa.v == y.mantissa.v)
    ensures Lt(Some(u), x, Num(y)) == Ok(x.mantissa.v < y.mantissa.v)
    ensures Le(Some(u), x, Num(y)) == Ok(x.mantissa.v <= y.mantissa.v)
  {
    var d := Scalar(x.mantissa.v - y.mantissa.v);
    assert Compared(Some(u), x, y) == Ok(d);
    ComparingRepresentations(Some(u), x, y, d);
  }

  /** On a fixed-format unit, the comparisons of two scalars of the unit's
      format are the comparisons of their values. */
  lemma FixedComparisonsMean(u: U.Config, x: Representation, y: Representation)
    requires U.ValidConfig(u) && u.kind.FixedFormat?
    requires FixedAlu.Handles(u, x) && FixedAlu.Handles(u, y) && x.mantissa.Scalar? && y.mantissa.Scalar?
    ensures Eq(Some(u), x, Num(y)) == Ok(ValueOf(x).x == ValueOf(y).x)
    ensures Lt(Some(u), x, Num(y)) == Ok(ValueOf(x).x < ValueOf(y).x)
    ensures Le(Some(u), x, Num(y)) == Ok(ValueOf(x).x <= ValueOf(y).x)
    ensures Gt(Some(u), x, Num(y)) == Ok(ValueOf(x).x > ValueOf(y).x)
    ensures Ge(Some(u), x, Num(y)) == Ok(ValueOf(x).x >= ValueOf(y).x)
  {
    FixedComparisonsOfMantissas(u, x, y);
    MultiAlu.ScaledScalarOrder(x.mantissa.v, y.mantissa.v, x.format.lsb);
    MultiAlu.ScaledScalarOrder(y.mantissa.v, x.mantissa.v, x.format.lsb);
  }

  /** On a multi-format unit, two scalars whose common format loses no bit
      compare as their values do. */
  lemma MultiComparisonsMean(u: U.Config, x: Representation, y: Representation)
    requires MultiAlu.Unit(u) && MultiAlu.Accepts(u, x, y) && Valid(x) && Valid(y) && HasShift(u.rounding)
    requires MultiAlu.Lossless(u, x.format, y.format) && x.mantissa.Scalar? && y.mantissa.Scalar?
    ensures Eq(Some(u), x, Num(y)) == Ok(ValueOf(x).x == ValueOf(y).x)
    ensures Lt(Some(u), x, Num(y)) == Ok(ValueOf(x).x < ValueOf(y).x)
    ensures Le(Some(u), x, Num(y)) == Ok(ValueOf(x).x <= ValueOf(y).x)
    ensures Gt(Some(u), x, Num(y)) == Ok(ValueOf(x).x > ValueOf(y).x)
    ensures Ge(Some(u), x, Num(y)) == Ok(ValueOf(x).x >= ValueOf(y).x)
  {
    MultiAlu.CompareOrders(u, x, y);
    TruthyMeans(x);
    TruthyMeans(y);
  }

  /** `other - x` with a representation on the left is `other.__sub__(x)`
      seen from x: the same delegation with the operands swapped. */
  lemma RSubIsSwappedSub(unit: Option<U.Config>, x: Representation, y: Representation)
    requires Slot(unit)
    ensures RSub(unit, x, Num(y)) == Sub(unit, y, Num(x))
  {
  }

  /** On a fixed-format unit, the arithmetic operators between two
      representations of the unit's format give the exact value whenever
      the exact mantissa fits the format. */
  lemma FixedArithmeticMeans(u: U.Config, x: Representation, y: Representation)
    requires U.ValidConfig(u) && u.kind.FixedFormat? && FixedAlu.Handles(u, x) && FixedAlu.Handles(u, y)
    ensures var f := FixedAlu.UnitFormat(u);
      && (!OverflowsWith(f, Mantissas.Add(x.mantissa, y.mantissa)) ==>
            Add(Some(u), x, Num(y)).Ok? && ValueOf(Add(Some(u), x, Num(y)).value) == Plus(ValueOf(x), ValueOf(y)))
      && (!OverflowsWith(f, Mantissas.Sub(x.mantissa, y.mantissa)) ==>
            Sub(Some(u), x, Num(y)).Ok? && ValueOf(Sub(Some(u), x, Num(y)).value) == Minus(ValueOf(x), ValueOf(y)))
      && (!OverflowsWith(f, Mantissas.Sub(y.mantissa, x.mantissa)) ==>
            RSub(Some(u), x, Num(y)).Ok? && ValueOf(RSub(Some(u), x, Num(y)).value) == Minus(ValueOf(y), ValueOf(x)))
      && (f.signed && !OverflowsWith(f, Mantissas.Neg(x.mantissa)) ==>
            Neg(Some(u), x).Ok? && ValueOf(Neg(Some(u), x).value) == Negated(ValueOf(x)))
  {
    var f := FixedAlu.UnitFormat(u);
    if !OverflowsWith(f, Mantissas.Add(x.mantissa, y.mantissa)) {
      FixedAlu.AddInRange(u, x, y);
    }
    if !OverflowsWith(f, Mantissas.Sub(x.mantissa, y.mantissa)) {
      FixedAlu.SubstractInRange(u, x, y);
    }
    if !OverflowsWith(f, Mantissas.Sub(y.mantissa, x.mantissa)) {
      FixedAlu.SubstractInRange(u, y, x);
    }
    if f.signed && !OverflowsWith(f, Mantissas.Neg(x.mantissa)) {
      FixedAlu.NegateInRange(u, x);
    }
  }

  /** On a multi-format unit that raises on overflow, the operators between
      two representations whose common format has a bit to spare give the
      exact value, and the shifts scale by a power of two. */
  lemma MultiArithmeticMeans(u: U.Config, x: Representation, y: Representation, n: nat)
    requires MultiAlu.Unit(u) && MultiAlu.Accepts(u, x, y) && Valid(x) && Valid(y) && HasShift(u.rounding)
    requires MultiAlu.SpareBit(u, x.format, y.format)
    ensures !U.AllowsOverflow(u, U.Add) ==>
      Add(Some(u), x, Num(y)).Ok? && ValueOf(Add(Some(u), x, Num(y)).value) == Plus(ValueOf(x), ValueOf(y))
    ensures x.format.signed && !U.AllowsOverflow(u, U.Substract) ==>
      && Sub(Some(u), x, Num(y)).Ok? && ValueOf(Sub(Some(u), x, Num(y)).value) == Minus(ValueOf(x), ValueOf(y))
      && RSub(Some(u), x, Num(y)).Ok? && ValueOf(RSub(Some(u), x, Num(y)).value) == Minus(ValueOf(y), ValueOf(x))
    ensures LShift(Some(u), x, n).Ok? && ValueOf(LShift(Some(u), x, n).value) == Times(ValueOf(x), Real(Numerics.Exp2(n)))
    ensures RShift(Some(u), x, n).Ok? && ValueOf(RShift(Some(u), x, n).value) == Times(ValueOf(x), Real(Numerics.Exp2(-(n as int))))
  {
    if !U.AllowsOverflow(u, U.Add) {
      MultiAlu.AddExact(u, x, y);
    }
    if x.format.signed && !U.AllowsOverflow(u, U.Substract) {
      MultiAlu.SubstractExact(u, x, y);
      MultiAlu.SubstractExact(u, y, x);
    }
    MultiAlu.LShiftScales(u, x, n);
    MultiAlu.RShiftScales(u, x, n);
  }

  /** Without an active unit every delegation raises RuntimeError, but a
      zero on either side of `==` decides without one. */
  lemma NoActiveUnit(x: Representation, y: Representation)
    requires !Truthy(x)
    ensures Add(None, x, Num(y)) == Err(RuntimeError)
    ensures Eq(None, x, Num(y)) == Ok(!Truthy(y))
    ensures Eq(None, x, Plain(Real(0.0))) == Ok(true)
  {
  }
}
