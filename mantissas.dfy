/** Integer mantissas: a Python int or an `Interval` of ints (the interval
    operators of src/ltitop/arithmetic/interval.py applied to integer
    bounds, including `<<` and `>>`). */
module Mantissas {
  import opened Numerics
  import Intervals
  import opened Values

  datatype IntBounds = IntBounds(lo: int, hi: int)

  /** An integer interval that got past the constructor's check. */
  type Range = r: IntBounds | r.lo <= r.hi witness IntBounds(0, 0)

  datatype Mantissa = Scalar(v: int) | Ranged(r: Range)

  function Lo(m: Mantissa): int {
    match m
    case Scalar(v) => v
    case Ranged(r) => r.lo
  }

  function Hi(m: Mantissa): int {
    match m
    case Scalar(v) => v
    case Ranged(r) => r.hi
  }

  /** The integers a mantissa stands for. */
  predicate Holds(m: Mantissa, v: int) {
    Lo(m) <= v <= Hi(m)
  }

  lemma LoLeHi(m: Mantissa)
    ensures Lo(m) <= Hi(m)
  {
  }

  function Span2(lo: int, hi: int): Mantissa
    requires lo <= hi
  {
    Ranged(IntBounds(lo, hi))
  }

  /** `m + n`, with `__radd__` for an int plus an interval. */
  function Add(m: Mantissa, n: Mantissa): (r: Mantissa)
    ensures r.Scalar? <==> m.Scalar? && n.Scalar?
  {
    match (m, n)
    case (Scalar(a), Scalar(b)) => Scalar(a + b)
    case _ => Span2(Lo(m) + Lo(n), Hi(m) + Hi(n))
  }

  /** `m - n`, with the intended `__rsub__` for an int minus an interval. */
  function Sub(m: Mantissa, n: Mantissa): (r: Mantissa)
    ensures r.Scalar? <==> m.Scalar? && n.Scalar?
  {
    match (m, n)
    case (Scalar(a), Scalar(b)) => Scalar(a - b)
    case _ => Span2(Lo(m) - Hi(n), Hi(m) - Lo(n))
  }

  /** `-m`. */
  function Neg(m: Mantissa): (r: Mantissa)
    ensures r.Scalar? <==> m.Scalar?
  {
    match m
    case Scalar(a) => Scalar(-a)
    case Ranged(b) => Span2(-b.hi, -b.lo)
  }

  function Min2(a: int, b: int): int {
    if a <= b then a else b
  }

  function Max2(a: int, b: int): int {
    if a >= b then a else b
  }

  function Min4(a: int, b: int, c: int, d: int): int {
    Min2(Min2(a, b), Min2(c, d))
  }

  function Max4(a: int, b: int, c: int, d: int): int {
    Max2(Max2(a, b), Max2(c, d))
  }

  /** `m * n`: corner products for two intervals, the two bound products
      for an interval times an int. */
  function Mul(m: Mantissa, n: Mantissa): (r: Mantissa)
    ensures r.Scalar? <==> m.Scalar? && n.Scalar?
  {
    match (m, n)
    case (Scalar(a), Scalar(b)) => Scalar(a * b)
    case (Scalar(a), Ranged(b)) =>
      Span2(Min2(a * b.lo, a * b.hi), Max2(a * b.lo, a * b.hi))
    case (Ranged(a), Scalar(b)) =>
      Span2(Min2(a.lo * b, a.hi * b), Max2(a.lo * b, a.hi * b))
    case (Ranged(a), Ranged(b)) =>
      var p, q, s, t := a.lo * b.lo, a.lo * b.hi, a.hi * b.lo, a.hi * b.hi;
      Span2(Min4(p, q, s, t), Max4(p, q, s, t))
  }

  /** `m << k`, bound-wise. */
  function ShiftLeft(m: Mantissa, k: nat): (r: Mantissa)
    ensures Lo(r) == Lo(m) * Pow2(k) && Hi(r) == Hi(m) * Pow2(k)
    ensures r.Scalar? <==> m.Scalar?
  {
    match m
    case Scalar(a) => Scalar(Shl(a, k))
    case Ranged(b) => Span2(Shl(b.lo, k), Shl(b.hi, k))
  }

  /** `m >> k`, bound-wise (a floor division by 2^k). */
  function ShiftRight(m: Mantissa, k: nat): (r: Mantissa)
    ensures r.Scalar? <==> m.Scalar?
  {
    match m
    case Scalar(a) => Scalar(Shr(a, k))
    case Ranged(b) =>
      ShrMonotone(b.lo, b.hi, k);
      Span2(Shr(b.lo, k), Shr(b.hi, k))
  }

  lemma ShrMonotone(a: int, b: int, k: nat)
    requires a <= b
    ensures Shr(a, k) <= Shr(b, k)
  {
    MulCancel(Shr(a, k), Shr(b, k) + 1, Pow2(k));
  }

  /** `m == 0`: for an interval, both bounds must be zero. */
  predicate IsZero(m: Mantissa) {
    Lo(m) == 0 && Hi(m) == 0
  }

  /** `m in range`. */
  predicate Within(m: Mantissa, range: Range) {
    range.lo <= Lo(m) && Hi(m) <= range.hi
  }

  /** `np.all(m >= 0)`: for an interval, its lower bound. */
  predicate NonNegative(m: Mantissa) {
    Lo(m) >= 0
  }

  /** `np.all(m < 0)` and `np.all(m <= 0)`: for an interval, its upper bound. */
  predicate Negative(m: Mantissa) {
    Hi(m) < 0
  }

  predicate NonPositive(m: Mantissa) {
    Hi(m) <= 0
  }

  lemma ScaleMonotone(a: real, b: real, e: real)
    requires a <= b && e > 0.0
    ensures a * e <= b * e
  {
  }

  /** The value a mantissa stands for at a given LSB: mantissa * 2^lsb. */
  function Scaled(m: Mantissa, lsb: int): (r: Value)
    ensures r.Real? <==> m.Scalar?
  {
    match m
    case Scalar(a) => Real(Ldexp(a as real, lsb))
    case Ranged(b) =>
      LdexpMonotone(b.lo as real, b.hi as real, lsb);
      Span(Intervals.Bounds(Ldexp(b.lo as real, lsb), Ldexp(b.hi as real, lsb)))
  }

  // ---- What the operations mean, over the integers a mantissa holds ----

  lemma AddSubNegHold(m: Mantissa, n: Mantissa, a: int, b: int)
    requires Holds(m, a) && Holds(n, b)
    ensures Holds(Add(m, n), a + b)
    ensures Holds(Sub(m, n), a - b)
    ensures Holds(Neg(m), -a)
  {
  }

  lemma ShiftLeftHolds(m: Mantissa, k: nat, a: int)
    requires Holds(m, a)
    ensures Holds(ShiftLeft(m, k), Shl(a, k))
  {
    var p := Pow2(k);
    Scale(Lo(m), a, p);
    Scale(a, Hi(m), p);
  }

  lemma Scale(a: int, b: int, p: nat)
    requires a <= b
    ensures a * p <= b * p
  {
    assert (b - a) * p >= 0;
  }

  lemma ShiftRightHolds(m: Mantissa, k: nat, a: int)
    requires Holds(m, a)
    ensures Holds(ShiftRight(m, k), Shr(a, k))
  {
    ShrMonotone(Lo(m), a, k);
    ShrMonotone(a, Hi(m), k);
  }

  /** A scalar mantissa is exactly the integer it holds. */
  lemma ScalarHoldsOnly(v: int, a: int)
    ensures Holds(Scalar(v), a) <==> a == v
  {
  }

  // Corner argument for the product, as for real intervals.
  lemma LeftBetween(x: int, y: int, lo: int, hi: int)
    requires lo <= x <= hi
    ensures Min2(lo * y, hi * y) <= x * y <= Max2(lo * y, hi * y)
  {
    if y >= 0 {
      assert (x - lo) * y >= 0 && (hi - x) * y >= 0;
    } else {
      assert (x - lo) * y <= 0 && (hi - x) * y <= 0;
    }
  }

  lemma RightBetween(c: int, y: int, lo: int, hi: int)
    requires lo <= y <= hi
    ensures Min2(c * lo, c * hi) <= c * y <= Max2(c * lo, c * hi)
  {
    Factor(c, lo, y);
    Factor(c, y, hi);
  }

  /** Multiplying by c keeps the order of a <= b when c >= 0 and flips it otherwise. */
  lemma Factor(c: int, a: int, b: int)
    requires a <= b
    ensures c >= 0 ==> c * a <= c * b
    ensures c < 0 ==> c * a >= c * b
  {
    assert c * b - c * a == c * (b - a);
  }

  lemma CornerChain(m: int, l: int, h: int, p: int, q: int, s: int, t: int)
    requires Min2(l, h) <= m <= Max2(l, h)
    requires Min2(p, q) <= l <= Max2(p, q)
    requires Min2(s, t) <= h <= Max2(s, t)
    ensures Min4(p, q, s, t) <= m <= Max4(p, q, s, t)
  {
  }

  lemma Chain(x: int, y: int, alo: int, ahi: int, blo: int, bhi: int)
    requires alo <= x <= ahi && blo <= y <= bhi
    ensures Min4(alo * blo, alo * bhi, ahi * blo, ahi * bhi) <= x * y
    ensures x * y <= Max4(alo * blo, alo * bhi, ahi * blo, ahi * bhi)
  {
    LeftBetween(x, y, alo, ahi);
    RightBetween(alo, y, blo, bhi);
    RightBetween(ahi, y, blo, bhi);
    CornerChain(x * y, alo * y, ahi * y, alo * blo, alo * bhi, ahi * blo, ahi * bhi);
  }

  /** The bounds of a product, stated on their own. */
  lemma MulBounds(m: Mantissa, n: Mantissa)
    ensures m.Scalar? && n.Scalar? ==> Lo(Mul(m, n)) == m.v * n.v
    ensures m.Scalar? && n.Ranged? ==>
      Lo(Mul(m, n)) == Min2(m.v * n.r.lo, m.v * n.r.hi) && Hi(Mul(m, n)) == Max2(m.v * n.r.lo, m.v * n.r.hi)
    ensures m.Ranged? && n.Scalar? ==>
      Lo(Mul(m, n)) == Min2(m.r.lo * n.v, m.r.hi * n.v) && Hi(Mul(m, n)) == Max2(m.r.lo * n.v, m.r.hi * n.v)
    ensures m.Ranged? && n.Ranged? ==>
      var p, q, s, t := m.r.lo * n.r.lo, m.r.lo * n.r.hi, m.r.hi * n.r.lo, m.r.hi * n.r.hi;
      Lo(Mul(m, n)) == Min4(p, q, s, t) && Hi(Mul(m, n)) == Max4(p, q, s, t)
  {
  }

  lemma MulHolds(m: Mantissa, n: Mantissa, a: int, b: int)
    requires Holds(m, a) && Holds(n, b)
    ensures Holds(Mul(m, n), a * b)
  {
    MulBounds(m, n);
    match (m, n)
    case (Scalar(c), Scalar(d)) =>
    case (Scalar(c), Ranged(r)) =>
      RightBetween(c, b, r.lo, r.hi);
    case (Ranged(r), Scalar(d)) =>
      LeftBetween(a, d, r.lo, r.hi);
    case (Ranged(r), Ranged(s)) =>
      Chain(a, b, r.lo, r.hi, s.lo, s.hi);
  }

  // ---- What the operations mean, over the values a mantissa stands for ----

  lemma LdexpAdd(a: int, b: int, n: int)
    ensures Ldexp((a + b) as real, n) == Ldexp(a as real, n) + Ldexp(b as real, n)
  {
    var e := Exp2(n);
    assert (a + b) as real * e == a as real * e + b as real * e;
  }

  lemma LdexpSub(a: int, b: int, n: int)
    ensures Ldexp((a - b) as real, n) == Ldexp(a as real, n) - Ldexp(b as real, n)
  {
    var e := Exp2(n);
    assert (a - b) as real * e == a as real * e - b as real * e;
  }

  lemma LdexpNeg(a: int, n: int)
    ensures Ldexp((-a) as real, n) == -Ldexp(a as real, n)
  {
    var e := Exp2(n);
    assert (-a) as real * e == -(a as real * e);
  }

  /** Mantissas sharing an LSB add as their values do. */
  lemma ScaledAdd(m: Mantissa, n: Mantissa, lsb: int)
    ensures Scaled(Add(m, n), lsb) == Plus(Scaled(m, lsb), Scaled(n, lsb))
  {
    LdexpAdd(Lo(m), Lo(n), lsb);
    LdexpAdd(Hi(m), Hi(n), lsb);
  }

  /** Mantissas sharing an LSB subtract as their values do. */
  lemma ScaledSub(m: Mantissa, n: Mantissa, lsb: int)
    ensures Scaled(Sub(m, n), lsb) == Minus(Scaled(m, lsb), Scaled(n, lsb))
  {
    LdexpSub(Lo(m), Hi(n), lsb);
    LdexpSub(Hi(m), Lo(n), lsb);
    LdexpSub(Lo(m), Lo(n), lsb);
  }

  /** Negating a mantissa negates its value. */
  lemma ScaledNeg(m: Mantissa, lsb: int)
    ensures Scaled(Neg(m), lsb) == Negated(Scaled(m, lsb))
  {
    LdexpNeg(Lo(m), lsb);
    LdexpNeg(Hi(m), lsb);
  }

  lemma LdexpShift(a: int, k: nat, lsb: int)
    ensures Ldexp((a * Pow2(k)) as real, lsb) == Ldexp(a as real, lsb + k)
  {
    var p := Pow2(k);
    var e, g := Exp2(lsb), Exp2(k);
    Exp2Nat(k);
    Exp2Add(lsb, k);
    assert (a * p) as real == a as real * g;
    assert (a as real * g) * e == a as real * (e * g);
  }

  /** Shifting a mantissa left by k bits multiplies its value by 2^k: it is
      the same mantissa read k bits higher. */
  lemma ScaledShiftLeft(m: Mantissa, k: nat, lsb: int)
    ensures Scaled(ShiftLeft(m, k), lsb) == Scaled(m, lsb + k)
  {
    LdexpShift(Lo(m), k, lsb);
    LdexpShift(Hi(m), k, lsb);
  }

  lemma LdexpMul(a: int, b: int, n: int, k: int)
    ensures Ldexp((a * b) as real, n + k) == Ldexp(a as real, n) * Ldexp(b as real, k)
  {
    CastMul(a, b);
    LdexpProduct(a as real, b as real, n, k);
  }

  lemma CastMul(a: int, b: int)
    ensures (a * b) as real == a as real * b as real
  {
  }

  lemma LdexpProduct(x: real, y: real, n: int, k: int)
    ensures Ldexp(x * y, n + k) == Ldexp(x, n) * Ldexp(y, k)
  {
    LdexpCompose(x * y, n, k);
    LdexpFactor(y, x, n);
    assert x * y == y * x;
    var z := Ldexp(x, n);
    LdexpFactor(z, y, k);
  }

  /** A factor passes through a scaling: ldexp(c * x, n) = c * ldexp(x, n). */
  lemma LdexpFactor(c: real, x: real, n: int)
    ensures Ldexp(c * x, n) == c * Ldexp(x, n)
  {
    var e := Exp2(n);
    assert (c * x) * e == c * (x * e);
  }

  /** Scalar mantissas multiply as their values do, at the sum of the LSBs. */
  lemma ScaledMul(a: int, b: int, n: int, k: int)
    ensures Scaled(Mul(Scalar(a), Scalar(b)), n + k) == Times(Scaled(Scalar(a), n), Scaled(Scalar(b), k))
  {
    LdexpMul(a, b, n, k);
  }

  /** A mantissa is determined by its kind and its bounds. */
  lemma MantissaByBounds(m: Mantissa, n: Mantissa)
    requires m.Scalar? == n.Scalar? && Lo(m) == Lo(n) && Hi(m) == Hi(n)
    ensures m == n
  {
  }

  /** Reading a mantissa n bits higher multiplies its value by 2^n. */
  lemma ScaledTimesPow(m: Mantissa, lsb: int, n: int)
    ensures Scaled(m, lsb + n) == Times(Scaled(m, lsb), Real(Exp2(n)))
  {
    match m
    case Scalar(a) =>
      LdexpTimesExp2(a as real, lsb, n);
    case Ranged(b) =>
      RangedTimesPow(b, lsb, n);
  }

  lemma RangedTimesPow(b: Range, lsb: int, n: int)
    ensures Scaled(Ranged(b), lsb + n) == Times(Scaled(Ranged(b), lsb), Real(Exp2(n)))
  {
    var g := Exp2(n);
    var l, h := Ldexp(b.lo as real, lsb), Ldexp(b.hi as real, lsb);
    var l', h' := Ldexp(b.lo as real, lsb + n), Ldexp(b.hi as real, lsb + n);
    LdexpTimesExp2(b.lo as real, lsb, n);
    LdexpTimesExp2(b.hi as real, lsb, n);
    Exp2Positive(n);
    LdexpMonotone(b.lo as real, b.hi as real, lsb);
    SpanTimes(l, h, g, l', h');
  }

  lemma SpanTimes(l: real, h: real, g: real, l': real, h': real)
    requires l <= h && g > 0.0 && l' == l * g && h' == h * g
    ensures Times(Span(Intervals.Bounds(l, h)), Real(g)) == Span(Intervals.Bounds(l', h'))
  {
    ScaleMonotone(l, h, g);
  }
}
