/** Closed real intervals (src/ltitop/arithmetic/interval.py). */
module Intervals {
  import opened Wrappers

  datatype Bounds = Bounds(lo: real, hi: real)

  /** An interval that got past the constructor's check: lower <= upper. */
  type Interval = b: Bounds | b.lo <= b.hi witness Bounds(0.0, 0.0)

  /** Argument of the one-argument constructor form: a scalar, or a sequence
      that must be a pair. */
  datatype Seed = Single(v: real) | Sequence(s: seq<real>)

  predicate In(x: real, a: Interval) {
    a.lo <= x <= a.hi
  }

  /** `Interval(lo, hi)`: None where the constructor raises ValueError. */
  function Make(lo: real, hi: real): (r: Option<Interval>)
    ensures r.Some? <==> lo <= hi
    ensures r.Some? ==> r.value.lo == lo && r.value.hi == hi
  {
    if hi < lo then None else Some(Bounds(lo, hi))
  }

  /** `Interval(v)`: a scalar is the degenerate interval [v, v]; a sequence
      must have exactly two elements, which become the bounds. */
  function FromSeed(seed: Seed): (r: Option<Interval>)
    ensures seed.Single? ==> r.Some? && r.value.lo == seed.v == r.value.hi
    ensures seed.Sequence? ==> (r.Some? <==> |seed.s| == 2 && seed.s[0] <= seed.s[1])
    ensures seed.Sequence? && r.Some? ==> r.value.lo == seed.s[0] && r.value.hi == seed.s[1]
  {
    match seed
    case Single(v) => Some(Bounds(v, v))
    case Sequence(s) => if |s| != 2 then None else Make(s[0], s[1])
  }

  lemma ScalarSeedIsPoint(v: real, x: real)
    ensures FromSeed(Single(v)).Some? && (In(x, FromSeed(Single(v)).value) <==> x == v)
  {
  }

  /** `a + b`, bound-wise. */
  function Add(a: Interval, b: Interval): (r: Interval)
    ensures forall x, y :: In(x, a) && In(y, b) ==> In(x + y, r)
  {
    Bounds(a.lo + b.lo, a.hi + b.hi)
  }

  /** `a + c` and `c + a` (`__radd__`) for a scalar c: a shift. */
  function AddScalar(a: Interval, c: real): (r: Interval)
    ensures forall x :: In(x, a) <==> In(x + c, r)
  {
    Bounds(a.lo + c, a.hi + c)
  }

  /** `a - b` = [a.lo - b.hi, a.hi - b.lo]. */
  function Sub(a: Interval, b: Interval): (r: Interval)
    ensures forall x, y :: In(x, a) && In(y, b) ==> In(x - y, r)
  {
    Bounds(a.lo - b.hi, a.hi - b.lo)
  }

  /** `a - c` for a scalar c. */
  function SubScalar(a: Interval, c: real): (r: Interval)
    ensures forall x :: In(x, a) <==> In(x - c, r)
  {
    Bounds(a.lo - c, a.hi - c)
  }

  /** `c - a` exactly as `Interval.__rsub__` writes it: the bounds come out
      as [c - lo, c - hi], so the constructor rejects every non-degenerate a. */
  function RSubAsWritten(c: real, a: Interval): (r: Option<Interval>)
    ensures r.Some? <==> a.lo == a.hi
  {
    Make(c - a.lo, c - a.hi)
  }

  /** `c - a` as intended: [c - hi, c - lo]. */
  function RSub(c: real, a: Interval): (r: Interval)
    ensures forall x :: In(x, a) <==> In(c - x, r)
  {
    Bounds(c - a.hi, c - a.lo)
  }

  /** `a.difference(b)`, bound-wise with no widening: None where the two
      differences come out in the wrong order. */
  function Difference(a: Interval, b: Interval): (r: Option<Interval>)
    ensures r.Some? <==> a.lo - b.lo <= a.hi - b.hi
    ensures r.Some? ==> r.value.lo == a.lo - b.lo && r.value.hi == a.hi - b.hi
  {
    Make(a.lo - b.lo, a.hi - b.hi)
  }

  /** `a.difference(c)` for a scalar c. */
  function DifferenceScalar(a: Interval, c: real): Interval {
    Bounds(a.lo - c, a.hi - c)
  }

  function Min2(a: real, b: real): real {
    if a <= b then a else b
  }

  function Max2(a: real, b: real): real {
    if a >= b then a else b
  }

  function Min4(a: real, b: real, c: real, d: real): real {
    Min2(Min2(a, b), Min2(c, d))
  }

  function Max4(a: real, b: real, c: real, d: real): real {
    Max2(Max2(a, b), Max2(c, d))
  }

  function Hull(p: real, q: real, s: real, t: real): Interval {
    Bounds(Min4(p, q, s, t), Max4(p, q, s, t))
  }

  /** One corner product of two intervals' bounds (named, so that the four
      of them stay opaque terms until a proof unfolds them). */
  function Corner(x: real, y: real): real {
    x * y
  }

  /** `a * b`: the least and greatest of the four corner products, so every
      product of members lies in it and both its ends are such products. */
  function Mul(a: Interval, b: Interval): (r: Interval)
    ensures forall x, y :: In(x, a) && In(y, b) ==> In(x * y, r)
    ensures var corners := {Corner(a.lo, b.lo), Corner(a.lo, b.hi), Corner(a.hi, b.lo), Corner(a.hi, b.hi)};
      r.lo in corners && r.hi in corners
  {
    ProductsWithin(a, b);
    HullAtCorners(Corner(a.lo, b.lo), Corner(a.lo, b.hi), Corner(a.hi, b.lo), Corner(a.hi, b.hi));
    Hull(Corner(a.lo, b.lo), Corner(a.lo, b.hi), Corner(a.hi, b.lo), Corner(a.hi, b.hi))
  }

  /** `a * c` and `c * a` (`__rmul__`) for a scalar c: its ends are the
      scaled ends of a, and every scaled member lies in it (`MulScalarContains`). */
  function MulScalar(a: Interval, c: real): (r: Interval)
    ensures In(a.lo * c, r) && In(a.hi * c, r)
    ensures (r.lo == a.lo * c || r.lo == a.hi * c) && (r.hi == a.lo * c || r.hi == a.hi * c)
  {
    Bounds(Min2(a.lo * c, a.hi * c), Max2(a.lo * c, a.hi * c))
  }

  /** `-a` = [-hi, -lo]. */
  function Neg(a: Interval): (r: Interval)
    ensures forall x :: In(x, a) <==> In(-x, r)
  {
    Bounds(-a.hi, -a.lo)
  }

  /** Truthiness: an interval is truthy when its bounds differ, that is when
      it holds more than one real. */
  function Truthy(a: Interval): (r: bool)
    ensures !r <==> forall x :: In(x, a) ==> x == a.lo
  {
    assert In(a.hi, a);
    a.lo != a.hi
  }

  /** `a == b` for intervals, bound-wise. */
  function Equal(a: Interval, b: Interval): (r: bool)
    ensures r <==> forall x :: In(x, a) <==> In(x, b)
  {
    assert In(a.lo, a) && In(a.hi, a) && In(b.lo, b) && In(b.hi, b);
    a.lo == b.lo && a.hi == b.hi
  }

  /** `a == c` for a scalar c: both bounds must equal it. */
  function EqualScalar(a: Interval, c: real): bool {
    a.lo == c && a.hi == c
  }

  /** The conservative orderings of `__lt__`, `__le__`, `__gt__`, `__ge__`. */
  function Lt(a: Interval, b: Interval): (r: bool)
    ensures r <==> forall x, y :: In(x, a) && In(y, b) ==> x < y
  {
    assert In(a.hi, a) && In(a.lo, a) && In(b.lo, b) && In(b.hi, b);
    a.hi < b.lo
  }

  function Le(a: Interval, b: Interval): (r: bool)
    ensures r <==> forall x, y :: In(x, a) && In(y, b) ==> x <= y
  {
    assert In(a.hi, a) && In(a.lo, a) && In(b.lo, b) && In(b.hi, b);
    a.hi <= b.lo
  }

  function Gt(a: Interval, b: Interval): (r: bool)
    ensures r <==> forall x, y :: In(x, a) && In(y, b) ==> x > y
  {
    assert In(a.hi, a) && In(a.lo, a) && In(b.lo, b) && In(b.hi, b);
    a.lo > b.hi
  }

  function Ge(a: Interval, b: Interval): (r: bool)
    ensures r <==> forall x, y :: In(x, a) && In(y, b) ==> x >= y
  {
    assert In(a.hi, a) && In(a.lo, a) && In(b.lo, b) && In(b.hi, b);
    a.lo >= b.hi
  }

  /** `b in a` for an interval b. */
  function Contains(a: Interval, b: Interval): (r: bool)
    ensures r <==> forall x :: In(x, b) ==> In(x, a)
  {
    assert In(b.lo, b) && In(b.hi, b);
    a.lo <= b.lo && b.hi <= a.hi
  }

  // ---- What the operations mean, stated over the reals an interval holds ----

  lemma AddContains(a: Interval, b: Interval, x: real, y: real)
    requires In(x, a) && In(y, b)
    ensures In(x + y, Add(a, b))
    ensures In(x + y, AddScalar(a, y)) && In(y + x, AddScalar(a, y))
  {
  }

  lemma SubContains(a: Interval, b: Interval, x: real, y: real)
    requires In(x, a) && In(y, b)
    ensures In(x - y, Sub(a, b)) && In(x - y, SubScalar(a, y)) && In(y - x, RSub(y, a))
  {
  }

  lemma RSubAsWrittenRejects()
    ensures RSubAsWritten(3.0, Bounds(1.0, 2.0)) == None
    ensures RSub(3.0, Bounds(1.0, 2.0)) == Bounds(1.0, 2.0)
  {
  }

  lemma RSubAgreesOnPoints(c: real, a: Interval)
    requires a.lo == a.hi
    ensures RSubAsWritten(c, a) == Some(RSub(c, a))
  {
  }

  lemma NegContains(a: Interval, x: real)
    ensures In(x, a) <==> In(-x, Neg(a))
  {
  }

  lemma NegInvolutive(a: Interval)
    ensures Neg(Neg(a)) == a
  {
  }

  /** Adding an error interval to an exact value and taking the difference
      with that value gives the error interval back. */
  lemma DifferenceRecoversError(x: real, e: Interval)
    ensures DifferenceScalar(AddScalar(e, x), x) == e
  {
  }

  // Corner argument for the product: x*y is linear in each factor, so its
  // extremes over a box sit at the corners.
  lemma LeftBetween(x: real, y: real, lo: real, hi: real)
    requires lo <= x <= hi
    ensures Min2(lo * y, hi * y) <= x * y <= Max2(lo * y, hi * y)
  {
    if y >= 0.0 {
      assert (x - lo) * y >= 0.0 && (hi - x) * y >= 0.0;
    } else {
      assert (x - lo) * y <= 0.0 && (hi - x) * y <= 0.0;
    }
  }

  lemma RightBetween(c: real, y: real, lo: real, hi: real)
    requires lo <= y <= hi
    ensures Min2(c * lo, c * hi) <= c * y <= Max2(c * lo, c * hi)
  {
    if c >= 0.0 {
      assert c * (y - lo) >= 0.0 && c * (hi - y) >= 0.0;
    } else {
      assert c * (y - lo) <= 0.0 && c * (hi - y) <= 0.0;
    }
  }

  lemma CornerChain(m: real, l: real, h: real, p: real, q: real, s: real, t: real)
    requires Min2(l, h) <= m <= Max2(l, h)
    requires Min2(p, q) <= l <= Max2(p, q)
    requires Min2(s, t) <= h <= Max2(s, t)
    ensures In(m, Hull(p, q, s, t))
  {
  }

  lemma Chain(x: real, y: real, alo: real, ahi: real, blo: real, bhi: real)
    requires alo <= x <= ahi && blo <= y <= bhi
    ensures In(Corner(x, y), Hull(Corner(alo, blo), Corner(alo, bhi), Corner(ahi, blo), Corner(ahi, bhi)))
  {
    LeftBetween(x, y, alo, ahi);
    RightBetween(alo, y, blo, bhi);
    RightBetween(ahi, y, blo, bhi);
    CornerChain(x * y, alo * y, ahi * y, alo * blo, alo * bhi, ahi * blo, ahi * bhi);
  }

  /** Every product of members lies in the hull of the corner products. */
  lemma ProductsWithin(a: Interval, b: Interval)
    ensures forall x, y :: In(x, a) && In(y, b) ==>
      In(Corner(x, y), Hull(Corner(a.lo, b.lo), Corner(a.lo, b.hi), Corner(a.hi, b.lo), Corner(a.hi, b.hi)))
  {
    forall x, y | In(x, a) && In(y, b)
      ensures In(Corner(x, y), Hull(Corner(a.lo, b.lo), Corner(a.lo, b.hi), Corner(a.hi, b.lo), Corner(a.hi, b.hi)))
    {
      Chain(x, y, a.lo, a.hi, b.lo, b.hi);
    }
  }

  /** Every product of members lies in the product interval. */
  lemma MulContains(a: Interval, b: Interval, x: real, y: real)
    requires In(x, a) && In(y, b)
    ensures In(x * y, Mul(a, b))
  {
    Chain(x, y, a.lo, a.hi, b.lo, b.hi);
  }

  // Unfolding step stated on its own: with the products in scope, the
  // solver does not find it unaided.
  lemma MulScalarIsHull(a: Interval, c: real)
    ensures MulScalar(a, c) == Bounds(Min2(a.lo * c, a.hi * c), Max2(a.lo * c, a.hi * c))
  {
  }

  /** The product's bounds are themselves corner products, so the product
      interval is the tightest one. */
  lemma MulBoundsAreCorners(a: Interval, b: Interval)
    ensures var corners := {Corner(a.lo, b.lo), Corner(a.lo, b.hi), Corner(a.hi, b.lo), Corner(a.hi, b.hi)};
      Mul(a, b).lo in corners && Mul(a, b).hi in corners
  {
    HullAtCorners(Corner(a.lo, b.lo), Corner(a.lo, b.hi), Corner(a.hi, b.lo), Corner(a.hi, b.hi));
  }

  lemma HullAtCorners(p: real, q: real, s: real, t: real)
    ensures Hull(p, q, s, t).lo in {p, q, s, t} && Hull(p, q, s, t).hi in {p, q, s, t}
  {
  }

  lemma MulScalarContains(a: Interval, c: real, x: real)
    requires In(x, a)
    ensures In(x * c, MulScalar(a, c))
  {
    MulScalarIsHull(a, c);
    LeftBetween(x, c, a.lo, a.hi);
  }

  lemma MulExamples(a: Interval, b: Interval, c: Interval)
    requires a == Bounds(-1.0, 1.0) && b == Bounds(-2.0, 2.0) && c == Bounds(4.0, 8.0)
    ensures Mul(a, b) == Bounds(-2.0, 2.0)
    ensures Mul(c, b) == Bounds(-16.0, 16.0)
    ensures Add(a, b) == Bounds(-3.0, 3.0)
  {
    assert Mul(a, b) == Hull(2.0, -2.0, -2.0, 2.0);
    assert Mul(c, b) == Hull(-8.0, 8.0, -16.0, 16.0);
  }

  /** The orderings hold exactly when they hold for every pair of members. */
  lemma OrderingMeans(a: Interval, b: Interval)
    ensures Lt(a, b) <==> forall x, y :: In(x, a) && In(y, b) ==> x < y
    ensures Le(a, b) <==> forall x, y :: In(x, a) && In(y, b) ==> x <= y
    ensures Gt(a, b) <==> forall x, y :: In(x, a) && In(y, b) ==> x > y
    ensures Ge(a, b) <==> forall x, y :: In(x, a) && In(y, b) ==> x >= y
  {
    assert In(a.hi, a) && In(a.lo, a) && In(b.lo, b) && In(b.hi, b);
  }

  lemma OverlappingAreUnordered()
    ensures var a, b := Bounds(-10.0, 10.0), Bounds(-20.0, 20.0);
      !Lt(a, b) && !Gt(a, b) && !Le(a, b) && !Ge(a, b) && Contains(b, a)
  {
  }

  /** Membership is subset inclusion. */
  lemma ContainsMeans(a: Interval, b: Interval)
    ensures Contains(a, b) <==> forall x :: In(x, b) ==> In(x, a)
  {
    assert In(b.lo, b) && In(b.hi, b);
  }

  lemma ContainsReflexive(a: Interval)
    ensures Contains(a, a)
  {
  }

  lemma ContainsTransitive(a: Interval, b: Interval, c: Interval)
    requires Contains(a, b) && Contains(b, c)
    ensures Contains(a, c)
  {
  }

  /** Equality is bound-wise: intervals are equal iff they hold the same reals;
      against a scalar both bounds must equal it. */
  lemma EqualMeans(a: Interval, b: Interval, c: real)
    ensures Equal(a, b) <==> forall x :: In(x, a) <==> In(x, b)
    ensures EqualScalar(a, c) <==> forall x :: In(x, a) <==> x == c
  {
    assert In(a.lo, a) && In(a.hi, a) && In(b.lo, b) && In(b.hi, b);
  }
}
