/** The scalar-or-interval values that the arithmetic layers pass around,
    with Python's operator dispatch between the two
    (src/ltitop/arithmetic/interval.py, `__radd__`, `__rsub__`, `__rmul__`). */
module Values {
  import opened Intervals

  /** A real number or an interval of them. */
  datatype Value = Real(x: real) | Span(iv: Interval)

  /** The reals a value stands for. */
  predicate Denotes(v: Value, x: real) {
    match v
    case Real(c) => x == c
    case Span(a) => In(x, a)
  }

  /** `v + w`. */
  function Plus(v: Value, w: Value): (r: Value)
    ensures r.Real? <==> v.Real? && w.Real?
  {
    match (v, w)
    case (Real(c), Real(d)) => Real(c + d)
    case (Real(c), Span(b)) => Span(AddScalar(b, c))
    case (Span(a), Real(d)) => Span(AddScalar(a, d))
    case (Span(a), Span(b)) => Span(Add(a, b))
  }

  /** `v - w`, with the intended `__rsub__` for a scalar minus an interval. */
  function Minus(v: Value, w: Value): (r: Value)
    ensures r.Real? <==> v.Real? && w.Real?
  {
    match (v, w)
    case (Real(c), Real(d)) => Real(c - d)
    case (Real(c), Span(b)) => Span(RSub(c, b))
    case (Span(a), Real(d)) => Span(SubScalar(a, d))
    case (Span(a), Span(b)) => Span(Sub(a, b))
  }

  /** `v * w`. */
  function Times(v: Value, w: Value): (r: Value)
    ensures r.Real? <==> v.Real? && w.Real?
  {
    match (v, w)
    case (Real(c), Real(d)) => Real(c * d)
    case (Real(c), Span(b)) => Span(MulScalar(b, c))
    case (Span(a), Real(d)) => Span(MulScalar(a, d))
    case (Span(a), Span(b)) => Span(Mul(a, b))
  }

  /** `-v`. */
  function Negated(v: Value): (r: Value)
    ensures r.Real? <==> v.Real?
  {
    match v
    case Real(c) => Real(-c)
    case Span(a) => Span(Neg(a))
  }

  /** Mixed arithmetic is sound: the result stands for every combination of
      the reals its operands stand for. */
  lemma LinearSound(v: Value, w: Value, x: real, y: real)
    requires Denotes(v, x) && Denotes(w, y)
    ensures Denotes(Plus(v, w), x + y)
    ensures Denotes(Minus(v, w), x - y)
    ensures Denotes(Negated(v), -x)
  {
  }

  lemma TimesSound(v: Value, w: Value, x: real, y: real)
    requires Denotes(v, x) && Denotes(w, y)
    ensures Denotes(Times(v, w), x * y)
  {
    match v {
      case Real(c) =>
        match w {
          case Real(d) =>
            assert x == c && y == d;
            assert Times(v, w) == Real(c * d);
          case Span(b) =>
            assert x == c;
            MulScalarContains(b, c, y);
            Commute(c, y);
            assert In(x * y, MulScalar(b, c));
            assert Times(v, w) == Span(MulScalar(b, c));
        }
      case Span(a) =>
        match w {
          case Real(d) =>
            assert y == d;
            MulScalarContains(a, d, x);
            assert In(x * y, MulScalar(a, d));
            assert Times(v, w) == Span(MulScalar(a, d));
          case Span(b) =>
            MulContains(a, b, x, y);
            assert Times(v, w) == Span(Mul(a, b));
        }
    }
  }

  lemma Commute(x: real, y: real)
    ensures x * y == y * x
  {
  }

  /** Python's `v == w` on values (an interval against a scalar compares
      both bounds with it, whichever side it is on). */
  function Equals(v: Value, w: Value): bool {
    match (v, w)
    case (Real(c), Real(d)) => c == d
    case (Real(c), Span(b)) => EqualScalar(b, c)
    case (Span(a), Real(d)) => EqualScalar(a, d)
    case (Span(a), Span(b)) => Equal(a, b)
  }

  lemma EqualsMeans(v: Value, w: Value)
    ensures Equals(v, w) <==> forall x :: Denotes(v, x) <==> Denotes(w, x)
  {
    match (v, w)
    case (Real(c), Real(d)) =>
      assert Denotes(v, c);
    case (Real(c), Span(b)) =>
      EqualMeans(b, b, c);
      assert forall x :: Denotes(w, x) == In(x, b) && Denotes(v, x) == (x == c);
    case (Span(a), Real(d)) =>
      EqualMeans(a, a, d);
      assert forall x :: Denotes(v, x) == In(x, a) && Denotes(w, x) == (x == d);
    case (Span(a), Span(b)) =>
      EqualMeans(a, b, 0.0);
      assert forall x :: Denotes(v, x) == In(x, a) && Denotes(w, x) == In(x, b);
  }

  /** Python's truthiness of a value: a nonzero scalar, or an interval whose
      bounds differ (so `bool(Interval(3, 3))` is False). */
  function Truthiness(v: Value): bool {
    match v
    case Real(c) => c != 0.0
    case Span(a) => Truthy(a)
  }

  lemma DegenerateIntervalIsFalsy()
    ensures !Truthiness(Span(Bounds(3.0, 3.0))) && Truthiness(Real(3.0))
  {
  }
}
