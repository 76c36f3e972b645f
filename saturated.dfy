/** Saturating overflow (src/ltitop/arithmetic/saturated.py): clamp a
    mantissa into a range and report whether clamping was needed. */
module Saturated {
  import opened Mantissas

  /** A mantissa after an overflow policy, with the overflow flag it raised. */
  datatype Handled = Handled(value: Mantissa, overflow: bool)

  predicate InRange(v: int, range: Range) {
    range.lo <= v <= range.hi
  }

  /** `min(max(lo, v), hi)` and the flag `v < lo or v > hi`. */
  function Clamp(v: int, range: Range): (r: (int, bool))
    ensures InRange(r.0, range)
    ensures r.1 <==> !InRange(v, range)
    ensures v < range.lo ==> r.0 == range.lo
    ensures v > range.hi ==> r.0 == range.hi
    ensures InRange(v, range) ==> r.0 == v
  {
    var low := if range.lo >= v then range.lo else v;
    (if low <= range.hi then low else range.hi, v < range.lo || v > range.hi)
  }

  /** `saturate(value, range_)`: a scalar is clamped; an interval has each
      bound clamped on its own, and its flag is the OR of the two. */
  function Saturate(m: Mantissa, range: Range): (r: Handled)
    ensures r.value.Scalar? <==> m.Scalar?
    ensures Within(r.value, range)
  {
    match m
    case Scalar(v) =>
      var c := Clamp(v, range);
      Handled(Scalar(c.0), c.1)
    case Ranged(b) =>
      var lo, hi := Clamp(b.lo, range), Clamp(b.hi, range);
      ClampMonotone(b.lo, b.hi, range);
      Handled(Span2(lo.0, hi.0), lo.1 || hi.1)
  }

  lemma ClampMonotone(v: int, w: int, range: Range)
    requires v <= w
    ensures Clamp(v, range).0 <= Clamp(w, range).0
  {
  }

  /** The flag is raised exactly when the operand does not fit. */
  lemma SaturateFlag(m: Mantissa, range: Range)
    ensures Saturate(m, range).overflow <==> !Within(m, range)
  {
  }

  /** A fitting operand comes back unchanged. */
  lemma SaturateKeepsFitting(m: Mantissa, range: Range)
    requires Within(m, range)
    ensures Saturate(m, range) == Handled(m, false)
  {
  }

  /** Saturating never moves a member of the range that the operand held:
      every integer the operand holds is clamped into what the result holds. */
  lemma SaturateHoldsClamped(m: Mantissa, range: Range, v: int)
    requires Holds(m, v)
    ensures Holds(Saturate(m, range).value, Clamp(v, range).0)
  {
    ClampMonotone(Lo(m), v, range);
    ClampMonotone(v, Hi(m), range);
  }

  /** Saturating twice is saturating once, and the second time raises no flag. */
  lemma SaturateIdempotent(m: Mantissa, range: Range)
    ensures var once := Saturate(m, range);
      Saturate(once.value, range) == Handled(once.value, false)
  {
    SaturateKeepsFitting(Saturate(m, range).value, range);
  }

  lemma SaturateExamples(r8: Range, u7: Range)
    requires r8 == IntBounds(-128, 127) && u7 == IntBounds(0, 127)
    ensures Saturate(Scalar(128), r8) == Handled(Scalar(127), true)
    ensures Saturate(Scalar(-129), r8) == Handled(Scalar(-128), true)
    ensures Saturate(Scalar(-1), u7) == Handled(Scalar(0), true)
    ensures Saturate(Scalar(5), r8) == Handled(Scalar(5), false)
  {
  }
}
