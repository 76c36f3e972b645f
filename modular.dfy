/** Wrap-around overflow (src/ltitop/arithmetic/modular.py): reduce a
    mantissa modulo the width of a range, as two's complement hardware does. */
module Modular {
  import opened Mantissas
  import opened Saturated
  import opened Numerics

  /** The number of integers in a range, hi + 1 - lo. */
  function Width(range: Range): (r: int)
    ensures r >= 1
  {
    range.hi + 1 - range.lo
  }

  /** A scalar outside the range becomes (v - lo) mod width + lo and raises
      the flag; one inside comes back unchanged. Python's `%` with a positive
      divisor is never negative, as Dafny's is. */
  function WrapInt(v: int, range: Range): (r: (int, bool))
    ensures r.1 <==> !InRange(v, range)
  {
    if v < range.lo || v > range.hi then
      ((v - range.lo) % Width(range) + range.lo, true)
    else
      (v, false)
  }

  /** `wraparound(value, range_)`: each interval bound is wrapped on its own;
      if either overflowed, the result is the whole range. */
  function Wraparound(m: Mantissa, range: Range): (r: Handled)
    ensures r.value.Scalar? <==> m.Scalar?
  {
    match m
    case Scalar(v) =>
      var w := WrapInt(v, range);
      Handled(Scalar(w.0), w.1)
    case Ranged(b) =>
      var lo, hi := WrapInt(b.lo, range), WrapInt(b.hi, range);
      if lo.1 || hi.1 then
        Handled(Span2(range.lo, range.hi), true)
      else
        Handled(Span2(lo.0, hi.0), false)
  }

  /** The wrapped scalar always lies in the range, and differs from the
      input by a multiple of the range width. */
  lemma WrapIntSound(v: int, range: Range)
    ensures InRange(WrapInt(v, range).0, range)
    ensures (WrapInt(v, range).0 - v) % Width(range) == 0
  {
    var w := Width(range);
    if v < range.lo || v > range.hi {
      var q := (v - range.lo) / w;
      assert v - range.lo == q * w + (v - range.lo) % w;
      assert WrapInt(v, range).0 - v == -q * w;
      MultipleMod(-q, w);
    }
  }

  lemma MultipleMod(k: int, w: int)
    requires w >= 1
    ensures (k * w) % w == 0
  {
    ModOfDecomposition(k * w, k, 0, w);
  }

  /** A wrapped value always fits, the flag is the OR of the bounds' flags,
      and an interval that overflowed becomes the whole range. */
  lemma WraparoundSound(m: Mantissa, range: Range)
    ensures Within(Wraparound(m, range).value, range)
    ensures Wraparound(m, range).overflow <==> !Within(m, range)
    ensures m.Ranged? && Wraparound(m, range).overflow ==>
      Wraparound(m, range).value == Span2(range.lo, range.hi)
  {
    if m.Scalar? {
      WrapIntSound(m.v, range);
    }
  }

  /** A fitting operand comes back unchanged. */
  lemma WraparoundKeepsFitting(m: Mantissa, range: Range)
    requires Within(m, range)
    ensures Wraparound(m, range) == Handled(m, false)
  {
  }

  /** Wrapping depends only on the residue: two out-of-range scalars that
      differ by a multiple of the width wrap to the same value. */
  lemma WrapPeriodic(v: int, k: int, range: Range)
    requires !InRange(v, range) && !InRange(v + k * Width(range), range)
    ensures WrapInt(v + k * Width(range), range).0 == WrapInt(v, range).0
  {
    var w := Width(range);
    var a := v - range.lo;
    assert v + k * w - range.lo == a + k * w;
    ShiftMod(a, k, w);
  }

  lemma ShiftMod(a: int, k: int, w: int)
    requires w >= 1
    ensures (a + k * w) % w == a % w
  {
    var q, r := a / w, a % w;
    assert a + k * w == (q + k) * w + r;
    ModOfDecomposition(a + k * w, q + k, r, w);
  }

  /** The remainder is determined by any decomposition x = q*w + r with 0 <= r < w. */
  lemma ModOfDecomposition(x: int, q: int, r: int, w: int)
    requires w >= 1 && 0 <= r < w && x == q * w + r
    ensures x % w == r
  {
    var q2, r2 := x / w, x % w;
    assert (q - q2) * w == r2 - r;
    MulCancel(q - q2, 1, w);
    MulCancel(-1, q - q2, w);
  }

  /** Mantissa 64 + 64 = 128 in an 8-bit signed format wraps to -128; the
      interval [32, 128] (that is [-16, 48] + [48, 80]) overflows and
      becomes the whole range. */
  lemma WraparoundExamples(r8: Range, m: Mantissa)
    requires r8 == IntBounds(-128, 127) && m == Span2(32, 128)
    ensures Wraparound(Scalar(128), r8) == Handled(Scalar(-128), true)
    ensures Wraparound(Scalar(-129), r8) == Handled(Scalar(127), true)
    ensures Wraparound(m, r8) == Handled(Span2(-128, 127), true)
  {
  }
}
