/** The two overflow behaviours a processing unit can be configured with
    (`wraparound` from src/ltitop/arithmetic/modular.py and `saturate` from
    src/ltitop/arithmetic/saturated.py), as one choice. */
module Overflow {
  import opened Mantissas
  import opened Saturated
  import opened Modular

  datatype Behavior = Wrapping | Saturating

  /** `overflow_behavior(mantissa, range_)`. Whichever behaviour is chosen,
      the result fits the range, the flag says whether the operand did not,
      and a fitting operand is left alone. */
  function Handle(b: Behavior, m: Mantissa, range: Range): (r: Handled)
    ensures Within(r.value, range)
    ensures r.overflow <==> !Within(m, range)
    ensures Within(m, range) ==> r == Handled(m, false)
    ensures r.value.Scalar? <==> m.Scalar?
  {
    match b
    case Wrapping =>
      WraparoundSound(m, range);
      Wraparound(m, range)
    case Saturating =>
      SaturateFlag(m, range);
      Saturate(m, range)
  }

  /** Handling an already handled mantissa changes nothing and raises no flag. */
  lemma HandleIdempotent(b: Behavior, m: Mantissa, range: Range)
    ensures var once := Handle(b, m, range);
      Handle(b, once.value, range) == Handled(once.value, false)
  {
  }
}
