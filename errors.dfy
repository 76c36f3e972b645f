/** The exceptions the arithmetic layers raise, with the payloads that
    src/ltitop/arithmetic/errors.py attaches to the two arithmetic ones. */
module Errors {
  import opened Wrappers
  import opened Intervals
  import opened Values

  /** Python exception kinds. `OverflowError` and `UnderflowError` are the
      package's own (src/ltitop/arithmetic/errors.py) and carry the offending
      value and the format's limits or epsilon when the raising site passes
      them (None where it passes only a message). `BuiltinOverflowError` is
      Python's own OverflowError, which a module that does not import the
      package's class raises instead; a handler for the package's class does
      not catch it. */
  datatype Error =
    | ValueError
    | TypeError
    | NameError
    | AttributeError
    | RuntimeError
    | AssertionError
    | IndexError
    | OverflowError(value: Option<Value>, limits: Option<Interval>)
    | BuiltinOverflowError
    | UnderflowError(value: Option<Value>, epsilon: Option<real>)

  /** Either a result or the exception raised instead. */
  datatype Result<+T> = Ok(value: T) | Err(error: Error) {

    predicate IsFailure() {
      Err?
    }

    function PropagateFailure<U>(): Result<U>
      requires Err?
    {
      Err(error)
    }

    function Extract(): T
      requires Ok?
    {
      value
    }
  }

  /** An Option-returning interval construction, raising ValueError on None. */
  function Check<T>(o: Option<T>): (r: Result<T>)
    ensures r.Ok? <==> o.Some?
    ensures r.Ok? ==> r.value == o.value
    ensures r.Err? ==> r.error == ValueError
  {
    match o
    case None => Err(ValueError)
    case Some(v) => Ok(v)
  }
}
