# ltitop fixed-point arithmetic, in Dafny

This project models the arithmetic core of ltitop, a toolkit for implementing linear time-invariant filters in fixed point, and proves properties of that core. The model covers:

- **Intervals and values** (`Intervals`, `Values`, `Mantissas`): closed real intervals with conservative ordering and containment. Values are reals or intervals, and integer mantissas are ints or integer intervals. Interval `+`, `-`, `*`, negation, `difference`, `<<` and `>>` follow Python's operator dispatch between scalars and intervals. Each operation is proved to contain every pointwise result.
- **Rounding** (`Numerics`, `Rounding`): `floor`, `ceil`, `nearest_integer`, `truncate` and the builtin `round`. For each there is the integer re-quantization `shift(v, n)` and the error bound `error_bounds(o, i)`. Soundness says that the re-quantization error lies inside the error bound.
- **Overflow policies** (`Saturated`, `Modular`, `Overflow`): saturation and wrap-around, for scalars and intervals, together with their overflow flags.
- **Floating-point helpers** (`FloatingPoint`): `mpmsb` and `mpquantize` over exact reals.
- **Formats and representations** (`Formats`, `Notation`, `Representations`):
  - the `Format` invariant, wordlength, mantissa and value ranges;
  - `Format.best`, and the Q and parenthesis notations with their round trips;
  - `Representation`, with `Format.represent` and its underflow and overflow reports.
- **Processing units** (`Units`): the unit configuration and the table of operations allowed to overflow or underflow. The ambient active-unit slot is a class; `with unit:` blocks save and restore it in it.
- **The two arithmetic logic units** (`FixedAlu`, `MultiAlu`). The fixed-format unit keeps every result in one format. The multi-format unit aligns operands to a common format and lets results grow.
- **The fixed-point number** (`FixedNumbers`): operators that delegate to the active unit, with their short-cut comparison rules.
- **The error-bounded number** (`ErrorBounded`): a nominal value paired with an interval that holds `exact - nominal`. For plain real nominals, `+`, the corrected `-`, `*`, negation, `<<`, and rounding to nearest or toward zero keep the exact value within the bounds. The corrected rounding keeps it there for all four methods.
- **Expression rotations** (`Expressions`): left-nested folding of non-associative sums and products, and the two rotations.
- **The Pareto filter** `argnondominated` of the GP solver (`Pareto`), as an imperative method with loop invariants.
- **`split`** of `common/arrays.py` (`Arrays`), with Python slicing.

Exceptions are values of `Errors.Error` carried in a `Result`. The package's own `OverflowError` and `UnderflowError` carry their value and limits (or epsilon) when the source supplies them. `BuiltinOverflowError` is Python's builtin `OverflowError`, which a module raises when it does not import the package's class. Reals are exact: mpmath precision does not enter.

Where the source's documentation and its code disagree, the model follows the code:

- The fixed- and multi-format unit rounding operations (`truncate`, `floor`, `ceil`, `nearest`) are documented as rounding and re-representing. The code refers to names it never defines (`truncate`, `floor`, `ceil`, and `mpfloat` in the multi-format module), so a call that needs to round raises `NameError`. The fixed-format `nearest` is different. It represents the rounded integer with the default rounding, the builtin `round`, and `mpquantize` then calls `round.apply`. So every operand with fractional bits raises `AttributeError`, whether or not the rounded value overflows. `FixedAlu.RoundAsWritten` and `MultiAlu.RoundAsWritten` model that behaviour.
- The multi-format module imports only the package's `UnderflowError`. Its `represent` and `substract` therefore raise Python's builtin `OverflowError` (`BuiltinOverflowError`), which a handler for the package's `OverflowError` does not catch. Its `UnderflowError` carries a message only and is modelled with empty payloads.
- The multi-format `substract` fails with `TypeError` before it subtracts anything.
- `truncate.error_bounds` with an input LSB always raises `ValueError`.

Corrected versions of each are listed under "## Findings", and the rest of the model uses those.

## Model

| member | source | states |
|---|---|---|
| Intervals.Make | src/ltitop/arithmetic/interval.py:36-49 | construction succeeds exactly when lower <= upper, and keeps both bounds |
| Intervals.FromSeed | src/ltitop/arithmetic/interval.py:36-49 | a scalar seed gives the degenerate interval; a sequence seed succeeds exactly when it is an ordered pair, whose elements become the bounds |
| Intervals.ScalarSeedIsPoint | src/ltitop/arithmetic/interval.py:43-44 | the interval built from one scalar holds that scalar and nothing else |
| Intervals.AddContains | src/ltitop/arithmetic/interval.py:62-69 | every sum of members of the operands (interval, or scalar on either side) lies in the sum interval |
| Intervals.SubContains | src/ltitop/arithmetic/interval.py:77-84 | every difference of members lies in the difference interval, for interval - interval, interval - scalar and the corrected scalar - interval |
| Intervals.RSubAsWritten | src/ltitop/arithmetic/interval.py:83-84 | the reflected subtraction as written succeeds only when the interval is degenerate |
| Intervals.RSubAsWrittenRejects | src/ltitop/arithmetic/interval.py:83-84 | 3 - [1, 2] raises ValueError as written, and is [1, 2] once corrected |
| Intervals.RSubAgreesOnPoints | src/ltitop/arithmetic/interval.py:83-84 | on a degenerate interval the written and the corrected reflected subtraction agree |
| Intervals.Difference | src/ltitop/arithmetic/interval.py:71-75 | the bound-wise difference succeeds exactly when its bounds come out ordered, and then is [a.lo - b.lo, a.hi - b.hi] |
| Intervals.DifferenceRecoversError | src/ltitop/arithmetic/interval.py:66-75 | an error interval shifted by a value and then differenced with that value is the error interval again |
| Intervals.Add | src/ltitop/arithmetic/interval.py:62-66 | every sum of a member of a and a member of b lies in a + b |
| Intervals.AddScalar | src/ltitop/arithmetic/interval.py:62-69 | x is in a exactly when x + c is in a + c (either operand order) |
| Intervals.Sub | src/ltitop/arithmetic/interval.py:77-80 | every difference of a member of a and a member of b lies in a - b |
| Intervals.SubScalar | src/ltitop/arithmetic/interval.py:77-81 | x is in a exactly when x - c is in a - c |
| Intervals.RSub | src/ltitop/arithmetic/interval.py:83-84 | the corrected c - a, [c - hi, c - lo]: x is in a exactly when c - x is in it |
| Intervals.NegContains | src/ltitop/arithmetic/interval.py:168-169 | x is in a exactly when -x is in -a |
| Intervals.NegInvolutive | src/ltitop/arithmetic/interval.py:168-169 | negating twice gives the interval back |
| Intervals.Neg | src/ltitop/arithmetic/interval.py:168-169 | x is in a exactly when -x is in -a |
| Intervals.MulContains | src/ltitop/arithmetic/interval.py:86-93 | every product of members lies in the product interval |
| Intervals.MulBoundsAreCorners | src/ltitop/arithmetic/interval.py:86-93 | both bounds of the product are corner products, so no tighter interval holds all products |
| Intervals.MulScalarContains | src/ltitop/arithmetic/interval.py:94-103 | every member times a scalar lies in the scaled interval (either operand order) |
| Intervals.MulExamples | src/ltitop/arithmetic/interval.py:62-93 | [-1, 1] * [-2, 2] = [-2, 2], [4, 8] * [-2, 2] = [-16, 16], [-1, 1] + [-2, 2] = [-3, 3] |
| Intervals.Mul | src/ltitop/arithmetic/interval.py:86-93 | every product of members lies in a * b, and both of its bounds are among the four corner products |
| Intervals.ProductsWithin | src/ltitop/arithmetic/interval.py:86-93 | every product of members lies in the hull of the four corner products |
| Intervals.MulScalar | src/ltitop/arithmetic/interval.py:94-103 | both scaled bounds lie in a * c, and each bound of a * c is one of them |
| Intervals.Lt | src/ltitop/arithmetic/interval.py:199-202 | a < b exactly when every member of a is below every member of b |
| Intervals.Le | src/ltitop/arithmetic/interval.py:204-207 | a <= b exactly when every member of a is at most every member of b |
| Intervals.Gt | src/ltitop/arithmetic/interval.py:209-212 | a > b exactly when every member of a is above every member of b |
| Intervals.Ge | src/ltitop/arithmetic/interval.py:214-217 | a >= b exactly when every member of a is at least every member of b |
| Intervals.OrderingMeans | src/ltitop/arithmetic/interval.py:199-217 | each of <, <=, >, >= holds exactly when it holds for every pair of members |
| Intervals.OverlappingAreUnordered | src/ltitop/arithmetic/interval.py:199-227 | overlapping intervals are neither <, <=, > nor >= each other, while the outer one contains the inner |
| Intervals.ContainsMeans | src/ltitop/arithmetic/interval.py:222-227 | b in a exactly when every member of b is a member of a |
| Intervals.ContainsReflexive | src/ltitop/arithmetic/interval.py:222-227 | every interval contains itself |
| Intervals.ContainsTransitive | src/ltitop/arithmetic/interval.py:222-227 | containment is transitive |
| Intervals.Contains | src/ltitop/arithmetic/interval.py:222-227 | b in a exactly when every member of b is a member of a |
| Intervals.Equal | src/ltitop/arithmetic/interval.py:185-190 | a == b exactly when they hold the same reals |
| Intervals.Truthy | src/ltitop/arithmetic/interval.py:180-183 | an interval is falsy exactly when it holds its lower bound alone |
| Intervals.EqualMeans | src/ltitop/arithmetic/interval.py:185-194 | two intervals are equal exactly when they hold the same reals; an interval equals a scalar exactly when it holds that scalar alone |
| Values.Plus | src/ltitop/arithmetic/interval.py:62-69 | a sum is a scalar exactly when both operands are |
| Values.Minus | src/ltitop/arithmetic/interval.py:77-84 | a difference is a scalar exactly when both operands are |
| Values.Times | src/ltitop/arithmetic/interval.py:86-103 | a product is a scalar exactly when both operands are |
| Values.Negated | src/ltitop/arithmetic/interval.py:168-169 | negation keeps a scalar a scalar and an interval an interval |
| Values.LinearSound | src/ltitop/arithmetic/interval.py:62-84 | mixed scalar/interval sums, differences and negations stand for every combination of the reals their operands stand for |
| Values.TimesSound | src/ltitop/arithmetic/interval.py:86-103 | mixed scalar/interval products stand for every product of the reals their operands stand for |
| Values.EqualsMeans | src/ltitop/arithmetic/interval.py:185-194 | two values compare equal exactly when they stand for the same reals |
| Values.DegenerateIntervalIsFalsy | src/ltitop/arithmetic/interval.py:180-183 | an interval with equal bounds is falsy while the same scalar is truthy |
| Rounding.TruncateShiftAsWritten | src/ltitop/arithmetic/rounding.py:90-98 | truncation's shift as written always raises NameError |
| Rounding.TruncateErrorBoundsAsWritten | src/ltitop/arithmetic/rounding.py:100-105 | ValueError whenever an input LSB is given; without one, the bounds [-2^o, 2^o] |
| Rounding.Apply | src/ltitop/arithmetic/rounding.py:27-88 | nearest and round move x by at most 1/2, floor into (-1, 0], ceil into [0, 1), truncate into (-1, 1) keeping the sign of x |
| Rounding.FloorShift | src/ltitop/arithmetic/rounding.py:61-67 | a left shift is v * 2^n; a right shift by k gives the r with r * 2^k <= v < (r + 1) * 2^k |
| Rounding.CeilShift | src/ltitop/arithmetic/rounding.py:73-75 | a left shift is v * 2^n; a right shift by k gives the r with (r - 1) * 2^k < v <= r * 2^k |
| Rounding.NearestShift | src/ltitop/arithmetic/rounding.py:31-41 | a left shift is v * 2^n; a right shift by k gives floor((v + 2^(k-1)) / 2^k), which lies within half a step 2^(k-1) of v / 2^k, ties up |
| Rounding.TruncateShift | src/ltitop/arithmetic/rounding.py:90-98 | the intended truncating shift: the floor shift for v >= 0, the ceil shift below |
| Rounding.Shift | src/ltitop/arithmetic/rounding.py:32-41 | an interval mantissa is shifted bound by bound and stays an interval; a scalar stays a scalar |
| Rounding.ErrorBounds | src/ltitop/arithmetic/rounding.py:43-105 | AttributeError exactly for the builtin round; otherwise any failure is the constructor's ValueError |
| Rounding.FloorShiftMonotone | src/ltitop/arithmetic/rounding.py:61-67 | the floor shift is monotone |
| Rounding.NearestIsHalfUp | src/ltitop/arithmetic/rounding.py:31-41 | when bits are dropped, the nearest shift is floor((v + 2^(k-1)) / 2^k): ties go up |
| Rounding.NearestShiftMonotone | src/ltitop/arithmetic/rounding.py:31-41 | the nearest shift is monotone |
| Rounding.TruncateTowardZero | src/ltitop/arithmetic/rounding.py:90-98 | the intended truncating shift is the floor shift for non-negative v and the ceil shift otherwise |
| Rounding.TruncateShiftMonotone | src/ltitop/arithmetic/rounding.py:90-98 | the intended truncating shift is monotone |
| Rounding.ShiftMonotone | src/ltitop/arithmetic/rounding.py:31-98 | every method's shift is monotone, so a bound-wise shifted interval is an interval |
| Rounding.FloorShiftRoundTrip | src/ltitop/arithmetic/rounding.py:61-67 | shifting left by n and back right by n gives v |
| Rounding.ShiftLeftExact | src/ltitop/arithmetic/rounding.py:31-98 | a left shift is v * 2^n whatever the method |
| Rounding.ErrorBoundsDefined | src/ltitop/arithmetic/rounding.py:43-105 | the bounds exist exactly when there is no input LSB or it is no coarser than the output LSB |
| Rounding.ErrorBoundsWithoutInput | src/ltitop/arithmetic/rounding.py:43-105 | without an input LSB: [-2^(o-1), 2^(o-1)], [-2^o, 0], [0, 2^o], [-2^o, 2^o] |
| Rounding.ErrorBoundsWithInput | src/ltitop/arithmetic/rounding.py:43-105 | with an input LSB i < o each bound tightens by 2^i where the input grid excludes the extreme error |
| Rounding.TruncateErrorBoundsAsWrittenRejects | src/ltitop/arithmetic/rounding.py:100-105 | truncation's bounds as written raise ValueError whenever an input LSB is given |
| Rounding.FloorShiftError | src/ltitop/arithmetic/rounding.py:61-67 | the floor shift's integer error lies in [-(2^k - 1), 0] |
| Rounding.CeilShiftError | src/ltitop/arithmetic/rounding.py:73-75 | the ceil shift's integer error lies in [0, 2^k - 1] |
| Rounding.NearestShiftError | src/ltitop/arithmetic/rounding.py:31-41 | the nearest shift's integer error lies in [-(2^(k-1) - 1), 2^(k-1)] |
| Rounding.TruncateShiftError | src/ltitop/arithmetic/rounding.py:90-98 | the truncating shift's integer error lies in [-(2^k - 1), 2^k - 1] |
| Rounding.FloorShiftSound | src/ltitop/arithmetic/rounding.py:55-67 | the real error of a floor shift from LSB i to i - n lies in [-2^o + 2^i, 0] |
| Rounding.CeilShiftSound | src/ltitop/arithmetic/rounding.py:73-81 | the real error of a ceil shift lies in [0, 2^o - 2^i] |
| Rounding.TruncateShiftSound | src/ltitop/arithmetic/rounding.py:90-105 | the real error of a truncating shift lies in [-2^o + 2^i, 2^o - 2^i] |
| Rounding.NearestShiftSound | src/ltitop/arithmetic/rounding.py:31-49 | the real error of a nearest shift lies in [-2^(o-1) + 2^i, 2^(o-1)] |
| Rounding.FloorShiftWithin | src/ltitop/arithmetic/rounding.py:55-67 | the floor shift's error lies inside floor's error_bounds(o, i) |
| Rounding.CeilShiftWithin | src/ltitop/arithmetic/rounding.py:73-81 | the ceil shift's error lies inside ceil's error_bounds(o, i) |
| Rounding.NearestShiftWithin | src/ltitop/arithmetic/rounding.py:31-49 | the nearest shift's error lies inside nearest_integer's error_bounds(o, i) |
| Rounding.TruncateShiftWithin | src/ltitop/arithmetic/rounding.py:90-105 | the truncating shift's error lies inside the corrected truncate error_bounds(o, i) |
| Rounding.ShiftWithinErrorBounds | src/ltitop/arithmetic/rounding.py:31-105 | for every method with a shift, shifting a mantissa exact at LSB i to LSB o = i - n changes its value by an amount inside error_bounds(o, i) |
| Rounding.ApplyError | src/ltitop/arithmetic/rounding.py:27-88 | rounding a real moves it by at most 1/2 (nearest), into (-1, 0] (floor), [0, 1) (ceil) or (-1, 1) (truncate) |
| Rounding.ApplyMonotone | src/ltitop/arithmetic/rounding.py:27-88 | every rounding function is monotone |
| Rounding.ApplyExamples | test/ltitop/arithmetic/test_rounding.py:33-63 | floor(-1.4) = -2, ceil(-1.6) = -1, truncate(-1.6) = -1, truncate(1.6) = 1, nearest(1.6) = 2, nearest(-1.4) = -1 |
| Rounding.NearestTiesDisagree | src/ltitop/arithmetic/rounding.py:27-41 | on a tie the nearest shift rounds up (1 * 2^-1 to 1) while the nearest function rounds to even (0.5 to 0) |
| Numerics.Shl | src/ltitop/arithmetic/rounding.py:61-64 | Python's v << n is v * 2^n |
| Numerics.Shr | src/ltitop/arithmetic/rounding.py:65-66 | Python's v >> n is the floor of v / 2^n |
| Numerics.Floor | src/ltitop/arithmetic/rounding.py:51-53 | math.floor gives the greatest integer not above x |
| Numerics.Ceil | src/ltitop/arithmetic/rounding.py:69-71 | math.ceil gives the least integer not below x |
| Numerics.Trunc | src/ltitop/arithmetic/rounding.py:83-88 | truncation rounds toward zero: down for x >= 0, up for x < 0 |
| Numerics.RoundHalfEven | src/ltitop/arithmetic/rounding.py:27-29 | Python's round is within 1/2 of x and, on a tie, even |
| Saturated.Clamp | src/ltitop/arithmetic/saturated.py:37-38 | the result lies in the range: the lower bound below it, the upper bound above it, v itself inside it; the flag is raised exactly when v is outside |
| Saturated.Saturate | src/ltitop/arithmetic/saturated.py:26-38 | the result fits the range and keeps the operand's kind (scalar or interval) |
| Saturated.ClampMonotone | src/ltitop/arithmetic/saturated.py:37-38 | clamping is monotone, so clamping both bounds of an interval yields an interval |
| Saturated.SaturateFlag | src/ltitop/arithmetic/saturated.py:28-38 | the overflow flag is raised exactly when the operand does not fit the range |
| Saturated.SaturateKeepsFitting | src/ltitop/arithmetic/saturated.py:28-38 | an operand that fits comes back unchanged, with no flag |
| Saturated.SaturateHoldsClamped | src/ltitop/arithmetic/saturated.py:28-38 | every integer the operand holds, clamped, is held by the result |
| Saturated.SaturateIdempotent | src/ltitop/arithmetic/saturated.py:26-38 | saturating a saturated operand changes nothing and raises no flag |
| Saturated.SaturateExamples | src/ltitop/arithmetic/saturated.py:26-38 | in [-128, 127]: 128 becomes 127 and -129 becomes -128, both flagged; 5 is kept; in [0, 127], -1 becomes 0, flagged |
| Modular.Width | src/ltitop/arithmetic/modular.py:48-50 | the width of a range is positive |
| Modular.WrapInt | src/ltitop/arithmetic/modular.py:46-52 | the flag is raised exactly when the scalar lies outside the range |
| Modular.Wraparound | src/ltitop/arithmetic/modular.py:27-52 | wrapping keeps the operand's kind (scalar or interval) |
| Modular.WrapIntSound | src/ltitop/arithmetic/modular.py:46-52 | the wrapped scalar lies in the range and differs from the input by a multiple of the range's width |
| Modular.WraparoundSound | src/ltitop/arithmetic/modular.py:27-52 | the result fits the range; the flag is raised exactly when the operand did not fit; an overflowing interval becomes the whole range |
| Modular.WraparoundKeepsFitting | src/ltitop/arithmetic/modular.py:27-52 | an operand that fits comes back unchanged, with no flag |
| Modular.WrapPeriodic | src/ltitop/arithmetic/modular.py:46-52 | two out-of-range scalars that differ by a multiple of the width wrap to the same value |
| Modular.WraparoundExamples | src/ltitop/arithmetic/modular.py:27-52 | in [-128, 127]: 128 wraps to -128 and -129 to 127, both flagged; [32, 128] overflows into [-128, 127] |
| Overflow.Handle | src/ltitop/arithmetic/fixed_point/processing_unit.py:57-65 | the handled mantissa lies in the range, the flag is set exactly when the operand did not lie in it, an operand inside the range is returned unchanged, and a scalar stays a scalar |
| Overflow.HandleIdempotent | src/ltitop/arithmetic/fixed_point/processing_unit.py:57-65 | handling an already handled mantissa again changes nothing and raises no flag |
| Units.Allowed | src/ltitop/arithmetic/fixed_point/processing_unit.py:67-75 | True lets through every method the class defines, False none, a collection exactly its members |
| Units.BuildFlags | src/ltitop/arithmetic/fixed_point/processing_unit.py:77-121 | the corrected flag table (lshift keyed on itself) only flags operations that carry the annotation |
| Units.BuildFlagsAsWritten | src/ltitop/arithmetic/fixed_point/processing_unit.py:77-121 | the flag table as written only flags operations that carry the annotation |
| Units.BuildFlagsMeans | src/ltitop/arithmetic/fixed_point/processing_unit.py:77-121 | operation by operation: the six doubly annotated operations keyed on themselves, negate on negate, substract or multiply, compare with an underflow flag only, rshift with neither |
| Units.BuildFlagsMonotone | src/ltitop/arithmetic/fixed_point/processing_unit.py:67-121 | allowing more operations never disallows one |
| Units.BuildFlagsNothing | src/ltitop/arithmetic/fixed_point/processing_unit.py:69-75 | False for both allowances leaves the table empty |
| Units.BuildFlagsAgree | src/ltitop/arithmetic/fixed_point/processing_unit.py:107-110 | the written and corrected tables agree whenever lshift and rshift are allowed alike |
| Units.LShiftKeyedOnRShift | src/ltitop/arithmetic/fixed_point/processing_unit.py:107-110 | allowing only lshift to overflow leaves it disallowed as written (and allowed once corrected); allowing only rshift allows lshift |
| Units.MakeConfig | src/ltitop/arithmetic/fixed_point/arithmetic_logic_unit.py:25-29 | construction succeeds exactly for a wordlength of at least one bit (ValueError otherwise) and stores what it was given |
| Units.DefaultFlags | src/ltitop/arithmetic/fixed_point/processing_unit.py:53-121 | with the defaults (floor, wraparound, True, True) add may overflow and underflow, negate and lshift may overflow, compare may underflow but has no overflow flag, divide is not flagged for a unit that does not define it |
| Units.EmptyFixedFormatRejected | src/ltitop/arithmetic/fixed_point/arithmetic_logic_unit.py:27-28 | a fixed-format unit over an unsigned format with msb == lsb has no bits and is rejected with ValueError |
| Units.MakeConfigValid | src/ltitop/arithmetic/fixed_point/arithmetic_logic_unit.py:25-29 | a fixed-format configuration that construction accepts has the format's wordlength and at least one bit |
| Units.ProcessingUnit.constructor | src/ltitop/arithmetic/fixed_point/processing_unit.py:53-65 | a new unit keeps its configuration and has not been entered |
| Units.ProcessingUnit.Enter | src/ltitop/arithmetic/fixed_point/processing_unit.py:45-48 | entering remembers the previously active unit and makes this one active |
| Units.ProcessingUnit.Exit | src/ltitop/arithmetic/fixed_point/processing_unit.py:50-51 | exiting restores the remembered unit; exiting a unit never entered raises AttributeError and changes nothing |
| Units.NewArithmeticLogicUnit | src/ltitop/arithmetic/fixed_point/arithmetic_logic_unit.py:25-29 | a fresh, never-entered unit with the built configuration, or ValueError exactly for a wordlength below one bit |
| Units.ActiveSlot.constructor | src/ltitop/arithmetic/fixed_point/processing_unit.py:37 | initially no unit is active |
| Units.ActiveSlot.Active | src/ltitop/arithmetic/fixed_point/processing_unit.py:39-43 | the active unit when there is one, RuntimeError exactly when there is none |
| Units.ActiveSlot.ActiveConfig | src/ltitop/arithmetic/fixed_point/processing_unit.py:39-43 | the active unit's configuration exactly when a unit is active |
| Units.NestedUnits | src/ltitop/arithmetic/fixed_point/processing_unit.py:37-51 | for nested `with` blocks of two units: the inner unit is active inside, the outer after the inner exits, none after both |
| Units.ReenteredUnit | src/ltitop/arithmetic/fixed_point/processing_unit.py:45-51 | a unit entered twice, nested, overwrites its saved predecessor and stays active after both exits |
| Formats.MakeFormat | src/ltitop/arithmetic/fixed_point/formats.py:155-160 | a format exists exactly when lsb <= msb; otherwise ValueError |
| Formats.Wordlength | src/ltitop/arithmetic/fixed_point/formats.py:162-165 | a signed format has at least one bit, its sign |
| Formats.ScaledMantissaEnds | src/ltitop/arithmetic/fixed_point/formats.py:167-191 | the mantissa range scaled by 2^lsb ends at 2^msb - 2^lsb at the top, and at -2^msb (signed) or 0 (unsigned) at the bottom |
| Formats.MantissaRangeWidth | src/ltitop/arithmetic/fixed_point/formats.py:167-175 | the mantissa range holds exactly 2^wordlength integers |
| Formats.MantissaRange | src/ltitop/arithmetic/fixed_point/formats.py:167-175 | the range holds exactly 2^wordlength integers; signed it is [-(hi + 1), hi], unsigned it starts at 0 |
| Formats.ValueRange | src/ltitop/arithmetic/fixed_point/formats.py:180-191 | the value range is the mantissa range scaled by 2^lsb |
| Formats.Epsilon | src/ltitop/arithmetic/fixed_point/formats.py:193-194 | the epsilon is positive and is the value of mantissa 1 |
| Formats.LdexpOrder | src/ltitop/arithmetic/fixed_point/formats.py:177-197 | scaling by 2^n keeps the order of two reals, both ways |
| Formats.OverflowsWith | src/ltitop/arithmetic/fixed_point/formats.py:177-178 | a mantissa overflows a format exactly when its value at the format's LSB cannot be represented |
| Formats.CanRepresent | src/ltitop/arithmetic/fixed_point/formats.py:196-197 | a value can be represented exactly when every real it stands for lies in the value range |
| Formats.Q | src/ltitop/arithmetic/fixed_point/formats.py:129-134 | Q(a, b) exists exactly when a + b >= 1 (ValueError otherwise), and is signed with a + b bits and epsilon 2^-b |
| Formats.UQ | src/ltitop/arithmetic/fixed_point/formats.py:138-143 | uQ(a, b) exists exactly when a + b >= 0 (ValueError otherwise), and is unsigned with a + b bits and epsilon 2^-b |
| Formats.P | src/ltitop/arithmetic/fixed_point/formats.py:145-147 | P(a, b) exists exactly when b <= a (ValueError otherwise), and is signed with a - b + 1 bits, epsilon 2^b and least value -2^a |
| Formats.UP | src/ltitop/arithmetic/fixed_point/formats.py:151-153 | uP(a, b) exists exactly when b <= a (ValueError otherwise), and is unsigned with a - b bits, epsilon 2^b and least value 0 |
| Formats.FormatExamples | test/ltitop/arithmetic/fixed_point/test_formats.py:69-238 | P(7, 2): 6 bits, mantissas [-32, 31], values [-128, 124], epsilon 4; Q4.4: 8 bits, epsilon 1/16; Q1.7: values [-1, 0.9921875]; uP(8, 0): 8 bits, mantissas [0, 255] |
| Formats.QExamples | test/ltitop/arithmetic/fixed_point/test_formats.py:304-370 | Q(1, 15) = (0, -15); Q(3, -1) = (2, 1); uQ(1, 15) = u(1, -15); uQ(4, -2) = u(4, 2); P(0, 2) is rejected; uP(4, 2) = u(4, 2) |
| Formats.Best | src/ltitop/arithmetic/fixed_point/formats.py:87-127 | only ValueError, and exactly for a negative value asked of an unsigned format or a wordlength below the sign bit |
| Formats.BestWordlength | src/ltitop/arithmetic/fixed_point/formats.py:104-127 | the format found has exactly the requested wordlength and signedness, and the mantissa is the value quantized at its LSB (with the given method, or with round after an adjustment) |
| Formats.BestUnadjusted | src/ltitop/arithmetic/fixed_point/formats.py:98-127 | without an adjustment the result is the first quantization in the format (msb, msb - w + 1) |
| Formats.BestExamples | test/ltitop/arithmetic/fixed_point/test_formats.py:372-419 | at 8 bits: 1.0 is 64 in (1, -6), -1.0 is -128 in (0, -7), 1200 is 75 in (11, 4), 0 is 0 in (0, -7) |
| FloatingPoint.FloorLog2 | src/ltitop/arithmetic/floating_point.py:45-46 | floor(log2 x) is the k with 2^k <= x < 2^(k+1) |
| FloatingPoint.FloorLog2Unique | src/ltitop/arithmetic/floating_point.py:45-46 | that bracketing determines floor(log2 x) |
| FloatingPoint.CeilLog2 | src/ltitop/arithmetic/floating_point.py:47-48 | ceil(log2 y) is the k with 2^(k-1) < y <= 2^k |
| FloatingPoint.MaxMsb | src/ltitop/arithmetic/floating_point.py:38-44 | the larger of two MSB positions, minus infinity only when both are |
| FloatingPoint.MsbOfReal | src/ltitop/arithmetic/floating_point.py:45-49 | the MSB is minus infinity exactly for zero |
| FloatingPoint.MsbOfRealMeans | src/ltitop/arithmetic/floating_point.py:45-49 | a positive x has its leading one at bit msb - signed; a negative x lies in [-2^msb, -2^(msb-1)) |
| FloatingPoint.SignedMsbBounds | src/ltitop/arithmetic/floating_point.py:45-49 | a nonzero x lies in [-2^msb, 2^msb) for its signed MSB |
| FloatingPoint.SpanMsbBounds | src/ltitop/arithmetic/floating_point.py:36-49 | every nonzero member of an interval lies within the interval's signed MSB |
| FloatingPoint.MsbExamples | src/ltitop/arithmetic/floating_point.py:36-49 | signed MSBs of 1.0, -1.0 and 1200.0 are 1, 0 and 11; the MSB of 0 is minus infinity |
| FloatingPoint.MsbOf | src/ltitop/arithmetic/floating_point.py:36-49 | the MSB is -inf exactly for zero (for an interval, both bounds zero); an interval's MSB is the MSB of one of its bounds |
| FloatingPoint.Quantize | src/ltitop/arithmetic/floating_point.py:52-62 | a scalar gives a scalar mantissa and an interval an interval one (bound-wise) |
| FloatingPoint.QuantizeAsWritten | src/ltitop/arithmetic/floating_point.py:52-65 | quantization as written always raises AttributeError (no rounding function has `apply`) |
| FloatingPoint.QuantizeReal | src/ltitop/arithmetic/floating_point.py:65 | the quantized integer is within 1/2 of x * 2^nbits for nearest and round, its floor for floor, its ceiling for ceil, and within 1 for truncate |
| FloatingPoint.QuantizeRealError | src/ltitop/arithmetic/floating_point.py:65 | the quantized mantissa is within half a step (nearest) or one step of x * 2^nbits, on the side each method promises |
| FloatingPoint.QuantizeRealMonotone | src/ltitop/arithmetic/floating_point.py:65 | quantization is monotone in the value |
| FloatingPoint.QuantizeBounds | src/ltitop/arithmetic/floating_point.py:54-62 | an interval's quantized bounds are its bounds quantized |
| FloatingPoint.QuantizeHolds | src/ltitop/arithmetic/floating_point.py:52-65 | the quantization of every member of a value is held by the quantized value |
| Notation.NatToStringRoundTrip | src/ltitop/arithmetic/fixed_point/formats.py:221-229 | the decimal digits printed for n read back as n |
| Notation.IntToStringRoundTrip | src/ltitop/arithmetic/fixed_point/formats.py:53-57 | `int(str(n)) == n` for every integer, negative ones included |
| Notation.IntToStringIsNumeral | src/ltitop/arithmetic/fixed_point/formats.py:45-46 | a printed integer matches `[+-]?[0-9]+`: digits, with a minus sign first if any |
| Notation.FromQNotation | src/ltitop/arithmetic/fixed_point/formats.py:45-57 | Q-notation parsing fails only with ValueError |
| Notation.FromPNotation | src/ltitop/arithmetic/fixed_point/formats.py:59-73 | parenthesis-notation parsing fails only with ValueError |
| Notation.FromNotation | src/ltitop/arithmetic/fixed_point/formats.py:75-85 | succeeds exactly when Q or parenthesis notation does; otherwise ValueError |
| Notation.ToQNotation | src/ltitop/arithmetic/fixed_point/formats.py:221-225 | the printed Q notation reads back as the same format, and starts with u exactly for an unsigned format |
| Notation.ToPNotation | src/ltitop/arithmetic/fixed_point/formats.py:227-229 | the printed parenthesis notation reads back as the same format, and starts with u exactly for an unsigned format |
| Notation.QNotationRoundTrip | src/ltitop/arithmetic/fixed_point/formats.py:45-57 | every format printed in Q notation parses back to itself |
| Notation.PNotationRoundTrip | src/ltitop/arithmetic/fixed_point/formats.py:59-73 | every format printed in parenthesis notation parses back to itself |
| Notation.NotationRoundTrip | src/ltitop/arithmetic/fixed_point/formats.py:75-85 | `from_notation` reads back either printed form of every format |
| Notation.PrintSignedQExample | src/ltitop/arithmetic/fixed_point/formats.py:221-229 | (7, 0) signed prints as Q8.0 |
| Notation.PrintSignedPExample | src/ltitop/arithmetic/fixed_point/formats.py:221-229 | (7, 0) signed prints as (7,0) |
| Notation.PrintUnsignedQExample | src/ltitop/arithmetic/fixed_point/formats.py:221-229 | (8, 2) unsigned prints as uQ8.-2 |
| Notation.PrintUnsignedPExample | src/ltitop/arithmetic/fixed_point/formats.py:221-229 | (8, 2) unsigned prints as u(8,2) |
| Notation.ParseQExample | test/ltitop/arithmetic/fixed_point/test_formats.py:320-324 | Q3.-1 parses to (2, 1) signed |
| Notation.ParsePExample | test/ltitop/arithmetic/fixed_point/test_formats.py:366-370 | u(4,2) is not Q notation and parses to (4, 2) unsigned |
| Notation.ParseNewlineExample | src/ltitop/arithmetic/fixed_point/formats.py:45-46 | a trailing newline is accepted, as `$` allows: "Q1.7\n" is (0, -7) |
| Notation.ParseGarbageExample | src/ltitop/arithmetic/fixed_point/formats.py:45-52 | trailing characters are rejected: "Q1.7x" raises ValueError |
| Mantissas.Add | src/ltitop/arithmetic/interval.py:62-69 | the sum of two mantissas is a plain integer exactly when both are |
| Mantissas.Sub | src/ltitop/arithmetic/interval.py:77-82 | the difference of two mantissas is a plain integer exactly when both are |
| Mantissas.Neg | src/ltitop/arithmetic/interval.py:168-169 | negation keeps a mantissa's kind |
| Mantissas.Mul | src/ltitop/arithmetic/interval.py:86-103 | the product of two mantissas is a plain integer exactly when both are |
| Mantissas.ShiftLeft | src/ltitop/arithmetic/interval.py:171-172 | shifting left by k multiplies both bounds by 2^k and keeps the mantissa's kind |
| Mantissas.ShiftRight | src/ltitop/arithmetic/interval.py:174-175 | shifting right keeps the mantissa's kind |
| Mantissas.ShrMonotone | src/ltitop/arithmetic/interval.py:174-175 | an arithmetic right shift preserves order, so a shifted interval keeps lo <= hi |
| Mantissas.AddSubNegHold | src/ltitop/arithmetic/interval.py:62-84 | for any integers a and b the operands hold, the sum, difference and negation hold a + b, a - b and -a |
| Mantissas.ShiftLeftHolds | src/ltitop/arithmetic/interval.py:171-172 | for any integer a the operand holds, the shifted mantissa holds a << k |
| Mantissas.ShiftRightHolds | src/ltitop/arithmetic/interval.py:174-175 | for any integer a the operand holds, the shifted mantissa holds a >> k |
| Mantissas.MulHolds | src/ltitop/arithmetic/interval.py:86-103 | for any integers a and b the operands hold, the product holds a * b (the corner products bound every product) |
| Mantissas.Scaled | src/ltitop/arithmetic/fixed_point/representation.py:48-53 | a mantissa's value at an LSB is a number exactly when the mantissa is an integer, and an interval otherwise |
| Mantissas.ScaledAdd | src/ltitop/arithmetic/interval.py:62-69 | adding two mantissas at a shared LSB adds their values |
| Mantissas.ScaledSub | src/ltitop/arithmetic/interval.py:77-82 | subtracting two mantissas at a shared LSB subtracts their values |
| Mantissas.ScaledNeg | src/ltitop/arithmetic/interval.py:168-169 | negating a mantissa negates its value |
| Mantissas.ScaledShiftLeft | src/ltitop/arithmetic/interval.py:171-172 | a mantissa shifted left by k is worth the same mantissa read k bits higher |
| Mantissas.ScaledMul | src/ltitop/arithmetic/fixed_point/representation.py:48-53 | the product of two integer mantissas, read at the sum of their LSBs, is the product of their values |
| Mantissas.ScaledTimesPow | src/ltitop/arithmetic/fixed_point/representation.py:48-53 | reading a mantissa n bits higher multiplies its value by 2^n |
| Representations.MakeRepresentation | src/ltitop/arithmetic/fixed_point/representation.py:37-42 | a representation is built exactly when the mantissa fits the format's mantissa range; otherwise ValueError |
| Representations.ValueOf | src/ltitop/arithmetic/fixed_point/representation.py:48-53 | a representation is worth a number exactly when its mantissa is an integer |
| Representations.IsInteger | src/ltitop/arithmetic/fixed_point/representation.py:44-46 | a scalar representation with no fractional bits stands for a whole number |
| Representations.Truthy | src/ltitop/arithmetic/fixed_point/representation.py:68-71 | a representation is truthy exactly when its value is not zero (for an interval, not both bounds zero) |
| Representations.ToInt | src/ltitop/arithmetic/fixed_point/representation.py:61-64 | int() succeeds exactly on an integer mantissa; an interval mantissa gives TypeError |
| Representations.ToIntIsFloor | src/ltitop/arithmetic/fixed_point/representation.py:61-64 | int() is the floor of the value represented, and equals it when the format has no fractional bits |
| Representations.TruthyMeans | src/ltitop/arithmetic/fixed_point/representation.py:68-71 | a representation is truthy exactly when the value it stands for is not zero |
| Representations.Represent | src/ltitop/arithmetic/fixed_point/formats.py:202-219 | ValueError exactly for a negative operand in an unsigned format; otherwise the overflow flag is set exactly when the mantissa leaves the format's range |
| Representations.RepresentRealError | src/ltitop/arithmetic/fixed_point/formats.py:209-216 | a number is represented by a plain mantissa worth the number within half an epsilon (nearest, round), within one epsilon below (floor) or above (ceil), or toward zero (truncate) |
| Representations.RepresentRealUnderflow | src/ltitop/arithmetic/fixed_point/formats.py:216-217 | underflow is flagged exactly for the nonzero numbers that round to zero: within half an epsilon of zero for nearest and round, in (0, epsilon) for floor, in (-epsilon, 0) for ceil, inside (-epsilon, epsilon) for truncate |
| Representations.RepresentableNeverOverflows | src/ltitop/arithmetic/fixed_point/formats.py:196-218 | a number the format can represent never overflows, whatever the rounding method |
| Representations.RepresentSameLsb | src/ltitop/arithmetic/fixed_point/formats.py:204-208 | a representation moved to a format with the same LSB keeps its mantissa and does not underflow |
| Representations.RepresentFinerIsExact | src/ltitop/arithmetic/fixed_point/formats.py:204-208 | a representation moved to a finer LSB keeps its value exactly |
| Representations.RepresentCoarserError | src/ltitop/arithmetic/fixed_point/formats.py:204-208 | a representation moved to a coarser LSB changes its value by an amount within the rounding method's error bounds |
| Representations.RepresentUnsignedNegative | src/ltitop/arithmetic/fixed_point/formats.py:214-215 | an unsigned format refuses any negative number with ValueError, whatever the rounding method |
| Representations.RepresentInteger | src/ltitop/arithmetic/fixed_point/formats.py:209-218 | an integer in a format with fractional bits is the integer times 2^-lsb, worth the integer, never an underflow |
| Representations.RepresentTieExamples | test/ltitop/arithmetic/fixed_point/test_formats.py:41-53 | in P(7, 0), -127.5 is -128 to nearest and -127 with ceil, with no flags |
| Representations.RepresentUnderflowExample | test/ltitop/arithmetic/fixed_point/test_formats.py:60-63 | in P(7, 0), 0.1 is 0 with the underflow flag |
| Representations.RepresentOverflowExample | test/ltitop/arithmetic/fixed_point/test_formats.py:65-67 | in P(7, 0), 256 sets the overflow flag and not underflow |
| Representations.RepresentFractionExamples | test/ltitop/arithmetic/fixed_point/test_formats.py:242-260 | in P(3, -4), -2.25 is -36 and 0.5 is 8, with no flags |
| Representations.QuantizeErrorAt | src/ltitop/arithmetic/floating_point.py:52-65 | quantizing to n fractional bits misses the number by at most half a step (nearest, round), one step below (floor) or above (ceil), or less than a step (truncate) |
| Representations.QuantizeZeroAt | src/ltitop/arithmetic/floating_point.py:52-65 | quantizing gives zero exactly on the interval around zero each rounding method maps to 0 |
| Representations.ApplyZero | src/ltitop/arithmetic/rounding.py:27-105 | each rounding method gives 0 exactly on its interval around zero |
| Representations.ApplyInteger | src/ltitop/arithmetic/rounding.py:27-105 | every rounding method leaves an integer unchanged |
| FixedAlu.Settle | src/ltitop/arithmetic/fixed_point/fixed_format_arithmetic_logic_unit.py:95-105 | an in-range mantissa is kept as it is; an overflowing one raises OverflowError with the value and the format's range unless the operation may overflow, and is then replaced by the overflow behaviour's result; any result fits the unit format |
| FixedAlu.Represent | src/ltitop/arithmetic/fixed_point/fixed_format_arithmetic_logic_unit.py:61-82 | a representation already in the unit format comes back unchanged. Anything else is represented in the unit format with nearest rounding, whatever the unit's rounding method. An unsigned format refuses a negative value with ValueError. A refused underflow raises UnderflowError with the value and epsilon. A refused overflow raises OverflowError with the value and the value range. An allowed overflow gives the unit's overflow handling of the mantissa |
| FixedAlu.RepresentIgnoresRounding | src/ltitop/arithmetic/fixed_point/fixed_format_arithmetic_logic_unit.py:65-67 | changing the unit's rounding method never changes what represent gives |
| FixedAlu.RepresentRealNearest | src/ltitop/arithmetic/fixed_point/fixed_format_arithmetic_logic_unit.py:61-82 | a real within the unit format's value range (non-negative, for an unsigned format) fails exactly when it is a nonzero value within half a step of zero and underflow is refused (UnderflowError with the value and epsilon); otherwise its mantissa is worth the value within half a step |
| FixedAlu.Add | src/ltitop/arithmetic/fixed_point/fixed_format_arithmetic_logic_unit.py:92-105 | an operand in another format gives ValueError; a result fits the unit format |
| FixedAlu.Substract | src/ltitop/arithmetic/fixed_point/fixed_format_arithmetic_logic_unit.py:107-120 | an operand in another format gives ValueError; a result fits the unit format |
| FixedAlu.Multiply | src/ltitop/arithmetic/fixed_point/fixed_format_arithmetic_logic_unit.py:122-150 | an operand in another format gives ValueError; a result fits the unit format |
| FixedAlu.Negate | src/ltitop/arithmetic/fixed_point/fixed_format_arithmetic_logic_unit.py:224-241 | ValueError for an operand in another format, RuntimeError in an unsigned format, a zero operand comes back as it is, and a result fits the unit format |
| FixedAlu.Compare | src/ltitop/arithmetic/fixed_point/fixed_format_arithmetic_logic_unit.py:243-245 | comparing fails, with ValueError, exactly when an operand is in another format |
| FixedAlu.LShift | src/ltitop/arithmetic/fixed_point/fixed_format_arithmetic_logic_unit.py:247-264 | ValueError for an operand in another format or a negative count; a result fits the unit format |
| FixedAlu.RShift | src/ltitop/arithmetic/fixed_point/fixed_format_arithmetic_logic_unit.py:266-272 | ValueError for an operand in another format or a negative count; a valid operand always shifts right into a valid result |
| FixedAlu.AddInRange | src/ltitop/arithmetic/fixed_point/fixed_format_arithmetic_logic_unit.py:93-105 | a sum that fits is the sum of the mantissas and is worth the sum of the operands' values |
| FixedAlu.AddOverflow | src/ltitop/arithmetic/fixed_point/fixed_format_arithmetic_logic_unit.py:95-104 | a sum that does not fit raises OverflowError with the exact sum and the format's value range, or, where the unit allows overflow, is settled by the overflow behaviour |
| FixedAlu.AddWraps | src/ltitop/arithmetic/fixed_point/fixed_format_arithmetic_logic_unit.py:93-105 | with wrap-around, the sum of two integer mantissas is congruent to their exact sum modulo 2^wordlength |
| FixedAlu.AddSaturates | src/ltitop/arithmetic/fixed_point/fixed_format_arithmetic_logic_unit.py:93-105 | with saturation, a sum above the range is the largest mantissa and one below it the smallest |
| FixedAlu.AddOverflowExamples | test/ltitop/arithmetic/fixed_point/test_fixed_format_arithmetic_logic_unit.py:101-104 | in Q4.4, 4 + 4 wraps to mantissa -128, saturates to 127, and otherwise raises OverflowError for 8 outside [-8, 7.9375] |
| FixedAlu.SubstractInRange | src/ltitop/arithmetic/fixed_point/fixed_format_arithmetic_logic_unit.py:108-120 | a difference that fits is the difference of the mantissas and is worth the difference of the values |
| FixedAlu.SubstractOverflow | src/ltitop/arithmetic/fixed_point/fixed_format_arithmetic_logic_unit.py:110-119 | a difference that does not fit raises OverflowError with the exact difference, or, where the unit allows overflow, is settled by the overflow behaviour |
| FixedAlu.SubstractWraps | src/ltitop/arithmetic/fixed_point/fixed_format_arithmetic_logic_unit.py:108-120 | with wrap-around, the difference of two integer mantissas is congruent to the exact difference modulo 2^wordlength |
| FixedAlu.ProductFits | src/ltitop/arithmetic/fixed_point/fixed_format_arithmetic_logic_unit.py:124-132 | the product of two mantissas of a format always fits the double-width format, and is non-negative for an unsigned one, so the intermediate representation never raises |
| FixedAlu.MultiplyErrors | src/ltitop/arithmetic/fixed_point/fixed_format_arithmetic_logic_unit.py:122-150 | multiplying valid operands fails only with UnderflowError or OverflowError |
| FixedAlu.MultiplyRounds | src/ltitop/arithmetic/fixed_point/fixed_format_arithmetic_logic_unit.py:125-135 | with a shift-capable rounding method, a product that is returned differs from the exact product of the values by an amount within that method's error bounds |
| FixedAlu.MultiplyExample | test/ltitop/arithmetic/fixed_point/test_fixed_format_arithmetic_logic_unit.py:129-142 | in Q1.7 with nearest rounding, 0.5 * 0.5 is mantissa 32 |
| FixedAlu.NegateInRange | src/ltitop/arithmetic/fixed_point/fixed_format_arithmetic_logic_unit.py:224-241 | in a signed format, a negated mantissa that fits is worth the negated value |
| FixedAlu.NegateOverflowsOnlyAtMinimum | src/ltitop/arithmetic/fixed_point/fixed_format_arithmetic_logic_unit.py:230-231 | negating a mantissa of a signed format overflows exactly for the most negative mantissa |
| FixedAlu.CompareOrders | src/ltitop/arithmetic/fixed_point/fixed_format_arithmetic_logic_unit.py:243-245 | the comparison result is negative exactly when the first value is smaller, and zero exactly when the values are equal |
| FixedAlu.LShiftScales | src/ltitop/arithmetic/fixed_point/fixed_format_arithmetic_logic_unit.py:247-264 | a left shift by n that fits keeps the format and multiplies the value by 2^n |
| FixedAlu.RShiftFloors | src/ltitop/arithmetic/fixed_point/fixed_format_arithmetic_logic_unit.py:266-272 | a right shift by n is the floor of the mantissa divided by 2^n |
| FixedAlu.RepresentExamples | test/ltitop/arithmetic/fixed_point/test_fixed_format_arithmetic_logic_unit.py:73-79 | in Q1.7, 0.3 is mantissa 38 and -0.3 is -38 |
| FixedAlu.RinfoExample | test/ltitop/arithmetic/fixed_point/test_fixed_format_arithmetic_logic_unit.py:57-59 | in Q1.7 the epsilon is 0.0078125 and the values range over [-1, 0.9921875] |
| FixedAlu.Rinfo | src/ltitop/arithmetic/fixed_point/fixed_format_arithmetic_logic_unit.py:85-90 | the epsilon is positive; min and max are the ends of the mantissa range at the unit's LSB, 2^wordlength - 1 steps apart |
| FixedAlu.RoundAsWritten | src/ltitop/arithmetic/fixed_point/fixed_format_arithmetic_logic_unit.py:152-222 | as written, an operand in another format gives ValueError and an operand without fractional bits comes back unchanged. Otherwise truncate, floor and ceil raise NameError, and nearest raises TypeError, ValueError or AttributeError. Any error is ValueError, NameError, AttributeError or TypeError, and AttributeError only from nearest on a scalar |
| FixedAlu.RoundAsWrittenNeverRounds | src/ltitop/arithmetic/fixed_point/fixed_format_arithmetic_logic_unit.py:152-222 | as written, every rounding operation fails on an operand with fractional bits, with NameError for truncate, floor and ceil |
| FixedAlu.RoundAsWrittenNearest | src/ltitop/arithmetic/fixed_point/fixed_format_arithmetic_logic_unit.py:204-222 | as written, `nearest` of an operand with fractional bits raises TypeError for an interval, ValueError for a negative rounded value in an unsigned format, and otherwise the AttributeError its quantization raises (always AttributeError for a valid scalar), overflow or not |
| FixedAlu.RoundAsWrittenOverflowExample | src/ltitop/arithmetic/fixed_point/fixed_format_arithmetic_logic_unit.py:204-216 | in Q1.7, `nearest` of 127 * 2^-7 rounds to 1, which overflows, yet it raises AttributeError from the quantization before the overflow test is reached |
| FixedAlu.Round | src/ltitop/arithmetic/fixed_point/fixed_format_arithmetic_logic_unit.py:152-222 | the corrected rounding: ValueError for an operand in another format, an integer operand unchanged, otherwise a valid result in the unit format |
| FixedAlu.RoundExact | src/ltitop/arithmetic/fixed_point/fixed_format_arithmetic_logic_unit.py:152-222 | the corrected rounding of a value with fractional bits is the value rounded to an integer by the method, within half a unit for nearest and round, a unit below for floor and above for ceil, or toward zero for truncate |
| FixedAlu.RoundExample | src/ltitop/arithmetic/fixed_point/fixed_format_arithmetic_logic_unit.py:170-222 | in Q1.7, 38 * 2^-7 cannot be floored (NameError) or rounded to nearest (AttributeError) as written, and rounds to 0 with floor and nearest once corrected |
| MultiAlu.Represent | src/ltitop/arithmetic/fixed_point/multi_format_arithmetic_logic_unit.py:55-76 | a target wider than the unit gives ValueError. A target that fits gives the format's represent with the unit's rounding method. Then a refused underflow raises UnderflowError, a refused overflow Python's builtin OverflowError, and an allowed overflow the unit's overflow handling. Without a target, a representation the unit can handle comes back unchanged. Anything else gets the best signed format of exactly the unit's wordlength, rounding to nearest. Every result fits the wordlength |
| MultiAlu.RepresentTargetError | src/ltitop/arithmetic/fixed_point/multi_format_arithmetic_logic_unit.py:57-68 | a real within a target's value range fails only with UnderflowError, exactly when it underflows and underflow is refused. Otherwise it lands in the target within the error of the unit's rounding method: half a step to nearest, under a step below for floor, above for ceil, toward zero for truncate |
| MultiAlu.RepresentBestFormat | src/ltitop/arithmetic/fixed_point/multi_format_arithmetic_logic_unit.py:71-75 | without a target, a value the unit cannot take as it is fails only with ValueError. Otherwise it gets a valid signed format exactly as wide as the unit, and its mantissa is the value quantized at that format's LSB |
| MultiAlu.CommonFormat | src/ltitop/arithmetic/fixed_point/multi_format_arithmetic_logic_unit.py:92-102 | equal formats are their own common format; only formats of different signs fail, with AssertionError |
| MultiAlu.CommonFormatMeans | src/ltitop/arithmetic/fixed_point/multi_format_arithmetic_logic_unit.py:92-102 | for two formats of one sign that fit, the common format has their sign and the larger MSB, fits the wordlength, keeps the smaller LSB exactly when their span fits, and otherwise uses the whole wordlength |
| MultiAlu.Align | src/ltitop/arithmetic/fixed_point/multi_format_arithmetic_logic_unit.py:104-113 | an operand already in the common format keeps its mantissa; alignment fails only with ValueError, UnderflowError or AssertionError |
| MultiAlu.AlignExact | src/ltitop/arithmetic/fixed_point/multi_format_arithmetic_logic_unit.py:104-113 | an operand moved into a format that covers it, with a shift-capable rounding method, keeps its value exactly |
| MultiAlu.AlignedFits | src/ltitop/arithmetic/fixed_point/multi_format_arithmetic_logic_unit.py:104-113 | a mantissa moved into a format that covers its own fits that format and is zero exactly when it was |
| MultiAlu.RepresentCovering | src/ltitop/arithmetic/fixed_point/formats.py:202-219 | representing a representation in a format that covers its own shifts its mantissa exactly, with neither underflow nor overflow |
| MultiAlu.HandleOverflow | src/ltitop/arithmetic/fixed_point/multi_format_arithmetic_logic_unit.py:115-132 | where overflow is not allowed the format becomes (msb + off_by, msb + off_by - wordlength + signed), exactly the unit's wordlength; where overflow is allowed the format stays and the overflow behaviour settles the mantissa; either way the result fits its format |
| MultiAlu.Output | src/ltitop/arithmetic/fixed_point/multi_format_arithmetic_logic_unit.py:142-145 | a mantissa that fits its format is returned as it is; every result is valid |
| MultiAlu.OutputExact | src/ltitop/arithmetic/fixed_point/multi_format_arithmetic_logic_unit.py:115-127 | a mantissa one bit too wide for a format narrower than the wordlength is moved, without loss, into the format one bit higher |
| MultiAlu.Add | src/ltitop/arithmetic/fixed_point/multi_format_arithmetic_logic_unit.py:134-145 | operands the unit cannot handle, or of mixed signs, give ValueError; a result is valid and keeps the operands' sign |
| MultiAlu.AddAligned | src/ltitop/arithmetic/fixed_point/multi_format_arithmetic_logic_unit.py:134-145 | when the common format loses no bit, the aligned mantissas add to a mantissa worth the sum of the values, at most one bit too wide |
| MultiAlu.AddExact | src/ltitop/arithmetic/fixed_point/multi_format_arithmetic_logic_unit.py:134-145 | with a spare bit in the wordlength, the sum is returned without error and is worth exactly the sum of the values |
| MultiAlu.SubstractAsWritten | src/ltitop/arithmetic/fixed_point/multi_format_arithmetic_logic_unit.py:147-161 | as written, a subtraction always fails |
| MultiAlu.SubstractAsWrittenFails | src/ltitop/arithmetic/fixed_point/multi_format_arithmetic_logic_unit.py:151-154 | as written, subtraction of two integer-mantissa operands fails with TypeError when the aligned mantissa is unpacked as a pair |
| MultiAlu.Substract | src/ltitop/arithmetic/fixed_point/multi_format_arithmetic_logic_unit.py:147-161 | the corrected subtraction: operands the unit cannot handle give ValueError; a result is valid and keeps the operands' sign |
| MultiAlu.SubstractAligned | src/ltitop/arithmetic/fixed_point/multi_format_arithmetic_logic_unit.py:155-161 | when the common format loses no bit, the difference is worth the difference of the values; an unsigned difference that leaves the range raises Python's builtin OverflowError when overflow is not allowed |
| MultiAlu.SubstractExact | src/ltitop/arithmetic/fixed_point/multi_format_arithmetic_logic_unit.py:147-161 | in a signed format with a spare bit, the difference is returned without error and is worth exactly the difference of the values |
| MultiAlu.SubstractUnsignedBelowZero | src/ltitop/arithmetic/fixed_point/multi_format_arithmetic_logic_unit.py:156-158 | an unsigned difference below zero raises Python's builtin OverflowError when overflow is not allowed |
| MultiAlu.ProductFormat | src/ltitop/arithmetic/fixed_point/multi_format_arithmetic_logic_unit.py:166-169 | the product format's magnitude bits are the sum of the operands' |
| MultiAlu.Multiply | src/ltitop/arithmetic/fixed_point/multi_format_arithmetic_logic_unit.py:163-178 | operands the unit cannot handle give ValueError; a result is valid and fits the wordlength; a product wider than the unit comes back as the format and mantissa `best` finds for the product's value |
| MultiAlu.MultiplyWide | src/ltitop/arithmetic/fixed_point/multi_format_arithmetic_logic_unit.py:163-178 | a product wider than the unit is what `best` finds for the exact product value: exactly the unit's wordlength, the operands' sign, and the value quantized at the new LSB; for scalars that value is the product of the operands' values |
| MultiAlu.ProductFitsExceptCorner | src/ltitop/arithmetic/fixed_point/multi_format_arithmetic_logic_unit.py:166-170 | a product of two mantissas fits the product format except for the two most negative signed mantissas |
| MultiAlu.MultiplyExact | src/ltitop/arithmetic/fixed_point/multi_format_arithmetic_logic_unit.py:163-178 | when the product format fits the wordlength, the product is the exact product of the mantissas, worth the product of the values, except for the most negative corner, which raises ValueError |
| MultiAlu.MultiplyCorner | src/ltitop/arithmetic/fixed_point/multi_format_arithmetic_logic_unit.py:166-178 | the product of the two most negative signed mantissas does not fit the product format (ValueError) |
| MultiAlu.Negate | src/ltitop/arithmetic/fixed_point/multi_format_arithmetic_logic_unit.py:223-234 | ValueError for an operand the unit cannot handle or an unsigned one; zero comes back as it is; a result is valid |
| MultiAlu.NegateExact | src/ltitop/arithmetic/fixed_point/multi_format_arithmetic_logic_unit.py:223-234 | a signed operand narrower than the wordlength is negated exactly |
| MultiAlu.NegateOverflowsOnlyAtMinimum | src/ltitop/arithmetic/fixed_point/multi_format_arithmetic_logic_unit.py:230-231 | negating a valid signed mantissa overflows exactly when its lower bound is the most negative mantissa |
| MultiAlu.Compare | src/ltitop/arithmetic/fixed_point/multi_format_arithmetic_logic_unit.py:236-243 | operands the unit cannot handle, or of mixed signs, give ValueError |
| MultiAlu.CompareOrders | src/ltitop/arithmetic/fixed_point/multi_format_arithmetic_logic_unit.py:236-243 | for formats whose span fits, the comparison result is negative exactly when the first value is smaller, and zero exactly when the values are equal |
| MultiAlu.ScaledScalarOrder | src/ltitop/arithmetic/fixed_point/representation.py:48-53 | at a shared LSB, integer mantissas order and compare as their values do |
| MultiAlu.LShift | src/ltitop/arithmetic/fixed_point/multi_format_arithmetic_logic_unit.py:245-255 | ValueError for an operand the unit cannot handle or a negative count; a shift keeps the mantissa and the wordlength |
| MultiAlu.RShift | src/ltitop/arithmetic/fixed_point/multi_format_arithmetic_logic_unit.py:257-267 | ValueError for an operand the unit cannot handle or a negative count; a shift keeps the mantissa and the wordlength |
| MultiAlu.LShiftScales | src/ltitop/arithmetic/fixed_point/multi_format_arithmetic_logic_unit.py:245-255 | a left shift by n moves the format n bits up and multiplies the value by 2^n |
| MultiAlu.RShiftScales | src/ltitop/arithmetic/fixed_point/multi_format_arithmetic_logic_unit.py:257-267 | a right shift by n moves the format n bits down and divides the value by 2^n |
| MultiAlu.ShiftsCancel | src/ltitop/arithmetic/fixed_point/multi_format_arithmetic_logic_unit.py:245-267 | shifting left and then right by the same count gives back the operand |
| MultiAlu.RinfoMeans | src/ltitop/arithmetic/fixed_point/multi_format_arithmetic_logic_unit.py:78-90 | the signed epsilon is 2^(1 - wordlength) and the bounds are those of a signed integer of the wordlength; the unsigned epsilon is 2^-wordlength, the bounds 0 and 2^wordlength |
| MultiAlu.RinfoExample | test/ltitop/arithmetic/fixed_point/test_multi_format_arithmetic_logic_unit.py:67-72 | an 8-bit unit: signed epsilon 0.0078125, bounds -128 and 127; unsigned epsilon 0.00390625, bounds 0 and 256 |
| MultiAlu.Rinfo | src/ltitop/arithmetic/fixed_point/multi_format_arithmetic_logic_unit.py:78-90 | signed: a step of 2^(1-w) over the signed w-bit mantissa range [-2^(w-1), 2^(w-1) - 1]; unsigned: a step of 2^-w from 0 to 2^w, one past the unsigned mantissa range |
| MultiAlu.RoundAsWritten | src/ltitop/arithmetic/fixed_point/multi_format_arithmetic_logic_unit.py:180-221 | as written, a rounding operation succeeds exactly on an operand without fractional bits, and then returns it unchanged |
| MultiAlu.RoundAsWrittenNeverRounds | src/ltitop/arithmetic/fixed_point/multi_format_arithmetic_logic_unit.py:180-221 | as written, every rounding operation on an operand with fractional bits raises NameError |
| MultiAlu.Round | src/ltitop/arithmetic/fixed_point/multi_format_arithmetic_logic_unit.py:180-221 | the corrected rounding: ValueError for an operand the unit cannot handle, an integer operand unchanged, otherwise a valid result |
| MultiAlu.RoundExact | src/ltitop/arithmetic/fixed_point/multi_format_arithmetic_logic_unit.py:180-221 | the corrected rounding of a value with fractional bits, when the rounded integer fits, keeps the format and is the value rounded by the method: within half a unit for nearest and round, a unit below for floor and above for ceil, toward zero for truncate |
| MultiAlu.ExampleUnitFlags | test/ltitop/arithmetic/fixed_point/test_multi_format_arithmetic_logic_unit.py:115-121 | the 8-bit example unit rounds to nearest and allows neither overflow nor underflow |
| MultiAlu.RepresentBestAt | src/ltitop/arithmetic/fixed_point/multi_format_arithmetic_logic_unit.py:71-75 | without a target, a positive number in [2^(msb-1), 2^msb) whose quantization fits 7 bits is that quantization in the format with that MSB and 7 fractional bits below it |
| MultiAlu.RepresentBestExamples | test/ltitop/arithmetic/fixed_point/test_multi_format_arithmetic_logic_unit.py:74-108 | without a target: 0.5 is 64 in Q1.7, 1.25 is 80 in Q2.6, 12.5 is 100 and 15.6 is 125 in Q5.3 |
| MultiAlu.RepresentZeroExample | test/ltitop/arithmetic/fixed_point/test_multi_format_arithmetic_logic_unit.py:78-80 | without a target, 0 is 0 in Q1.7 |
| MultiAlu.RepresentIntervalExample | test/ltitop/arithmetic/fixed_point/test_multi_format_arithmetic_logic_unit.py:110-112 | without a target, [-1, 1] is [-64, 64] in Q2.6 |
| MultiAlu.RepresentTargetExamples | test/ltitop/arithmetic/fixed_point/test_multi_format_arithmetic_logic_unit.py:86-92 | 1.25 is 20 in Q3.4 and 40 in uQ3.5 |
| MultiAlu.RepresentCoarseTargetExamples | test/ltitop/arithmetic/fixed_point/test_multi_format_arithmetic_logic_unit.py:98-104 | 12.5 is 50 in Q6.2 and 200 in uQ4.4 |
| MultiAlu.RepresentErrorExamples | test/ltitop/arithmetic/fixed_point/test_multi_format_arithmetic_logic_unit.py:45-55 | -1 in uQ8 is ValueError, 0.001 in Q7 UnderflowError, 10 in Q7 Python's builtin OverflowError, and Q15 is too wide (ValueError) |
| MultiAlu.AddExample | test/ltitop/arithmetic/fixed_point/test_multi_format_arithmetic_logic_unit.py:123-127 | 1 + 2 in Q4.4 is 48 in Q4.4 |
| MultiAlu.AddAlignedExamples | test/ltitop/arithmetic/fixed_point/test_multi_format_arithmetic_logic_unit.py:129-139 | 1 in Q2.6 plus 2 or -2 in Q3.5 is 96 or -32 in Q3.5 |
| MultiAlu.AddRangedExample | test/ltitop/arithmetic/fixed_point/test_multi_format_arithmetic_logic_unit.py:141-145 | [-1, 1] in Q2.6 plus [3, 5] in Q4.4 is [32, 96] in Q4.4 |
| MultiAlu.AddGrowthExample | src/ltitop/arithmetic/fixed_point/multi_format_arithmetic_logic_unit.py:142-144 | 127 + 127 in an 8-bit integer format grows one bit up, to 127 at LSB 1 |
| MultiAlu.NegateGrowthExample | src/ltitop/arithmetic/fixed_point/multi_format_arithmetic_logic_unit.py:230-233 | -(-128) in an 8-bit integer format grows one bit up, to 64 at LSB 1 |
| MultiAlu.MultiplyExample | test/ltitop/arithmetic/fixed_point/test_multi_format_arithmetic_logic_unit.py:162-166 | 1 * 2 in Q4.4 is 64 in Q3.5 |
| FixedNumbers.FromValue | src/ltitop/arithmetic/fixed_point/number.py:33-36 | without an active unit, RuntimeError; otherwise the active unit's represent of the value |
| FixedNumbers.Lift | src/ltitop/arithmetic/fixed_point/number.py:39-40 | a representation operand is used as it is; a plain one goes through from_value |
| FixedNumbers.Add | src/ltitop/arithmetic/fixed_point/number.py:38-44 | without an active unit, RuntimeError. A plain operand that fails to convert gives its conversion error. Otherwise the result is the active unit's add of x and the converted operand |
| FixedNumbers.Sub | src/ltitop/arithmetic/fixed_point/number.py:46-50 | without an active unit, RuntimeError. A plain operand that fails to convert gives its conversion error. Otherwise the result is the active unit's substract of the converted operand from x |
| FixedNumbers.RSub | src/ltitop/arithmetic/fixed_point/number.py:52-56 | without an active unit, RuntimeError. A plain operand that fails to convert gives its conversion error. Otherwise the result is the active unit's substract of x from the converted operand |
| FixedNumbers.RSubIsSwappedSub | src/ltitop/arithmetic/fixed_point/number.py:52-56 | other - x is other's subtraction of x: the same delegation with the operands swapped |
| FixedNumbers.Mul | src/ltitop/arithmetic/fixed_point/number.py:58-64 | without an active unit, RuntimeError. A plain operand that fails to convert gives its conversion error. Otherwise the result is the active unit's multiply of x and the converted operand |
| FixedNumbers.Neg | src/ltitop/arithmetic/fixed_point/number.py:110-112 | without an active unit, RuntimeError; otherwise the active unit's negate of x |
| FixedNumbers.LShift | src/ltitop/arithmetic/fixed_point/number.py:155-157 | without an active unit, RuntimeError; otherwise the active unit's lshift of x by n |
| FixedNumbers.RShift | src/ltitop/arithmetic/fixed_point/number.py:159-161 | without an active unit, RuntimeError; otherwise the active unit's rshift of x by n |
| FixedNumbers.Round | src/ltitop/arithmetic/fixed_point/number.py:94-108 | without an active unit, RuntimeError; otherwise the active unit's truncate, ceil, floor or nearest of x |
| FixedNumbers.Compared | src/ltitop/arithmetic/fixed_point/number.py:121-122 | without an active unit, RuntimeError; otherwise the active unit's compare |
| FixedNumbers.Eq | src/ltitop/arithmetic/fixed_point/number.py:114-122 | a zero on either side decides at once, true exactly when both are zero; a nonzero plain value outside x's value range is unequal; only the delegation can raise RuntimeError |
| FixedNumbers.Ne | src/ltitop/arithmetic/fixed_point/number.py:124-125 | != succeeds exactly when == does, with the opposite answer |
| FixedNumbers.Order | src/ltitop/arithmetic/fixed_point/number.py:127-147 | a plain value below x's value range makes < and <= false, one above it makes them true, without conversion; only the delegation can raise RuntimeError |
| FixedNumbers.Lt | src/ltitop/arithmetic/fixed_point/number.py:127-136 | a plain operand below the value range gives False and one above it True; otherwise it fails exactly when <= fails, with RuntimeError when no unit is active, and True implies <= is True |
| FixedNumbers.Le | src/ltitop/arithmetic/fixed_point/number.py:138-147 | a plain operand below the value range gives False and one above it True; with no active unit a failure is RuntimeError |
| FixedNumbers.Gt | src/ltitop/arithmetic/fixed_point/number.py:149-150 | > succeeds exactly when <= does, with the opposite answer |
| FixedNumbers.Ge | src/ltitop/arithmetic/fixed_point/number.py:152-153 | >= succeeds exactly when < does, with the opposite answer |
| FixedNumbers.ValueInRange | src/ltitop/arithmetic/fixed_point/representation.py:37-53 | a valid representation's value lies in its format's value range |
| FixedNumbers.ShortcutsSound | src/ltitop/arithmetic/fixed_point/number.py:114-147 | the shortcuts of <, <= and == against a plain number outside the value range give the answer the values give, with or without an active unit |
| FixedNumbers.ComparingRepresentations | src/ltitop/arithmetic/fixed_point/number.py:114-147 | between two representations, == is decided by zeros and then by a zero compare, < by a negative compare, <= by a compare at most zero |
| FixedNumbers.FixedComparisonsOfMantissas | src/ltitop/arithmetic/fixed_point/number.py:114-153 | on a fixed-format unit, the comparisons of two numbers of the unit's format compare their mantissas |
| FixedNumbers.FixedComparisonsMean | src/ltitop/arithmetic/fixed_point/number.py:114-153 | on a fixed-format unit, ==, <, <=, > and >= of two numbers of the unit's format are those of their values |
| FixedNumbers.MultiComparisonsMean | src/ltitop/arithmetic/fixed_point/number.py:114-153 | on a multi-format unit, ==, <, <=, > and >= of two numbers whose common format loses no bit are those of their values |
| FixedNumbers.NoActiveUnit | src/ltitop/arithmetic/fixed_point/number.py:114-116 | without an active unit an addition raises RuntimeError, but == with a zero on one side still decides |
| FixedNumbers.FixedArithmeticMeans | src/ltitop/arithmetic/fixed_point/number.py:38-112 | on a fixed-format unit, +, - (both ways round) and negation of numbers in the unit's format are worth the exact sum, difference or negation whenever the exact mantissa fits the format |
| FixedNumbers.MultiArithmeticMeans | src/ltitop/arithmetic/fixed_point/number.py:38-161 | on a multi-format unit that refuses overflow, + and - (both ways round) of numbers whose common format has a bit to spare are worth the exact sum or difference, and << and >> by n multiply the value by 2^n and 2^-n |
| ErrorBounded.Exact | src/ltitop/arithmetic/error_bounded/number.py:32-35 | a number built from a bare value has that nominal and error bounds equal to 0 |
| ErrorBounded.NominalAdd | src/ltitop/arithmetic/error_bounded/number.py:40 | adding nominals when either is fixed-point needs an active unit (RuntimeError without one) |
| ErrorBounded.NominalSub | src/ltitop/arithmetic/error_bounded/number.py:67 | subtracting nominals when either is fixed-point needs an active unit |
| ErrorBounded.NominalMul | src/ltitop/arithmetic/error_bounded/number.py:95 | multiplying nominals when either is fixed-point needs an active unit |
| ErrorBounded.WithRounding | src/ltitop/arithmetic/error_bounded/number.py:42-60 | the result keeps the computed nominal; a plain result keeps the propagated bounds unchanged |
| ErrorBounded.WithRoundingWidens | src/ltitop/arithmetic/error_bounded/number.py:42-59 | the rounding terms added for a fixed-point result only widen the propagated bounds |
| ErrorBounded.OperandTermHoldsZero | src/ltitop/arithmetic/error_bounded/number.py:46-59 | each rounding term an operand contributes holds 0 |
| ErrorBounded.ErrorBoundsHoldZero | src/ltitop/arithmetic/rounding.py:27-105 | the error bounds of a rounding to a coarser LSB hold 0 |
| ErrorBounded.Add | src/ltitop/arithmetic/error_bounded/number.py:37-62 | adding when either nominal is fixed-point needs an active unit; two plain nominals add, and so do their error bounds |
| ErrorBounded.AddSound | src/ltitop/arithmetic/error_bounded/number.py:37-62 | if x is within a's bounds of a's nominal and y within b's of b's, then x + y is within the sum's bounds of the sum's nominal |
| ErrorBounded.SubAsWritten | src/ltitop/arithmetic/error_bounded/number.py:64-87 | as written, subtracting when either nominal is fixed-point needs an active unit; for two plain nominals the nominals subtract but the error bounds add |
| ErrorBounded.SubAsWrittenUnsound | src/ltitop/arithmetic/error_bounded/number.py:68 | with 1 offset by [-0.1, 0.3] (exact 1.3) and 1 offset by [-0.3, 0.2] (exact 0.7), the as-written bounds [-0.4, 0.5] of the difference miss the exact offset 0.6, and the corrected bounds are [-0.3, 0.6] |
| ErrorBounded.Sub | src/ltitop/arithmetic/error_bounded/number.py:64-87 | the corrected subtraction, with the offsets' difference as propagated bounds, needs an active unit when either nominal is fixed-point; for two plain nominals the nominals subtract and so do the error bounds, as intervals |
| ErrorBounded.SubSound | src/ltitop/arithmetic/error_bounded/number.py:64-87 | if x and y are within the operands' bounds, x - y is within the corrected difference's bounds |
| ErrorBounded.RSub | src/ltitop/arithmetic/error_bounded/number.py:89-90 | other - a is the number of other, exactly, minus a, through the corrected subtraction, so the bounds of a come back negated; as written (through the summing `-`) other - a keeps the bounds of a, see ErrorBounded.RSubAsWrittenExample |
| ErrorBounded.RSubAsWrittenExample | src/ltitop/arithmetic/error_bounded/number.py:68 | as written, 1 - b for b = 1 offset by [-0.3, 0.2] is 0 offset by [-0.3, 0.2], which misses 1 - 0.7 = 0.3 for the exact value 0.7 of b; the corrected ErrorBounded.RSub gives [-0.2, 0.3] |
| ErrorBounded.RoundingOnlyWidens | src/ltitop/arithmetic/error_bounded/number.py:41-87 | the bounds of a sum or difference hold the sum or difference of the operands' bounds |
| ErrorBounded.PlainOperandKeepsError | test/ltitop/arithmetic/error_bounded/test_error_bounded_number.py:42-48 | adding or subtracting an exact plain number keeps the other operand's bounds |
| ErrorBounded.Mul | src/ltitop/arithmetic/error_bounded/number.py:92-117 | multiplying when either nominal is fixed-point needs an active unit; two plain nominals multiply as values |
| ErrorBounded.MulSound | src/ltitop/arithmetic/error_bounded/number.py:92-117 | if x and y are within the operands' bounds, x * y is within the product's bounds |
| ErrorBounded.Neg | src/ltitop/arithmetic/error_bounded/number.py:158-159 | negation negates the bounds, and a plain nominal is negated as a value |
| ErrorBounded.NegSound | src/ltitop/arithmetic/error_bounded/number.py:158-159 | if x is within a's bounds, -x is within the negation's bounds |
| ErrorBounded.ShiftInteger | src/ltitop/arithmetic/error_bounded/number.py:210-211 | a plain real shifts only when it is an integer and the count is not negative |
| ErrorBounded.LShift | src/ltitop/arithmetic/error_bounded/number.py:210-211 | a shift by n multiplies the bounds by 2^n |
| ErrorBounded.LShiftSound | src/ltitop/arithmetic/error_bounded/number.py:210-211 | if x is within an integer nominal's bounds, x * 2^n is within the shifted number's bounds |
| ErrorBounded.Round | src/ltitop/arithmetic/error_bounded/number.py:137-156 | rounding a plain interval nominal raises TypeError |
| ErrorBounded.RoundSound | src/ltitop/arithmetic/error_bounded/number.py:137-156 | for nearest and truncate, the exact value stays within the rounded number's bounds |
| ErrorBounded.FloorBoundsRoundedMinusExact | src/ltitop/arithmetic/error_bounded/number.py:137-153 | floor of exactly 1.5 gives 1 with bounds [-1, 0], which hold the rounded minus the exact value and not the exact minus the rounded one |
| ErrorBounded.RoundCorrected | src/ltitop/arithmetic/error_bounded/number.py:137-144 | the corrected rounding fails exactly when the rounding as written fails, and yields the same nominal |
| ErrorBounded.RoundCorrectedSound | src/ltitop/arithmetic/error_bounded/number.py:137-156 | for all four methods, the corrected rounding of a plain real keeps the exact value within the bounds |
| ErrorBounded.RoundCorrectedFloorExample | src/ltitop/arithmetic/error_bounded/number.py:137-153 | the corrected floor of exactly 1.5 is 1 with bounds [0, 1] |
| ErrorBounded.Eq | src/ltitop/arithmetic/error_bounded/number.py:186-190 | == succeeds exactly when the nominals compare, and holds only when both bounds are 0 |
| ErrorBounded.EqMeans | src/ltitop/arithmetic/error_bounded/number.py:186-190 | for plain nominals, == holds exactly when the nominals are equal and both bounds are 0, so a number with nonzero bounds is unequal to itself |
| ErrorBounded.Ne | src/ltitop/arithmetic/error_bounded/number.py:192-193 | != succeeds exactly when == does, with the opposite answer |
| ErrorBounded.Le | src/ltitop/arithmetic/error_bounded/number.py:201-202 | <= holds when < does, and is == otherwise |
| ErrorBounded.Gt | src/ltitop/arithmetic/error_bounded/number.py:204-205 | > succeeds exactly when <= does, with the opposite answer |
| ErrorBounded.Ge | src/ltitop/arithmetic/error_bounded/number.py:207-208 | >= is the negation of < |
| ErrorBounded.EnclosesWidened | src/ltitop/arithmetic/error_bounded/number.py:198-199 | a value is within a number's bounds exactly when it lies in the nominal widened by the bounds |
| ErrorBounded.LtMeans | src/ltitop/arithmetic/error_bounded/number.py:195-199 | for plain nominals, a < b holds exactly when every value a may stand for is below every value b may stand for |
| ErrorBounded.Lt | src/ltitop/arithmetic/error_bounded/number.py:195-199 | x < y exactly when every real in x's widened interval is below every real in y's |
| ErrorBounded.AddExamples | test/ltitop/arithmetic/error_bounded/test_error_bounded_number.py:33-54 | 1 offset by [-0.1, 0.3] plus 1 offset by [-0.3, 0.2] is 2 offset by [-0.4, 0.5]; plus [-1, 1] offset by [-0.1, 0.2] it is [0, 2] offset by [-0.2, 0.5] |
| ErrorBounded.MulExample | test/ltitop/arithmetic/error_bounded/test_error_bounded_number.py:79-85 | 0.5 offset by [-0.1, 0.2] times -4 offset by [-0.2, 0.3] is -2 offset by [-0.94, 0.52] |
| ErrorBounded.MulScalarExample | test/ltitop/arithmetic/error_bounded/test_error_bounded_number.py:87-90 | 0.5 offset by [-0.1, 0.2] times 2 is 1 offset by [-0.2, 0.4] |
| ErrorBounded.RMulScalarExample | test/ltitop/arithmetic/error_bounded/test_error_bounded_number.py:92-95 | 0.25 times -4 offset by [-0.2, 0.3] is -1 offset by [-0.05, 0.075] |
| ErrorBounded.MulIntervalExample | test/ltitop/arithmetic/error_bounded/test_error_bounded_number.py:97-102 | 0.5 offset by [-0.1, 0.2] times [-1, 1] offset by [-0.1, 0.2] is [-0.5, 0.5] offset by [-0.27, 0.34] |
| Expressions.FromArgs | src/ltitop/algorithms/expressions/arithmetic.py:42-58 | no arguments give the operator's identity, one gives itself, and more give a node of the operator whose right child is the last argument |
| Expressions.FromOperands | src/ltitop/algorithms/expressions/arithmetic.py:42-58 | folding the operands along an expression's left spine rebuilds the expression |
| Expressions.OperandsOfFold | src/ltitop/algorithms/expressions/arithmetic.py:42-58 | unfolding a fold recovers its arguments, unless the first is itself a node of the operator |
| Expressions.FoldKeepsLeaves | src/ltitop/algorithms/expressions/arithmetic.py:42-58 | a fold keeps its arguments' leaves in order |
| Expressions.CanRotateLeft | src/ltitop/algorithms/expressions/arithmetic.py:101-104 | an atom has no children (IndexError); otherwise the answer is whether the right child is a node of the same operator |
| Expressions.CanRotateRight | src/ltitop/algorithms/expressions/arithmetic.py:119-122 | an atom has no children (IndexError); otherwise the answer is whether the left child is a node of the same operator |
| Expressions.RotateLeft | src/ltitop/algorithms/expressions/arithmetic.py:89-98 | rotation succeeds exactly when can_rotate_left holds, fails with ValueError when it is false and IndexError on an atom, and keeps the leaves in order |
| Expressions.RotateRight | src/ltitop/algorithms/expressions/arithmetic.py:107-116 | rotation succeeds exactly when can_rotate_right holds, fails with ValueError when it is false and IndexError on an atom, and keeps the leaves in order |
| Expressions.RotationsInverse | src/ltitop/algorithms/expressions/arithmetic.py:89-116 | rotating left and then right, or right and then left, gives back the expression |
| Expressions.RotateFold | src/ltitop/algorithms/expressions/arithmetic.py:42-116 | rotating the fold of a, b and c right gives a o (b o c), and rotating that left gives the fold back |
| Expressions.RotateLeftKeepsValue | src/ltitop/algorithms/expressions/arithmetic.py:89-98 | over exact arithmetic a left rotation does not change the value |
| Expressions.RotateRightKeepsValue | src/ltitop/algorithms/expressions/arithmetic.py:107-116 | over exact arithmetic a right rotation does not change the value |
| Arrays.Clamp | src/ltitop/common/arrays.py:79-87 | a slice bound in range is kept, a negative one counts from the end, and anything beyond either end is clamped to it |
| Arrays.Slice | src/ltitop/common/arrays.py:81-85 | an in-range ascending pair of bounds gives exactly that subsequence, and no slice is longer than the sequence |
| Arrays.Windows | src/ltitop/common/arrays.py:82-84 | there is one middle piece per consecutive pair of indices |
| Arrays.Split | src/ltitop/common/arrays.py:79-87 | there is one more piece than there are indices, and no index gives the whole sequence as the one piece |
| Arrays.SplitShape | src/ltitop/common/arrays.py:79-87 | there is one piece more than indices; no indices give the whole sequence; the first piece ends at the first index and the last starts at the last |
| Arrays.WindowAt | src/ltitop/common/arrays.py:83-84 | middle piece p lies between indices p and p + 1 |
| Arrays.JoinWindows | src/ltitop/common/arrays.py:83-84 | the middle pieces join into the slice from the first index to the last |
| Arrays.SplitJoin | src/ltitop/common/arrays.py:79-87 | for ascending indices within the sequence, the pieces join back into the sequence |
| Arrays.SplitExamples | src/ltitop/common/arrays.py:79-87 | [1..5] split at [2, 4] is [1, 2], [3, 4], [5]; at [-2] it is [1, 2, 3], [4, 5]; at [4, 2] the middle piece is empty |
| Pareto.ArgNondominated | src/ltitop/solvers/gp.py:266-278 | the kept indices are ascending and in range; every dropped candidate is covered by a kept one; some candidate is kept whenever there is one; any two kept candidates are incomparable; when no candidate covers another, all are kept |
| Pareto.Scan | src/ltitop/solvers/gp.py:272-277 | the scan for candidate i keeps every earlier exclusion, excludes only covered candidates, and unless i is excluded leaves every later candidate excluded or incomparable with i |
| Pareto.Unexcluded | src/ltitop/solvers/gp.py:278 | exactly the indices below n not excluded, in ascending order |
| Pareto.IncreasingCover | src/ltitop/solvers/gp.py:278 | an ascending sequence of indices below n holding every one of them is 0, 1, ..., n - 1 |
| Pareto.Top | src/ltitop/solvers/gp.py:272-277 | among the candidates that cover d, the one with the largest column sum (lowest index on a tie) covers d and is not outranked by any |
| Pareto.BeatsIsAbove | src/ltitop/solvers/gp.py:272-277 | a candidate that covers another, and is not matched by it or comes first, ranks above it |
| Pareto.TopUnbeaten | src/ltitop/solvers/gp.py:272-277 | the top-ranked candidate covering d is never dropped by the scan |
| Pareto.ColumnSumMonotone | src/ltitop/solvers/gp.py:272-277 | a column at least as large row by row has at least as large a sum, strictly larger when one row is, equal when all are |

## Left out

- numpy arrays as mantissas or bounds, the `vectorize` decorator and the mask-assignment branch of `wraparound`: only scalars and Intervals are modelled.
- mpmath precision (`workprec`, `mpfloat`), the mpfloat/float conversions and the floating-point `log2` inside `mpmsb`: values are exact reals and `mpmsb` is defined exactly.
- The `rtype` argument of the units and the memoization (`lru_cache`) of `represent` and `rinfo`: neither changes a value.
- Division and modulus (`divide`, `modulus`, `__div__`, `__truediv__`, `__mod__`, error-bounded `>>`): these are unimplemented in the source.
- Interval `astype`, hashing, `__getitem__`, `abs`, floor division and modulus, and Representation indexing: none of them influences the arithmetic that is modelled.
- `errors.py` `.margin`: it uses `log10` on floats. Only the error kinds and their payloads are modelled.
- `FixedPointSymbol`, the sympy bindings, the sympy `evaluate` flag and the `nonassociative`/`associative` rewrites of `expressions/arithmetic.py`: these are sympy- and RNG-driven.
- General sympy atoms: expression leaves are integer constants and named symbols only.
- The DEAP and md5 parts of `solvers/gp.py`, and all of `common/tracing.py`, `common/annotation.py` and `common/dataclasses.py`. The annotated-function flags become the plain table `Units.BuildFlags`.
- The pedantic `TypeError` branches for operands that are neither numbers, intervals nor representations, and `from_value` keyword arguments other than the unit's: the model's types rule them out.
- The class-level `__active` slot is an object (`Units.ActiveSlot`) that the units are entered into; `FixedNumbers` receives the active unit's configuration as a parameter.
- I/O and printing of values: out of the arithmetic core.
- ErrorBounded.Round: soundness is proved where the source's sign convention makes it hold (`ErrorBounded.RoundSound`). For floor and ceil, on every nominal (plain reals included), the method's error bounds hold `rounded - exact`, which has the opposite sign to the number's `exact - nominal`, and these bounds are not symmetric. `ErrorBounded.FloorBoundsRoundedMinusExact` shows this for the plain real 1.5, and no soundness is claimed for floor or ceil. The corrected `ErrorBounded.RoundCorrected` is sound for every method.
- Pareto.ArgNondominated: beyond the survivor and exclusion properties, the order in which equal rows are dropped is stated only through the survivors being pairwise incomparable.
- Formats.Best: the result has the requested wordlength and the stated LSB. That the re-quantized mantissa always fits the format is not proved.
- FixedAlu.Round: the corrected rounding operation handles scalar mantissas only. An interval operand gives TypeError, as Python's `round` of an interval does.
- MultiAlu.Round: the same restriction to scalar mantissas.
- FixedNumbers.Mul, FixedNumbers.Round: what the delegated result is worth is stated only by the lemmas of FixedAlu and MultiAlu on those operations, not by a lemma about the number.
- ErrorBounded.Mixable: an interval nominal on the left of a fixed-point nominal is dispatched by Python to the interval's own operators, which build an interval of fixed-point bounds. The model leaves that pairing out, so `NominalAdd`, `NominalSub`, `NominalMul`, `Add`, `SubAsWritten`, `Sub`, `RSub`, `Mul`, `NominalEq`, `Eq`, `Ne`, `Le` and `Gt` require that it does not occur.
- ErrorBounded.AddSound: soundness, meaning that the exact value stays within the bounds, is proved for plain real nominals. For fixed-point nominals, the rounding terms the source adds come from `error_bounds`, which bound `rounded - exact`. The number's convention is `exact - nominal`, so for floor and ceil the two have opposite signs, and soundness is not claimed.
- ErrorBounded.SubSound, ErrorBounded.MulSound, ErrorBounded.NegSound, ErrorBounded.LShiftSound: the same restriction to plain real nominals.
- ErrorBounded.ShiftInteger: a plain real nominal does not record whether Python holds it as an int or a float, so a float nominal such as 2.0 is shifted here, where `<<` in the source raises TypeError (src/ltitop/arithmetic/error_bounded/number.py:211).
- `assert` statements of the source (AssertionError): the model does not prove them unreachable wherever it did not need them.

## Findings

| source | as written | input that shows it | evidently intended | confidence | as-written member | corrected member |
|---|---|---|---|---|---|---|
| src/ltitop/arithmetic/rounding.py:100-105 | `truncate.error_bounds(o, i)` builds `interval(2^i, -2^i)` as its tightening term, which the interval constructor rejects, so every call with an input LSB raises ValueError | o = 0, i = -1: the term is [0.5, -0.5] | the bounds [-2^o + 2^i, 2^o - 2^i], just as floor and ceil tighten | high (not executed) | Rounding.TruncateErrorBoundsAsWritten, Rounding.TruncateErrorBoundsAsWrittenRejects | Rounding.ErrorBounds, Rounding.TruncateShiftSound |
| src/ltitop/arithmetic/rounding.py:90-98 | `truncate.shift` builds its result with `np.array`, `np.argmin`, `np.abs` and `np.arange`, but `np` is never imported, so it raises NameError for every value that is not an interval and every n (an interval fails on its bounds) | shift(3, 1) | rounding toward zero: the floor shift for v >= 0, the ceil shift otherwise | high (not executed) | Rounding.TruncateShiftAsWritten | Rounding.TruncateShift, Rounding.TruncateShiftSound |
| src/ltitop/arithmetic/fixed_point/multi_format_arithmetic_logic_unit.py:151-154 | the result of mantissa alignment, an int, is unpacked as a tuple, which raises TypeError | 1 - 1 in Q4.4 | the aligned mantissa difference, handled for overflow like `add` | high (not executed) | MultiAlu.SubstractAsWritten, MultiAlu.SubstractAsWrittenFails | MultiAlu.Substract, MultiAlu.SubstractExact |
| src/ltitop/arithmetic/fixed_point/processing_unit.py:107-110 | `lshift`'s overflow flag is set when `rshift` is in allows_overflow | allows_overflow = {lshift} | `lshift`'s flag keyed on `lshift` | high (not executed) | Units.BuildFlagsAsWritten, Units.LShiftKeyedOnRShift | Units.BuildFlags, Units.BuildFlagsMeans |
| src/ltitop/arithmetic/interval.py:83-84 | `__rsub__` builds [c - lo, c - hi], whose bounds are reversed unless the interval is a point, so the constructor raises ValueError | 3 - [1, 2] | [c - hi, c - lo] | high (not executed) | Intervals.RSubAsWritten, Intervals.RSubAsWrittenRejects | Intervals.RSub, Intervals.SubContains |
| src/ltitop/arithmetic/floating_point.py:65 | `mpquantize` calls `rounding_method.apply`, an attribute the annotated rounding functions do not have, so it raises AttributeError | mpquantize(0.5, 1, floor) | the rounding method applied to v·2^nbits | high (not executed) | FloatingPoint.QuantizeAsWritten | FloatingPoint.Quantize, FloatingPoint.QuantizeRealError |
| src/ltitop/arithmetic/fixed_point/fixed_format_arithmetic_logic_unit.py:152-222 | the rounding operations use `truncate`, `floor`, `ceil` and `format_`, none of them defined in that module, so truncate, floor and ceil raise NameError on any operand that needs rounding; `nearest` calls `represent` with the builtin `round` as rounding method, whose missing `apply` raises AttributeError first | floor of 0.296875 (mantissa 38) in Q1.7 | round the value to an integer, represented in the unit format (0 here) | high (not executed) | FixedAlu.RoundAsWritten, FixedAlu.RoundAsWrittenNeverRounds, FixedAlu.RoundAsWrittenNearest, FixedAlu.RoundExample | FixedAlu.Round, FixedAlu.RoundExact |
| src/ltitop/arithmetic/fixed_point/multi_format_arithmetic_logic_unit.py:180-221 | the same undefined names in the multi-format rounding operations | floor of 0.5 in Q4.4 | round the value to an integer, represented in the operand's format, which grows a bit on overflow | high (not executed) | MultiAlu.RoundAsWritten, MultiAlu.RoundAsWrittenNeverRounds | MultiAlu.Round, MultiAlu.RoundExact |
| src/ltitop/arithmetic/error_bounded/number.py:68 | subtraction adds the two error intervals, although the error of x - y is ex - ey | (1, [-0.1, 0.3]) - (1, [-0.3, 0.2]) with exact values 1.3 and 0.7: the sum [-0.4, 0.5] misses the actual error 0.6; likewise `1 - b` for b = (1, [-0.3, 0.2]) keeps [-0.3, 0.2], which misses 0.3 for the exact value 0.7 of b | interval subtraction of the errors, [-0.3, 0.6] | medium (not executed; the repository's own test expects the summed bounds) | ErrorBounded.SubAsWritten, ErrorBounded.SubAsWrittenUnsound, ErrorBounded.RSubAsWrittenExample | ErrorBounded.Sub, ErrorBounded.SubSound, ErrorBounded.RSub |
| src/ltitop/arithmetic/error_bounded/number.py:137-144 | rounding adds `method.error_bounds(0, lsb)`, which bounds the rounded value minus the exact one, to bounds that hold the exact value minus the nominal; for floor and ceil the signs disagree | floor of exactly 1.5: bounds [-1, 0], while 1.5 - 1 = 0.5 | add the negated error bounds, [0, 1] here | medium (not executed) | ErrorBounded.Round, ErrorBounded.FloorBoundsRoundedMinusExact | ErrorBounded.RoundCorrected, ErrorBounded.RoundCorrectedSound |
