/** Exact integer and real helpers shared by the arithmetic layers: powers of
    two (also with negative exponents), Python's integer shifts, and Python's
    real-to-integer roundings. */
module Numerics {

  /** 2^n for a natural n. */
  function Pow2(n: nat): (r: nat)
    ensures r >= 1
  {
    if n == 0 then 1 else 2 * Pow2(n - 1)
  }

  /** 2^n as an exact real, for any integer n (Python's `2**n`). */
  function Exp2(n: int): real
    decreases if n >= 0 then n else -n
  {
    if n == 0 then 1.0
    else if n > 0 then 2.0 * Exp2(n - 1)
    else Exp2(n + 1) / 2.0
  }

  lemma {:induction false} Pow2Add(a: nat, b: nat)
    ensures Pow2(a + b) == Pow2(a) * Pow2(b)
  {
    if a > 0 {
      Pow2Add(a - 1, b);
    }
  }

  lemma {:induction false} Pow2Monotone(a: nat, b: nat)
    requires a <= b
    ensures Pow2(a) <= Pow2(b)
  {
    if a < b {
      Pow2Monotone(a, b - 1);
    }
  }

  lemma {:induction false} Exp2Positive(n: int)
    ensures Exp2(n) > 0.0
    decreases if n >= 0 then n else -n
  {
    if n > 0 {
      Exp2Positive(n - 1);
    } else if n < 0 {
      Exp2Positive(n + 1);
    }
  }

  lemma Exp2Step(n: int)
    ensures Exp2(n) == 2.0 * Exp2(n - 1)
  {
  }

  lemma Combine(x: real, y: real, z: real, u: real, v: real)
    requires z == x * y && u == 2.0 * z && v == 2.0 * y
    ensures u == x * v
  {
  }

  lemma Exp2AddZero(a: int)
    ensures Exp2(a + 0) == Exp2(a) * Exp2(0)
  {
    assert Exp2(0) == 1.0;
  }

  lemma Exp2AddSucc(a: int, b: int)
    requires Exp2(a + b) == Exp2(a) * Exp2(b)
    ensures Exp2(a + b + 1) == Exp2(a) * Exp2(b + 1)
  {
    var x, y, z, u, v := Exp2(a), Exp2(b), Exp2(a + b), Exp2(a + b + 1), Exp2(b + 1);
    Exp2Step(a + b + 1);
    assert u == 2.0 * z;
    Exp2Step(b + 1);
    assert v == 2.0 * y;
    Combine(x, y, z, u, v);
  }

  lemma {:induction false} Exp2AddNat(a: int, b: nat)
    ensures Exp2(a + b) == Exp2(a) * Exp2(b)
  {
    if b == 0 {
      Exp2AddZero(a);
    } else {
      Exp2AddNat(a, b - 1);
      Exp2AddSucc(a, b - 1);
    }
  }

  lemma Uncombine(x: real, y: real, z: real, w: real)
    requires x == z * w && z * w * y == z
    ensures z == x * y
  {
  }

  /** Exponent laws over the reals: 2^(a+b) = 2^a * 2^b for all integers. */
  lemma Exp2Add(a: int, b: int)
    ensures Exp2(a + b) == Exp2(a) * Exp2(b)
  {
    if b >= 0 {
      Exp2AddNat(a, b);
    } else {
      // 2^a = 2^(a+b) * 2^-b and 2^b * 2^-b = 1
      Exp2AddNat(a + b, -b);
      Exp2AddNat(b, -b);
      assert Exp2(b + -b) == 1.0;
      var x, y, z, w := Exp2(a), Exp2(b), Exp2(a + b), Exp2(-b);
      assert y * w == 1.0;
      assert z * w * y == z * (y * w);
      Uncombine(x, y, z, w);
    }
  }

  lemma {:induction false} Exp2Monotone(a: int, b: int)
    requires a <= b
    ensures Exp2(a) <= Exp2(b)
    decreases b - a
  {
    if a < b {
      Exp2Monotone(a, b - 1);
      Exp2Step(b);
      Exp2Positive(b - 1);
    }
  }

  lemma {:induction false} Exp2Nat(n: nat)
    ensures Exp2(n) == Pow2(n) as real
  {
    if n > 0 {
      Exp2Nat(n - 1);
    }
  }

  lemma Exp2StrictMonotone(a: int, b: int)
    requires a < b
    ensures Exp2(a) < Exp2(b)
  {
    Exp2Monotone(a, b - 1);
    Exp2Step(b);
    Exp2Positive(b - 1);
  }

  /** 2^i <= 2^o exactly when i <= o. */
  lemma Exp2Order(i: int, o: int)
    ensures Exp2(i) <= Exp2(o) <==> i <= o
  {
    if i <= o {
      Exp2Monotone(i, o);
    } else {
      Exp2StrictMonotone(o, i);
    }
  }

  /** `mpmath.ldexp(x, n)`: x * 2^n, exactly. */
  function Ldexp(x: real, n: int): real {
    x * Exp2(n)
  }

  lemma LdexpMonotone(x: real, y: real, n: int)
    requires x <= y
    ensures Ldexp(x, n) <= Ldexp(y, n)
  {
    Exp2Positive(n);
    assert (y - x) * Exp2(n) >= 0.0;
  }

  /** ldexp(ldexp(x, a), b) = ldexp(x, a + b). */
  lemma LdexpCompose(x: real, a: int, b: int)
    ensures Ldexp(x, a + b) == Ldexp(Ldexp(x, a), b)
  {
    var e, g, t := Exp2(a), Exp2(b), Exp2(a + b);
    Exp2Add(a, b);
    Associate(x, e, g, t);
  }

  /** Shifting the exponent by b multiplies by 2^b. */
  lemma LdexpTimesExp2(x: real, a: int, b: int)
    ensures Ldexp(x, a + b) == Ldexp(x, a) * Exp2(b)
  {
    LdexpCompose(x, a, b);
    var y := Ldexp(x, a);
    assert Ldexp(y, b) == y * Exp2(b);
  }

  lemma Associate(x: real, e: real, g: real, t: real)
    requires t == e * g
    ensures x * t == (x * e) * g
  {
  }

  /** Python's `abs` on an int. */
  function Abs(v: int): (r: nat)
    ensures r == v || r == -v
  {
    if v < 0 then -v else v
  }

  /** Integer division is determined by its bracketing. */
  lemma DivUnique(v: int, d: int, q: int)
    requires d > 0 && q * d <= v < (q + 1) * d
    ensures v / d == q
  {
    var r := v / d;
    DivBracket(v, d);
    MulCancel(r, q + 1, d);
    MulCancel(q, r + 1, d);
  }

  /** Strict order of multiples of a positive step is the order of the factors. */
  lemma MulCancel(a: int, b: int, d: int)
    requires d > 0 && a * d < b * d
    ensures a < b
  {
  }

  /** A floor division lies one step below its dividend. */
  lemma DivBracket(v: int, d: int)
    requires d > 0
    ensures (v / d) * d <= v < (v / d) * d + d
  {
  }

  /** Python's `v << n`. */
  function Shl(v: int, n: nat): (r: int)
    ensures r == v * Pow2(n)
  {
    v * Pow2(n)
  }

  /** Python's `v >> n`: the floor of v / 2^n (Dafny's `/` floors for a
      positive divisor, as Python's does). */
  function Shr(v: int, n: nat): (r: int)
    ensures r * Pow2(n) <= v < (r + 1) * Pow2(n)
  {
    v / Pow2(n)
  }

  /** Python's `math.floor`. */
  function Floor(x: real): (r: int)
    ensures r as real <= x < r as real + 1.0
  {
    x.Floor
  }

  /** Python's `math.ceil`. */
  function Ceil(x: real): (r: int)
    ensures r as real - 1.0 < x <= r as real
  {
    -((-x).Floor)
  }

  /** Python's `math.trunc`: rounds toward zero. */
  function Trunc(x: real): (r: int)
    ensures x >= 0.0 ==> r as real <= x < r as real + 1.0
    ensures x < 0.0 ==> r as real - 1.0 < x <= r as real
  {
    if x >= 0.0 then Floor(x) else Ceil(x)
  }

  /** Python's builtin `round` on a real (also mpmath's `nint`): nearest
      integer, ties to the even one. */
  function RoundHalfEven(x: real): (r: int)
    ensures x - 0.5 <= r as real <= x + 0.5
    ensures r as real == x + 0.5 || r as real == x - 0.5 ==> r % 2 == 0
  {
    var f := Floor(x);
    var d := x - f as real;
    if d < 0.5 then f
    else if d > 0.5 then f + 1
    else if f % 2 == 0 then f
    else f + 1
  }
}
