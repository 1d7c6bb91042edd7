/** Exact-real stand-ins for the floating-point operations the wake potentials use.

    A computation in the source runs on IEEE doubles through numpy; a division by
    zero or the square root of a negative number yields an infinity or a NaN and the
    computation carries on. The model computes in exact `real`s and records such an
    outcome as `NonFinite`, which every later step propagates. */
module Numerics {

  /** The outcome of a floating-point evaluation: a finite value, or `NonFinite`
      when some step of it produced an infinity or a NaN. */
  datatype Fp<+T> = Finite(value: T) | NonFinite {

    predicate IsFailure() {
      NonFinite?
    }

    function PropagateFailure<U>(): Fp<U>
      requires NonFinite?
    {
      NonFinite
    }

    function Extract(): T
      requires Finite?
    {
      value
    }
  }

  type Float = Fp<real>

  /** The numeric library the source calls: numpy's `sqrt`, `cbrt`, `sin` and `cos`,
      and scipy's incomplete elliptic integrals `ellipkinc` = F(phi, m) and
      `ellipeinc` = E(phi, m), which may themselves return a NaN. */
  datatype Lib = Lib(
    sqrt: real -> real,
    cbrt: real -> real,
    sin: real -> real,
    cos: real -> real,
    ellipkinc: (real, real) -> Float,
    ellipeinc: (real, real) -> Float)
  {
    /** The only facts the model uses about the library: `sqrt` is the non-negative
        square root on non-negative arguments, and `cbrt` is the signed real cube root. */
    ghost predicate Valid() {
      && (forall v :: 0.0 <= v ==> 0.0 <= sqrt(v) && sqrt(v) * sqrt(v) == v)
      && (forall v :: cbrt(v) * cbrt(v) * cbrt(v) == v)
    }
  }

  /** Division of doubles: a zero divisor gives an infinity or a NaN. */
  function Div(a: real, b: real): (r: Float)
    ensures r.Finite? <==> b != 0.0
    ensures r.Finite? ==> r.value * b == a
  {
    if b == 0.0 then NonFinite else Finite(a / b)
  }

  /** numpy's `sqrt`: NaN on a negative argument. */
  function Sqrt(lib: Lib, v: real): (r: Float)
    ensures r.Finite? <==> 0.0 <= v
    ensures lib.Valid() && r.Finite? ==> 0.0 <= r.value && r.value * r.value == v
  {
    if v < 0.0 then NonFinite else Finite(lib.sqrt(v))
  }

  /** numpy's `abs`. */
  function Abs(v: real): (r: real)
    ensures 0.0 <= r && (r == v || r == -v)
  {
    if v < 0.0 then -v else v
  }

  /** numpy's `sign`: -1, 0 or 1. */
  function Sign(v: real): (r: real)
    ensures r * v == Abs(v)
    ensures v != 0.0 ==> r * r == 1.0
  {
    if v > 0.0 then 1.0 else if v < 0.0 then -1.0 else 0.0
  }

  /** A non-negative number whose square is `v` is the library's square root of `v`. */
  lemma SqrtUnique(lib: Lib, v: real, s: real)
    requires lib.Valid()
    requires 0.0 <= s && s * s == v
    ensures lib.sqrt(v) == s
  {
    var t := lib.sqrt(v);
    assert 0.0 <= t && t * t == v;
    assert (t - s) * (t + s) == 0.0;
    ProductZero(t - s, t + s);
  }

  /** The square root of a non-negative number vanishes exactly at zero. */
  lemma SqrtZero(lib: Lib, v: real)
    requires lib.Valid() && 0.0 <= v
    ensures lib.sqrt(v) == 0.0 <==> v == 0.0
  {
    var t := lib.sqrt(v);
    assert t * t == v;
    ProductZero(t, t);
  }

  /** The cube root vanishes exactly at zero. */
  lemma CbrtZero(lib: Lib, v: real)
    requires lib.Valid()
    ensures lib.cbrt(v) == 0.0 <==> v == 0.0
  {
    var u := lib.cbrt(v);
    assert (u * u) * u == v;
    ProductZero(u * u, u);
    ProductZero(u, u);
  }

  /** A product vanishes only when a factor does. */
  lemma ProductZero(a: real, b: real)
    ensures a * b == 0.0 <==> a == 0.0 || b == 0.0
  {
    if a != 0.0 && b != 0.0 {
      assert a * b / b == a;
    }
  }

  /** A product of two positive numbers is positive. */
  lemma MulPos(a: real, b: real)
    requires 0.0 < a && 0.0 < b
    ensures 0.0 < a * b
  {
  }

  /** A factor of a non-positive product with a positive cofactor is non-positive. */
  lemma NonPosFactor(a: real, b: real)
    requires a * b <= 0.0 && 0.0 < b
    ensures a <= 0.0
  {
    if 0.0 < a {
      MulPos(a, b);
    }
  }

  /** A non-negative number whose square is at least b^2 is at least |b|. */
  lemma AtLeastAbs(s: real, b: real)
    requires 0.0 <= s && b * b <= s * s
    ensures Abs(b) <= s
  {
    var d := Abs(b) - s;
    assert d * (Abs(b) + s) == b * b - s * s;
    if 0.0 < Abs(b) + s {
      NonPosFactor(d, Abs(b) + s);
    }
  }
}
