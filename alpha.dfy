/** The retarded angle alpha (csr3d/core.py, `alpha` and its two branches).

    For a field point (x, y, z) in coordinates scaled by the bend radius and a
    squared speed beta2, alpha is a root of the depressed quartic
        a^4 + nu a^2 + eta a + zeta = 0.
    On the axis z = 0 the odd term vanishes and the quartic is a quadratic in a^2;
    elsewhere it is solved in closed form through a resolvent cubic (Cardano's
    formula) and one of Ferrari's two quadratic factors.

    Every value that is handed to the library's `sqrt` or `cbrt` is named by a
    function of its own (Discriminant, CubicRadicand, FinalRadicand), so that a
    proof and the definition speak of the same term. */
module AlphaSolver {
  import opened Numerics

  /** The coefficients of the depressed quartic. */
  datatype Quartic = Quartic(eta: real, nu: real, zeta: real)

  /** The quartic's value at `a`. */
  function Eval(q: Quartic, a: real): real {
    a * a * a * a + q.nu * a * a + q.eta * a + q.zeta
  }

  /** The coefficients as the general branch computes them; they are undefined
      exactly when beta2 or 1 + x is zero. */
  function Depressed(x: real, y: real, z: real, beta2: real): (r: Fp<Quartic>)
    ensures r.Finite? <==> beta2 != 0.0 && 1.0 + x != 0.0
  {
    if beta2 * (1.0 + x) == 0.0 then NonFinite
    else
      var eta := -6.0 * z / (beta2 * (1.0 + x));
      var nu := 3.0 * (1.0 / beta2 - 1.0 - x) / (1.0 + x);
      var zeta := 0.75 * (4.0 * z * z / beta2 - x * x - y * y) / (1.0 + x);
      Finite(Quartic(eta, nu, zeta))
  }

  // ---------------------------------------------------------------------------
  // The on-axis branch, z == 0

  /** The quadratic r^2 + b r + c = 0 in r = alpha^2 that the on-axis branch solves. */
  datatype Quadratic = Quadratic(b: real, c: real)

  /** The coefficients b and c as the on-axis branch computes them. */
  function ZeroCoefficients(x: real, y: real, beta2: real): (r: Fp<Quadratic>)
    ensures r.Finite? <==> beta2 != 0.0 && 1.0 + x != 0.0
  {
    if beta2 == 0.0 || 1.0 + x == 0.0 then NonFinite
    else
      var b := 3.0 * (1.0 - beta2 - beta2 * x) / beta2 / (1.0 + x);
      var c := -3.0 * (x * x + y * y) / (4.0 * (1.0 + x));
      Finite(Quadratic(b, c))
  }

  function Discriminant(k: Quadratic): real {
    k.b * k.b - 4.0 * k.c
  }

  /** The larger root r1 = (-b + sqrt(b^2 - 4c))/2 of the quadratic, and its square
      root. */
  function LargerRootAngle(lib: Lib, k: Quadratic): (r: Float)
    ensures r.Finite? ==> Discriminant(k) >= 0.0
    ensures lib.Valid() && r.Finite? ==> r.value >= 0.0
  {
    var s :- Sqrt(lib, Discriminant(k));
    Sqrt(lib, (-k.b + s) / 2.0)
  }

  /** `alpha_where_z_equals_zero`. */
  function AlphaZero(lib: Lib, x: real, y: real, beta2: real): (r: Float)
    ensures r.Finite? ==> beta2 != 0.0 && 1.0 + x != 0.0
    ensures lib.Valid() && r.Finite? ==> r.value >= 0.0
  {
    var k :- ZeroCoefficients(x, y, beta2);
    LargerRootAngle(lib, k)
  }

  /** x^2 + y^2, the squared distance from the reference orbit's tangent line in the
      transverse plane; the on-axis constant term is proportional to it. */
  function Transverse2(x: real, y: real): real {
    x * x + y * y
  }

  /** On the physical domain x > -1 the constant term c is never positive, and it is
      negative off the origin of the transverse plane. */
  lemma {:induction false} ZeroConstantSign(x: real, y: real, beta2: real)
    requires 1.0 + x > 0.0 && beta2 != 0.0
    ensures ZeroCoefficients(x, y, beta2).value.c <= 0.0
    ensures Transverse2(x, y) > 0.0 ==> ZeroCoefficients(x, y, beta2).value.c < 0.0
  {
    var c := ZeroCoefficients(x, y, beta2).value.c;
    var d := 4.0 * (1.0 + x);
    var n := Transverse2(x, y);
    assert c * d == -3.0 * n;
    assert 0.0 <= n;
    NonPosFactor(c, d);
    ProductZero(c, d);
  }

  /** The on-axis quadratic is the depressed quartic at z = 0: its b is nu (the form
      the source keeps in a comment), its c is zeta, and the odd coefficient eta
      vanishes. */
  lemma {:induction false} ZeroCoefficientsAreQuartic(x: real, y: real, beta2: real)
    ensures ZeroCoefficients(x, y, beta2).Finite? <==> Depressed(x, y, 0.0, beta2).Finite?
    ensures ZeroCoefficients(x, y, beta2).Finite? ==>
      var k, q := ZeroCoefficients(x, y, beta2).value, Depressed(x, y, 0.0, beta2).value;
      k.b == q.nu && k.c == q.zeta && q.eta == 0.0
  {
    if beta2 != 0.0 && 1.0 + x != 0.0 {
      var k, q := ZeroCoefficients(x, y, beta2).value, Depressed(x, y, 0.0, beta2).value;
      var xp := 1.0 + x;
      var t := 3.0 * (1.0 - beta2 - beta2 * x) / beta2;
      assert k.b == t / xp;
      assert t == 3.0 * (1.0 / beta2 - 1.0 - x) by {
        assert 3.0 * (1.0 - beta2 - beta2 * x) / beta2
            == 3.0 * (1.0 / beta2) - 3.0 * (beta2 / beta2) - 3.0 * (beta2 * x / beta2);
      }
      assert q.nu == 3.0 * (1.0 / beta2 - 1.0 - x) / xp;
      assert q.zeta == 0.75 * (4.0 * 0.0 * 0.0 / beta2 - x * x - y * y) / xp;
      assert k.c == -3.0 * (x * x + y * y) / (4.0 * xp);
    }
  }

  /** The kept root r1 = (-b + s)/2 solves the quadratic, and is non-negative when
      c <= 0 (so the branch's outer square root is defined). */
  lemma {:induction false} KeptRoot(b: real, c: real, s: real)
    requires 0.0 <= s && s * s == b * b - 4.0 * c
    ensures var r1 := (-b + s) / 2.0; r1 * r1 + b * r1 + c == 0.0
    ensures c <= 0.0 ==> (-b + s) / 2.0 >= 0.0
  {
    var r1 := (-b + s) / 2.0;
    assert 4.0 * (r1 * r1 + b * r1 + c) == (s - b) * (s - b) + 2.0 * b * (s - b) + 4.0 * c;
    if c <= 0.0 {
      AtLeastAbs(s, b);
    }
  }

  /** The discarded root (-b - s)/2 is never positive when c <= 0, and it is negative
      when b > 0 (the reason the source's comment gives) or when c < 0. */
  lemma {:induction false} DiscardedRoot(b: real, c: real, s: real)
    requires 0.0 <= s && s * s == b * b - 4.0 * c && c <= 0.0
    ensures (-b - s) / 2.0 <= 0.0
    ensures b > 0.0 || c < 0.0 ==> (-b - s) / 2.0 < 0.0
  {
    AtLeastAbs(s, b);
    if c < 0.0 {
      assert b * b < s * s;
      assert Abs(b) != s by {
        assert Abs(b) * Abs(b) == b * b;
      }
    }
  }

  /** u^2 + b u + c splits over the two roots of the quadratic. */
  lemma QuadraticSplit(b: real, c: real, s: real, u: real)
    requires s * s == b * b - 4.0 * c
    ensures u * u + b * u + c == (u - (-b + s) / 2.0) * (u - (-b - s) / 2.0)
  {
  }

  /** When c <= 0 the larger root is defined and non-negative, and the angle it gives
      solves u^4 + b u^2 + c = 0. */
  lemma {:induction false} LargerRootSolves(lib: Lib, k: Quadratic)
    requires lib.Valid() && k.c <= 0.0
    ensures LargerRootAngle(lib, k).Finite?
    ensures var a := LargerRootAngle(lib, k).value;
      a >= 0.0 && (a * a) * (a * a) + k.b * (a * a) + k.c == 0.0
  {
    assert 0.0 <= Discriminant(k);
    var s := Sqrt(lib, Discriminant(k)).value;
    KeptRoot(k.b, k.c, s);
    var r1 := (-k.b + s) / 2.0;
    assert LargerRootAngle(lib, k) == Sqrt(lib, r1);
    var a := Sqrt(lib, r1).value;
    assert a * a == r1;
  }

  /** When c < 0 the real roots of u^4 + b u^2 + c are exactly +a and -a, where a is
      the angle of the larger root: the discarded root gives no real angle. */
  lemma {:induction false} LargerRootOnly(lib: Lib, k: Quadratic, t: real)
    requires lib.Valid() && k.c < 0.0
    ensures LargerRootAngle(lib, k).Finite?
    ensures var a := LargerRootAngle(lib, k).value;
      (t * t) * (t * t) + k.b * (t * t) + k.c == 0.0 <==> t == a || t == -a
  {
    LargerRootSolves(lib, k);
    var s := Sqrt(lib, Discriminant(k)).value;
    DiscardedRoot(k.b, k.c, s);
    var r1, r2 := (-k.b + s) / 2.0, (-k.b - s) / 2.0;
    assert LargerRootAngle(lib, k) == Sqrt(lib, r1);
    var a := Sqrt(lib, r1).value;
    assert 0.0 <= a && a * a == r1;
    var u := t * t;
    QuadraticSplit(k.b, k.c, s, u);
    ProductZero(u - r1, u - r2);
    assert u - r2 > 0.0;
    assert u - a * a == (t - a) * (t + a);
    ProductZero(t - a, t + a);
  }

  /** On the physical domain x > -1 the on-axis branch is always finite, returns a
      non-negative angle, and that angle is a root of the depressed quartic at z = 0. */
  lemma {:induction false} AlphaZeroSolvesQuartic(lib: Lib, x: real, y: real, beta2: real)
    requires lib.Valid()
    requires 1.0 + x > 0.0 && beta2 != 0.0
    ensures AlphaZero(lib, x, y, beta2).Finite?
    ensures AlphaZero(lib, x, y, beta2).value >= 0.0
    ensures Eval(Depressed(x, y, 0.0, beta2).value, AlphaZero(lib, x, y, beta2).value) == 0.0
  {
    ZeroConstantSign(x, y, beta2);
    ZeroCoefficientsAreQuartic(x, y, beta2);
    var k := ZeroCoefficients(x, y, beta2).value;
    LargerRootSolves(lib, k);
    var a := LargerRootAngle(lib, k).value;
    assert AlphaZero(lib, x, y, beta2) == Finite(a);
    var q := Depressed(x, y, 0.0, beta2).value;
    assert q.nu == k.b && q.zeta == k.c && q.eta == 0.0;
    assert Eval(q, a) == (a * a) * (a * a) + k.b * (a * a) + k.c;
    assert AlphaZero(lib, x, y, beta2).value == a;
    assert (a * a) * (a * a) + k.b * (a * a) + k.c == 0.0;
    assert Eval(q, a) == 0.0;
  }

  /** Away from the origin of the transverse plane (x^2 + y^2 > 0) the real roots of the
      quartic at z = 0 are exactly +alpha and -alpha: alpha is its only non-negative
      root. */
  lemma {:induction false} AlphaZeroOnlyRoots(lib: Lib, x: real, y: real, beta2: real, t: real)
    requires lib.Valid()
    requires 1.0 + x > 0.0 && beta2 != 0.0 && Transverse2(x, y) > 0.0
    ensures AlphaZero(lib, x, y, beta2).Finite?
    ensures var a := AlphaZero(lib, x, y, beta2).value;
      Eval(Depressed(x, y, 0.0, beta2).value, t) == 0.0 <==> t == a || t == -a
  {
    ZeroConstantSign(x, y, beta2);
    ZeroCoefficientsAreQuartic(x, y, beta2);
    var k := ZeroCoefficients(x, y, beta2).value;
    LargerRootOnly(lib, k, t);
    assert AlphaZero(lib, x, y, beta2) == LargerRootAngle(lib, k);
    var q := Depressed(x, y, 0.0, beta2).value;
    assert q.nu == k.b && q.zeta == k.c && q.eta == 0.0;
    assert Eval(q, t) == (t * t) * (t * t) + k.b * (t * t) + k.c;
  }

  // ---------------------------------------------------------------------------
  // The general branch, z != 0

  /** The resolvent cubic of the quartic; Cardano's m is a root of it. */
  function Cubic(q: Quartic, m: real): real {
    8.0 * m * m * m + 8.0 * q.nu * m * m + (2.0 * q.nu * q.nu - 8.0 * q.zeta) * m - q.eta * q.eta
  }

  /** `temp` of the general branch. */
  function CardanoTemp(q: Quartic): real {
    q.eta * q.eta / 16.0 - q.zeta * q.nu / 6.0 + q.nu * q.nu * q.nu / 216.0
  }

  /** `zeta/3 + nu**2/36`, used twice by the general branch. */
  function CardanoP(q: Quartic): real {
    q.zeta / 3.0 + q.nu * q.nu / 36.0
  }

  /** The radicand under Omega's square root, which nothing guards. */
  function CubicRadicand(q: Quartic): real {
    CardanoTemp(q) * CardanoTemp(q) - CardanoP(q) * CardanoP(q) * CardanoP(q)
  }

  /** Cardano's formula for m. NaN exactly when the radicand under Omega's square root
      is negative or Omega itself is zero (then so is its cube root `omega3`). */
  function Resolvent(lib: Lib, q: Quartic): (r: Float)
    ensures r.Finite? ==> CubicRadicand(q) >= 0.0
    ensures lib.Valid() ==>
      (r.Finite? <==> CubicRadicand(q) >= 0.0 && CardanoTemp(q) + lib.sqrt(CubicRadicand(q)) != 0.0)
  {
    var root :- Sqrt(lib, CubicRadicand(q));
    var omega3 := lib.cbrt(CardanoTemp(q) + root);
    assert lib.Valid() ==> (omega3 == 0.0 <==> CardanoTemp(q) + root == 0.0) by {
      if lib.Valid() {
        CbrtZero(lib, CardanoTemp(q) + root);
      }
    }
    var ratio :- Div(CardanoP(q), omega3);
    Finite(-q.nu / 3.0 + ratio + omega3)
  }

  /** `arg1`: its radicand is an absolute value, so it is never NaN, and it is the
      non-negative square root of 2|m|. */
  function Arg1(lib: Lib, m: real): (r: real)
    ensures lib.Valid() ==> 0.0 <= r && r * r == 2.0 * Abs(m)
  {
    Sqrt(lib, 2.0 * Abs(m)).value
  }

  /** `arg2 - zsign*arg3`, the last radicand before its `abs`. */
  function FinalRadicand(q: Quartic, m: real, z: real, arg3: real): real {
    -2.0 * (m + q.nu) - Sign(z) * arg3
  }

  /** The root of the quartic from m. The result is finite exactly when m is non-zero
      (only `arg3` divides), and it is non-negative when z > 0. */
  function Combine(lib: Lib, q: Quartic, m: real, z: real): (r: Float)
    ensures lib.Valid() ==> (r.Finite? <==> m != 0.0)
    ensures lib.Valid() && z > 0.0 && r.Finite? ==> r.value >= 0.0
  {
    var arg1 := Arg1(lib, m);
    var arg3 :- Div(2.0 * q.eta, arg1);
    var root := Sqrt(lib, Abs(FinalRadicand(q, m, z, arg3))).value;
    assert lib.Valid() ==> (arg1 == 0.0 <==> m == 0.0) by {
      if lib.Valid() {
        SqrtZero(lib, 2.0 * Abs(m));
      }
    }
    Finite((Sign(z) * arg1 + root) / 2.0)
  }

  /** `alpha_where_z_not_zero`. */
  function AlphaGeneral(lib: Lib, x: real, y: real, z: real, beta2: real): (r: Float)
    ensures r.Finite? ==> beta2 != 0.0 && 1.0 + x != 0.0
    ensures lib.Valid() && z > 0.0 && r.Finite? ==> r.value >= 0.0
  {
    var q :- Depressed(x, y, z, beta2);
    var m :- Resolvent(lib, q);
    Combine(lib, q, m, z)
  }

  /** alpha reads only the library's `sqrt` and `cbrt`. */
  lemma {:induction false} AlphaReadsRoots(lib: Lib, other: Lib, x: real, y: real, z: real, beta2: real)
    requires other.sqrt == lib.sqrt && other.cbrt == lib.cbrt
    ensures Alpha(other, x, y, z, beta2) == Alpha(lib, x, y, z, beta2)
  {
    var q := Depressed(x, y, z, beta2);
    if q.Finite? {
      assert Resolvent(other, q.value) == Resolvent(lib, q.value);
    }
  }

  /** `alpha` on a scalar z: the on-axis branch exactly when z is zero. Either branch
      divides by beta2 and by 1 + x, and the angle is never negative for z >= 0. */
  function Alpha(lib: Lib, x: real, y: real, z: real, beta2: real): (r: Float)
    ensures r.Finite? ==> beta2 != 0.0 && 1.0 + x != 0.0
    ensures lib.Valid() && z >= 0.0 && r.Finite? ==> r.value >= 0.0
  {
    if z == 0.0 then AlphaZero(lib, x, y, beta2) else AlphaGeneral(lib, x, y, z, beta2)
  }

  /** y^3 - 3 p y = u^3 + w^3 when y = u + w and p = u w. */
  lemma CardanoIdentity(u: real, w: real, p: real)
    requires p == u * w
    ensures (u + w) * (u + w) * (u + w) - 3.0 * p * (u + w) == u * u * u + w * w * w
  {
  }

  /** With u^3 = temp + S and S^2 = temp^2 - p^3, the value y = u + p/u solves the
      reduced cubic y^3 - 3 p y - 2 temp = 0. */
  lemma {:induction false} CardanoRoot(temp: real, p: real, S: real, u: real)
    requires S * S == temp * temp - p * p * p
    requires u != 0.0 && u * u * u == temp + S
    ensures var y := u + p / u; y * y * y - 3.0 * p * y - 2.0 * temp == 0.0
  {
    var w := p / u;
    assert p == u * w;
    CardanoIdentity(u, w, p);
    var omega := temp + S;
    ProductZero(u * u, u);
    ProductZero(u, u);
    assert omega != 0.0;
    assert w * w * w * omega == p * p * p by {
      assert w * w * w * (u * u * u) == (w * u) * (w * u) * (w * u);
    }
    assert p * p * p == (temp - S) * omega;
    assert (w * w * w - (temp - S)) * omega == 0.0;
    ProductZero(w * w * w - (temp - S), omega);
  }

  /** The reduced cubic is the resolvent cubic shifted by nu/3. */
  lemma ShiftedCubic(q: Quartic, y: real)
    ensures Cubic(q, y - q.nu / 3.0)
      == 8.0 * (y * y * y - 3.0 * CardanoP(q) * y - 2.0 * CardanoTemp(q))
  {
  }

  /** Whenever Cardano's formula yields a finite m, that m is a root of the resolvent
      cubic. */
  lemma {:induction false} ResolventSolvesCubic(lib: Lib, q: Quartic)
    requires lib.Valid()
    requires Resolvent(lib, q).Finite?
    ensures Cubic(q, Resolvent(lib, q).value) == 0.0
  {
    var temp, p := CardanoTemp(q), CardanoP(q);
    assert 0.0 <= CubicRadicand(q);
    var S := Sqrt(lib, CubicRadicand(q)).value;
    assert S * S == temp * temp - p * p * p;
    var u := lib.cbrt(temp + S);
    assert u * u * u == temp + S;
    assert Div(p, u).Finite?;
    var m := Resolvent(lib, q).value;
    assert m == -q.nu / 3.0 + p / u + u;
    CardanoRoot(temp, p, S, u);
    ShiftedCubic(q, u + p / u);
  }

  /** The last `abs` leaves its argument unchanged: arg1 is non-zero and the final
      radicand is already non-negative. */
  ghost predicate GuardInactive(lib: Lib, q: Quartic, m: real, z: real) {
    Arg1(lib, m) != 0.0 && FinalRadicand(q, m, z, 2.0 * q.eta / Arg1(lib, m)) >= 0.0
  }

  /** Ferrari's step: given a positive root m of the resolvent cubic, and when the last
      `abs` guard is inactive, the general branch returns a real root of the quartic. */
  lemma {:induction false} CombineSolvesQuartic(lib: Lib, q: Quartic, m: real, z: real)
    requires lib.Valid()
    requires z != 0.0 && m > 0.0 && Cubic(q, m) == 0.0
    requires GuardInactive(lib, q, m, z)
    ensures Combine(lib, q, m, z).Finite?
    ensures Eval(q, Combine(lib, q, m, z).value) == 0.0
  {
    var w := Arg1(lib, m);
    assert 0.0 <= w && w * w == 2.0 * m;
    var sg := Sign(z);
    assert sg * sg == 1.0;
    var arg3 := 2.0 * q.eta / w;
    assert arg3 * w == 2.0 * q.eta;
    var R := FinalRadicand(q, m, z, arg3);
    assert R == -2.0 * (m + q.nu) - sg * arg3;
    assert Abs(R) == R;
    var r := Sqrt(lib, R).value;
    assert r * r == R;
    var a := (sg * w + r) / 2.0;
    assert Combine(lib, q, m, z) == Finite(a);
    FerrariFactor(a, sg, w, r, m, q.nu, arg3);
    ResolventProduct(q, m, w, arg3, sg);
    FerrariExpand(q, a, sg, w, arg3, m);
  }

  /** a = (sg w + r)/2 with r^2 = -2(m + nu) - sg arg3 is a root of a^2 - sg w a + K. */
  lemma FerrariFactor(a: real, sg: real, w: real, r: real, m: real, nu: real, arg3: real)
    requires sg * sg == 1.0 && w * w == 2.0 * m && r * r == -2.0 * (m + nu) - sg * arg3
    requires a == (sg * w + r) / 2.0
    ensures a * a - sg * w * a + (m + nu / 2.0 + sg * arg3 / 4.0) == 0.0
  {
    assert 2.0 * a - sg * w == r;
    assert (2.0 * a - sg * w) * (2.0 * a - sg * w) == r * r;
  }

  /** The product of the two quadratic factors' constants is zeta, by the resolvent
      cubic. */
  lemma {:induction false} ResolventProduct(q: Quartic, m: real, w: real, arg3: real, sg: real)
    requires m > 0.0 && w * w == 2.0 * m && arg3 * w == 2.0 * q.eta && sg * sg == 1.0
    requires Cubic(q, m) == 0.0
    ensures (m + q.nu / 2.0 + sg * arg3 / 4.0) * (m + q.nu / 2.0 - sg * arg3 / 4.0) == q.zeta
  {
    var K, K' := m + q.nu / 2.0 + sg * arg3 / 4.0, m + q.nu / 2.0 - sg * arg3 / 4.0;
    assert K * K' == (m + q.nu / 2.0) * (m + q.nu / 2.0) - sg * sg * arg3 * arg3 / 16.0;
    assert arg3 * arg3 * m == 2.0 * q.eta * q.eta by {
      assert (arg3 * w) * (arg3 * w) == 4.0 * q.eta * q.eta;
      assert (arg3 * w) * (arg3 * w) == arg3 * arg3 * (w * w);
    }
    assert 16.0 * m * (K * K' - q.zeta) == 2.0 * Cubic(q, m);
    ProductZero(16.0 * m, K * K' - q.zeta);
  }

  /** The quartic splits into Ferrari's two quadratic factors. */
  lemma FerrariExpand(q: Quartic, a: real, sg: real, w: real, arg3: real, m: real)
    requires sg * sg == 1.0 && w * w == 2.0 * m && arg3 * w == 2.0 * q.eta
    requires (m + q.nu / 2.0 + sg * arg3 / 4.0) * (m + q.nu / 2.0 - sg * arg3 / 4.0) == q.zeta
    requires a * a - sg * w * a + (m + q.nu / 2.0 + sg * arg3 / 4.0) == 0.0
    ensures Eval(q, a) == 0.0
  {
    var K, K' := m + q.nu / 2.0 + sg * arg3 / 4.0, m + q.nu / 2.0 - sg * arg3 / 4.0;
    assert Eval(q, a) == (a * a - sg * w * a + K) * (a * a + sg * w * a + K');
  }

  /** Both branches of `alpha` return roots of the same quartic. On the axis this holds
      on the whole physical domain x > -1, with a non-negative angle; off the axis it
      holds whenever Cardano's m is positive and the last `abs` guard is inactive. */
  lemma {:induction false} AlphaSolvesQuartic(lib: Lib, x: real, y: real, z: real, beta2: real)
    requires lib.Valid()
    requires 1.0 + x > 0.0 && beta2 != 0.0
    requires z != 0.0 ==>
      var q := Depressed(x, y, z, beta2).value;
      && Resolvent(lib, q).Finite?
      && Resolvent(lib, q).value > 0.0
      && GuardInactive(lib, q, Resolvent(lib, q).value, z)
    ensures Alpha(lib, x, y, z, beta2).Finite?
    ensures Eval(Depressed(x, y, z, beta2).value, Alpha(lib, x, y, z, beta2).value) == 0.0
    ensures z == 0.0 ==> Alpha(lib, x, y, z, beta2).value >= 0.0
  {
    if z == 0.0 {
      AlphaZeroSolvesQuartic(lib, x, y, beta2);
    } else {
      var q := Depressed(x, y, z, beta2).value;
      var m := Resolvent(lib, q).value;
      ResolventSolvesCubic(lib, q);
      CombineSolvesQuartic(lib, q, m, z);
      assert AlphaGeneral(lib, x, y, z, beta2) == Combine(lib, q, m, z);
    }
  }
}
