/** The wake-potential components (csr3d/core.py, `psi_calc` and its four wrappers).

    For a field point (x, y, z) and a speed beta, `psi_calc` fills a dictionary with
    the components a caller asks for: `psi_s`, `psi_x`, `psi_phi` and `psi_y`. All of
    them share the retarded angle alpha and kappa = 2 (alpha - z) / beta; all but
    `psi_s` also share the incomplete elliptic integrals F(alpha, m) and E(alpha, m)
    with m = -4 (1 + x) / (x^2 + y^2). The dictionary is modelled as a
    `map<string, Float>`; a value is `NonFinite` when its evaluation met an infinity
    or a NaN. */
module PotentialEvaluator {
  import opened Numerics
  import opened AlphaSolver

  /** The values every component uses: alpha, kappa, sin(2 alpha), cos(2 alpha). */
  datatype Shared = Shared(alp: real, kap: real, sin2a: real, cos2a: real)

  /** The values the x, phi and y components add: sqrt(x^2 + y^2), F and E. Each
      integral may be NaN on its own; a component is spoilt only by those it reads. */
  datatype Integrals = Integrals(xy: real, F: Float, E: Float)

  /** beta2, alpha, kappa and the two trigonometric terms of `psi_calc`: alpha is the
      retarded angle for beta2 = beta^2, and kappa beta = 2 (alpha - z). */
  function Common(lib: Lib, x: real, y: real, z: real, beta: real): (r: Fp<Shared>)
    ensures r.Finite? ==>
      && beta != 0.0
      && Alpha(lib, x, y, z, beta * beta) == Finite(r.value.alp)
      && r.value.kap * beta == 2.0 * (r.value.alp - z)
  {
    var alp :- Alpha(lib, x, y, z, beta * beta);
    // alpha is only defined for beta2 != 0, so this division is too
    var kap := Div(2.0 * (alp - z), beta).value;
    Finite(Shared(alp, kap, lib.sin(2.0 * alp), lib.cos(2.0 * alp)))
  }

  /** `arg2`, the parameter m of both elliptic integrals. */
  function EllipticParameter(x: real, y: real): (r: Float)
    ensures r.Finite? <==> Transverse2(x, y) != 0.0
  {
    Div(-4.0 * (1.0 + x), Transverse2(x, y))
  }

  /** xy, F and E. `xy` is the square root of a sum of squares, so it is never NaN and
      squares back to x^2 + y^2; the integrals are undefined on the axis x = y = 0,
      where m is. */
  function Elliptic(lib: Lib, x: real, y: real, sh: Fp<Shared>): (r: Fp<Integrals>)
    ensures r.Finite? <==> sh.Finite? && Transverse2(x, y) != 0.0
    ensures lib.Valid() && r.Finite? ==>
      0.0 <= r.value.xy && r.value.xy * r.value.xy == Transverse2(x, y)
  {
    var s :- sh;
    var xy := Sqrt(lib, Transverse2(x, y)).value;
    var arg2 :- EllipticParameter(x, y);
    Finite(Integrals(xy, lib.ellipkinc(s.alp, arg2), lib.ellipeinc(s.alp, arg2)))
  }

  /** kappa^2 - beta^2 (1+x)^2 sin^2(2 alpha), the denominator that the last three
      terms of `psi_x` and of `psi_y` share. */
  function Retardation(x: real, beta: real, s: Shared): real {
    s.kap * s.kap - beta * beta * (1.0 + x) * (1.0 + x) * (s.sin2a * s.sin2a)
  }

  /** f1 = 2 + 2x + x^2 and f2 = (2 + x)^2. */
  function F1(x: real): real {
    2.0 + 2.0 * x + x * x
  }

  function F2(x: real): real {
    (2.0 + x) * (2.0 + x)
  }

  /** The denominator of the last two terms of `psi_x`, without its retardation factor:
      (x^2 + y^2)(y^2 + f2), written in y2 = y^2. */
  function XDenominator(x: real, y2: real): real {
    (x * x + y2) * (y2 + F2(x))
  }

  /** The denominator of the last two terms of `psi_y`, without its retardation factor:
      y^4 + x^2 f2 + 2 y^2 f1, written in y2 = y^2. */
  function YDenominator(x: real, y2: real): real {
    y2 * y2 + x * x * F2(x) + 2.0 * y2 * F1(x)
  }

  /** `psi_s`: defined exactly where its two divisions are. */
  function SEntry(x: real, beta: real, sh: Fp<Shared>): (r: Float)
    ensures r.Finite? <==>
      sh.Finite? && 1.0 + x != 0.0 && sh.value.kap - beta * (1.0 + x) * sh.value.sin2a != 0.0
  {
    var s :- sh;
    var inv :- Div(1.0, 1.0 + x);
    Div(s.cos2a - inv, s.kap - beta * (1.0 + x) * s.sin2a)
  }

  /** `(2/beta2) * F / xy`, the term `psi_phi` returns and `psi_x` subtracts. It is
      finite exactly when F is and neither divisor is zero, and then
      psi_phi xy beta^2 = 2 F. */
  function PhiTerm(beta: real, xy: real, F: Float): (r: Float)
    ensures r.Finite? <==> F.Finite? && beta != 0.0 && xy != 0.0
    ensures r.Finite? ==> r.value * xy * (beta * beta) == 2.0 * F.value
  {
    var f :- F;
    var c :- Div(2.0, beta * beta);
    assert c * (beta * beta) == 2.0;
    var r := Div(c * f, xy);
    assert r.Finite? ==> r.value * xy * (beta * beta) == c * (beta * beta) * f;
    r
  }

  /** `psi_phi`: the phi term of the integrals, which reads F and not E. */
  function PhiEntry(beta: real, el: Fp<Integrals>): (r: Float)
    ensures r.Finite? <==> el.Finite? && el.value.F.Finite? && beta != 0.0 && el.value.xy != 0.0
    ensures r.Finite? ==> r.value * el.value.xy * (beta * beta) == 2.0 * el.value.F.value
  {
    var e :- el;
    PhiTerm(beta, e.xy, e.F)
  }

  /** `psi_x_out`, the five-term x potential before the phi term is taken off; like the
      source it reads y only through y2 = y^2. It needs both integrals, and every one
      of its divisors to be non-zero. */
  function XOut(x: real, y2: real, beta: real, s: Shared, e: Integrals): (r: Float)
    ensures r.Finite? ==>
      && e.F.Finite? && e.E.Finite?
      && 1.0 + x != 0.0 && e.xy != 0.0 && beta != 0.0 && y2 + F2(x) != 0.0
      && Retardation(x, beta, s) != 0.0 && XDenominator(x, y2) != 0.0
  {
    var beta2, xp, x2 := beta * beta, 1.0 + x, x * x;
    var f1, f2 := F1(x), F2(x);
    var ret := Retardation(x, beta, s);
    var F :- e.F;
    var E :- e.E;
    var t1 :- Div(f1 * F, xp * e.xy);
    var t2 :- Div((x2 * f2 + y2 * f1) * E, xp * (y2 + f2) * e.xy);
    var t3 :- Div(s.kap * s.kap - 2.0 * beta2 * (xp * xp) + beta2 * xp * f1 * s.cos2a,
                  beta * xp * ret);
    var t4 :- Div(s.kap * ((y2 * y2) - x2 * f2 - 2.0 * beta2 * y2 * (xp * xp)) * s.sin2a,
                  XDenominator(x, y2) * ret);
    var t5 :- Div(s.kap * beta2 * xp * (x2 * f2 + y2 * f1) * s.sin2a * s.cos2a,
                  XDenominator(x, y2) * ret);
    Finite(t1 - t2 + t3 + t4 + t5)
  }

  /** `psi_x`, the "hat" x potential: `psi_x_out` minus the phi term, so that adding
      `psi_phi` back gives `psi_x_out`. */
  function XEntry(x: real, y: real, beta: real, sh: Fp<Shared>, el: Fp<Integrals>): (r: Float)
    ensures r.Finite? <==>
      sh.Finite? && el.Finite? && XOut(x, y * y, beta, sh.value, el.value).Finite?
      && PhiEntry(beta, el).Finite?
    ensures r.Finite? ==>
      r.value + PhiEntry(beta, el).value == XOut(x, y * y, beta, sh.value, el.value).value
  {
    var s :- sh;
    var e :- el;
    var out :- XOut(x, y * y, beta, s, e);
    Finite(out - PhiEntry(beta, el).value)
  }

  /** The bracket of `psi_y`, the five terms its prefactor y multiplies; it reads y only
      through y2 = y^2. It needs both integrals, and every one of its divisors to be
      non-zero. */
  function YBracket(x: real, y2: real, beta: real, s: Shared, e: Integrals): (r: Float)
    ensures r.Finite? ==>
      && e.F.Finite? && e.E.Finite? && e.xy != 0.0 && y2 + F2(x) != 0.0
      && Retardation(x, beta, s) != 0.0 && YDenominator(x, y2) != 0.0
  {
    var beta2, xp, x2 := beta * beta, 1.0 + x, x * x;
    var f2 := F2(x);
    var ret := Retardation(x, beta, s);
    var F :- e.F;
    var E :- e.E;
    var u1 :- Div(F, e.xy);
    var u2 :- Div((x * (2.0 + x) + y2) * E, (y2 + f2) * e.xy);
    var u3 :- Div(beta * (1.0 - xp * s.cos2a), ret);
    var u4 :- Div(s.kap * xp * (-(2.0 + beta2) * y2 + (-2.0 + beta2) * x * (2.0 + x)) * s.sin2a,
                  YDenominator(x, y2) * ret);
    var u5 :- Div(s.kap * beta2 * (xp * xp) * (y2 + x * (2.0 + x)) * s.sin2a * s.cos2a,
                  YDenominator(x, y2) * ret);
    Finite(u1 - u2 - u3 + u4 + u5)
  }

  /** `psi_y`: its prefactor y makes it vanish in the midplane y = 0 wherever the
      bracket is defined. */
  function YEntry(x: real, y: real, beta: real, sh: Fp<Shared>, el: Fp<Integrals>): (r: Float)
    ensures r.Finite? <==>
      sh.Finite? && el.Finite? && YBracket(x, y * y, beta, sh.value, el.value).Finite?
    ensures y == 0.0 && r.Finite? ==> r.value == 0.0
  {
    var s :- sh;
    var e :- el;
    var bracket :- YBracket(x, y * y, beta, s, e);
    Finite(y * bracket)
  }

  /** The keys `psi_calc` fills for a list of requested component names: one per
      recognised letter, any other name contributing nothing. */
  function Keys(components: seq<string>): set<string> {
    (if "s" in components then {"psi_s"} else {})
    + (if "x" in components then {"psi_x"} else {})
    + (if "phi" in components then {"psi_phi"} else {})
    + (if "y" in components then {"psi_y"} else {})
  }

  /** The dictionary for the requested names, given the value of each component. */
  function Select(components: seq<string>, s: Float, x: Float, phi: Float, y: Float)
    : map<string, Float>
  {
    map key | key in Keys(components) ::
      if key == "psi_s" then s else if key == "psi_x" then x else if key == "psi_phi" then phi else y
  }

  /** The dictionary `psi_calc` returns: one entry per recognised requested name. */
  function Potential(lib: Lib, x: real, y: real, z: real, beta: real, components: seq<string>)
    : (r: map<string, Float>)
    ensures r.Keys == Keys(components)
  {
    var sh := Common(lib, x, y, z, beta);
    var el := Elliptic(lib, x, y, sh);
    Select(components, SEntry(x, beta, sh), XEntry(x, y, beta, sh, el), PhiEntry(beta, el),
      YEntry(x, y, beta, sh, el))
  }

  /** `psi_calc`: builds the dictionary one guarded insertion at a time, returning
      right after `psi_s` when 's' is the only name requested. `ellipticCalls` counts
      the evaluations of `ellipkinc` and `ellipeinc`: none on that short path, two
      (shared by x, phi and y) on every other. */
  method PsiCalc(lib: Lib, x: real, y: real, z: real, beta: real, components: seq<string>)
    returns (potential: map<string, Float>, ghost ellipticCalls: nat)
    ensures potential == Potential(lib, x, y, z, beta, components)
    ensures ellipticCalls == if components == ["s"] then 0 else 2
  {
    potential := map[];
    ellipticCalls := 0;
    var sh := Common(lib, x, y, z, beta);
    var psiS := SEntry(x, beta, sh);
    // Ghost only: the entries the later steps would compute, which `SelectOnlyS`
    // needs to name the declarative dictionary on the short path. Nothing here is
    // evaluated at run time.
    ghost var lateEl := Elliptic(lib, x, y, sh);
    ghost var lateX, latePhi, lateY :=
      XEntry(x, y, beta, sh, lateEl), PhiEntry(beta, lateEl), YEntry(x, y, beta, sh, lateEl);
    if "s" in components {
      potential := potential["psi_s" := psiS];
      if |components| == 1 {
        assert components == ["s"];
        SelectOnlyS(psiS, lateX, latePhi, lateY);
        return;
      }
    }
    // `Elliptic` calls `ellipkinc` and `ellipeinc` once each
    var el := Elliptic(lib, x, y, sh); ellipticCalls := ellipticCalls + 2;
    var psiX, psiPhi, psiY := XEntry(x, y, beta, sh, el), PhiEntry(beta, el), YEntry(x, y, beta, sh, el);
    if "x" in components {
      potential := potential["psi_x" := psiX];
    }
    if "phi" in components {
      potential := potential["psi_phi" := psiPhi];
    }
    if "y" in components {
      potential := potential["psi_y" := psiY];
    }
    SelectSteps(components, psiS, psiX, psiPhi, psiY, potential);
  }

  lemma SelectOnlyS(s: Float, x: Float, phi: Float, y: Float)
    ensures Select(["s"], s, x, phi, y) == map["psi_s" := s]
  {
    assert Keys(["s"]) == {"psi_s"};
  }

  lemma SelectSteps(components: seq<string>, s: Float, x: Float, phi: Float, y: Float,
                    m: map<string, Float>)
    requires m == (var m1 := if "s" in components then map["psi_s" := s] else map[];
                   var m2 := if "x" in components then m1["psi_x" := x] else m1;
                   var m3 := if "phi" in components then m2["psi_phi" := phi] else m2;
                   if "y" in components then m3["psi_y" := y] else m3)
    ensures m == Select(components, s, x, phi, y)
  {
  }

  /** `psi_x(x, y, z, beta)`. */
  method PsiX(lib: Lib, x: real, y: real, z: real, beta: real) returns (r: Float)
    ensures forall cs :: "x" in cs ==> Potential(lib, x, y, z, beta, cs)["psi_x"] == r
  {
    var potential, _ := PsiCalc(lib, x, y, z, beta, ["x"]);
    r := potential["psi_x"];
  }

  /** `psi_y(x, y, z, beta)`. */
  method PsiY(lib: Lib, x: real, y: real, z: real, beta: real) returns (r: Float)
    ensures forall cs :: "y" in cs ==> Potential(lib, x, y, z, beta, cs)["psi_y"] == r
  {
    var potential, _ := PsiCalc(lib, x, y, z, beta, ["y"]);
    r := potential["psi_y"];
  }

  /** `psi_s(x, y, z, beta)`. */
  method PsiS(lib: Lib, x: real, y: real, z: real, beta: real) returns (r: Float)
    ensures forall cs :: "s" in cs ==> Potential(lib, x, y, z, beta, cs)["psi_s"] == r
  {
    var potential, _ := PsiCalc(lib, x, y, z, beta, ["s"]);
    r := potential["psi_s"];
  }

  /** `psi_phi(x, y, z, beta)`. */
  method PsiPhi(lib: Lib, x: real, y: real, z: real, beta: real) returns (r: Float)
    ensures forall cs :: "phi" in cs ==> Potential(lib, x, y, z, beta, cs)["psi_phi"] == r
  {
    var potential, _ := PsiCalc(lib, x, y, z, beta, ["phi"]);
    r := potential["psi_phi"];
  }

  // ---------------------------------------------------------------------------
  // Properties of the dictionary

  /** The returned keys are exactly `psi_<c>` for the recognised names c that were
      requested, whatever else the list holds. */
  lemma PotentialKeys(lib: Lib, x: real, y: real, z: real, beta: real, components: seq<string>)
    ensures var p := Potential(lib, x, y, z, beta, components);
      && ("psi_s" in p <==> "s" in components)
      && ("psi_x" in p <==> "x" in components)
      && ("psi_phi" in p <==> "phi" in components)
      && ("psi_y" in p <==> "y" in components)
      && p.Keys <= {"psi_s", "psi_x", "psi_phi", "psi_y"}
  {
  }

  /** A requested name other than 's', 'x', 'phi' and 'y' changes nothing: it is
      ignored without an error. */
  lemma {:induction false} UnknownNamesIgnored(lib: Lib, x: real, y: real, z: real, beta: real,
                                               components: seq<string>, name: string)
    requires name != "s" && name != "x" && name != "phi" && name != "y"
    ensures Potential(lib, x, y, z, beta, components + [name])
         == Potential(lib, x, y, z, beta, components)
  {
    forall c | c in ["s", "x", "phi", "y"]
      ensures c in components + [name] <==> c in components
    {
      assert c in components + [name] <==> c in components || c == name;
    }
    assert Keys(components + [name]) == Keys(components);
  }

  /** The "hat" convention: when 'x' and 'phi' are both requested, `psi_x + psi_phi` is
      the full five-term x potential `psi_x_out`, and `psi_x` is finite exactly when
      both of those are. */
  lemma HatConvention(lib: Lib, x: real, y: real, z: real, beta: real, components: seq<string>)
    requires "x" in components && "phi" in components
    ensures var p := Potential(lib, x, y, z, beta, components);
      var sh := Common(lib, x, y, z, beta);
      var el := Elliptic(lib, x, y, sh);
      && "psi_x" in p && "psi_phi" in p
      && (p["psi_x"].Finite? <==>
            el.Finite? && XOut(x, y * y, beta, sh.value, el.value).Finite? && p["psi_phi"].Finite?)
      && (p["psi_x"].Finite? ==>
            p["psi_x"].value + p["psi_phi"].value == XOut(x, y * y, beta, sh.value, el.value).value)
  {
  }

  /** `psi_phi` reads F and not E: a library whose `ellipeinc` differs, even one that
      only ever returns NaN, gives the same `psi_phi`. */
  lemma {:induction false} PhiIgnoresE(lib: Lib, ellipeinc: (real, real) -> Float, x: real, y: real,
                                       z: real, beta: real, components: seq<string>)
    requires "phi" in components
    ensures Potential(lib.(ellipeinc := ellipeinc), x, y, z, beta, components)["psi_phi"]
         == Potential(lib, x, y, z, beta, components)["psi_phi"]
  {
    var other := lib.(ellipeinc := ellipeinc);
    CommonReadsRoots(lib, other, x, y, z, beta);
    var sh := Common(lib, x, y, z, beta);
    PhiReadsF(lib, other, x, y, sh, beta);
    PhiSelected(other, x, y, z, beta, components);
    PhiSelected(lib, x, y, z, beta, components);
  }

  lemma {:induction false} CommonReadsRoots(lib: Lib, other: Lib, x: real, y: real, z: real, beta: real)
    requires other.sqrt == lib.sqrt && other.cbrt == lib.cbrt
    requires other.sin == lib.sin && other.cos == lib.cos
    ensures Common(other, x, y, z, beta) == Common(lib, x, y, z, beta)
  {
    AlphaReadsRoots(lib, other, x, y, z, beta * beta);
  }

  lemma {:induction false} PhiReadsF(lib: Lib, other: Lib, x: real, y: real, sh: Fp<Shared>, beta: real)
    requires other.sqrt == lib.sqrt && other.ellipkinc == lib.ellipkinc
    ensures PhiEntry(beta, Elliptic(other, x, y, sh)) == PhiEntry(beta, Elliptic(lib, x, y, sh))
  {
    var el, el' := Elliptic(lib, x, y, sh), Elliptic(other, x, y, sh);
    assert el'.Finite? <==> el.Finite?;
    if el.Finite? {
      assert el'.value.xy == el.value.xy && el'.value.F == el.value.F;
      PhiEntryReadsF(beta, el.value, el'.value);
    }
  }

  lemma PhiEntryReadsF(beta: real, e: Integrals, e': Integrals)
    requires e'.xy == e.xy && e'.F == e.F
    ensures PhiEntry(beta, Finite(e')) == PhiEntry(beta, Finite(e))
  {
    assert PhiEntry(beta, Finite(e)) == PhiTerm(beta, e.xy, e.F);
  }

  /** The `psi_phi` entry of the dictionary, when requested. */
  lemma PhiSelected(lib: Lib, x: real, y: real, z: real, beta: real, components: seq<string>)
    requires "phi" in components
    ensures Potential(lib, x, y, z, beta, components)["psi_phi"]
         == PhiEntry(beta, Elliptic(lib, x, y, Common(lib, x, y, z, beta)))
  {
  }

  /** y^4 + x^2 f2 + 2 y^2 f1 = (x^2 + y^2)(y^2 + f2): the last two terms of `psi_y`
      divide by the same polynomial as those of `psi_x`. */
  lemma {:induction false} DenominatorsAgree(x: real, y2: real)
    ensures YDenominator(x, y2) == XDenominator(x, y2)
  {
    var a := x * x;
    assert F2(x) == 4.0 + 4.0 * x + a;
    assert XDenominator(x, y2) == (a + y2) * (y2 + 4.0 + 4.0 * x + a);
    assert YDenominator(x, y2) == y2 * y2 + a * (4.0 + 4.0 * x + a) + 2.0 * y2 * (2.0 + 2.0 * x + a);
  }

  /** On the physical domain x > -1 that shared polynomial is non-negative and vanishes
      only on the axis x = y = 0, where the elliptic parameter is undefined too. */
  lemma {:induction false} DenominatorVanishesOnAxis(x: real, y: real)
    requires 1.0 + x > 0.0
    ensures XDenominator(x, y * y) == 0.0 <==> Transverse2(x, y) == 0.0
    ensures XDenominator(x, y * y) >= 0.0
  {
    var t, g := Transverse2(x, y), y * y + F2(x);
    assert XDenominator(x, y * y) == t * g;
    assert 0.0 < g by {
      MulPos(2.0 + x, 2.0 + x);
    }
    ProductZero(t, g);
    if 0.0 < t {
      MulPos(t, g);
    }
  }

  /** On the axis every component that uses the elliptic integrals is non-finite. */
  lemma AxisSingular(lib: Lib, x: real, y: real, z: real, beta: real, components: seq<string>)
    requires Transverse2(x, y) == 0.0
    ensures var p := Potential(lib, x, y, z, beta, components);
      && ("x" in components ==> p["psi_x"] == NonFinite)
      && ("phi" in components ==> p["psi_phi"] == NonFinite)
      && ("y" in components ==> p["psi_y"] == NonFinite)
  {
  }

  /** Mirror symmetry about the bend plane: y enters alpha, kappa, the elliptic
      integrals and every denominator only through y^2, so reflecting y leaves
      `psi_s`, `psi_x` and `psi_phi` unchanged and reverses the sign of `psi_y`. */
  lemma {:induction false} MidplaneSymmetry(lib: Lib, x: real, y: real, z: real, beta: real,
                                            components: seq<string>)
    ensures var p, q := Potential(lib, x, y, z, beta, components),
                        Potential(lib, x, -y, z, beta, components);
      && p.Keys == q.Keys
      && ("s" in components ==> q["psi_s"] == p["psi_s"])
      && ("x" in components ==> q["psi_x"] == p["psi_x"])
      && ("phi" in components ==> q["psi_phi"] == p["psi_phi"])
      && ("y" in components ==> (q["psi_y"].Finite? <==> p["psi_y"].Finite?))
      && ("y" in components && p["psi_y"].Finite? ==> q["psi_y"].value == -p["psi_y"].value)
  {
    CommonEven(lib, x, y, z, beta);
    var sh := Common(lib, x, y, z, beta);
    EllipticEven(lib, x, y, sh);
    var el := Elliptic(lib, x, y, sh);
    XEntryEven(x, y, beta, sh, el);
    YEntryOdd(x, y, beta, sh, el);
  }

  /** alpha, kappa and the trigonometric terms depend on y only through y^2. */
  lemma {:induction false} CommonEven(lib: Lib, x: real, y: real, z: real, beta: real)
    ensures Common(lib, x, -y, z, beta) == Common(lib, x, y, z, beta)
  {
    assert (-y) * (-y) == y * y;
    assert Depressed(x, -y, z, beta * beta) == Depressed(x, y, z, beta * beta);
    assert ZeroCoefficients(x, -y, beta * beta) == ZeroCoefficients(x, y, beta * beta);
    assert Alpha(lib, x, -y, z, beta * beta) == Alpha(lib, x, y, z, beta * beta);
  }

  /** So do xy and the elliptic integrals. */
  lemma {:induction false} EllipticEven(lib: Lib, x: real, y: real, sh: Fp<Shared>)
    ensures Elliptic(lib, x, -y, sh) == Elliptic(lib, x, y, sh)
  {
    assert Transverse2(x, -y) == Transverse2(x, y);
  }

  /** So does `psi_x`. */
  lemma {:induction false} XEntryEven(x: real, y: real, beta: real, sh: Fp<Shared>, el: Fp<Integrals>)
    ensures XEntry(x, -y, beta, sh, el) == XEntry(x, y, beta, sh, el)
  {
    assert (-y) * (-y) == y * y;
  }

  /** `psi_y` is its prefactor y times a bracket that depends on y only through y^2. */
  lemma {:induction false} YEntryOdd(x: real, y: real, beta: real, sh: Fp<Shared>, el: Fp<Integrals>)
    ensures YEntry(x, -y, beta, sh, el).Finite? <==> YEntry(x, y, beta, sh, el).Finite?
    ensures YEntry(x, y, beta, sh, el).Finite? ==>
      YEntry(x, -y, beta, sh, el).value == -YEntry(x, y, beta, sh, el).value
  {
    assert (-y) * (-y) == y * y;
    if sh.Finite? && el.Finite? {
      var b := YBracket(x, y * y, beta, sh.value, el.value);
      if b.Finite? {
        assert (-y) * b.value == -(y * b.value);
      }
    }
  }
}
