/** Green-function meshes (csr3d/wake.py, `symmetric_vec` and `green_mesh`).

    A charge mesh of shape (nx, ny, nz) with spacings (dx, dy, dz) gets a Green
    function tabulated on a mesh twice its size in every direction, centred on the
    origin, in coordinates scaled by the bend radius |rho|. A negative rho (a bend the
    other way) mirrors the x axis. */
module GreenMeshBuilder {
  import opened Numerics
  import opened AlphaSolver
  import opened PotentialEvaluator

  // ---------------------------------------------------------------------------
  // Coordinate vectors

  /** `np.arange(lo, hi, 1)`: the integers from lo up to, not including, hi. */
  function Arange(lo: int, hi: int): (r: seq<int>)
    ensures |r| == if lo < hi then hi - lo else 0
    ensures forall i :: 0 <= i < |r| ==> r[i] == lo + i
    decreases hi - lo
  {
    if hi <= lo then [] else [lo] + Arange(lo + 1, hi)
  }

  /** An integer vector times a spacing, as numpy multiplies an array by a number. */
  function ScaleInts(v: seq<int>, d: real): (r: seq<real>)
    ensures |r| == |v|
    ensures forall i :: 0 <= i < |v| ==> r[i] == v[i] as real * d
  {
    seq(|v|, i requires 0 <= i < |v| => v[i] as real * d)
  }

  /** `symmetric_vec(n, d)`. */
  function SymmetricVec(n: int, d: real): (r: seq<real>)
    ensures |r| == if n > 0 then 2 * n else 0
  {
    ScaleInts(Arange(-n + 1, n + 1), d)
  }

  /** The vector has length 2n (none for n <= 0), and entry i is (i - n + 1) d. */
  lemma SymmetricVecEntries(n: int, d: real)
    ensures |SymmetricVec(n, d)| == if n > 0 then 2 * n else 0
    ensures forall i :: 0 <= i < |SymmetricVec(n, d)| ==>
      SymmetricVec(n, d)[i] == (i - n + 1) as real * d
  {
  }

  /** The centre 0 sits at index n - 1, the first entry is -(n - 1) d and the last n d. */
  lemma SymmetricVecEnds(n: int, d: real)
    requires n >= 1
    ensures SymmetricVec(n, d)[n - 1] == 0.0
    ensures SymmetricVec(n, d)[0] == -((n - 1) as real * d)
    ensures SymmetricVec(n, d)[2 * n - 1] == n as real * d
  {
  }

  /** The vector is symmetric about its centre: the k-th entries either side of index
      n - 1 are opposite. */
  lemma SymmetricVecMirror(n: int, d: real, k: int)
    requires 0 <= k <= n - 1
    ensures SymmetricVec(n, d)[n - 1 - k] == -SymmetricVec(n, d)[n - 1 + k]
  {
  }

  /** An entry-wise multiple of a real vector (`rho_sign*vecs[0]`). */
  function ScaleReals(v: seq<real>, c: real): (r: seq<real>)
    ensures |r| == |v|
    ensures forall i :: 0 <= i < |v| ==> r[i] == c * v[i]
  {
    seq(|v|, i requires 0 <= i < |v| => c * v[i])
  }

  // ---------------------------------------------------------------------------
  // Three-dimensional grids

  /** A grid indexed [i][j][k], as a numpy array of three dimensions. */
  type Cube<T> = seq<seq<seq<T>>>

  ghost predicate IsCube<T>(c: Cube<T>, n0: nat, n1: nat, n2: nat) {
    && |c| == n0
    && (forall i :: 0 <= i < n0 ==> |c[i]| == n1)
    && (forall i, j :: 0 <= i < n0 && 0 <= j < n1 ==> |c[i][j]| == n2)
  }

  /** `np.meshgrid(vx, vy, vz, indexing='ij')`: three grids of shape
      (|vx|, |vy|, |vz|) whose cell [i][j][k] holds vx[i], vy[j] and vz[k]. */
  function Meshgrid(vx: seq<real>, vy: seq<real>, vz: seq<real>)
    : (m: (Cube<real>, Cube<real>, Cube<real>))
    ensures IsCube(m.0, |vx|, |vy|, |vz|)
    ensures IsCube(m.1, |vx|, |vy|, |vz|)
    ensures IsCube(m.2, |vx|, |vy|, |vz|)
    ensures forall i, j, k :: 0 <= i < |vx| && 0 <= j < |vy| && 0 <= k < |vz| ==>
      m.0[i][j][k] == vx[i] && m.1[i][j][k] == vy[j] && m.2[i][j][k] == vz[k]
  {
    var n0, n1, n2 := |vx|, |vy|, |vz|;
    (seq(n0, i requires 0 <= i < n0 => seq(n1, j requires 0 <= j < n1 => seq(n2, k => vx[i]))),
     seq(n0, i => seq(n1, j requires 0 <= j < n1 => seq(n2, k => vy[j]))),
     seq(n0, i => seq(n1, j => seq(n2, k requires 0 <= k < n2 => vz[k]))))
  }

  /** A kernel evaluated cell by cell on the three coordinate grids, as numpy evaluates
      it on the arrays `*meshes`. */
  function Tabulate(m: (Cube<real>, Cube<real>, Cube<real>), n0: nat, n1: nat, n2: nat,
                    f: (real, real, real) -> Float): (c: Cube<Float>)
    requires IsCube(m.0, n0, n1, n2) && IsCube(m.1, n0, n1, n2) && IsCube(m.2, n0, n1, n2)
    ensures IsCube(c, n0, n1, n2)
    ensures forall i, j, k :: 0 <= i < n0 && 0 <= j < n1 && 0 <= k < n2 ==>
      c[i][j][k] == f(m.0[i][j][k], m.1[i][j][k], m.2[i][j][k])
  {
    seq(n0, i requires 0 <= i < n0 =>
      seq(n1, j requires 0 <= j < n1 =>
        seq(n2, k requires 0 <= k < n2 => f(m.0[i][j][k], m.1[i][j][k], m.2[i][j][k]))))
  }

  /** A number times a value that may be infinite or NaN: those stay non-finite. */
  function Times(c: real, v: Float): Float {
    match v
    case Finite(u) => Finite(c * u)
    case NonFinite => NonFinite
  }

  /** `rho_sign*psi_x0(...)`: every cell of a grid times a number. */
  function ScaleCube(g: Cube<Float>, n0: nat, n1: nat, n2: nat, c: real): (r: Cube<Float>)
    requires IsCube(g, n0, n1, n2)
    ensures IsCube(r, n0, n1, n2)
    ensures forall i, j, k :: 0 <= i < n0 && 0 <= j < n1 && 0 <= k < n2 ==>
      r[i][j][k] == Times(c, g[i][j][k])
  {
    seq(n0, i requires 0 <= i < n0 =>
      seq(n1, j requires 0 <= j < n1 =>
        seq(n2, k requires 0 <= k < n2 => Times(c, g[i][j][k]))))
  }

  // ---------------------------------------------------------------------------
  // Kernels

  /** `psi_x0` and `psi_y0`, which `green_mesh` calls with the mesh coordinates, gamma
      and the scaled spacings; their definitions are not part of this model, so they
      are parameters. */
  datatype Kernels = Kernels(
    x0: (real, real, real, real, real, real, real) -> Float,
    y0: (real, real, real, real, real, real, real) -> Float)

  /** `psi_s(x, y, z, beta)`, the value `PsiS` returns. */
  function SKernel(lib: Lib, x: real, y: real, z: real, beta: real): Float {
    SEntry(x, beta, Common(lib, x, y, z, beta))
  }

  /** beta = sqrt(1 - 1/gamma^2), the speed that belongs to a Lorentz factor gamma. It is
      defined exactly when gamma^2 >= 1, and it is then a speed below that of light. */
  function SpeedFromGamma(lib: Lib, gamma: real): (r: Float)
    ensures r.Finite? <==> gamma * gamma >= 1.0
    ensures lib.Valid() && r.Finite? ==>
      && 0.0 <= r.value < 1.0
      && r.value * r.value * (gamma * gamma) == gamma * gamma - 1.0
  {
    if gamma * gamma < 1.0 then NonFinite
    else
      var g := gamma * gamma;
      var inv := 1.0 / g;
      assert 0.0 < inv <= 1.0 by {
        assert inv * g == 1.0;
        if inv > 1.0 {
          MulPos(inv - 1.0, g);
        }
      }
      var r := Sqrt(lib, 1.0 - inv);
      assert lib.Valid() ==> r.value < 1.0 && r.value * r.value * g == g - 1.0 by {
        if lib.Valid() {
          var b := r.value;
          assert b * b == 1.0 - inv;
          assert b * b * g == g - inv * g;
          assert b * b < 1.0;
        }
      }
      r
  }

  /** The 's' kernel for the value handed to `psi_s` as its speed, which may itself be
      NaN (the derived speed of a gamma below 1). */
  function SKernelAt(lib: Lib, x: real, y: real, z: real, speed: Float): Float {
    var beta :- speed;
    SKernel(lib, x, y, z, beta)
  }

  /** The three component names `green_mesh` accepts. */
  predicate IsComponent(component: string) {
    component == "x" || component == "y" || component == "s"
  }

  /** The kernel for a component at a mesh point, in scaled coordinates: `psi_x0` times
      rho_sign for 'x', `psi_y0` for 'y', both called with gamma, and `psi_s` called with
      `speed` for 's'. */
  function Kernel(lib: Lib, kernels: Kernels, component: string, rhoSign: real, gamma: real,
                  speed: Float, dx: real, dy: real, dz: real, x: real, y: real, z: real): Float
  {
    if component == "x" then Times(rhoSign, kernels.x0(x, y, z, gamma, dx, dy, dz))
    else if component == "y" then kernels.y0(x, y, z, gamma, dx, dy, dz)
    else SKernelAt(lib, x, y, z, speed)
  }

  // ---------------------------------------------------------------------------
  // green_mesh

  /** The ways `green_mesh` fails: dividing a spacing by rho = 0, or a component name it
      does not know (`ValueError`). */
  datatype MeshError = DivisionByZero | UnknownComponent(name: string)

  datatype Result<T> = Ok(value: T) | Err(error: MeshError)

  /** The number of mesh points along an axis with n charge-mesh points. */
  function Doubled(n: int): nat {
    if n > 0 then 2 * n else 0
  }

  /** The spacings in scaled coordinates: dx/|rho|, dy/|rho| and dz/(2|rho|). */
  function Spacings(deltas: (real, real, real), rho: real): (real, real, real)
    requires rho != 0.0
  {
    (deltas.0 / Abs(rho), deltas.1 / Abs(rho), deltas.2 / (2.0 * Abs(rho)))
  }

  /** The x coordinate of mesh index i: entry i of the x vector, mirrored when rho < 0. */
  function XCoord(shape: (int, int, int), deltas: (real, real, real), rho: real, i: int): real
    requires rho != 0.0
  {
    Sign(rho) * ((i - shape.0 + 1) as real * Spacings(deltas, rho).0)
  }

  function YCoord(shape: (int, int, int), deltas: (real, real, real), rho: real, j: int): real
    requires rho != 0.0
  {
    (j - shape.1 + 1) as real * Spacings(deltas, rho).1
  }

  function ZCoord(shape: (int, int, int), deltas: (real, real, real), rho: real, k: int): real
    requires rho != 0.0
  {
    (k - shape.2 + 1) as real * Spacings(deltas, rho).2
  }

  /** The closed form of cell [i][j][k] of a Green mesh: the kernel at the scaled point of
      that index. */
  function Cell(lib: Lib, kernels: Kernels, shape: (int, int, int), deltas: (real, real, real),
                rho: real, gamma: real, speed: Float, component: string, i: int, j: int, k: int)
    : Float
    requires rho != 0.0
  {
    var d := Spacings(deltas, rho);
    Kernel(lib, kernels, component, Sign(rho), gamma, speed, d.0, d.1, d.2,
      XCoord(shape, deltas, rho, i), YCoord(shape, deltas, rho, j), ZCoord(shape, deltas, rho, k))
  }

  /** The three coordinate grids `green_mesh` builds hold the closed-form coordinates. */
  lemma {:induction false} MeshCoordinates(shape: (int, int, int), deltas: (real, real, real),
                                           rho: real, i: int, j: int, k: int)
    requires rho != 0.0
    requires 0 <= i < Doubled(shape.0) && 0 <= j < Doubled(shape.1) && 0 <= k < Doubled(shape.2)
    ensures var d := Spacings(deltas, rho);
      var m := Meshgrid(ScaleReals(SymmetricVec(shape.0, d.0), Sign(rho)),
                        SymmetricVec(shape.1, d.1), SymmetricVec(shape.2, d.2));
      && m.0[i][j][k] == XCoord(shape, deltas, rho, i)
      && m.1[i][j][k] == YCoord(shape, deltas, rho, j)
      && m.2[i][j][k] == ZCoord(shape, deltas, rho, k)
  {
    var d := Spacings(deltas, rho);
    SymmetricVecEntries(shape.0, d.0);
    SymmetricVecEntries(shape.1, d.1);
    SymmetricVecEntries(shape.2, d.2);
  }

  /** The body of `green_mesh`, with the value it hands to `psi_s` as its speed made a
      parameter. A zero rho fails on the first division, before the component is looked
      at; an unknown component fails with its name; otherwise the result has twice the
      charge mesh's extent in every direction and holds the closed-form `Cell` at every
      index. */
  method GreenMeshWithSpeed(lib: Lib, kernels: Kernels, shape: (int, int, int),
                            deltas: (real, real, real), rho: real, gamma: real, speed: Float,
                            component: string)
    returns (result: Result<Cube<Float>>)
    ensures rho == 0.0 ==> result == Err(DivisionByZero)
    ensures rho != 0.0 && !IsComponent(component) ==> result == Err(UnknownComponent(component))
    ensures rho != 0.0 && IsComponent(component) ==>
      && result.Ok?
      && IsCube(result.value, Doubled(shape.0), Doubled(shape.1), Doubled(shape.2))
      && forall i, j, k :: 0 <= i < Doubled(shape.0) && 0 <= j < Doubled(shape.1)
                           && 0 <= k < Doubled(shape.2) ==>
           result.value[i][j][k] == Cell(lib, kernels, shape, deltas, rho, gamma, speed, component, i, j, k)
  {
    var rhoSign := Sign(rho);
    var r := Abs(rho);
    var nx, ny, nz := shape.0, shape.1, shape.2;
    var dx, dy, dz := deltas.0, deltas.1, deltas.2;
    if r == 0.0 {
      return Err(DivisionByZero);
    }
    dx := dx / r;
    dy := dy / r;
    dz := dz / (2.0 * r);
    var vecs := [SymmetricVec(nx, dx), SymmetricVec(ny, dy), SymmetricVec(nz, dz)];
    vecs := vecs[0 := ScaleReals(vecs[0], rhoSign)];
    SymmetricVecEntries(nx, dx);
    SymmetricVecEntries(ny, dy);
    SymmetricVecEntries(nz, dz);
    var n0, n1, n2 := Doubled(nx), Doubled(ny), Doubled(nz);
    var meshes := Meshgrid(vecs[0], vecs[1], vecs[2]);
    var green: Cube<Float>;
    if component == "x" {
      var raw := Tabulate(meshes, n0, n1, n2, (a, b, c) => kernels.x0(a, b, c, gamma, dx, dy, dz));
      green := ScaleCube(raw, n0, n1, n2, rhoSign);
    } else if component == "y" {
      green := Tabulate(meshes, n0, n1, n2, (a, b, c) => kernels.y0(a, b, c, gamma, dx, dy, dz));
    } else if component == "s" {
      green := Tabulate(meshes, n0, n1, n2, (a, b, c) => SKernelAt(lib, a, b, c, speed));
    } else {
      return Err(UnknownComponent(component));
    }
    assert (dx, dy, dz) == Spacings(deltas, rho);
    forall i, j, k | 0 <= i < n0 && 0 <= j < n1 && 0 <= k < n2
      ensures green[i][j][k] == Cell(lib, kernels, shape, deltas, rho, gamma, speed, component, i, j, k)
    {
      MeshCoordinates(shape, deltas, rho, i, j, k);
    }
    result := Ok(green);
  }

  /** `green_mesh(density_shape, deltas, rho, gamma, component)` as written:
      `psi_s(*meshes, gamma)` hands the Lorentz factor gamma itself to the parameter
      that `psi_s` reads as the speed beta. */
  method GreenMesh(lib: Lib, kernels: Kernels, shape: (int, int, int), deltas: (real, real, real),
                   rho: real, gamma: real, component: string)
    returns (result: Result<Cube<Float>>)
    ensures rho == 0.0 ==> result == Err(DivisionByZero)
    ensures rho != 0.0 && !IsComponent(component) ==> result == Err(UnknownComponent(component))
    ensures rho != 0.0 && IsComponent(component) ==>
      && result.Ok?
      && IsCube(result.value, Doubled(shape.0), Doubled(shape.1), Doubled(shape.2))
      && forall i, j, k :: 0 <= i < Doubled(shape.0) && 0 <= j < Doubled(shape.1)
                           && 0 <= k < Doubled(shape.2) ==>
           result.value[i][j][k]
             == Cell(lib, kernels, shape, deltas, rho, gamma, Finite(gamma), component, i, j, k)
  {
    result := GreenMeshWithSpeed(lib, kernels, shape, deltas, rho, gamma, Finite(gamma), component);
  }

  /** `green_mesh` with the speed sqrt(1 - 1/gamma^2) that belongs to gamma handed to
      `psi_s`; the 'x' and 'y' components are those of `GreenMesh`. */
  method GreenMeshFromGamma(lib: Lib, kernels: Kernels, shape: (int, int, int),
                            deltas: (real, real, real), rho: real, gamma: real, component: string)
    returns (result: Result<Cube<Float>>)
    ensures rho == 0.0 ==> result == Err(DivisionByZero)
    ensures rho != 0.0 && !IsComponent(component) ==> result == Err(UnknownComponent(component))
    ensures rho != 0.0 && IsComponent(component) ==>
      && result.Ok?
      && IsCube(result.value, Doubled(shape.0), Doubled(shape.1), Doubled(shape.2))
      && forall i, j, k :: 0 <= i < Doubled(shape.0) && 0 <= j < Doubled(shape.1)
                           && 0 <= k < Doubled(shape.2) ==>
           result.value[i][j][k] == Cell(lib, kernels, shape, deltas, rho, gamma,
                                         SpeedFromGamma(lib, gamma), component, i, j, k)
  {
    result := GreenMeshWithSpeed(lib, kernels, shape, deltas, rho, gamma,
                                 SpeedFromGamma(lib, gamma), component);
  }

  /** Bend-direction symmetry, for the mesh as written and the corrected one alike:
      reversing the bend (rho = -R instead of R) mirrors the mesh in x. Cell n - 1 - a along x of the reversed mesh holds the 's' and 'y' values of
      cell n - 1 + a of the original, and the negated 'x' value. */
  lemma {:induction false} BendMirror(lib: Lib, kernels: Kernels, shape: (int, int, int),
                                      deltas: (real, real, real), R: real, gamma: real,
                                      speed: Float, component: string, a: int, j: int, k: int)
    requires R > 0.0 && IsComponent(component)
    ensures var mirrored := Cell(lib, kernels, shape, deltas, -R, gamma, speed, component,
                                 shape.0 - 1 - a, j, k);
      var original := Cell(lib, kernels, shape, deltas, R, gamma, speed, component,
                           shape.0 - 1 + a, j, k);
      if component == "x" then
        (mirrored.Finite? <==> original.Finite?) &&
        (mirrored.Finite? ==> mirrored.value == -original.value)
      else mirrored == original
  {
    assert Abs(-R) == R && Sign(-R) == -1.0 && Sign(R) == 1.0;
    assert Spacings(deltas, -R) == Spacings(deltas, R);
    var dx := Spacings(deltas, R).0;
    assert XCoord(shape, deltas, -R, shape.0 - 1 - a) == -1.0 * ((-a) as real * dx);
    assert XCoord(shape, deltas, R, shape.0 - 1 + a) == 1.0 * (a as real * dx);
    assert XCoord(shape, deltas, -R, shape.0 - 1 - a) == XCoord(shape, deltas, R, shape.0 - 1 + a);
    assert YCoord(shape, deltas, -R, j) == YCoord(shape, deltas, R, j);
    assert ZCoord(shape, deltas, -R, k) == ZCoord(shape, deltas, R, k);
  }

  /** The mesh centre: the cell at index n - 1 in every direction sits at the origin, for
      every component and whatever speed `psi_s` is handed. */
  lemma {:induction false} CentreCell(lib: Lib, kernels: Kernels, shape: (int, int, int),
                                      deltas: (real, real, real), rho: real, gamma: real,
                                      speed: Float, component: string)
    requires rho != 0.0 && IsComponent(component)
    ensures var d := Spacings(deltas, rho);
      Cell(lib, kernels, shape, deltas, rho, gamma, speed, component, shape.0 - 1, shape.1 - 1, shape.2 - 1)
      == Kernel(lib, kernels, component, Sign(rho), gamma, speed, d.0, d.1, d.2, 0.0, 0.0, 0.0)
  {
    var d := Spacings(deltas, rho);
    assert XCoord(shape, deltas, rho, shape.0 - 1) == Sign(rho) * (0.0 * d.0) == 0.0;
    assert YCoord(shape, deltas, rho, shape.1 - 1) == 0.0 * d.1 == 0.0;
    assert ZCoord(shape, deltas, rho, shape.2 - 1) == 0.0 * d.2 == 0.0;
  }

  // ---------------------------------------------------------------------------
  // The speed handed to psi_s

  /** As written, gamma = 2 is handed to `psi_s` as beta = 2, and the centre cell of the
      's' mesh is psi_s at the origin with beta2 = 4. Its retarded angle comes out as
      3/2: the on-axis quadratic is r^2 - (9/4) r = 0 and its larger root 9/4 is kept,
      though a point seen from itself has angle 0. */
  lemma {:induction false} CentreAngleAsWritten(lib: Lib, kernels: Kernels, shape: (int, int, int),
                                                deltas: (real, real, real), rho: real)
    requires lib.Valid() && rho != 0.0
    ensures Cell(lib, kernels, shape, deltas, rho, 2.0, Finite(2.0), "s",
                 shape.0 - 1, shape.1 - 1, shape.2 - 1)
         == SKernel(lib, 0.0, 0.0, 0.0, 2.0)
    ensures Common(lib, 0.0, 0.0, 0.0, 2.0).Finite?
    ensures Common(lib, 0.0, 0.0, 0.0, 2.0).value.alp == 1.5
  {
    CentreCell(lib, kernels, shape, deltas, rho, 2.0, Finite(2.0), "s");
    var k := ZeroCoefficients(0.0, 0.0, 2.0 * 2.0).value;
    assert k == Quadratic(-2.25, 0.0);
    assert Discriminant(k) == 2.25 * 2.25;
    SqrtUnique(lib, 2.25 * 2.25, 2.25);
    SqrtUnique(lib, 2.25, 1.5);
    assert LargerRootAngle(lib, k) == Finite(1.5);
    assert Alpha(lib, 0.0, 0.0, 0.0, 2.0 * 2.0) == Finite(1.5);
  }

  /** For every gamma > 1, `SpeedFromGamma` gives a physical speed 0 < beta < 1. */
  lemma {:induction false} SpeedBelowLight(lib: Lib, gamma: real)
    requires lib.Valid() && gamma > 1.0
    ensures SpeedFromGamma(lib, gamma).Finite?
    ensures var beta := SpeedFromGamma(lib, gamma).value;
      0.0 < beta < 1.0 && 0.0 < beta * beta < 1.0
  {
    MulPos(gamma - 1.0, gamma + 1.0);
    var beta := SpeedFromGamma(lib, gamma).value;
    assert beta * beta * (gamma * gamma) == gamma * gamma - 1.0;
    assert beta != 0.0;
    MulPos(beta, beta);
    assert beta * beta < 1.0 by {
      assert beta * beta * (gamma * gamma) < gamma * gamma;
      NonPosFactor(beta * beta - 1.0, gamma * gamma);
    }
  }

  /** With the speed beta derived from gamma > 1, the centre cell of the 's' mesh is
      psi_s at the origin with that beta, and its retarded angle is 0: a source point
      seen from itself. */
  lemma {:induction false} CentreAngleFromGamma(lib: Lib, kernels: Kernels, shape: (int, int, int),
                                                deltas: (real, real, real), rho: real, gamma: real)
    requires lib.Valid() && rho != 0.0 && gamma > 1.0
    ensures SpeedFromGamma(lib, gamma).Finite?
    ensures var beta := SpeedFromGamma(lib, gamma).value;
      && Cell(lib, kernels, shape, deltas, rho, gamma, SpeedFromGamma(lib, gamma), "s",
              shape.0 - 1, shape.1 - 1, shape.2 - 1)
         == SKernel(lib, 0.0, 0.0, 0.0, beta)
      && Common(lib, 0.0, 0.0, 0.0, beta).Finite?
      && Common(lib, 0.0, 0.0, 0.0, beta).value.alp == 0.0
  {
    SpeedBelowLight(lib, gamma);
    var beta := SpeedFromGamma(lib, gamma).value;
    CentreCell(lib, kernels, shape, deltas, rho, gamma, SpeedFromGamma(lib, gamma), "s");
    CentreAngleZero(lib, beta * beta);
    CommonAtCentre(lib, beta);
  }

  /** At the origin, a zero angle gives a zero kappa. */
  lemma {:induction false} CommonAtCentre(lib: Lib, beta: real)
    requires beta != 0.0 && Alpha(lib, 0.0, 0.0, 0.0, beta * beta) == Finite(0.0)
    ensures Common(lib, 0.0, 0.0, 0.0, beta) == Finite(Shared(0.0, 0.0, lib.sin(0.0), lib.cos(0.0)))
  {
    assert Div(2.0 * (0.0 - 0.0), beta) == Finite(0.0);
  }

  /** At the origin with 0 < beta2 < 1 the on-axis quadratic is r^2 + b r = 0 with b > 0;
      its larger root is 0. */
  lemma {:induction false} CentreAngleZero(lib: Lib, b2: real)
    requires lib.Valid() && 0.0 < b2 < 1.0
    ensures Alpha(lib, 0.0, 0.0, 0.0, b2) == Finite(0.0)
  {
    var k := ZeroCoefficients(0.0, 0.0, b2).value;
    assert k.c == 0.0;
    assert k.b == 3.0 * (1.0 - b2) / b2;
    assert k.b > 0.0;
    SqrtUnique(lib, Discriminant(k), k.b);
    SqrtUnique(lib, 0.0, 0.0);
    assert LargerRootAngle(lib, k) == Finite(0.0);
  }
}
