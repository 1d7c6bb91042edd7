# CSR3D wake potentials in Dafny

This project models the analytic core of PyCSR3D. PyCSR3D evaluates the wake
potentials of coherent synchrotron radiation from a bunch in a bending magnet. Three
parts are modelled:

- **The retarded angle alpha** (`csr3d/core.py`).
  - alpha is a root of a depressed quartic in coordinates scaled by the bend radius.
  - On the axis z = 0 the source solves a quadratic in alpha².
  - Elsewhere it uses Cardano's formula for a resolvent cubic and one of Ferrari's
    quadratic factors.
  - For an array of z, a fresh output array is filled in place from the two index
    groups `np.where` returns.
- **The potential dictionary** (`csr3d/core.py`, `psi_calc` and its wrappers).
  - The keys `psi_s`, `psi_x`, `psi_phi` and `psi_y` are inserted one guarded step at
    a time.
  - There is a short path for `psi_s` alone, which never evaluates the elliptic
    integrals.
  - The "hat" convention: `psi_x` has the `psi_phi` term subtracted.
- **The Green mesh** (`csr3d/wake.py`).
  - `symmetric_vec` builds the coordinate vectors.
  - `green_mesh` normalises the spacings by |rho| and mirrors x when rho < 0.
  - It then builds an 'ij' meshgrid, dispatches on the component name, and fails on
    unknown names.

## How numbers are modelled

Arithmetic is exact (`real`). A value is `Finite(v)` or `NonFinite`. `NonFinite` marks
an evaluation in which numpy would have met an infinity or a NaN: a zero divisor, or
the square root of a negative number. Every later step propagates `NonFinite`.

The numeric library is a parameter `Lib`:

- From numpy: `sqrt`, `cbrt`, `sin` and `cos`.
- From scipy: `ellipkinc` and `ellipeinc`, which may themselves return NaN.

`Lib.Valid()` states the only laws the proofs use:

- `sqrt` is the non-negative square root on non-negative arguments.
- `cbrt` cubes back to its argument.

Lemmas that need these laws require `lib.Valid()`.

## Notes on the source

- The comment at `csr3d/core.py:176-177` says the discarded root is negative "since
  b > 0". b is not always positive: b ≤ 0 when beta2 (1 + x) ≥ 1. The discarded root is
  still never positive, because c ≤ 0 on the physical domain x > -1.
  `AlphaSolver.DiscardedRoot` proves both readings.
- `psi_calc` ignores any requested name other than 's', 'x', 'phi' and 'y', and raises
  no error for it (`csr3d/core.py:57-107`); see `PotentialEvaluator.UnknownNamesIgnored`.
- The docstring of `green_mesh` promises a tuple of grids and coordinate vectors. The
  code returns the single grid for the requested component. The model follows the
  code.

## Model

| member | source | states |
|---|---|---|
| AlphaSolver.Alpha | csr3d/core.py:182-200 | scalar `alpha`: the on-axis branch exactly when z == 0, the general one otherwise; a finite result needs beta2 ≠ 0 and 1 + x ≠ 0 (both branches divide by them), and it is ≥ 0 for z ≥ 0 |
| AlphaSolver.AlphaZero | csr3d/core.py:166-179 | `alpha_where_z_equals_zero`: sqrt of the larger root of r² + br + c; finite only for beta2 ≠ 0 and 1 + x ≠ 0, and never negative |
| AlphaSolver.LargerRootAngle | csr3d/core.py:175-179 | sqrt((-b + sqrt(b² - 4c))/2): finite only when the discriminant is ≥ 0, and never negative |
| AlphaSolver.AlphaGeneral | csr3d/core.py:135-163 | `alpha_where_z_not_zero`: coefficients, Cardano's m, then Ferrari's root; finite only for beta2 ≠ 0 and 1 + x ≠ 0, and ≥ 0 for z > 0 |
| AlphaSolver.Resolvent | csr3d/core.py:149-155 | Cardano's m = -nu/3 + P/omega3 + omega3: NaN exactly when the radicand of line 151 is negative or Omega is zero |
| AlphaSolver.Depressed | csr3d/core.py:144-147 | the quartic's coefficients are defined exactly when beta2 ≠ 0 and 1 + x ≠ 0 |
| AlphaSolver.ZeroCoefficients | csr3d/core.py:171-173 | the on-axis coefficients b and c are defined exactly when beta2 ≠ 0 and 1 + x ≠ 0 |
| AlphaSolver.ZeroConstantSign | csr3d/core.py:173 | for x > -1, c ≤ 0, and c < 0 whenever x² + y² > 0 |
| AlphaSolver.ZeroCoefficientsAreQuartic | csr3d/core.py:171-173 | the on-axis quadratic is the general quartic at z = 0: b = nu (the commented form on line 171), c = zeta, eta = 0 |
| AlphaSolver.KeptRoot | csr3d/core.py:175 | root1 = (-b + sqrt(b² - 4c))/2 solves r² + br + c = 0, and root1 ≥ 0 when c ≤ 0 |
| AlphaSolver.DiscardedRoot | csr3d/core.py:176-177 | the discarded root is ≤ 0 when c ≤ 0, and < 0 when b > 0 or c < 0 |
| AlphaSolver.LargerRootSolves | csr3d/core.py:175-179 | for c ≤ 0 the returned angle is finite and non-negative, and solves a⁴ + ba² + c = 0 |
| AlphaSolver.LargerRootOnly | csr3d/core.py:175-179 | for c < 0 the real roots of a⁴ + ba² + c are exactly ± the returned angle |
| AlphaSolver.AlphaZeroSolvesQuartic | csr3d/core.py:166-179 | for x > -1 and beta2 ≠ 0 the on-axis branch is finite and non-negative, and is a root of the depressed quartic at z = 0 |
| AlphaSolver.AlphaZeroOnlyRoots | csr3d/core.py:166-179 | off the transverse origin, ± alpha are the only real roots of that quartic |
| AlphaSolver.Arg1 | csr3d/core.py:157 | the abs guard keeps arg1 defined: it is the non-negative square root of 2 abs(m) |
| AlphaSolver.Combine | csr3d/core.py:157-163 | the last step is finite exactly when m ≠ 0 (the only divisor), and its result is ≥ 0 when z > 0 |
| AlphaSolver.CardanoRoot | csr3d/core.py:150-155 | with omega3³ = temp + sqrt(temp² - p³), y = omega3 + p/omega3 solves y³ - 3py - 2·temp = 0 |
| AlphaSolver.ResolventSolvesCubic | csr3d/core.py:149-155 | a finite m from Cardano's formula is a root of the resolvent cubic 8m³ + 8νm² + (2ν² - 8ζ)m - η² |
| AlphaSolver.ResolventProduct | csr3d/core.py:155-159 | for a positive root m of the resolvent, the two Ferrari factors' constants multiply to zeta |
| AlphaSolver.CombineSolvesQuartic | csr3d/core.py:157-163 | for a positive root m, when the last abs is inactive, the result is a real root of the quartic |
| AlphaSolver.AlphaSolvesQuartic | csr3d/core.py:182-200 | for scalar z both branches of alpha return a root of the same quartic: always on the axis (with alpha ≥ 0), and off it when m > 0 and the last abs is inactive |
| AlphaArrays.Gather | csr3d/core.py:210-221 | x[ix] holds x at each gathered index; a scalar is passed to both groups unchanged |
| AlphaArrays.WhereFrom | csr3d/core.py:203-204 | np.where gives exactly the indices where (z == 0) has the requested value, in increasing order |
| AlphaArrays.WhereSplits | csr3d/core.py:203-204 | the sizes of ix1 and ix2 add up to the number of points, so together they name each index once |
| AlphaArrays.ZeroBranch | csr3d/core.py:223 | `alpha_where_z_equals_zero(x1, y1, beta2)` on the gathered points: one value per point, entry k being the on-axis branch at point k |
| AlphaArrays.GeneralBranch | csr3d/core.py:224 | `alpha_where_z_not_zero(x2, y2, z[ix2], beta2)`: one value per point of z[ix2], entry k being the general branch at point k |
| AlphaArrays.Scatter | csr3d/core.py:223-224 | out[ix] = vals writes vals[k] to cell ix[k] and leaves every other cell as it was |
| AlphaArrays.AlphaArray | csr3d/core.py:194-225 | the result is fresh, has z's length, and each cell equals scalar alpha at that point: the on-axis branch exactly where z[i] == 0 |
| PotentialEvaluator.Common | csr3d/core.py:47-55 | beta2, alpha, kappa, sin(2 alpha), cos(2 alpha): when finite, beta ≠ 0, alpha is scalar `alpha` at beta², and kappa·beta = 2(alpha - z) |
| PotentialEvaluator.Elliptic | csr3d/core.py:65-79 | xy, F and E: defined exactly off the axis (when alpha is), with xy ≥ 0 and xy² = x² + y²; F and E are each kept as the library returns them, NaN or not |
| PotentialEvaluator.SEntry | csr3d/core.py:58 | psi_s = (cos2a - 1/(1+x)) / (kappa - beta(1+x) sin2a): finite exactly when alpha is and neither divisor is zero |
| PotentialEvaluator.PhiTerm | csr3d/core.py:91 | (2/beta2)·F/xy: finite exactly when F is and beta, xy ≠ 0, and then psi_phi·xy·beta² = 2F |
| PotentialEvaluator.PhiEntry | csr3d/core.py:96 | psi_phi is that term of the integrals; it reads F and not E |
| PotentialEvaluator.XOut | csr3d/core.py:86-89 | the five terms of psi_x_out: when finite, F and E are, and every divisor (1 + x, xy, beta, y² + f2, the retardation factor, (x² + y²)(y² + f2)) is non-zero |
| PotentialEvaluator.XEntry | csr3d/core.py:91 | psi_x is finite exactly when psi_x_out and psi_phi are, and then psi_x + psi_phi = psi_x_out |
| PotentialEvaluator.YBracket | csr3d/core.py:101-106 | the five terms inside psi_y: when finite, F and E are, and every divisor (xy, y² + f2, the retardation factor, y⁴ + x²f2 + 2y²f1) is non-zero |
| PotentialEvaluator.YEntry | csr3d/core.py:100-107 | psi_y = y times the bracket: finite exactly when the bracket is, and 0 in the midplane y = 0 |
| PotentialEvaluator.Potential | csr3d/core.py:40-110 | the dictionary `psi_calc` returns; its keys are exactly psi_c for the recognised requested names c |
| PotentialEvaluator.PhiIgnoresE | csr3d/core.py:94-96 | replacing the library's `ellipeinc` by any other function, even one that is always NaN, leaves psi_phi unchanged |
| PotentialEvaluator.EllipticParameter | csr3d/core.py:76 | arg2 = -4(1+x)/(x²+y²) is defined exactly off the axis |
| PotentialEvaluator.PsiCalc | csr3d/core.py:40-110 | the step-by-step dictionary equals the declarative one; the elliptic integrals are evaluated only when components is not ['s'] |
| PotentialEvaluator.PsiX | csr3d/core.py:113-114 | psi_x equals the psi_x entry of every psi_calc call that requests 'x' |
| PotentialEvaluator.PsiY | csr3d/core.py:116-117 | psi_y equals the psi_y entry of every psi_calc call that requests 'y' |
| PotentialEvaluator.PsiS | csr3d/core.py:119-120 | psi_s equals the psi_s entry of every psi_calc call that requests 's' |
| PotentialEvaluator.PsiPhi | csr3d/core.py:122-123 | psi_phi equals the psi_phi entry of every psi_calc call that requests 'phi' |
| PotentialEvaluator.PotentialKeys | csr3d/core.py:57-107 | the key psi_c is present exactly when c is requested, for c in s, x, phi, y, and no other key appears |
| PotentialEvaluator.UnknownNamesIgnored | csr3d/core.py:57-107 | appending an unrecognised name leaves the dictionary unchanged |
| PotentialEvaluator.HatConvention | csr3d/core.py:86-96 | with 'x' and 'phi' requested, psi_x + psi_phi = psi_x_out, and psi_x is finite exactly when psi_x_out and psi_phi are |
| PotentialEvaluator.DenominatorsAgree | csr3d/core.py:86-105 | the psi_y denominator y⁴ + x²f2 + 2y²f1 equals the psi_x denominator (x² + y²)(y² + f2) |
| PotentialEvaluator.DenominatorVanishesOnAxis | csr3d/core.py:65-89 | for x > -1 that shared denominator is ≥ 0 and vanishes exactly on the axis x = y = 0 |
| PotentialEvaluator.AxisSingular | csr3d/core.py:70-79 | on the axis the requested psi_x, psi_phi and psi_y entries are non-finite |
| PotentialEvaluator.MidplaneSymmetry | csr3d/core.py:47-107 | reflecting y keeps the key set and the psi_s, psi_x and psi_phi values, and negates psi_y |
| PotentialEvaluator.YEntryOdd | csr3d/core.py:100-107 | psi_y is odd in y: the prefactor y times a bracket that reads y only through y² |
| GreenMeshBuilder.Arange | csr3d/wake.py:14 | np.arange(lo, hi) has max(hi - lo, 0) entries and entry i is lo + i |
| GreenMeshBuilder.SymmetricVec | csr3d/wake.py:9-14 | `np.arange(-n+1, n+1, 1)*d`, with 2n entries (none when n ≤ 0) |
| GreenMeshBuilder.SymmetricVecEntries | csr3d/wake.py:9-14 | symmetric_vec(n, d) has 2n entries (none when n ≤ 0), and entry i is (i - n + 1)·d |
| GreenMeshBuilder.SymmetricVecEnds | csr3d/wake.py:11-14 | the centre 0 is at index n - 1, the first entry is -(n-1)·d and the last is n·d |
| GreenMeshBuilder.SymmetricVecMirror | csr3d/wake.py:11-14 | the entries k places either side of index n - 1 are opposite |
| GreenMeshBuilder.Meshgrid | csr3d/wake.py:65 | 'ij' indexing: grid k at [i0][i1][i2] holds vecs[k][i_k], and the shape is the three vector lengths |
| GreenMeshBuilder.Tabulate | csr3d/wake.py:69-75 | the kernel is evaluated independently at every cell, on that cell's three coordinates |
| GreenMeshBuilder.ScaleCube | csr3d/wake.py:71 | rho_sign times the grid scales every cell; non-finite cells stay non-finite |
| GreenMeshBuilder.MeshCoordinates | csr3d/wake.py:57-65 | the built meshes hold the closed-form coordinates: sign(rho)(i - nx + 1)dx/abs(rho), (j - ny + 1)dy/abs(rho), (k - nz + 1)dz/(2 abs(rho)) |
| GreenMeshBuilder.GreenMeshWithSpeed | csr3d/wake.py:50-81 | the body of `green_mesh` for a given value handed to `psi_s`: rho = 0 fails on the first division before the component is checked; an unknown component fails with its name; otherwise the grid is (2nx, 2ny, 2nz) and every cell is the kernel at its closed-form point, times rho_sign for 'x' |
| GreenMeshBuilder.GreenMesh | csr3d/wake.py:16-81 | `green_mesh` as written: the same errors and shape, and every 's' cell is `psi_s` at the cell's point with gamma itself in the place of beta (line 75) |
| GreenMeshBuilder.GreenMeshFromGamma | csr3d/wake.py:16-81 | `green_mesh` with line 75 corrected: the same errors, shape and 'x'/'y' cells, and every 's' cell is `psi_s` with beta = sqrt(1 - 1/γ²) |
| GreenMeshBuilder.BendMirror | csr3d/wake.py:50-75 | for either mesh, rho = -R mirrors the mesh in x: cell n-1-a holds the rho = R values of cell n-1+a for 's' and 'y', and their negation for 'x' |
| GreenMeshBuilder.CentreCell | csr3d/wake.py:63-75 | for every component and either mesh, the cell at index n - 1 in every direction is that component's kernel at the origin |
| GreenMeshBuilder.SpeedFromGamma | csr3d/wake.py:75 | beta = sqrt(1 - 1/γ²) is defined exactly when γ² ≥ 1; it then satisfies 0 ≤ beta < 1 and beta²γ² = γ² - 1 |
| GreenMeshBuilder.SpeedBelowLight | csr3d/wake.py:75 | for every gamma > 1 the derived speed satisfies 0 < beta < 1 |
| GreenMeshBuilder.CentreAngleAsWritten | csr3d/wake.py:75 | in `GreenMesh` with gamma = 2, the centre 's' cell is psi_s at the origin with beta = 2, and its retarded angle is 3/2 |
| GreenMeshBuilder.CentreAngleFromGamma | csr3d/wake.py:75 | in `GreenMeshFromGamma` with any gamma > 1, the centre 's' cell is psi_s at the origin with the derived beta, and its retarded angle is 0 |

## Findings

| source | as written | input that shows it | evidently intended | confidence | as-written member | corrected member |
|---|---|---|---|---|---|---|
| csr3d/wake.py:75 | `psi_s(*meshes, gamma)` passes the Lorentz factor gamma to `psi_s`. That parameter is the speed beta (`csr3d/core.py:119`), and beta2 = beta² enters alpha. | gamma = 2 at the mesh centre (0, 0, 0): beta2 = 4, the on-axis quadratic is r² - (9/4)r = 0, root1 = 9/4, so alpha = 3/2 | pass beta = sqrt(1 - 1/γ²), which lies in (0, 1) for γ > 1; alpha at the centre is then 0 | medium; not executed | GreenMeshBuilder.CentreAngleAsWritten | GreenMeshBuilder.CentreAngleFromGamma |

`GreenMeshBuilder.Spacings` (`csr3d/wake.py:57-60`), `GreenMeshBuilder.Kernel`
(`csr3d/wake.py:69-75`) and `GreenMeshBuilder.Cell` are the closed forms that the
`GreenMeshWithSpeed`, `MeshCoordinates`, `BendMirror` and `CentreCell` rows state their
results in.

`GreenMeshBuilder.GreenMesh` builds the mesh as written. `GreenMeshBuilder.GreenMeshFromGamma`
builds it with the corrected speed. Both share the body `GreenMeshBuilder.GreenMeshWithSpeed`.

## Left out

- Floating-point rounding and the exact infinities and NaNs.
  - `NonFinite` records that a non-finite value arose. It does not record which one.
  - It also does not record the rare finite results numpy can still reach from one,
    such as a finite number divided by an infinity.
- Python scalars raise `ZeroDivisionError` where numpy arrays give an infinity.
  - Inside `alpha` and `psi_calc` both are modelled as `NonFinite`.
  - In `green_mesh`, a zero rho is modelled as the `DivisionByZero` error.
- The meaning of `sin`, `cos`, `ellipkinc` and `ellipeinc`: these stay uninterpreted
  fields of `Lib`.
  - Nothing is claimed about the values of the potentials beyond their algebraic
    structure.
- AlphaSolver.AlphaSolvesQuartic: off the axis the root property is proved only when
  Cardano's m is positive and the last `abs` leaves its argument unchanged.
  - When the radicand at `csr3d/core.py:151` is negative, the model gives `NonFinite`.
  - When the `abs` guards are active, the returned value need not solve the quartic,
    and the model does not claim that it does.
- That the closed-form alpha is the physical retardation root, its accuracy, and its
  continuity as z tends to 0.
- `alpha_exact` (`csr3d/core.py:228-242`). It is a numerical root finder in scipy.
- The debug `print` at `csr3d/core.py:206-208`, which is output only.
- General numpy broadcasting.
  - Array z is one-dimensional; an n-dimensional array is its row-major flattening.
  - A scalar z with array x or y is not modelled.
- The default `components=['x', 'y', 's']` of `psi_calc` (`csr3d/core.py:40`) and the
  default `component='s'` of `green_mesh` (`csr3d/wake.py:16`). Dafny has no default
  arguments; every caller passes the value.
- `psi_calc` with `components` given as a string. There Python's `in` tests for
  substrings; the model takes a list of names.
- `psi_x0` and `psi_y0` are not part of this model. `green_mesh` calls them, and they
  are parameters (`Kernels`).
  - They are taken to act cell by cell on the mesh arrays, as every function of
    `csr3d/core.py` does. `GreenMeshBuilder.BendMirror` and
    `GreenMeshBuilder.CentreCell` rely on this for 'x' and 'y'.
- The `offset` argument of `green_mesh`. Its values are never read, but the `zip` at
  `csr3d/wake.py:63` stops at its end, so an `offset` with fewer than three entries
  drops mesh axes. The model takes its length to be 3 and leaves it out.
- The commented-out `psi_s` at `csr3d/core.py:17-36`.
- The `None` defaults of `rho` and `gamma`.
  - A missing rho fails at once, at `np.sign(None)` (`csr3d/wake.py:51`).
  - A missing gamma is not read by `csr3d/wake.py:51-65`. An unknown component still
    raises `ValueError` (`UnknownComponent` in the model). Only the kernels at
    `csr3d/wake.py:71-75` receive the None; for 's' it fails at `beta**2`
    (`csr3d/core.py:47`).
  - The model takes rho and gamma as numbers.
