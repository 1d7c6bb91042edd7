/** `alpha` on an array of z values (csr3d/core.py, the array path of `alpha`).

    The points are split by `np.where` into those on the axis (z == 0) and the
    rest; each group is solved by its own branch, vectorised, and the results are
    written back into a fresh output array at the group's indices. Arrays are
    one-dimensional here: numpy's `where` on an n-dimensional array enumerates the
    same cells in row-major order. */
module AlphaArrays {
  import opened Numerics
  import opened AlphaSolver

  /** An argument that is either one number shared by every point, or an array with
      one number per point (numpy's two cases: a scalar, or an `np.ndarray`). */
  datatype Operand = Scalar(v: real) | PerPoint(vs: seq<real>)

  /** The operand can be indexed at every one of `n` points. */
  predicate Conforms(o: Operand, n: nat) {
    o.PerPoint? ==> |o.vs| == n
  }

  /** The operand's value at point `i`. */
  function At(o: Operand, i: nat): real
    requires o.PerPoint? ==> i < |o.vs|
  {
    match o
    case Scalar(v) => v
    case PerPoint(vs) => vs[i]
  }

  /** Fancy indexing `o[ix]` of an array operand; a scalar is passed on unchanged. */
  function Gather(o: Operand, ix: seq<nat>): (r: Operand)
    requires o.PerPoint? ==> forall k :: 0 <= k < |ix| ==> ix[k] < |o.vs|
    ensures Conforms(r, |ix|)
    ensures forall k :: 0 <= k < |ix| ==> At(r, k) == At(o, ix[k])
  {
    match o
    case Scalar(v) => Scalar(v)
    case PerPoint(vs) => PerPoint(seq(|ix|, k requires 0 <= k < |ix| => vs[ix[k]]))
  }

  /** A sequence of indices in strictly increasing order, as `np.where` returns. */
  predicate Increasing(ix: seq<nat>) {
    forall j, k :: 0 <= j < k < |ix| ==> ix[j] < ix[k]
  }

  /** The indices i >= lo of `z` at which `z[i] == 0` has the value `onAxis`, in
      increasing order: `np.where(on_x_axis)` and `np.where(~on_x_axis)`. */
  function WhereFrom(z: seq<real>, onAxis: bool, lo: nat): (r: seq<nat>)
    requires lo <= |z|
    ensures forall i :: i in r <==> lo <= i < |z| && (z[i] == 0.0) == onAxis
    ensures forall k :: 0 <= k < |r| ==> lo <= r[k] < |z|
    ensures Increasing(r)
    decreases |z| - lo
  {
    if lo == |z| then []
    else if (z[lo] == 0.0) == onAxis then [lo] + WhereFrom(z, onAxis, lo + 1)
    else WhereFrom(z, onAxis, lo + 1)
  }

  function Where(z: seq<real>, onAxis: bool): seq<nat> {
    WhereFrom(z, onAxis, 0)
  }

  /** The two index sets of `alpha` split the points: between them they name each
      point exactly once, so every cell of the output is written exactly once. */
  lemma {:induction false} WhereSplits(z: seq<real>, lo: nat)
    requires lo <= |z|
    ensures |WhereFrom(z, true, lo)| + |WhereFrom(z, false, lo)| == |z| - lo
    decreases |z| - lo
  {
    if lo < |z| {
      WhereSplits(z, lo + 1);
    }
  }

  /** `alpha_where_z_equals_zero` applied elementwise to gathered operands. */
  function ZeroBranch(lib: Lib, x1: Operand, y1: Operand, n: nat, beta2: real): (r: seq<Float>)
    requires Conforms(x1, n) && Conforms(y1, n)
    ensures |r| == n
    ensures forall k :: 0 <= k < n ==> r[k] == AlphaZero(lib, At(x1, k), At(y1, k), beta2)
  {
    seq(n, k requires 0 <= k < n => AlphaZero(lib, At(x1, k), At(y1, k), beta2))
  }

  /** `alpha_where_z_not_zero` applied elementwise to gathered operands. */
  function GeneralBranch(lib: Lib, x2: Operand, y2: Operand, z2: seq<real>, beta2: real)
    : (r: seq<Float>)
    requires Conforms(x2, |z2|) && Conforms(y2, |z2|)
    ensures |r| == |z2|
    ensures forall k :: 0 <= k < |z2| ==>
      r[k] == AlphaGeneral(lib, At(x2, k), At(y2, k), z2[k], beta2)
  {
    seq(|z2|, k requires 0 <= k < |z2| => AlphaGeneral(lib, At(x2, k), At(y2, k), z2[k], beta2))
  }

  /** The fancy assignment `out[ix] = vals`: the cells named by `ix` receive the values
      in order, every other cell keeps its value. */
  method Scatter(out: array<Float>, ix: seq<nat>, vals: seq<Float>)
    requires |ix| == |vals| && Increasing(ix)
    requires forall k :: 0 <= k < |ix| ==> ix[k] < out.Length
    modifies out
    ensures forall k :: 0 <= k < |ix| ==> out[ix[k]] == vals[k]
    ensures forall i :: 0 <= i < out.Length && i !in ix ==> out[i] == old(out[i])
  {
    forall k | 0 <= k < |ix| {
      out[ix[k]] := vals[k];
    }
  }

  /** `alpha` on an array z: every cell of the result is what scalar `alpha` gives on
      that point, whichever of the two groups the point fell into. */
  method AlphaArray(lib: Lib, x: Operand, y: Operand, z: array<real>, beta2: real)
    returns (out: array<Float>)
    requires Conforms(x, z.Length) && Conforms(y, z.Length)
    ensures fresh(out) && out.Length == z.Length
    ensures forall i :: 0 <= i < z.Length ==> out[i] == Alpha(lib, At(x, i), At(y, i), z[i], beta2)
  {
    var zs := z[..];
    var ix1 := Where(zs, true);
    var ix2 := Where(zs, false);
    out := new Float[z.Length];
    var x1, x2 := Gather(x, ix1), Gather(x, ix2);
    var y1, y2 := Gather(y, ix1), Gather(y, ix2);
    var z2 := seq(|ix2|, k requires 0 <= k < |ix2| => zs[ix2[k]]);
    Scatter(out, ix1, ZeroBranch(lib, x1, y1, |ix1|, beta2));
    ghost var afterFirst := out[..];
    Scatter(out, ix2, GeneralBranch(lib, x2, y2, z2, beta2));
    forall i | 0 <= i < z.Length
      ensures out[i] == Alpha(lib, At(x, i), At(y, i), z[i], beta2)
    {
      if z[i] == 0.0 {
        assert i in ix1;
        var k :| 0 <= k < |ix1| && ix1[k] == i;
        assert afterFirst[i] == AlphaZero(lib, At(x, i), At(y, i), beta2);
        assert i !in ix2;
      } else {
        assert i in ix2;
        var k :| 0 <= k < |ix2| && ix2[k] == i;
        assert z2[k] == z[i];
      }
    }
  }
}
