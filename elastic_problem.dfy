/** The built-in elastic test problems: which boundary ids carry Dirichlet
    and Neumann conditions, the values those conditions and the right-hand
    side take per sample row, the parameter overrides of the force problem,
    and the closed-form displacement fields the exact problems compare
    against.

    A boundary sample row is given by the boundary id the mesh reports for
    its global id; the sample coordinates themselves are never read by these
    rules. */
module ElasticProblem {
  import opened Wrappers

  // ---------------------------------------------------------------------------
  // Per-row values

  /** The Dirichlet value of `ElasticProblem::bc` in column `d` for a row
      with boundary id `id`: a pull of 0.25 to the left or right on ids 1 and
      3, and down or up on ids 5 and 6. */
  function ShearValue(id: int, d: nat): real {
    if d == 0 then (if id == 1 then -0.25 else if id == 3 then 0.25 else 0.0)
    else if d == 1 then (if id == 5 then -0.25 else if id == 6 then 0.25 else 0.0)
    else 0.0
  }

  /** The Neumann value of `ElasticForceProblem::neumann_bc` in column `d`:
      the force on id 4, nothing elsewhere. */
  function ForceValue(force: seq<real>, id: int, d: nat): real
    requires d < |force|
  {
    if id == 4 then force[d] else 0.0
  }

  /** The default Dirichlet ids of `ElasticProblem`. */
  const ShearIds: seq<int> := [1, 3, 5, 6]

  /** The default Dirichlet ids of `ElasticProblem` are exactly the ids on
      which its boundary value is non-zero. */
  lemma ShearSupport(id: int)
    ensures (exists d :: 0 <= d < 2 && ShearValue(id, d) != 0.0) <==> id in ShearIds
    ensures forall d: nat :: ShearValue(id, d) != 0.0 ==> id in ShearIds && d < 2
  {
    if id in ShearIds {
      assert id == 1 || id == 3 ==> ShearValue(id, 0) != 0.0;
      assert id == 5 || id == 6 ==> ShearValue(id, 1) != 0.0;
    }
  }

  /** A row never gets a non-zero Dirichlet value in both columns: the x and
      y pulls sit on disjoint ids. */
  lemma ShearOneColumn(id: int)
    ensures ShearValue(id, 0) == 0.0 || ShearValue(id, 1) == 0.0
  {
  }

  /** An all-zero matrix. */
  predicate AllZero(val: array2<real>)
    reads val
  {
    forall i, j :: 0 <= i < val.Length0 && 0 <= j < val.Length1 ==> val[i, j] == 0.0
  }

  /** A force vector updated from a parameter array: its leading entries
      are overwritten, the rest kept. */
  function UpdatedForce(force: seq<real>, ff: seq<real>): (r: seq<real>)
    requires |ff| <= |force|
    ensures |r| == |force|
    ensures forall k :: 0 <= k < |ff| ==> r[k] == ff[k]
    ensures forall k :: |ff| <= k < |force| ==> r[k] == force[k]
  {
    ff + force[|ff|..]
  }

  /** Applying the same force array twice gives what applying it once did,
      and an empty array changes nothing. */
  lemma UpdatedForceIdempotent(force: seq<real>, ff: seq<real>)
    requires |ff| <= |force|
    ensures UpdatedForce(UpdatedForce(force, ff), ff) == UpdatedForce(force, ff)
    ensures UpdatedForce(force, []) == force
  {
    assert force[0..] == force;
  }

  // ---------------------------------------------------------------------------
  // The three problems

  /** `ElasticProblem`: shear-like Dirichlet pulls, no body force. */
  class ElasticProblem {
    var boundaryIds: seq<int>

    constructor()
      ensures boundaryIds == ShearIds
    {
      boundaryIds := ShearIds;
    }

    /** `rhs`: a zero matrix the size of the sample points. */
    method Rhs(rows: nat, cols: nat) returns (val: array2<real>)
      ensures fresh(val)
      ensures val.Length0 == rows && val.Length1 == cols
      ensures AllZero(val)
    {
      val := new real[rows, cols]((i, j) => 0.0);
    }

    /** `bc`: one row per sample, one column per mesh dimension. `ids[i]` is
        the boundary id of sample `i`. */
    method Bc(ids: seq<int>, dim: nat) returns (val: array2<real>)
      requires dim >= 2
      ensures fresh(val)
      ensures val.Length0 == |ids| && val.Length1 == dim
      ensures forall i, d :: 0 <= i < |ids| && 0 <= d < dim ==> val[i, d] == ShearValue(ids[i], d)
    {
      val := new real[|ids|, dim]((i, j) => 0.0);
      for i := 0 to |ids|
        invariant forall r, d :: 0 <= r < i && 0 <= d < dim ==> val[r, d] == ShearValue(ids[r], d)
        invariant forall r, d :: i <= r < |ids| && 0 <= d < dim ==> val[r, d] == 0.0
      {
        if ids[i] == 1 {
          val[i, 0] := -0.25;
        } else if ids[i] == 3 {
          val[i, 0] := 0.25;
        }
        if ids[i] == 5 {
          val[i, 1] := -0.25;
        } else if ids[i] == 6 {
          val[i, 1] := 0.25;
        }
      }
    }
  }

  /** Whether a `force` parameter is present, and whether it is an array. */
  datatype ForceParam = ForceArray(values: seq<real>) | ForceNotArray

  /** The keys `set_parameters` looks for; `None` is an absent key. */
  datatype Params = Params(
    boundaryIds: Option<seq<int>>,
    neumannBoundaryIds: Option<seq<int>>,
    force: Option<ForceParam>)

  /** `ElasticForceProblem`: clamped on id 2, pulled by a force on id 4. */
  class ElasticForceProblem {
    var boundaryIds: seq<int>
    var neumannBoundaryIds: seq<int>
    const force: array<real>

    /** The force vector has three entries. */
    ghost predicate Valid()
      reads this
    {
      force.Length == 3
    }

    constructor()
      ensures Valid() && fresh(force)
      ensures boundaryIds == [2] && neumannBoundaryIds == [4]
      ensures force[..] == [0.1, 0.0, 0.0]
    {
      boundaryIds := [2];
      neumannBoundaryIds := [4];
      var f := new real[3]((k) => 0.0);
      f[0] := 0.1;
      force := f;
    }

    method Rhs(rows: nat, cols: nat) returns (val: array2<real>)
      ensures fresh(val)
      ensures val.Length0 == rows && val.Length1 == cols
      ensures AllZero(val)
    {
      val := new real[rows, cols]((i, j) => 0.0);
    }

    /** `bc`: clamped, so every row is zero; rows on id 2 are zeroed once
        more. */
    method Bc(ids: seq<int>, dim: nat) returns (val: array2<real>)
      ensures fresh(val)
      ensures val.Length0 == |ids| && val.Length1 == dim
      ensures AllZero(val)
    {
      val := new real[|ids|, dim]((i, j) => 0.0);
      for i := 0 to |ids|
        invariant AllZero(val)
      {
        if ids[i] == 2 {
          for d := 0 to dim
            invariant AllZero(val)
          {
            val[i, d] := 0.0;
          }
        }
      }
    }

    /** `neumann_bc`: rows on id 4 get the force, component by component;
        the mesh dimension must not exceed the force's three entries. */
    method NeumannBc(ids: seq<int>, dim: nat) returns (val: array2<real>)
      requires Valid() && dim <= 3
      ensures fresh(val)
      ensures val.Length0 == |ids| && val.Length1 == dim
      ensures forall i, d :: 0 <= i < |ids| && 0 <= d < dim ==> val[i, d] == ForceValue(force[..], ids[i], d)
    {
      val := new real[|ids|, dim]((i, j) => 0.0);
      for i := 0 to |ids|
        invariant forall r, d :: 0 <= r < i && 0 <= d < dim ==> val[r, d] == ForceValue(force[..], ids[r], d)
        invariant forall r, d :: i <= r < |ids| && 0 <= d < dim ==> val[r, d] == 0.0
      {
        if ids[i] == 4 {
          for d := 0 to dim
            invariant forall r, e :: 0 <= r < i && 0 <= e < dim ==> val[r, e] == ForceValue(force[..], ids[r], e)
            invariant forall e :: 0 <= e < d ==> val[i, e] == force[e]
            invariant forall r, e :: i < r < |ids| && 0 <= e < dim ==> val[r, e] == 0.0
          {
            val[i, d] := force[d];
          }
        }
      }
    }

    /** `set_parameters`: each field is replaced only when its key is
        present; an array `force` overwrites the leading entries of the
        force vector, any other `force` value is ignored. */
    method SetParameters(params: Params)
      requires Valid()
      requires params.force.Some? && params.force.value.ForceArray? ==> |params.force.value.values| <= 3
      modifies this, force
      ensures Valid()
      ensures boundaryIds == if params.boundaryIds.Some? then params.boundaryIds.value else old(boundaryIds)
      ensures neumannBoundaryIds == if params.neumannBoundaryIds.Some? then params.neumannBoundaryIds.value
                                    else old(neumannBoundaryIds)
      ensures force[..] == if params.force.Some? && params.force.value.ForceArray?
                           then UpdatedForce(old(force[..]), params.force.value.values)
                           else old(force[..])
    {
      if params.boundaryIds.Some? {
        boundaryIds := CopyIds(params.boundaryIds.value);
      }
      if params.neumannBoundaryIds.Some? {
        neumannBoundaryIds := CopyIds(params.neumannBoundaryIds.value);
      }
      if params.force.Some? && params.force.value.ForceArray? {
        OverwriteForce(params.force.value.values);
      }
    }

    /** Copies the leading entries of a parameter array into the force
        vector, one by one. */
    method OverwriteForce(ff: seq<real>)
      requires Valid() && |ff| <= 3
      modifies force
      ensures force[..] == UpdatedForce(old(force[..]), ff)
    {
      ghost var before := force[..];
      for k := 0 to |ff|
        invariant force[..] == UpdatedForce(before, ff[..k])
      {
        force[k] := ff[k];
      }
      assert ff[..|ff|] == ff;
    }
  }

  /** Resizes a list to the parameter array and copies it entry by entry. */
  method CopyIds(j: seq<int>) returns (ids: seq<int>)
    ensures ids == j
  {
    ids := [];
    for i := 0 to |j|
      invariant ids == j[..i]
    {
      ids := ids + [j[i]];
    }
    assert j[..|j|] == j;
  }

  /** `ElasticProblemZeroBC`: clamped on all six ids, a constant body
      force along the second axis. */
  class ElasticProblemZeroBC {
    var boundaryIds: seq<int>

    constructor()
      ensures boundaryIds == [1, 2, 3, 4, 5, 6]
    {
      boundaryIds := [1, 2, 3, 4, 5, 6];
    }

    /** `rhs`: 0.5 in the second column, zero elsewhere. */
    method Rhs(rows: nat, cols: nat) returns (val: array2<real>)
      requires cols >= 2
      ensures fresh(val)
      ensures val.Length0 == rows && val.Length1 == cols
      ensures forall i, j :: 0 <= i < rows && 0 <= j < cols ==> val[i, j] == if j == 1 then 0.5 else 0.0
    {
      val := new real[rows, cols]((i, j) => 0.0);
      for i := 0 to rows
        invariant forall r, j :: 0 <= r < rows && 0 <= j < cols ==>
                    val[r, j] == if j == 1 && r < i then 0.5 else 0.0
      {
        val[i, 1] := 0.5;
      }
    }

    /** `bc`: every row zero; rows with a positive id are zeroed once more. */
    method Bc(ids: seq<int>, dim: nat) returns (val: array2<real>)
      ensures fresh(val)
      ensures val.Length0 == |ids| && val.Length1 == dim
      ensures AllZero(val)
    {
      val := new real[|ids|, dim]((i, j) => 0.0);
      for i := 0 to |ids|
        invariant AllZero(val)
      {
        if ids[i] > 0 {
          for d := 0 to dim
            invariant AllZero(val)
          {
            val[i, d] := 0.0;
          }
        }
      }
    }
  }

  // ---------------------------------------------------------------------------
  // Closed-form solutions

  /** The four closed-form displacement fields. */
  datatype Exact = Cubic | Compression | Quadratic | Linear

  /** The numerators shared by the cubic field and its compression variant. */
  function CubicNumerator2(x: real, y: real): (v: seq<real>)
    ensures |v| == 2
  {
    [y * y * y + x * x + x * y, 3.0 * x * x * x * x + x * y * y + x]
  }

  function CubicNumerator3(x: real, y: real, z: real): (v: seq<real>)
    ensures |v| == 3
  {
    [x * y + x * x + y * y * y + 6.0 * z,
     z * x - z * z * z + x * y * y + 3.0 * x * x * x * x,
     x * y * z + z * z * y * y - 2.0 * x]
  }

  function Divided(v: seq<real>, c: real): (r: seq<real>)
    requires c != 0.0
    ensures |r| == |v|
    ensures forall k :: 0 <= k < |v| ==> r[k] == v[k] / c
  {
    seq(|v|, k requires 0 <= k < |v| => v[k] / c)
  }

  function Field2(kind: Exact, x: real, y: real): (v: seq<real>)
    ensures |v| == 2
  {
    match kind
    case Cubic => Divided(CubicNumerator2(x, y), 50.0)
    case Compression => Divided(CubicNumerator2(x, y), -20.0)
    case Quadratic => [-(y * y + x * x + x * y) / 50.0, -(3.0 * x * x + y) / 50.0]
    case Linear => [-(y + x) / 50.0, -(3.0 * x + y) / 50.0]
  }

  function Field3(kind: Exact, x: real, y: real, z: real): (v: seq<real>)
    ensures |v| == 3
  {
    match kind
    case Cubic => Divided(CubicNumerator3(x, y, z), 80.0)
    case Compression => Divided(CubicNumerator3(x, y, z), -14.0)
    case Quadratic => [-(y * y + x * x + x * y + z * y) / 50.0,
                       -(3.0 * x * x + y + z * z) / 50.0,
                       -(x * z + y * y - 2.0 * z) / 50.0]
    case Linear => [-(y + x + z) / 50.0, -(3.0 * x + y - z) / 50.0, -(x + y - 2.0 * z) / 50.0]
  }

  /** `eval_fun`: the 2D field for a point with two coordinates, the 3D field
      for three; any other size is a failed assertion, modelled as `None`. */
  function EvalFun(kind: Exact, pt: seq<real>): (r: Option<seq<real>>)
    ensures r.Some? <==> |pt| == 2 || |pt| == 3
    ensures r.Some? ==> |r.value| == |pt|
    ensures |pt| == 2 ==> r == Some(Field2(kind, pt[0], pt[1]))
    ensures |pt| == 3 ==> r == Some(Field3(kind, pt[0], pt[1], pt[2]))
  {
    if |pt| == 2 then Some(Field2(kind, pt[0], pt[1]))
    else if |pt| == 3 then Some(Field3(kind, pt[0], pt[1], pt[2]))
    else None
  }

  function ScaledBy(v: seq<real>, c: real): (r: seq<real>)
    ensures |r| == |v|
  {
    seq(|v|, k requires 0 <= k < |v| => c * v[k])
  }

  /** The compression field is the cubic field scaled by -5/2 in 2D and by
      -40/7 in 3D. */
  lemma CompressionScalesCubic(pt: seq<real>)
    requires |pt| == 2 || |pt| == 3
    ensures EvalFun(Compression, pt).value == ScaledBy(EvalFun(Cubic, pt).value, if |pt| == 2 then -5.0 / 2.0 else -40.0 / 7.0)
  {
    var c := if |pt| == 2 then -5.0 / 2.0 else -40.0 / 7.0;
    var a := EvalFun(Compression, pt).value;
    var b := ScaledBy(EvalFun(Cubic, pt).value, c);
    var num := if |pt| == 2 then CubicNumerator2(pt[0], pt[1]) else CubicNumerator3(pt[0], pt[1], pt[2]);
    forall k | 0 <= k < |pt| ensures a[k] == b[k] {
      var n := num[k];
      if |pt| == 2 {
        assert a[k] == n / -20.0 && b[k] == c * (n / 50.0);
      } else {
        assert a[k] == n / -14.0 && b[k] == c * (n / 80.0);
      }
    }
  }

  /** Every closed-form field is zero at the origin. */
  lemma FieldsVanishAtOrigin(kind: Exact, dim: nat)
    requires dim == 2 || dim == 3
    ensures EvalFun(kind, Origin(dim)) == Some(Origin(dim))
  {
    if dim == 2 {
      assert Origin(2) == [0.0, 0.0];
      assert CubicNumerator2(0.0, 0.0) == [0.0, 0.0];
      assert Field2(kind, 0.0, 0.0) == [0.0, 0.0];
    } else {
      assert Origin(3) == [0.0, 0.0, 0.0];
      assert CubicNumerator3(0.0, 0.0, 0.0) == [0.0, 0.0, 0.0];
      assert Field3(kind, 0.0, 0.0, 0.0) == [0.0, 0.0, 0.0];
    }
  }

  function Origin(dim: nat): (o: seq<real>)
    ensures |o| == dim
  {
    seq(dim, i => 0.0)
  }
}
