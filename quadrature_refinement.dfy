/** Quadrature refinement for the transient inversion check of the elastic
    form: the sub-simplex table `refined_nodes`, the subdivision-tree walk
    `extract_subelement`, the refined rule `refine_quadrature` and the dense
    sample grid `dense_uv_samples` (src/polyfem/solver/forms/ElasticForm.cpp).

    Coordinates of `refined_nodes` are multiples of 1/2; the table is kept
    exactly as integers scaled by 2 and halved into reals only at the end. */
module QuadratureRefinement {
  import opened Wrappers

  /** A dense matrix, row-major: `m[r][c]`. */
  type Matrix = seq<seq<real>>

  predicate IsMatrix(m: Matrix, rows: nat, cols: nat) {
    |m| == rows && forall r :: 0 <= r < rows ==> |m[r]| == cols
  }

  /** Children of one uniform refinement step: 4 triangles or 8 tetrahedra. */
  function SubCount(dim: int): nat {
    if dim == 2 then 4 else 8
  }

  // ---------------------------------------------------------------------------
  // refined_nodes

  /** Twice the corner matrix of sub-simplex `i`, by columns: `m[c][r]` is
      coordinate `c` of corner `r`. A triangle splits into three corner
      triangles and the middle one; a tetrahedron into four corner
      tetrahedra and four from the inner octahedron. */
  function DoubledColumns(dim: int, i: int): seq<seq<int>>
    requires dim == 2 || dim == 3
    requires 0 <= i < SubCount(dim)
  {
    if dim == 2 then
      [ [[0, 1, 0], [0, 0, 1]],
        [[1, 2, 1], [0, 0, 1]],
        [[0, 1, 0], [1, 1, 2]],
        [[1, 0, 1], [1, 1, 0]] ][i]
    else
      [ [[0, 1, 0, 0], [0, 0, 1, 0], [0, 0, 0, 1]],
        [[1, 2, 1, 1], [0, 0, 1, 0], [0, 0, 0, 1]],
        [[0, 1, 0, 0], [1, 1, 2, 1], [0, 0, 0, 1]],
        [[0, 1, 0, 0], [0, 0, 1, 0], [1, 1, 1, 2]],
        [[1, 1, 0, 0], [0, 0, 1, 0], [0, 1, 1, 1]],
        [[1, 1, 0, 1], [0, 1, 1, 0], [0, 0, 1, 1]],
        [[0, 1, 1, 0], [1, 0, 1, 1], [0, 0, 0, 1]],
        [[0, 1, 0, 0], [0, 0, 1, 1], [1, 0, 0, 1]] ][i]
  }

  /** Rows of the halved matrix whose integer columns are `cols`. */
  function HalvedRows(cols: seq<seq<int>>, rows: nat): (m: Matrix)
    requires forall c :: 0 <= c < |cols| ==> |cols[c]| == rows
    ensures IsMatrix(m, rows, |cols|)
    ensures forall r, c :: 0 <= r < rows && 0 <= c < |cols| ==> m[r][c] == cols[c][r] as real / 2.0
  {
    seq(rows, r requires 0 <= r < rows => seq(|cols|, c requires 0 <= c < |cols| => cols[c][r] as real / 2.0))
  }

  /** What `refined_nodes(dim, i)` returns: the halved table, or the
      "Invalid node index" error for an index outside the table. */
  function RefinedNodesOf(dim: int, i: int): Result<Matrix>
    requires dim == 2 || dim == 3
  {
    if 0 <= i < SubCount(dim) then Success(HalvedRows(DoubledColumns(dim, i), dim + 1))
    else Failure("Invalid node index")
  }

  // Column operations on the integer matrix, one column at a time.

  function AddScalar(v: seq<int>, k: int): (w: seq<int>)
    ensures |w| == |v| && forall j :: 0 <= j < |v| ==> w[j] == v[j] + k
  {
    seq(|v|, j requires 0 <= j < |v| => v[j] + k)
  }

  function Scale(v: seq<int>, k: int): (w: seq<int>)
    ensures |w| == |v| && forall j :: 0 <= j < |v| ==> w[j] == v[j] * k
  {
    seq(|v|, j requires 0 <= j < |v| => v[j] * k)
  }

  function Plus(u: seq<int>, v: seq<int>): (w: seq<int>)
    requires |u| == |v|
    ensures |w| == |u| && forall j :: 0 <= j < |u| ==> w[j] == u[j] + v[j]
  {
    seq(|u|, j requires 0 <= j < |u| => u[j] + v[j])
  }

  function ScalarMinus(k: int, v: seq<int>): (w: seq<int>)
    ensures |w| == |v| && forall j :: 0 <= j < |v| ==> w[j] == k - v[j]
  {
    seq(|v|, j requires 0 <= j < |v| => k - v[j])
  }

  function Minus(u: seq<int>, v: seq<int>): (w: seq<int>)
    requires |u| == |v|
    ensures |w| == |u| && forall j :: 0 <= j < |u| ==> w[j] == u[j] - v[j]
  {
    seq(|u|, j requires 0 <= j < |u| => u[j] - v[j])
  }

  lemma Column3(v: seq<int>, x: int, y: int, z: int)
    requires |v| == 3 && v[0] == x && v[1] == y && v[2] == z
    ensures v == [x, y, z]
  {
  }

  lemma Column4(v: seq<int>, x: int, y: int, z: int, w: int)
    requires |v| == 4 && v[0] == x && v[1] == y && v[2] == z && v[3] == w
    ensures v == [x, y, z, w]
  {
  }

  /** The triangle cases of `refined_nodes`, on the doubled columns. */
  method TriangleColumns(i: int) returns (a: seq<seq<int>>)
    requires 0 <= i < 4
    ensures a == DoubledColumns(2, i)
  {
    a := [[0, 1, 0], [0, 0, 1]];
    match i {
      case 0 =>
      case 1 =>
        a := a[0 := AddScalar(a[0], 1)];
        Column3(a[0], 1, 2, 1);
      case 2 =>
        a := a[1 := AddScalar(a[1], 1)];
        Column3(a[1], 1, 1, 2);
      case 3 =>
        a := [AddScalar(a[0], -1), AddScalar(a[1], -1)];
        a := [Scale(a[0], -1), Scale(a[1], -1)];
        Column3(a[0], 1, 0, 1);
        Column3(a[1], 1, 1, 0);
    }
  }

  /** The tetrahedron cases of `refined_nodes`, on the doubled columns. */
  method TetColumns(i: int) returns (a: seq<seq<int>>)
    requires 0 <= i < 8
    ensures a == DoubledColumns(3, i)
  {
    a := [[0, 1, 0, 0], [0, 0, 1, 0], [0, 0, 0, 1]];
    match i {
      case 0 =>
      case 1 =>
        a := a[0 := AddScalar(a[0], 1)];
        Column4(a[0], 1, 2, 1, 1);
      case 2 =>
        a := a[1 := AddScalar(a[1], 1)];
        Column4(a[1], 1, 1, 2, 1);
      case 3 =>
        a := a[2 := AddScalar(a[2], 1)];
        Column4(a[2], 1, 1, 1, 2);
      case 4 =>
        var tmp := Minus(ScalarMinus(1, a[1]), a[2]);
        a := a[2 := Plus(a[2], Plus(a[0], a[1]))];
        a := a[0 := tmp];
        Column4(a[0], 1, 1, 0, 0);
        Column4(a[2], 0, 1, 1, 1);
      case 5 =>
        var tmp := ScalarMinus(1, a[1]);
        a := a[2 := Plus(a[2], a[1])];
        a := a[1 := Plus(a[1], a[0])];
        a := a[0 := tmp];
        Column4(a[0], 1, 1, 0, 1);
        Column4(a[1], 0, 1, 1, 0);
        Column4(a[2], 0, 0, 1, 1);
      case 6 =>
        var tmp := Plus(a[0], a[1]);
        a := a[1 := ScalarMinus(1, a[0])];
        a := a[0 := tmp];
        Column4(a[0], 0, 1, 1, 0);
        Column4(a[1], 1, 0, 1, 1);
      case 7 =>
        var tmp := Minus(ScalarMinus(1, a[0]), a[1]);
        a := a[1 := Plus(a[1], a[2])];
        a := a[2 := tmp];
        Column4(a[1], 0, 0, 1, 1);
        Column4(a[2], 1, 0, 0, 1);
    }
  }

  /** `refined_nodes`: start from the reference simplex (twice over, as
      integers), transform whole columns as the case demands, then halve;
      an index outside the table is the default case's error. */
  method RefinedNodes(dim: int, i: int) returns (result: Result<Matrix>)
    requires dim == 2 || dim == 3
    ensures result == RefinedNodesOf(dim, i)
  {
    if !(0 <= i < SubCount(dim)) {
      return Failure("Invalid node index");
    }
    var a: seq<seq<int>>; // a[c] is column c
    if dim == 2 {
      a := TriangleColumns(i);
    } else {
      a := TetColumns(i);
    }
    result := Success(HalvedRows(a, dim + 1));
  }

  /** Sum of the doubled coordinates of corner `r`. */
  function CornerSum(cols: seq<seq<int>>, r: nat): int
    requires forall c :: 0 <= c < |cols| ==> r < |cols[c]|
  {
    if cols == [] then 0 else CornerSum(cols[..|cols| - 1], r) + cols[|cols| - 1][r]
  }

  /** Every coordinate of every table entry is 0, 1/2 or 1 and every corner
      lies in the reference simplex: its coordinates are non-negative and
      (doubled) sum to at most 2. Indices outside the table are an error. */
  lemma RefinedNodesInSimplex(dim: int, i: int)
    requires dim == 2 || dim == 3
    ensures 0 <= i < SubCount(dim) ==>
              && RefinedNodesOf(dim, i).Success?
              && IsMatrix(RefinedNodesOf(dim, i).value, dim + 1, dim)
              && (forall r, c :: 0 <= r <= dim && 0 <= c < dim ==>
                    RefinedNodesOf(dim, i).value[r][c] in {0.0, 0.5, 1.0})
              && (forall r :: 0 <= r <= dim ==> CornerSum(DoubledColumns(dim, i), r) <= 2)
    ensures !(0 <= i < SubCount(dim)) ==> RefinedNodesOf(dim, i) == Failure("Invalid node index")
  {
    if 0 <= i < SubCount(dim) {
      var cols := DoubledColumns(dim, i);
      forall r, c | 0 <= r <= dim && 0 <= c < dim ensures RefinedNodesOf(dim, i).value[r][c] in {0.0, 0.5, 1.0} {
        TableEntry(dim, i, r, c);
      }
      forall r | 0 <= r <= dim ensures CornerSum(cols, r) <= 2 {
        DoubledCorner(dim, i, r);
      }
    }
  }

  lemma CornerSumUnfolded(cols: seq<seq<int>>, r: nat)
    requires |cols| == 2 || |cols| == 3
    requires forall c :: 0 <= c < |cols| ==> r < |cols[c]|
    ensures CornerSum(cols, r) == cols[0][r] + cols[1][r] + (if |cols| == 3 then cols[2][r] else 0)
  {
    assert cols[..1][..0] == [];
    assert CornerSum(cols[..1], r) == cols[0][r];
    assert cols[..2][..1] == cols[..1];
    assert CornerSum(cols[..2], r) == cols[0][r] + cols[1][r];
    if |cols| == 3 {
      assert cols[..3][..2] == cols[..2];
      assert cols[..3] == cols;
    } else {
      assert cols[..2] == cols;
    }
  }

  lemma TableEntry(dim: int, i: int, r: nat, c: nat)
    requires dim == 2 || dim == 3
    requires 0 <= i < SubCount(dim) && r <= dim && c < dim
    ensures RefinedNodesOf(dim, i).Success?
    ensures RefinedNodesOf(dim, i).value[r][c] in {0.0, 0.5, 1.0}
  {
    var k := DoubledColumns(dim, i)[c][r];
    DoubledEntry(dim, i, r, c);
    assert RefinedNodesOf(dim, i).value[r][c] == k as real / 2.0;
    assert k == 0 || k == 1 || k == 2;
  }

  lemma DoubledEntry(dim: int, i: int, r: nat, c: nat)
    requires dim == 2 || dim == 3
    requires 0 <= i < SubCount(dim) && r <= dim && c < dim
    ensures 0 <= DoubledColumns(dim, i)[c][r] <= 2
  {
  }

  lemma DoubledCorner(dim: int, i: int, r: nat)
    requires dim == 2 || dim == 3
    requires 0 <= i < SubCount(dim) && r <= dim
    ensures CornerSum(DoubledColumns(dim, i), r) <= 2
  {
    CornerSumUnfolded(DoubledColumns(dim, i), r);
  }

  /** Sub-simplex 0 is the reference simplex scaled by 1/2 towards corner 0:
      corner 0 at the origin, corner `r` at 1/2 on axis `r - 1`. */
  lemma FirstSubSimplexIsHalfReference(dim: int)
    requires dim == 2 || dim == 3
    ensures RefinedNodesOf(dim, 0).Success?
    ensures forall r, c :: 0 <= r <= dim && 0 <= c < dim ==>
              RefinedNodesOf(dim, 0).value[r][c] == if r == c + 1 then 0.5 else 0.0
  {
  }

  /** Twice the signed volume scale of sub-simplex `cols`: the determinant of
      its edge vectors from corner 0, in doubled coordinates. */
  function EdgeDeterminant(dim: int, cols: seq<seq<int>>): int
    requires dim == 2 || dim == 3
    requires |cols| == dim && forall c :: 0 <= c < dim ==> |cols[c]| == dim + 1
  {
    var e := (k: nat, c: nat) requires 1 <= k <= dim && c < dim => cols[c][k] - cols[c][0];
    if dim == 2 then e(1, 0) * e(2, 1) - e(1, 1) * e(2, 0)
    else
      e(1, 0) * (e(2, 1) * e(3, 2) - e(2, 2) * e(3, 1))
      - e(1, 1) * (e(2, 0) * e(3, 2) - e(2, 2) * e(3, 0))
      + e(1, 2) * (e(2, 0) * e(3, 1) - e(2, 1) * e(3, 0))
  }

  /** Every sub-simplex has determinant +-1 in doubled coordinates, so after
      halving each one has exactly 1/2^dim of the reference volume; this is
      why a refined rule divides weights by 2^dim per level. */
  lemma SubSimplexVolume(dim: int, i: int)
    requires dim == 2 || dim == 3
    requires 0 <= i < SubCount(dim)
    ensures EdgeDeterminant(dim, DoubledColumns(dim, i)) == 1 || EdgeDeterminant(dim, DoubledColumns(dim, i)) == -1
  {
  }

  // ---------------------------------------------------------------------------
  // Subdivision trees and extract_subelement

  /** A quadrature subdivision tree: a leaf, or a node whose child `k`
      refines sub-simplex `k` of `refined_nodes`. The tree class itself is
      not part of this model; only its shape matters here. */
  datatype Tree = Tree(children: seq<Tree>)

  function Leaves(t: Tree): (n: nat)
    ensures n >= 1
    decreases t
  {
    if t.children == [] then 1 else LeavesAll(t.children)
  }

  function LeavesAll(ts: seq<Tree>): (n: nat)
    ensures ts != [] ==> n >= 1
    decreases ts
  {
    if ts == [] then 0 else Leaves(ts[0]) + LeavesAll(ts[1..])
  }

  /** No node has more children than `refined_nodes` has sub-simplices. */
  predicate Admissible(t: Tree, dim: int)
    decreases t
  {
    && |t.children| <= SubCount(dim)
    && forall k :: 0 <= k < |t.children| ==> Admissible(t.children[k], dim)
  }

  /** Every subdivided node is split completely, into 2^dim children. */
  predicate Full(t: Tree, dim: int)
    decreases t
  {
    && (t.children == [] || |t.children| == SubCount(dim))
    && forall k :: 0 <= k < |t.children| ==> Full(t.children[k], dim)
  }

  function Shift(ls: seq<nat>): (r: seq<nat>)
    ensures |r| == |ls| && forall k :: 0 <= k < |ls| ==> r[k] == ls[k] + 1
  {
    seq(|ls|, k requires 0 <= k < |ls| => ls[k] + 1)
  }

  /** Depth of every leaf, left to right. */
  function LeafLevels(t: Tree): (ls: seq<nat>)
    ensures |ls| == Leaves(t)
    decreases t
  {
    if t.children == [] then [0] else ChildLevels(t.children)
  }

  function ChildLevels(ts: seq<Tree>): (ls: seq<nat>)
    ensures |ls| == LeavesAll(ts)
    decreases ts
  {
    if ts == [] then [] else Shift(LeafLevels(ts[0])) + ChildLevels(ts[1..])
  }

  /** `sum_k u[k] * m[k][c]`: column `c` of the row vector `u` times `m`. */
  function Combination(u: seq<real>, m: Matrix, c: nat): real
    requires |u| <= |m| && forall k :: 0 <= k < |u| ==> c < |m[k]|
  {
    if u == [] then 0.0 else Combination(u[..|u| - 1], m, c) + u[|u| - 1] * m[|u| - 1][c]
  }

  function MatMul(a: Matrix, b: Matrix, inner: nat, cols: nat): (p: Matrix)
    requires IsMatrix(a, |a|, inner) && IsMatrix(b, inner, cols)
    ensures IsMatrix(p, |a|, cols)
  {
    seq(|a|, r requires 0 <= r < |a| => seq(cols, c requires 0 <= c < cols => Combination(a[r], b, c)))
  }

  /** The barycentric matrix `uv` of a sub-simplex: each corner row gets the
      weight of corner 0 prepended, one minus the sum of its coordinates. */
  function Barycentric(nodes: Matrix, dim: nat): (uv: Matrix)
    requires IsMatrix(nodes, dim + 1, dim)
    ensures IsMatrix(uv, dim + 1, dim + 1)
  {
    seq(dim + 1, r requires 0 <= r <= dim => [1.0 - Sum(nodes[r])] + nodes[r])
  }

  datatype Extraction = Extraction(points: Matrix, levels: seq<nat>)

  /** `extract_subelement`: the corners of every leaf sub-simplex of `t`
      inside the simplex `pts` (dim + 1 rows), stacked, with the depth of
      each leaf. A node with more children than the table has entries fails
      with the table's error. */
  function ExtractSubelement(dim: int, pts: Matrix, t: Tree): (r: Result<Extraction>)
    requires dim == 2 || dim == 3
    requires IsMatrix(pts, dim + 1, dim)
    ensures r.Success? <==> Admissible(t, dim)
    ensures r.Failure? ==> r.error == "Invalid node index"
    ensures r.Success? ==> r.value.levels == LeafLevels(t)
    ensures r.Success? ==> IsMatrix(r.value.points, (dim + 1) * Leaves(t), dim)
    decreases t
  {
    if t.children == [] then Success(Extraction(pts, [0]))
    else ExtractChildren(dim, pts, t.children, 0)
  }

  /** Children `first`, `first + 1`, ... of a node, in order. */
  function ExtractChildren(dim: int, pts: Matrix, ts: seq<Tree>, first: nat): (r: Result<Extraction>)
    requires dim == 2 || dim == 3
    requires IsMatrix(pts, dim + 1, dim)
    ensures r.Success? <==> (ts == [] || first + |ts| <= SubCount(dim)) && forall k :: 0 <= k < |ts| ==> Admissible(ts[k], dim)
    ensures r.Failure? ==> r.error == "Invalid node index"
    ensures r.Success? ==> r.value.levels == ChildLevels(ts)
    ensures r.Success? ==> IsMatrix(r.value.points, (dim + 1) * LeavesAll(ts), dim)
    decreases ts
  {
    if ts == [] then Success(Extraction([], []))
    else
      match RefinedNodesOf(dim, first)
      case Failure(e) => Failure(e)
      case Success(nodes) =>
        RefinedNodesInSimplex(dim, first);
        var sub := MatMul(Barycentric(nodes, dim), pts, dim + 1, dim);
        match ExtractSubelement(dim, sub, ts[0])
        case Failure(e) => Failure(e)
        case Success(head) =>
          match ExtractChildren(dim, pts, ts[1..], first + 1)
          case Failure(e) => Failure(e)
          case Success(tail) =>
            StackedRows(head.points, tail.points, (dim + 1) * Leaves(ts[0]), (dim + 1) * LeavesAll(ts[1..]), dim);
            Success(Extraction(head.points + tail.points, Shift(head.levels) + tail.levels))
  }

  lemma StackedRows(a: Matrix, b: Matrix, ra: nat, rb: nat, cols: nat)
    requires IsMatrix(a, ra, cols) && IsMatrix(b, rb, cols)
    ensures IsMatrix(a + b, ra + rb, cols)
  {
    forall r | 0 <= r < ra + rb ensures |(a + b)[r]| == cols {
      if r >= ra {
        assert (a + b)[r] == b[r - ra];
      }
    }
  }

  // ---------------------------------------------------------------------------
  // refine_quadrature

  datatype Quadrature = Quadrature(points: Matrix, weights: seq<real>)

  function Pow2(k: nat): (p: nat)
    ensures p >= 1
  {
    if k == 0 then 1 else 2 * Pow2(k - 1)
  }

  lemma {:induction false} Pow2Add(a: nat, b: nat)
    ensures Pow2(a + b) == Pow2(a) * Pow2(b)
  {
    if a > 0 {
      Pow2Add(a - 1, b);
    }
  }

  /** The reference simplex: corner 0 at the origin, corner `r` on axis `r - 1`. */
  function ReferenceSimplex(dim: nat): (m: Matrix)
    ensures IsMatrix(m, dim + 1, dim)
  {
    seq(dim + 1, r requires 0 <= r <= dim => seq(dim, c requires 0 <= c < dim => if r == c + 1 then 1.0 else 0.0))
  }

  /** A base-rule point in barycentric form: its coordinates, then one minus
      their sum, as the weight of the last corner. */
  function Extended(p: seq<real>): seq<real> {
    p + [1.0 - Sum(p)]
  }

  /** Base point `p` mapped into the corners of leaf `i`, which are rows
      `i * (dim + 1)` to `i * (dim + 1) + dim` of `corners`. */
  function LeafPoint(p: seq<real>, corners: Matrix, i: nat, dim: nat): (q: seq<real>)
    requires |p| == dim
    requires IsMatrix(corners, (dim + 1) * (i + 1), dim)
    ensures |q| == dim
  {
    var b := corners[i * (dim + 1)..];
    seq(dim, c requires 0 <= c < dim => Combination(Extended(p), b, c))
  }

  function Scaled(w: seq<real>, d: real): (r: seq<real>)
    requires d != 0.0
    ensures |r| == |w| && forall k :: 0 <= k < |w| ==> r[k] == w[k] / d
  {
    seq(|w|, k requires 0 <= k < |w| => w[k] / d)
  }

  /** 2^(dim * level): a leaf at depth `level` is that many times smaller
      than the element. */
  function Divisor(dim: nat, level: nat): (d: real)
    ensures d >= 1.0
  {
    Pow2(dim * level) as real
  }

  /** The weights of the refined rule: for each leaf in order, the base
      weights divided by 2^(dim * level). */
  function LeafWeights(w: seq<real>, dim: nat, levels: seq<nat>): (r: seq<real>)
    ensures |r| == |w| * |levels|
  {
    if levels == [] then []
    else
      var m := |levels| - 1;
      LeafWeights(w, dim, levels[..m]) + Scaled(w, Divisor(dim, levels[m]))
  }

  /** The points of the refined rule: for each of the first `leaves` leaves
      in order, every base point mapped into that leaf. */
  function LeafPoints(ps: Matrix, corners: Matrix, dim: nat, leaves: nat): (r: Matrix)
    requires IsMatrix(ps, |ps|, dim)
    requires IsMatrix(corners, (dim + 1) * leaves, dim)
    ensures |r| == |ps| * leaves
  {
    if leaves == 0 then []
    else
      CornerRowsPrefix(corners, dim, leaves - 1, leaves);
      LeafPoints(ps, corners[..(dim + 1) * (leaves - 1)], dim, leaves - 1)
      + seq(|ps|, k requires 0 <= k < |ps| => LeafPoint(ps[k], corners, leaves - 1, dim))
  }

  lemma {:induction false} MulMonotone(a: nat, b: nat, n: nat)
    requires a <= b
    ensures a * n <= b * n
  {
    if a < b {
      MulMonotone(a, b - 1, n);
      assert b * n == (b - 1) * n + n;
    }
  }

  lemma CornerRowsPrefix(corners: Matrix, dim: nat, a: nat, b: nat)
    requires a <= b && IsMatrix(corners, (dim + 1) * b, dim)
    ensures (dim + 1) * a <= (dim + 1) * b
    ensures IsMatrix(corners[..(dim + 1) * a], (dim + 1) * a, dim)
  {
    MulMonotone(a, b, dim + 1);
  }

  /** `refine_quadrature`: one copy of the base rule per leaf of the
      subdivision tree, its points mapped into the leaf and its weights
      divided by 2^(dim * level). */
  method RefineQuadrature(t: Tree, dim: int, base: Quadrature) returns (r: Result<Quadrature>)
    requires dim == 2 || dim == 3
    requires IsMatrix(base.points, |base.weights|, dim)
    ensures r.Success? <==> Admissible(t, dim)
    ensures r.Failure? ==> r.error == "Invalid node index"
    ensures r.Success? ==>
              && r.value.weights == LeafWeights(base.weights, dim, LeafLevels(t))
              && r.value.points == LeafPoints(base.points, ExtractSubelement(dim, ReferenceSimplex(dim), t).value.points, dim, Leaves(t))
  {
    var extraction := ExtractSubelement(dim, ReferenceSimplex(dim), t);
    if extraction.Failure? {
      return Failure(extraction.error);
    }
    var corners := extraction.value.points;
    var levels := extraction.value.levels;
    var points: Matrix := [];
    var weights: seq<real> := [];
    for i := 0 to |levels|
      invariant RefinedPrefix(base, corners, dim, levels, i, points, weights)
    {
      var block := CornerPrefix(corners, dim, |levels|, i + 1);
      var blockPoints := seq(|base.weights|, k requires 0 <= k < |base.weights| => LeafPoint(base.points[k], block, i, dim));
      RefinedPrefixStep(base, corners, dim, levels, i, points, weights);
      points := points + blockPoints;
      weights := weights + Scaled(base.weights, Divisor(dim, levels[i]));
    }
    RefinedPrefixDone(base, corners, dim, levels, points, weights);
    r := Success(Quadrature(points, weights));
  }

  /** The corner rows of the first `i` leaves. */
  function CornerPrefix(corners: Matrix, dim: nat, leaves: nat, i: nat): (b: Matrix)
    requires i <= leaves && IsMatrix(corners, (dim + 1) * leaves, dim)
    ensures IsMatrix(b, (dim + 1) * i, dim)
    ensures |b| <= |corners| && b == corners[..|b|]
  {
    CornerRowsPrefix(corners, dim, i, leaves);
    corners[..(dim + 1) * i]
  }

  /** After `i` leaves, the output holds exactly their blocks. */
  ghost predicate RefinedPrefix(base: Quadrature, corners: Matrix, dim: nat, levels: seq<nat>, i: nat,
                                points: Matrix, weights: seq<real>)
    requires IsMatrix(base.points, |base.weights|, dim)
    requires IsMatrix(corners, (dim + 1) * |levels|, dim) && i <= |levels|
  {
    && weights == LeafWeights(base.weights, dim, levels[..i])
    && points == LeafPoints(base.points, CornerPrefix(corners, dim, |levels|, i), dim, i)
  }

  lemma RefinedPrefixStep(base: Quadrature, corners: Matrix, dim: nat, levels: seq<nat>, i: nat,
                          points: Matrix, weights: seq<real>)
    requires IsMatrix(base.points, |base.weights|, dim)
    requires IsMatrix(corners, (dim + 1) * |levels|, dim) && i < |levels|
    requires RefinedPrefix(base, corners, dim, levels, i, points, weights)
    ensures RefinedPrefix(base, corners, dim, levels, i + 1,
              points + seq(|base.weights|, k requires 0 <= k < |base.weights| =>
                             LeafPoint(base.points[k], CornerPrefix(corners, dim, |levels|, i + 1), i, dim)),
              weights + Scaled(base.weights, Divisor(dim, levels[i])))
  {
    var block := CornerPrefix(corners, dim, |levels|, i + 1);
    assert block[..(dim + 1) * i] == CornerPrefix(corners, dim, |levels|, i);
    assert levels[..i + 1][..i] == levels[..i];
  }

  lemma RefinedPrefixDone(base: Quadrature, corners: Matrix, dim: nat, levels: seq<nat>,
                          points: Matrix, weights: seq<real>)
    requires IsMatrix(base.points, |base.weights|, dim)
    requires IsMatrix(corners, (dim + 1) * |levels|, dim)
    requires RefinedPrefix(base, corners, dim, levels, |levels|, points, weights)
    ensures weights == LeafWeights(base.weights, dim, levels)
    ensures points == LeafPoints(base.points, corners, dim, |levels|)
  {
    assert levels[..|levels|] == levels;
    assert CornerPrefix(corners, dim, |levels|, |levels|) == corners;
  }

  // ---------------------------------------------------------------------------
  // Total weight of the refined rule

  /** How much of `total` the leaves at the given depths account for: a leaf
      at depth `l` takes 1 / 2^(dim * l) of it. */
  function Share(total: real, dim: nat, ls: seq<nat>): real {
    if ls == [] then 0.0
    else Share(total, dim, ls[..|ls| - 1]) + total / Divisor(dim, ls[|ls| - 1])
  }

  lemma {:induction false} ShareConcat(total: real, dim: nat, a: seq<nat>, b: seq<nat>)
    ensures Share(total, dim, a + b) == Share(total, dim, a) + Share(total, dim, b)
  {
    if b == [] {
      assert a + b == a;
    } else {
      var m := |b| - 1;
      assert (a + b)[..|a + b| - 1] == a + b[..m];
      ShareConcat(total, dim, a, b[..m]);
    }
  }

  /** One level deeper, every leaf takes 2^dim times less. */
  lemma {:induction false} ShareShift(total: real, dim: nat, ls: seq<nat>)
    ensures Share(total, dim, Shift(ls)) == Share(total, dim, ls) / Pow2(dim) as real
  {
    if ls != [] {
      var m := |ls| - 1;
      var p := Pow2(dim) as real;
      var rest := Share(total, dim, ls[..m]);
      var last := total / Divisor(dim, ls[m]);
      assert Shift(ls)[..m] == Shift(ls[..m]);
      ShareShift(total, dim, ls[..m]);
      ShiftedPart(total, dim, ls[m]);
      assert Share(total, dim, Shift(ls)) == rest / p + last / p;
      AddFractions(rest, last, p);
    }
  }

  lemma ShiftedPart(total: real, dim: nat, l: nat)
    ensures total / Divisor(dim, l + 1) == (total / Divisor(dim, l)) / Pow2(dim) as real
  {
    var low := dim * l;
    var high := dim * (l + 1);
    assert high == low + dim;
    Pow2Sum(low, dim, high);
    PartOfProduct(total, Pow2(low), Pow2(dim));
  }

  lemma Pow2Sum(a: nat, b: nat, c: nat)
    requires c == a + b
    ensures Pow2(c) == Pow2(a) * Pow2(b)
  {
    Pow2Add(a, b);
  }

  lemma PartOfProduct(total: real, x: nat, y: nat)
    requires x >= 1 && y >= 1
    ensures total / (x * y) as real == (total / x as real) / y as real
  {
    CastProduct(x, y);
  }

  lemma CastProduct(x: int, y: int)
    ensures (x * y) as real == x as real * y as real
  {
  }

  lemma AddFractions(x: real, y: real, p: real)
    requires p != 0.0
    ensures x / p + y / p == (x + y) / p
  {
  }

  /** `n` copies of `x`, added up. */
  function Times(n: nat, x: real): real {
    if n == 0 then 0.0 else Times(n - 1, x) + x
  }

  lemma {:induction false} TimesIsProduct(n: nat, x: real)
    ensures Times(n, x) == n as real * x
  {
    if n > 0 {
      TimesIsProduct(n - 1, x);
    }
  }

  /** A completely split tree accounts for all of `total`: the leaf shares
      add up to one. A full tree is also admissible. */
  lemma {:induction false} FullTreeShare(total: real, t: Tree, dim: int)
    requires dim == 2 || dim == 3
    requires Full(t, dim)
    ensures Admissible(t, dim)
    ensures Share(total, dim, LeafLevels(t)) == total
    decreases t
  {
    if t.children == [] {
      assert LeafLevels(t) == [0];
      assert [0][..0] == [];
    } else {
      FullChildrenShare(total, t.children, dim);
      EqualShares(total, dim);
    }
  }

  /** One uniform step splits a share into `SubCount(dim)` equal parts. */
  lemma EqualShares(total: real, dim: int)
    requires dim == 2 || dim == 3
    ensures Pow2(dim) == SubCount(dim)
    ensures Times(SubCount(dim), total / Pow2(dim) as real) == total
  {
    var p := Pow2(dim);
    TimesIsProduct(SubCount(dim), total / p as real);
    if dim == 2 {
      assert p == 4;
      assert 4.0 * (total / 4.0) == total;
    } else {
      assert p == 8;
      assert 8.0 * (total / 8.0) == total;
    }
  }

  lemma {:induction false} FullChildrenShare(total: real, ts: seq<Tree>, dim: int)
    requires dim == 2 || dim == 3
    requires forall k :: 0 <= k < |ts| ==> Full(ts[k], dim)
    ensures forall k :: 0 <= k < |ts| ==> Admissible(ts[k], dim)
    ensures Share(total, dim, ChildLevels(ts)) == Times(|ts|, total / Pow2(dim) as real)
    decreases ts
  {
    if ts != [] {
      FullTreeShare(total, ts[0], dim);
      assert forall k :: 0 <= k < |ts[1..]| ==> ts[1..][k] == ts[k + 1];
      FullChildrenShare(total, ts[1..], dim);
      ShareConcat(total, dim, Shift(LeafLevels(ts[0])), ChildLevels(ts[1..]));
      ShareShift(total, dim, LeafLevels(ts[0]));
      forall k | 0 <= k < |ts| ensures Admissible(ts[k], dim) {
        if k > 0 {
          assert ts[k] == ts[1..][k - 1];
        }
      }
    }
  }

  function Sum(s: seq<real>): real {
    if s == [] then 0.0 else Sum(s[..|s| - 1]) + s[|s| - 1]
  }

  lemma {:induction false} SumConcat(a: seq<real>, b: seq<real>)
    ensures Sum(a + b) == Sum(a) + Sum(b)
  {
    if b == [] {
      assert a + b == a;
    } else {
      var m := |b| - 1;
      assert (a + b)[..|a + b| - 1] == a + b[..m];
      SumConcat(a, b[..m]);
    }
  }

  lemma {:induction false} SumScaled(w: seq<real>, d: real)
    requires d != 0.0
    ensures Sum(Scaled(w, d)) == Sum(w) / d
  {
    if w != [] {
      var m := |w| - 1;
      assert Scaled(w, d)[..m] == Scaled(w[..m], d);
      SumScaled(w[..m], d);
    }
  }

  /** The refined weights add up to the leaves' share of the base total. */
  lemma {:induction false} LeafWeightsTotal(w: seq<real>, dim: nat, ls: seq<nat>)
    ensures Sum(LeafWeights(w, dim, ls)) == Share(Sum(w), dim, ls)
  {
    if ls != [] {
      var m := |ls| - 1;
      var d := Divisor(dim, ls[m]);
      LeafWeightsTotal(w, dim, ls[..m]);
      SumConcat(LeafWeights(w, dim, ls[..m]), Scaled(w, d));
      SumScaled(w, d);
    }
  }

  /** For a completely split tree the refined rule keeps the base rule's
      total weight: the area of the element is integrated exactly. */
  lemma RefinedWeightPreserved(t: Tree, dim: int, w: seq<real>)
    requires dim == 2 || dim == 3
    requires Full(t, dim)
    ensures Sum(LeafWeights(w, dim, LeafLevels(t))) == Sum(w)
  {
    FullTreeShare(Sum(w), t, dim);
    LeafWeightsTotal(w, dim, LeafLevels(t));
  }
}
