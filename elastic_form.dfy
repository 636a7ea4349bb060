/** The elastic form's bookkeeping around quadrature refinement: the dense
    sample lattice, the uniform-order check of the constructor, and the
    per-element quadrature trees that `max_step_size` refines, `finish`
    resets and `get_refined_mesh` exports. */
module ElasticForm {
  import opened Wrappers
  import opened QuadratureRefinement

  // ---------------------------------------------------------------------------
  // dense_uv_samples

  /** Sample `(i, j)` stands for the point `(i / o, j / o)` of the triangle. */
  datatype UvSample = UvSample(i: nat, j: nat)

  /** The samples with first index `i`, in the order they are written. */
  function Row(o: nat, i: nat): (r: seq<UvSample>)
    requires i <= o
    ensures |r| == o - i + 1
  {
    seq(o - i + 1, j requires 0 <= j <= o - i => UvSample(i, j))
  }

  /** The first `n` rows, one after the other. */
  function Rows(o: nat, n: nat): (r: seq<UvSample>)
    requires n <= o + 1
  {
    if n == 0 then [] else Rows(o, n - 1) + Row(o, n - 1)
  }

  predicate InTriangle(o: nat, s: UvSample) {
    s.i + s.j <= o
  }

  predicate LexBefore(a: UvSample, b: UvSample) {
    a.i < b.i || (a.i == b.i && a.j < b.j)
  }

  lemma {:induction false} RowsLength(o: nat, n: nat)
    requires n <= o + 1
    ensures 2 * |Rows(o, n)| == n * (2 * o + 3 - n)
  {
    if n > 0 {
      RowsLength(o, n - 1);
      assert 2 * |Rows(o, n)| == (n - 1) * (2 * o + 3 - (n - 1)) + 2 * (o - n + 2);
    }
  }

  lemma {:induction false} RowsPrefix(o: nat, a: nat, b: nat)
    requires a <= b <= o + 1
    ensures |Rows(o, a)| <= |Rows(o, b)| && Rows(o, b)[..|Rows(o, a)|] == Rows(o, a)
  {
    if a < b {
      RowsPrefix(o, a, b - 1);
    }
  }

  /** Every sample of the first `n` rows lies in the triangle and has its
      first index below `n`, and the samples are strictly increasing in
      lexicographic order. */
  lemma {:induction false} RowsOrdered(o: nat, n: nat)
    requires n <= o + 1
    ensures forall a :: 0 <= a < |Rows(o, n)| ==> InTriangle(o, Rows(o, n)[a]) && Rows(o, n)[a].i < n
    ensures forall a, b :: 0 <= a < b < |Rows(o, n)| ==> LexBefore(Rows(o, n)[a], Rows(o, n)[b])
  {
    if n > 0 {
      RowsOrdered(o, n - 1);
      var p := Rows(o, n - 1);
      var r := Row(o, n - 1);
      assert Rows(o, n) == p + r;
      forall a | 0 <= a < |p + r| ensures InTriangle(o, (p + r)[a]) && (p + r)[a].i < n {
        if a >= |p| {
          assert (p + r)[a] == r[a - |p|];
        }
      }
      forall a, b | 0 <= a < b < |p + r| ensures LexBefore((p + r)[a], (p + r)[b]) {
        if b >= |p| {
          assert (p + r)[b] == r[b - |p|];
          if a >= |p| {
            assert (p + r)[a] == r[a - |p|];
          }
        }
      }
    }
  }

  /** Lattice point `(i, j)` of the first `n` rows sits at slot
      `|Rows(o, i)| + j`. */
  lemma {:induction false} RowsSlot(o: nat, n: nat, i: nat, j: nat)
    requires n <= o + 1 && i < n && i + j <= o
    ensures |Rows(o, i)| + j < |Rows(o, n)|
    ensures Rows(o, n)[|Rows(o, i)| + j] == UvSample(i, j)
  {
    if i == n - 1 {
      assert Rows(o, n) == Rows(o, i) + Row(o, i);
    } else {
      RowsSlot(o, n - 1, i, j);
      assert Rows(o, n) == Rows(o, n - 1) + Row(o, n - 1);
    }
  }

  /** All rows: the samples `dense_uv_samples` writes, in order. */
  function Lattice(o: nat): seq<UvSample> {
    Rows(o, o + 1)
  }

  /** The write index at which sample `(i, j)` is stored. */
  function Slot(o: nat, i: nat, j: nat): nat
    requires i <= o + 1
  {
    |Rows(o, i)| + j
  }

  /** The whole lattice: (o + 2)(o + 1) / 2 samples, every point with
      i + j <= o exactly once at its slot, in strictly increasing
      lexicographic order. */
  lemma DenseLattice(o: nat)
    ensures |Lattice(o)| == (o + 2) * (o + 1) / 2
    ensures forall a :: 0 <= a < |Lattice(o)| ==> InTriangle(o, Lattice(o)[a])
    ensures forall a, b :: 0 <= a < b < |Lattice(o)| ==> LexBefore(Lattice(o)[a], Lattice(o)[b])
    ensures forall i: nat, j: nat :: i + j <= o ==>
              Slot(o, i, j) < |Lattice(o)| && Lattice(o)[Slot(o, i, j)] == UvSample(i, j)
  {
    RowsLength(o, o + 1);
    assert (o + 1) * (2 * o + 3 - (o + 1)) == (o + 2) * (o + 1);
    RowsOrdered(o, o + 1);
    forall i: nat, j: nat | i + j <= o
      ensures Slot(o, i, j) < |Lattice(o)| && Lattice(o)[Slot(o, i, j)] == UvSample(i, j)
    {
      RowsSlot(o, o + 1, i, j);
    }
  }

  /** The inner loop of `dense_uv_samples`: writes row `i` right after the
      first `id` entries. */
  method WriteRow(uv: array<UvSample>, id: nat, o: nat, i: nat)
    requires i <= o && id + |Row(o, i)| <= uv.Length
    modifies uv
    ensures uv[..id + |Row(o, i)|] == old(uv[..id]) + Row(o, i)
  {
    ghost var done := uv[..id];
    var j := 0;
    while i + j <= o
      invariant j <= o - i + 1
      invariant uv[..id + j] == done + Row(o, i)[..j]
    {
      uv[id + j] := UvSample(i, j);
      assert uv[..id + j + 1] == uv[..id + j] + [UvSample(i, j)];
      assert Row(o, i)[..j + 1] == Row(o, i)[..j] + [UvSample(i, j)];
      j := j + 1;
    }
    assert Row(o, i)[..j] == Row(o, i);
  }

  /** `dense_uv_samples`: fills a buffer of (o + 2)(o + 1) / 2 rows with the
      triangle's lattice, row by row, advancing a write index. */
  method DenseUvSamples(dim: int, o: nat) returns (uv: array<UvSample>)
    requires dim == 2
    ensures fresh(uv)
    ensures uv.Length == (o + 2) * (o + 1) / 2
    ensures uv[..] == Lattice(o)
  {
    RowsLength(o, o + 1);
    assert (o + 1) * (2 * o + 3 - (o + 1)) == (o + 2) * (o + 1);
    uv := new UvSample[(o + 2) * (o + 1) / 2];
    var id := 0;
    for i := 0 to o + 1
      invariant id == |Rows(o, i)| <= uv.Length && uv[..id] == Rows(o, i)
    {
      RowsPrefix(o, i + 1, o + 1);
      assert Rows(o, i + 1) == Rows(o, i) + Row(o, i);
      WriteRow(uv, id, o, i);
      id := id + |Row(o, i)|;
    }
    assert uv[..] == uv[..id];
  }

  // ---------------------------------------------------------------------------
  // The constructor's checks

  /** How element inversion is checked; every mode but `Discrete` runs the
      continuous Jacobian machinery. */
  datatype InversionCheck = Discrete | Conservative

  /** All non-zero orders agree, and no order after a non-zero one is zero:
      the first non-zero order is the order of every later element. */
  predicate Uniform(orders: seq<int>) {
    forall i, j :: 0 <= i < j < |orders| && orders[i] != 0 ==> orders[j] == orders[i]
  }

  /** `seen` is the order remembered after scanning `prefix`: zero while
      every order so far is zero, otherwise one of the orders met. */
  predicate Remembers(prefix: seq<int>, seen: int) {
    && (seen == 0 ==> forall i :: 0 <= i < |prefix| ==> prefix[i] == 0)
    && (seen != 0 ==> exists i :: 0 <= i < |prefix| && prefix[i] == seen)
  }

  /** Scanning one more element: it keeps the prefix uniform exactly when
      nothing non-zero was remembered or it equals the remembered order. */
  lemma UniformStep(s: seq<int>, e: nat, seen: int)
    requires e < |s|
    requires Uniform(s[..e]) && Remembers(s[..e], seen)
    ensures Uniform(s[..e + 1]) <==> seen == 0 || s[e] == seen
    ensures seen == 0 ==> Remembers(s[..e + 1], s[e])
    ensures seen != 0 ==> Remembers(s[..e + 1], seen)
  {
    var p := s[..e + 1];
    assert p[..e] == s[..e];
    if seen != 0 {
      var w :| 0 <= w < e && s[..e][w] == seen;
      assert p[w] == seen;
      if s[e] == seen {
        forall i, j | 0 <= i < j < |p| && p[i] != 0 ensures p[j] == p[i] {
          if j == e && i != w {
            if i < w {
              assert s[..e][i] != 0;
            } else {
              assert s[..e][w] != 0;
            }
          }
        }
      } else {
        assert p[w] != 0 && p[e] != p[w];
      }
    } else {
      assert forall i :: 0 <= i < e ==> p[i] == s[..e][i] == 0;
    }
  }

  /** The checks the constructor runs when inversion checking is not
      `Discrete`, in its order: the zero displacement must be a valid state,
      then element by element the basis order and the geometric basis order
      must agree with the first non-zero one met so far. */
  method ConstructorCheck(check: InversionCheck, zeroStateValid: bool, orders: seq<int>, gorders: seq<int>)
    returns (r: Outcome<string>)
    requires |orders| <= |gorders|
    ensures check == Discrete ==> r == Pass
    ensures check != Discrete && !zeroStateValid ==> r == Fail("Initial state has inverted elements!")
    ensures check != Discrete && zeroStateValid ==>
              (r == Pass <==> Uniform(orders) && Uniform(gorders[..|orders|]))
    ensures r == Fail("Non-uniform basis order!!") ==>
              exists n :: 0 < n <= |orders| && Uniform(orders[..n - 1]) && Uniform(gorders[..n - 1])
                          && !Uniform(orders[..n])
    ensures r == Fail("Non-uniform gbasis order!!") ==>
              exists n :: 0 < n <= |orders| && Uniform(orders[..n]) && Uniform(gorders[..n - 1])
                          && !Uniform(gorders[..n])
    ensures r == Pass || r == Fail("Initial state has inverted elements!")
            || r == Fail("Non-uniform basis order!!") || r == Fail("Non-uniform gbasis order!!")
  {
    if check == Discrete {
      return Pass;
    }
    if !zeroStateValid {
      return Fail("Initial state has inverted elements!");
    }
    var basisOrder := 0;
    var gbasisOrder := 0;
    for e := 0 to |orders|
      invariant Uniform(orders[..e]) && Remembers(orders[..e], basisOrder)
      invariant Uniform(gorders[..e]) && Remembers(gorders[..e], gbasisOrder)
    {
      UniformStep(orders, e, basisOrder);
      UniformStep(gorders, e, gbasisOrder);
      if basisOrder == 0 {
        basisOrder := orders[e];
      } else if basisOrder != orders[e] {
        return Fail("Non-uniform basis order!!");
      }
      if gbasisOrder == 0 {
        gbasisOrder := gorders[e];
      } else if gbasisOrder != gorders[e] {
        return Fail("Non-uniform gbasis order!!");
      }
    }
    assert orders[..|orders|] == orders;
    return Pass;
  }

  // ---------------------------------------------------------------------------
  // The quadrature hierarchy and the refined mesh

  /** Element `e` takes part when no element is singled out (`elem < 0`) or
      when it is the one singled out. */
  predicate Selected(elem: int, e: int) {
    elem < 0 || e == elem
  }

  /** The number of leaf sub-simplices over the selected elements. */
  function SelectedLeaves(trees: seq<Tree>, elem: int): nat {
    if trees == [] then 0
    else
      var e := |trees| - 1;
      SelectedLeaves(trees[..e], elem) + (if Selected(elem, e) then Leaves(trees[e]) else 0)
  }

  predicate CornersFit(corners: seq<Matrix>, dim: nat) {
    forall e :: 0 <= e < |corners| ==> IsMatrix(corners[e], dim + 1, dim)
  }

  /** The corners of every leaf of every selected element, element after
      element; it fails when a selected tree has a node with more children
      than the refinement table has sub-simplices. */
  function RefinedPoints(trees: seq<Tree>, corners: seq<Matrix>, elem: int, dim: int): (r: Result<Matrix>)
    requires dim == 2 || dim == 3
    requires |corners| == |trees| && CornersFit(corners, dim)
    ensures r.Success? <==> forall e :: 0 <= e < |trees| && Selected(elem, e) ==> Admissible(trees[e], dim)
    ensures r.Failure? ==> r.error == "Invalid node index"
    ensures r.Success? ==> IsMatrix(r.value, (dim + 1) * SelectedLeaves(trees, elem), dim)
  {
    if trees == [] then Success([])
    else
      var e := |trees| - 1;
      assert forall k :: 0 <= k < e ==> trees[..e][k] == trees[k];
      var before := RefinedPoints(trees[..e], corners[..e], elem, dim);
      if before.Failure? then before
      else if !Selected(elem, e) then before
      else
        match ExtractSubelement(dim, corners[e], trees[e])
        case Failure(msg) => Failure(msg)
        case Success(x) =>
          StackedRows(before.value, x.points, (dim + 1) * SelectedLeaves(trees[..e], elem), (dim + 1) * Leaves(trees[e]), dim);
          Success(before.value + x.points)
  }

  /** After the first `e` elements, the buffer's filled part holds exactly
      their points. */
  ghost predicate MeshPrefix(trees: seq<Tree>, corners: seq<Matrix>, elem: int, dim: int, e: nat, filled: Matrix)
    requires dim == 2 || dim == 3
    requires |corners| == |trees| && CornersFit(corners, dim) && e <= |trees|
  {
    var r := RefinedPoints(trees[..e], corners[..e], elem, dim);
    r.Success? && filled == r.value
  }

  lemma SelectedLeavesPrefix(trees: seq<Tree>, elem: int, e: nat)
    requires e <= |trees|
    ensures SelectedLeaves(trees[..e], elem) <= SelectedLeaves(trees, elem)
    decreases |trees|
  {
    if e < |trees| {
      var m := |trees| - 1;
      assert trees[..m][..e] == trees[..e];
      SelectedLeavesPrefix(trees[..m], elem, e);
    } else {
      assert trees[..e] == trees;
    }
  }

  /** Processing element `e`: an unselected element adds nothing, a selected
      one whose tree extracts appends its leaves' corners. */
  lemma MeshStep(trees: seq<Tree>, corners: seq<Matrix>, elem: int, dim: int, e: nat, filled: Matrix)
    requires dim == 2 || dim == 3
    requires |corners| == |trees| && CornersFit(corners, dim) && e < |trees|
    requires MeshPrefix(trees, corners, elem, dim, e, filled)
    ensures !Selected(elem, e) ==> MeshPrefix(trees, corners, elem, dim, e + 1, filled)
    ensures !Selected(elem, e) ==> SelectedLeaves(trees[..e + 1], elem) == SelectedLeaves(trees[..e], elem)
    ensures Selected(elem, e) && ExtractSubelement(dim, corners[e], trees[e]).Success? ==>
              MeshPrefix(trees, corners, elem, dim, e + 1, filled + ExtractSubelement(dim, corners[e], trees[e]).value.points)
    ensures Selected(elem, e) ==> SelectedLeaves(trees[..e + 1], elem) == SelectedLeaves(trees[..e], elem) + Leaves(trees[e])
    ensures (dim + 1) * SelectedLeaves(trees[..e + 1], elem) <= (dim + 1) * SelectedLeaves(trees, elem)
  {
    assert trees[..e + 1][..e] == trees[..e];
    assert corners[..e + 1][..e] == corners[..e];
    SelectedLeavesPrefix(trees, elem, e + 1);
    MulMonotone(SelectedLeaves(trees[..e + 1], elem), SelectedLeaves(trees, elem), dim + 1);
  }

  /** Column `j` of connectivity row `i`: the point it refers to. */
  function ConnectivityEntry(dim: nat, i: nat, j: nat): nat {
    i * (dim + 1) + j
  }

  /** The (row, column) pair of point `p` when rows have `w` columns. */
  function Cell(w: nat, p: nat): (c: (nat, nat))
    requires w > 0
    ensures c.1 < w && c.0 * w + c.1 == p
    decreases p
  {
    if p < w then (0, p)
    else
      var c := Cell(w, p - w);
      assert (c.0 + 1) * w == c.0 * w + w;
      (c.0 + 1, c.1)
  }

  /** No two connectivity entries name the same point. */
  lemma ConnectivityInjective(dim: nat, i: nat, j: nat, i2: nat, j2: nat)
    requires j <= dim && j2 <= dim
    requires ConnectivityEntry(dim, i, j) == ConnectivityEntry(dim, i2, j2)
    ensures i == i2 && j == j2
  {
    if i < i2 {
      assert (i + 1) * (dim + 1) == i * (dim + 1) + dim + 1;
      MulMonotone(i + 1, i2, dim + 1);
    } else if i2 < i {
      assert (i2 + 1) * (dim + 1) == i2 * (dim + 1) + dim + 1;
      MulMonotone(i2 + 1, i, dim + 1);
    }
  }

  /** Every one of the `n * (dim + 1)` generated points is named by an entry
      of one of the `n` connectivity rows. */
  lemma ConnectivityCovers(n: nat, dim: nat, p: nat)
    requires p < n * (dim + 1)
    ensures Cell(dim + 1, p).0 < n && Cell(dim + 1, p).1 <= dim
    ensures ConnectivityEntry(dim, Cell(dim + 1, p).0, Cell(dim + 1, p).1) == p
  {
    var c := Cell(dim + 1, p);
    if c.0 >= n {
      MulMonotone(n, c.0, dim + 1);
    }
  }

  /** The leaf count `get_refined_mesh` sizes its buffers with. */
  method CountSelectedLeaves(trees: seq<Tree>, elem: int) returns (n: nat)
    ensures n == SelectedLeaves(trees, elem)
  {
    n := 0;
    for e := 0 to |trees|
      invariant n == SelectedLeaves(trees[..e], elem)
    {
      assert trees[..e + 1][..e] == trees[..e];
      if Selected(elem, e) {
        n := n + Leaves(trees[e]);
      }
    }
    assert trees[..|trees|] == trees;
  }

  /** The connectivity of the refined mesh: `n` rows of `dim + 1` point
      indices, filled entry by entry. */
  method Connectivity(n: nat, dim: nat) returns (elements: array2<int>)
    ensures fresh(elements)
    ensures elements.Length0 == n && elements.Length1 == dim + 1
    ensures forall i, j :: 0 <= i < n && 0 <= j <= dim ==> elements[i, j] == ConnectivityEntry(dim, i, j)
  {
    elements := new int[n, dim + 1];
    for i := 0 to n
      invariant forall i', j :: 0 <= i' < i && 0 <= j <= dim ==> elements[i', j] == ConnectivityEntry(dim, i', j)
    {
      for j := 0 to dim + 1
        invariant forall i', j' :: 0 <= i' < i && 0 <= j' <= dim ==> elements[i', j'] == ConnectivityEntry(dim, i', j')
        invariant forall j' :: 0 <= j' < j ==> elements[i, j'] == ConnectivityEntry(dim, i, j')
      {
        elements[i, j] := ConnectivityEntry(dim, i, j);
      }
    }
  }

  /** Copies `rows` into the buffer right after its first `idx` entries. */
  method CopyRows(points: array<seq<real>>, idx: nat, rows: Matrix)
    requires idx + |rows| <= points.Length
    modifies points
    ensures points[..idx + |rows|] == old(points[..idx]) + rows
  {
    forall k | 0 <= k < |rows| {
      points[idx + k] := rows[k];
    }
  }

  /** The fill loop of `get_refined_mesh`: the corners of every leaf of every
      selected element, element after element, into a buffer sized for all of
      them; it stops at the first tree that does not extract. */
  method FillRefinedPoints(points: array<seq<real>>, trees: seq<Tree>, corners: seq<Matrix>, elem: int, dim: int)
    returns (r: Outcome<string>)
    requires dim == 2 || dim == 3
    requires |corners| == |trees| && CornersFit(corners, dim)
    requires points.Length == (dim + 1) * SelectedLeaves(trees, elem)
    modifies points
    ensures r.Pass? <==> RefinedPoints(trees, corners, elem, dim).Success?
    ensures r.Fail? ==> r.error == "Invalid node index"
    ensures r.Pass? ==> points[..] == RefinedPoints(trees, corners, elem, dim).value
  {
    assert corners[..|trees|] == corners;
    var idx := 0;
    for e := 0 to |trees|
      invariant idx == (dim + 1) * SelectedLeaves(trees[..e], elem) <= points.Length
      invariant MeshPrefix(trees, corners, elem, dim, e, points[..idx])
    {
      MeshStep(trees, corners, elem, dim, e, points[..idx]);
      if Selected(elem, e) {
        var x := ExtractSubelement(dim, corners[e], trees[e]);
        if x.Failure? {
          return Fail(x.error);
        }
        CopyRows(points, idx, x.value.points);
        idx := idx + |x.value.points|;
      }
    }
    assert trees[..|trees|] == trees;
    assert points[..] == points[..idx];
    return Pass;
  }

  /** The state of the elastic form that the model keeps: how inversion is
      checked, whether the mesh is a volume mesh, and the quadrature
      subdivision tree of every element. */
  class ElasticForm {
    const checkInversion: InversionCheck
    const isVolume: bool
    var hierarchy: seq<Tree>

    /** A constructed form starts every element with an unrefined tree; the
        checks that may make construction throw are `ConstructorCheck`. */
    constructor(nElements: nat, isVolume: bool, checkInversion: InversionCheck)
      ensures this.checkInversion == checkInversion && this.isVolume == isVolume
      ensures |hierarchy| == nElements && forall e :: 0 <= e < nElements ==> hierarchy[e] == Tree([])
    {
      this.checkInversion := checkInversion;
      this.isVolume := isVolume;
      hierarchy := seq(nElements, _ => Tree([]));
    }

    function Dim(): int {
      if isVolume then 3 else 2
    }

    /** `max_step_size`, given the outcome of the continuous check (the step
        it allows, the element it found invalid or a negative id, and the
        subdivision that exposed it) and the tree merge: in `Discrete` mode
        it allows the full step and changes nothing; otherwise it allows
        `step`, and when an element is invalid before half the step, merges
        the subdivision into that element's tree and touches no other. */
    method MaxStepSize(step: real, invalidId: int, subdivision: Tree, merge: (Tree, Tree) -> Tree) returns (r: real)
      requires invalidId < |hierarchy|
      modifies this
      ensures checkInversion == Discrete ==> r == 1.0
      ensures checkInversion != Discrete ==> r == step
      ensures |hierarchy| == |old(hierarchy)|
      ensures forall e :: 0 <= e < |hierarchy| && e != invalidId ==> hierarchy[e] == old(hierarchy)[e]
      ensures hierarchy != old(hierarchy) ==> checkInversion != Discrete && 0 <= invalidId && step < 0.5
      ensures checkInversion != Discrete && 0 <= invalidId && step < 0.5 ==>
                hierarchy[invalidId] == merge(old(hierarchy)[invalidId], subdivision)
    {
      if checkInversion != Discrete {
        if invalidId >= 0 && step < 0.5 {
          hierarchy := hierarchy[invalidId := merge(hierarchy[invalidId], subdivision)];
        }
        return step;
      }
      return 1.0;
    }

    /** `finish`: every element goes back to an unrefined tree. */
    method Finish()
      modifies this
      ensures |hierarchy| == |old(hierarchy)|
      ensures forall e :: 0 <= e < |hierarchy| ==> hierarchy[e] == Tree([])
    {
      for e := 0 to |hierarchy|
        invariant |hierarchy| == |old(hierarchy)|
        invariant forall k :: 0 <= k < e ==> hierarchy[k] == Tree([])
      {
        hierarchy := hierarchy[e := Tree([])];
      }
    }

    /** `get_refined_mesh`: counts the leaves of the selected elements, fills
        a buffer of `(dim + 1)` points per leaf with the leaves' corners (the
        element corners, displaced, are inputs here), and numbers leaf `i`'s
        corners `i * (dim + 1) + j`. */
    method GetRefinedMesh(corners: seq<Matrix>, elem: int)
      returns (r: Outcome<string>, points: array<seq<real>>, elements: array2<int>)
      requires |corners| == |hierarchy| && CornersFit(corners, Dim())
      ensures r.Pass? <==> RefinedPoints(hierarchy, corners, elem, Dim()).Success?
      ensures r.Fail? ==> r.error == "Invalid node index"
      ensures r.Pass? ==> points[..] == RefinedPoints(hierarchy, corners, elem, Dim()).value
      ensures r.Pass? ==> elements.Length0 == SelectedLeaves(hierarchy, elem) && elements.Length1 == Dim() + 1
      ensures r.Pass? ==> forall i, j :: 0 <= i < elements.Length0 && 0 <= j < elements.Length1 ==>
                            elements[i, j] == ConnectivityEntry(Dim(), i, j)
    {
      var dim := Dim();
      var nElem := CountSelectedLeaves(hierarchy, elem);
      points := new seq<real>[nElem * (dim + 1)](_ => seq(dim, _ => 0.0));
      r := FillRefinedPoints(points, hierarchy, corners, elem, dim);
      if r.Fail? {
        elements := new int[0, dim + 1];
        return;
      }
      elements := Connectivity(nElem, dim);
    }
  }
}
