/** Small helpers of the simulation state: periodic boundary-node
    remapping, the number of degrees of freedom, the time-integrator order,
    obstacle-vertex detection, the geometry bases, the boundary sample count
    and the guard in front of `solve`. */
module StateHelpers {
  import opened Wrappers
  import opened SortedSets

  // ---------------------------------------------------------------------------
  // Periodic boundary conditions

  /** The periodic settings the helpers read: which dimensions are periodic,
      the `periodic_basis` switch, and the map from a node to the node it
      depends on. */
  datatype PeriodicSetup = PeriodicSetup(
    periodicDimensions: seq<bool>,
    periodicBasis: bool,
    periodicReduceMap: seq<int>)

  predicate AnyPeriodic(dims: seq<bool>) {
    exists i :: 0 <= i < |dims| && dims[i]
  }

  /** `has_periodic_bc`: scans the dimensions for a periodic one. */
  method HasPeriodicBc(dims: seq<bool>) returns (r: bool)
    ensures r <==> AnyPeriodic(dims)
  {
    for i := 0 to |dims|
      invariant forall k :: 0 <= k < i ==> !dims[k]
    {
      if dims[i] {
        return true;
      }
    }
    return false;
  }

  /** Boundary nodes are remapped only with periodic conditions and without a
      periodic basis. */
  predicate Remaps(c: PeriodicSetup) {
    AnyPeriodic(c.periodicDimensions) && !c.periodicBasis
  }

  predicate NodesIn(nodes: seq<int>, n: nat) {
    forall i :: 0 <= i < |nodes| ==> 0 <= nodes[i] < n
  }

  /** Every node replaced by the node it depends on. */
  function Remap(reduce: seq<int>, nodes: seq<int>): (r: seq<int>)
    requires NodesIn(nodes, |reduce|)
    ensures |r| == |nodes|
    ensures forall i :: 0 <= i < |nodes| ==> r[i] == reduce[nodes[i]]
  {
    seq(|nodes|, i requires 0 <= i < |nodes| => reduce[nodes[i]])
  }

  /** The effect of `full_to_periodic` on a list of boundary nodes. */
  function Periodic(c: PeriodicSetup, nodes: seq<int>): seq<int>
    requires Remaps(c) ==> NodesIn(nodes, |c.periodicReduceMap|)
  {
    if Remaps(c) then SortUnique(Remap(c.periodicReduceMap, nodes)) else nodes
  }

  /** `full_to_periodic(boundary_nodes_)`: remaps every node in place, then
      sorts and drops duplicates. The vector passed by reference is the
      in/out value `nodes`/`r`. */
  method FullToPeriodic(c: PeriodicSetup, nodes: seq<int>) returns (r: seq<int>)
    requires Remaps(c) ==> NodesIn(nodes, |c.periodicReduceMap|)
    ensures r == Periodic(c, nodes)
  {
    var periodic := HasPeriodicBc(c.periodicDimensions);
    if periodic && !c.periodicBasis {
      r := nodes;
      for i := 0 to |r|
        invariant |r| == |nodes|
        invariant forall k :: 0 <= k < i ==> r[k] == c.periodicReduceMap[nodes[k]]
        invariant forall k :: i <= k < |r| ==> r[k] == nodes[k]
      {
        r := r[i := c.periodicReduceMap[r[i]]];
      }
      assert r == Remap(c.periodicReduceMap, nodes);
      r := SortUnique(r);
    } else {
      r := nodes;
    }
  }

  /** When remapping, the result is sorted, duplicate-free and holds exactly
      the images of the input nodes; otherwise it is the input. */
  lemma PeriodicElements(c: PeriodicSetup, nodes: seq<int>)
    requires Remaps(c) ==> NodesIn(nodes, |c.periodicReduceMap|)
    ensures Remaps(c) ==> StrictlyIncreasing(Periodic(c, nodes))
    ensures Remaps(c) ==> forall y :: y in Periodic(c, nodes) <==>
              exists i :: 0 <= i < |nodes| && y == c.periodicReduceMap[nodes[i]]
    ensures !Remaps(c) ==> Periodic(c, nodes) == nodes
  {
    if Remaps(c) {
      var m := Remap(c.periodicReduceMap, nodes);
      forall y ensures y in Periodic(c, nodes) <==> exists i :: 0 <= i < |nodes| && y == c.periodicReduceMap[nodes[i]] {
        assert y in Periodic(c, nodes) <==> y in Elements(m);
        if y in m {
          var i :| 0 <= i < |m| && m[i] == y;
          assert y == c.periodicReduceMap[nodes[i]];
        }
      }
    }
  }

  /** A reduce map that sends every node to a node that maps to itself. */
  predicate Projection(reduce: seq<int>) {
    NodesIn(reduce, |reduce|) && forall k :: 0 <= k < |reduce| ==> reduce[reduce[k]] == reduce[k]
  }

  /** The remapped list only names nodes of the map. */
  lemma PeriodicNodesIn(c: PeriodicSetup, nodes: seq<int>)
    requires Projection(c.periodicReduceMap)
    requires NodesIn(nodes, |c.periodicReduceMap|)
    ensures NodesIn(Periodic(c, nodes), |c.periodicReduceMap|)
  {
    if Remaps(c) {
      var once := Periodic(c, nodes);
      PeriodicElements(c, nodes);
      forall i | 0 <= i < |once| ensures 0 <= once[i] < |c.periodicReduceMap| {
        assert once[i] in once;
      }
    }
  }

  /** Remapping an already remapped list yields the same nodes. */
  lemma PeriodicSameNodes(c: PeriodicSetup, nodes: seq<int>)
    requires Remaps(c) && Projection(c.periodicReduceMap)
    requires NodesIn(nodes, |c.periodicReduceMap|)
    requires NodesIn(Periodic(c, nodes), |c.periodicReduceMap|)
    ensures forall y :: y in Periodic(c, Periodic(c, nodes)) <==> y in Periodic(c, nodes)
  {
    var once := Periodic(c, nodes);
    PeriodicElements(c, nodes);
    PeriodicElements(c, once);
    forall y ensures y in Periodic(c, once) <==> y in once {
      if y in once {
        var i :| 0 <= i < |nodes| && y == c.periodicReduceMap[nodes[i]];
        var j :| 0 <= j < |once| && once[j] == y;
        assert y == c.periodicReduceMap[once[j]];
      }
      if y in Periodic(c, once) {
        var j :| 0 <= j < |once| && y == c.periodicReduceMap[once[j]];
        assert once[j] in once;
        var i :| 0 <= i < |nodes| && once[j] == c.periodicReduceMap[nodes[i]];
        assert y == c.periodicReduceMap[nodes[i]];
      }
    }
  }

  /** With such a map, remapping twice gives the same list as remapping once. */
  lemma PeriodicIdempotent(c: PeriodicSetup, nodes: seq<int>)
    requires Projection(c.periodicReduceMap)
    requires NodesIn(nodes, |c.periodicReduceMap|)
    ensures NodesIn(Periodic(c, nodes), |c.periodicReduceMap|)
    ensures Periodic(c, Periodic(c, nodes)) == Periodic(c, nodes)
  {
    PeriodicNodesIn(c, nodes);
    if Remaps(c) {
      var once := Periodic(c, nodes);
      PeriodicSameNodes(c, nodes);
      PeriodicElements(c, nodes);
      PeriodicElements(c, once);
      assert Elements(Periodic(c, once)) == Elements(once);
      StrictlyIncreasingUnique(Periodic(c, once), once);
    }
  }

  // ---------------------------------------------------------------------------
  // Degrees of freedom

  /** What `ndof` reads from the state. */
  datatype DofLayout = DofLayout(
    isScalar: bool,
    meshDim: nat,
    nBases: nat,
    mixed: bool,
    nPressureBases: nat)

  /** One value per basis for scalar problems, one per mesh dimension
      otherwise. */
  function ActualDim(s: DofLayout): nat {
    if s.isScalar then 1 else s.meshDim
  }

  /** `ndof`. */
  function Ndof(s: DofLayout): (n: nat)
    ensures !s.mixed ==> n == ActualDim(s) * s.nBases
    ensures s.mixed ==> n - s.nPressureBases == ActualDim(s) * s.nBases
  {
    if !s.mixed then ActualDim(s) * s.nBases
    else ActualDim(s) * s.nBases + s.nPressureBases
  }

  /** Component `d` of basis `b` is stored at `ActualDim * b + d`, and that
      index is a degree of freedom. */
  lemma DofIndexInRange(s: DofLayout, b: nat, d: nat)
    requires b < s.nBases && d < ActualDim(s)
    ensures ActualDim(s) * b + d < Ndof(s)
  {
    var k := ActualDim(s);
    assert k * b + d < k * b + k;
    assert k * b + k == k * (b + 1);
    assert k * (b + 1) <= k * s.nBases by {
      MulLeftMonotone(k, b + 1, s.nBases);
    }
  }

  lemma MulLeftMonotone(k: nat, x: nat, y: nat)
    requires x <= y
    ensures k * x <= k * y
  {
  }

  /** Every displacement degree of freedom is component `k % ActualDim` of
      basis `k / ActualDim`; the remaining ones of a mixed formulation are
      the pressure bases. */
  lemma DofDecompose(s: DofLayout, k: nat)
    requires k < Ndof(s)
    ensures k < ActualDim(s) * s.nBases ==>
              k / ActualDim(s) < s.nBases && k == ActualDim(s) * (k / ActualDim(s)) + k % ActualDim(s)
    ensures k >= ActualDim(s) * s.nBases ==> s.mixed && k - ActualDim(s) * s.nBases < s.nPressureBases
  {
    var a := ActualDim(s);
    if k < a * s.nBases {
      assert a > 0;
      var q := k / a;
      assert k == a * q + k % a;
      if q >= s.nBases {
        MulLeftMonotone(a, s.nBases, q);
        assert false;
      }
    }
  }

  // ---------------------------------------------------------------------------
  // Time integration

  /** `get_bdf_order`: 1 for implicit Euler, the configured number of steps
      for BDF, an error for any other integrator. */
  function GetBdfOrder(integratorType: string, steps: int): (r: Result<int>)
    ensures r.Success? <==> integratorType == "ImplicitEuler" || integratorType == "BDF"
    ensures integratorType == "ImplicitEuler" ==> r.value == 1
    ensures integratorType == "BDF" ==> r.value == steps
    ensures r.Failure? ==> r.error == "Integrator type not supported for differentiability."
  {
    if integratorType == "ImplicitEuler" then Success(1)
    else if integratorType == "BDF" then Success(steps)
    else Failure("Integrator type not supported for differentiability.")
  }

  // ---------------------------------------------------------------------------
  // Obstacle vertices

  const Size64: nat := 0x1_0000_0000_0000_0000
  const Half64: int := 0x8000_0000_0000_0000

  /** A signed 64-bit value converted to `size_t`. */
  function Unsigned64(x: int): (u: nat)
    requires -Half64 <= x < Half64
    ensures u < Size64
    ensures 0 <= x ==> u == x
    ensures x < 0 ==> u == x + Size64
  {
    if x < 0 then x + Size64 else x
  }

  /** `is_obstacle_vertex(vi)`: the row count minus the obstacle vertices is
      a signed difference compared with the unsigned index `vi`, so it is
      converted to `size_t` first. */
  function IsObstacleVertex(vi: nat, rows: nat, obstacleVertices: nat): (r: bool)
    requires vi < Size64 && rows < Half64 && obstacleVertices < Half64
    ensures obstacleVertices <= rows ==> (r <==> rows - obstacleVertices <= vi)
    ensures rows < obstacleVertices && vi < Half64 ==> !r
  {
    vi >= Unsigned64(rows - obstacleVertices)
  }

  /** The obstacle vertices are the last rows of the boundary-node
      positions: a row is one exactly when fewer than `obstacleVertices`
      rows follow it. */
  lemma ObstacleVerticesAreLast(vi: nat, rows: nat, obstacleVertices: nat)
    requires vi < rows < Half64 && obstacleVertices <= rows
    ensures IsObstacleVertex(vi, rows, obstacleVertices) <==> rows - 1 - vi < obstacleVertices
  {
  }

  // ---------------------------------------------------------------------------
  // Geometry bases

  /** The two basis lists of the state. With isoparametric elements the
      geometry mapping uses the solution bases themselves. */
  class BasisSets<B> {
    const isoParametric: bool
    var bases: seq<B>
    var geomBasesOwn: seq<B>

    constructor(isoParametric: bool, bases: seq<B>, geomBasesOwn: seq<B>)
      ensures this.isoParametric == isoParametric
      ensures this.bases == bases && this.geomBasesOwn == geomBasesOwn
    {
      this.isoParametric := isoParametric;
      this.bases := bases;
      this.geomBasesOwn := geomBasesOwn;
    }

    /** `geom_bases()`, read through the const overload. */
    function GeomBases(): (g: seq<B>)
      reads this
      ensures isoParametric ==> g == bases
      ensures !isoParametric ==> g == geomBasesOwn
    {
      if isoParametric then bases else geomBasesOwn
    }

    /** Assigning through the reference the non-const `geom_bases()`
        returns: with isoparametric elements it overwrites the solution
        bases, otherwise only the separate geometry bases. */
    method SetGeomBases(v: seq<B>)
      modifies this
      ensures GeomBases() == v
      ensures isoParametric ==> bases == v && geomBasesOwn == old(geomBasesOwn)
      ensures !isoParametric ==> geomBasesOwn == v && bases == old(bases)
    {
      if isoParametric {
        bases := v;
      } else {
        geomBasesOwn := v;
      }
    }
  }

  // ---------------------------------------------------------------------------
  // Boundary samples

  function MaxOf(s: seq<int>): (m: int)
    requires |s| > 0
    ensures m in s
    ensures forall i :: 0 <= i < |s| ==> s[i] <= m
  {
    if |s| == 1 then s[0]
    else
      var rest := MaxOf(s[..|s| - 1]);
      if rest < s[|s| - 1] then s[|s| - 1] else rest
  }

  /** The order the boundary quadrature must integrate: the largest
      discretisation order, and at least the largest geometric order (1 for
      a mesh that records none). */
  function DiscrOrder(meshOrders: seq<int>, discOrders: seq<int>): (d: int)
    requires |discOrders| > 0
    ensures forall i :: 0 <= i < |discOrders| ==> discOrders[i] <= d
    ensures forall i :: 0 <= i < |meshOrders| ==> meshOrders[i] <= d
    ensures meshOrders == [] ==> 1 <= d
    ensures d in discOrders || d in meshOrders || (meshOrders == [] && d == 1)
  {
    var gdiscr := if |meshOrders| <= 0 then 1 else MaxOf(meshOrders);
    var top := MaxOf(discOrders);
    if top < gdiscr then gdiscr else top
  }

  /** `n_boundary_samples`: the configured count, raised to the mass
      quadrature order for `DiscrOrder`. `quadratureOrder` is the assembler
      utility's rule for the mesh dimension. */
  function NBoundarySamples(configured: int, meshOrders: seq<int>, discOrders: seq<int>,
                            quadratureOrder: int -> int): (n: int)
    requires |discOrders| > 0
    ensures configured <= n
    ensures quadratureOrder(DiscrOrder(meshOrders, discOrders)) <= n
    ensures n == configured || n == quadratureOrder(DiscrOrder(meshOrders, discOrders))
  {
    var q := quadratureOrder(DiscrOrder(meshOrders, discOrders));
    if configured < q then q else configured
  }

  // ---------------------------------------------------------------------------
  // The solve guard

  /** The stages `solve` runs, recorded in order. */
  datatype Stage =
    | LoadMeshFirst
    | ComputeMeshStats
    | BuildBasis
    | AssembleRhs
    | AssembleStiffness
    | SolveProblem(exportToFile: bool, framesAtStart: nat)

  /** The parts of the state `solve` touches; `solve_problem` is not part of
      this model, so the frames it produces are an input. */
  class Solver {
    var stages: seq<Stage>
    var solveExportToFile: bool
    var solutionFrames: seq<seq<real>>

    constructor()
      ensures stages == [] && solveExportToFile && solutionFrames == []
    {
      stages := [];
      solveExportToFile := true;
      solutionFrames := [];
    }

    /** `solve`: without a mesh it only reports the error; otherwise it
        builds and assembles in order, then solves with file export off and
        no earlier frames, and turns export back on. */
    method Solve(hasMesh: bool, produced: seq<seq<real>>)
      modifies this
      ensures !hasMesh ==> stages == old(stages) + [LoadMeshFirst]
      ensures !hasMesh ==> solveExportToFile == old(solveExportToFile) && solutionFrames == old(solutionFrames)
      ensures hasMesh ==> stages == old(stages) + [ComputeMeshStats, BuildBasis, AssembleRhs,
                                                   AssembleStiffness, SolveProblem(false, 0)]
      ensures hasMesh ==> solveExportToFile && solutionFrames == produced
    {
      if !hasMesh {
        stages := stages + [LoadMeshFirst];
        return;
      }
      stages := stages + [ComputeMeshStats];
      stages := stages + [BuildBasis];
      stages := stages + [AssembleRhs];
      stages := stages + [AssembleStiffness];
      solveExportToFile := false;
      solutionFrames := [];
      stages := stages + [SolveProblem(solveExportToFile, |solutionFrames|)];
      solutionFrames := produced;
      solveExportToFile := true;
    }
  }
}
