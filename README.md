# polyfem core in Dafny

This project models the bookkeeping core of the polyfem finite-element
library:

- **Physics remesher.** It models:
  - which degrees of freedom `boundary_nodes` marks as Dirichlet;
  - when a local relaxation patch includes the global boundary;
  - which edge operations `renew_neighbor_tuples` schedules after a remeshing step;
  - how `write_priority_queue_mesh` numbers the scheduler's queue and lays out its per-edge export.
- **Elastic form.**
  - `refined_nodes` is the table of sub-simplices.
  - `extract_subelement` and `refine_quadrature` are the recursive subdivision and the refined quadrature it yields.
  - `dense_uv_samples` builds the lattice of sample points.
  - The constructor checks that the basis orders are uniform.
  - `max_step_size` gates the quadrature-tree update.
  - `finish` resets the trees.
  - `get_refined_mesh` builds the refined points and their connectivity.
- **Composite parametrization.** It covers sizes, evaluation, inversion, the chain rule and the state indexing of a list of parametrizations.
- **p-refinement** (`StatePref.cpp`). It covers the clamped order estimate and how discretisation orders spread to neighbours in 2D and 3D.
- **State helpers.** These are:
  - periodic remapping of boundary nodes;
  - `has_periodic_bc`, `ndof`, `get_bdf_order`, `is_obstacle_vertex`, `geom_bases`, `n_boundary_samples`;
  - the guard in front of `solve`.
- **Elastic test problems.** It covers their boundary ids, their Dirichlet, Neumann and right-hand-side values, `set_parameters`, and the closed-form solutions behind `eval_fun`.

Code that updates state in place takes that form in the model:

- `ElasticForm` (its quadrature hierarchy), the problem classes and the solve guard are classes with `modifies` clauses.
- `disc_orders`, the quadrature and the sample lattice are arrays or sequences that the methods fill.
- Each loop is proved against a specification function. The lemmas beside that function state what the source promises.

The standard-library pair `std::sort` + `std::unique` appears as `SortedSets.SortUnique`. It is specified once: the result is strictly increasing and holds the same elements. A strictly increasing list is determined by its elements.

## Model

| member | source | states |
|---|---|---|
| PhysicsRemesher.BcTable | src/polyfem/mesh/remesh/PhysicsRemesher.cpp:15-23 | The table's keys are exactly the configured Dirichlet ids. Each key maps to the flags of some entry with that id. |
| PhysicsRemesher.BcTableLastWins | src/polyfem/mesh/remesh/PhysicsRemesher.cpp:18-23 | A repeated boundary id keeps the axis flags of its last entry. |
| PhysicsRemesher.BuildBcTable | src/polyfem/mesh/remesh/PhysicsRemesher.cpp:15-23 | The filling loop yields that table. |
| PhysicsRemesher.VertexDofs | src/polyfem/mesh/remesh/PhysicsRemesher.cpp:37-39 | One vertex pushes exactly `base + d` for every set flag `d`. |
| PhysicsRemesher.FacetDofs | src/polyfem/mesh/remesh/PhysicsRemesher.cpp:36-39 | One facet pushes exactly `dim*vertex_to_basis[v] + d`, for each of its vertices `v` and each set flag `d`. |
| PhysicsRemesher.PushedDofs | src/polyfem/mesh/remesh/PhysicsRemesher.cpp:28-40 | An index is pushed iff some facet with a configured id has a vertex and a set flag producing it. Unconfigured facets contribute nothing. |
| PhysicsRemesher.PushFacetDofs | src/polyfem/mesh/remesh/PhysicsRemesher.cpp:36-39 | The two inner loops append exactly `FacetDofs`. |
| PhysicsRemesher.PushBoundaryDofs | src/polyfem/mesh/remesh/PhysicsRemesher.cpp:28-40 | The facet loop yields exactly `PushedDofs`. |
| PhysicsRemesher.BoundaryNodes | src/polyfem/mesh/remesh/PhysicsRemesher.cpp:9-47 | The result is strictly increasing. `k` is in it iff `k = dim*vertex_to_basis[v] + d` for a vertex `v` of a boundary facet whose configured entry sets flag `d`. |
| PhysicsRemesher.SomeFacetOnBoundary | src/polyfem/mesh/remesh/PhysicsRemesher.cpp:71-74 | The facet loop returns true iff some facet from `from` on is a boundary facet. |
| PhysicsRemesher.SomeElementOnBoundary | src/polyfem/mesh/remesh/PhysicsRemesher.cpp:69-75 | `any_of` over the patch is true iff some patch element has a boundary facet. |
| PhysicsRemesher.IncludeGlobalBoundary | src/polyfem/mesh/remesh/PhysicsRemesher.cpp:68-75 | True iff contact is enabled and some patch element has a facet on the boundary. |
| PhysicsRemesher.RenewCenter | src/polyfem/mesh/remesh/PhysicsRemesher.cpp:106-128 | The patch is centred on the midpoint iff the mesh is a triangle mesh and the op is a swap. Otherwise it is centred on the switched vertex for a triangle split, and on the tuple's vertex in every other case. |
| PhysicsRemesher.UniqueEdgeTuples | src/polyfem/mesh/remesh/PhysicsRemesher.cpp:152 | No two results share an edge id. Every result is an input, and every input edge id survives. |
| PhysicsRemesher.CollectRankedEdges | src/polyfem/mesh/remesh/PhysicsRemesher.cpp:135-151 | Each collected edge belongs to a patch element and passes the rank filter. Every such edge is collected. |
| PhysicsRemesher.RenewNeighborTuples | src/polyfem/mesh/remesh/PhysicsRemesher.cpp:99-159 | Only edges passing the rank filter are emitted: TOP for splits, BOTTOM for collapses, all for other ops. Every such patch edge gets an operation with the requested name, and no edge gets two. It requires one element, `op != "vertex_smooth"`, and split/collapse on tet meshes. |
| PhysicsRemesher.WrapOperations | src/polyfem/mesh/remesh/PhysicsRemesher.cpp:154-158 | Operation `k` of the result is handle `k` of the deduplicated list under the requested name. The result has the same length as the list. |
| PhysicsRemesher.RenewalCovers | src/polyfem/mesh/remesh/PhysicsRemesher.cpp:134-158 | Collect every admissible edge, keep one handle per edge id, then wrap. Together these make every admissible edge id of the patch appear in some operation. |
| PhysicsRemesher.NumberingIsConsecutive | src/polyfem/mesh/remesh/PhysicsRemesher.cpp:213-225 | Valid entries are numbered from 1 upward in pop order, each number larger than those before it. |
| PhysicsRemesher.DrainQueue | src/polyfem/mesh/remesh/PhysicsRemesher.cpp:201-245 | The recorded edges are the popped edge plus every valid queue edge. The last valid entry of an edge gives it its energy and number `1 + (valid entries before it)`. The popped edge keeps order 0 unless the queue names it again. |
| PhysicsRemesher.DrainLoop | src/polyfem/mesh/remesh/PhysicsRemesher.cpp:205-245 | After the pop loop every entry has been popped. The recorded map then holds the state `Drained` describes for the whole queue, with `i` one past the last number handed out. |
| PhysicsRemesher.ExportLayout | src/polyfem/mesh/remesh/PhysicsRemesher.cpp:249-283 | There are `2*|edges|` vertices, and edge `ei` owns `[2ei, 2ei+1]`. Each carries its own mesh vertex and its edge's fields, or none (NaN) for an edge never seen. |
| PhysicsRemesher.WritePriorityQueueMesh | src/polyfem/mesh/remesh/PhysicsRemesher.cpp:195-291 | There are `2*|edges|` export vertices, and edge `ei` owns `[2ei, 2ei+1]`. Vertex `2ei` copies the edge's vertex and `2ei+1` the vertex across it. Both carry the same fields. Order and energy are present iff the edge was seen, and NaN (None) otherwise. A seen edge's order and energy are its last valid entry's. The popped edge has order 0 and the recomputed energy. |
| PhysicsRemesher.ExportedPairs | src/polyfem/mesh/remesh/PhysicsRemesher.cpp:249-283 | Both vertices of an exported edge carry the same order and energy. The first copies the edge's vertex and the second the vertex across it. Order and energy are present exactly for the edges the drain recorded, and NaN otherwise. |
| PhysicsRemesher.ExportedOrders | src/polyfem/mesh/remesh/PhysicsRemesher.cpp:201-283 | An exported edge whose last valid queue entry is `k` shows that entry's energy and the number `1 + (valid entries before k)`. |
| PhysicsRemesher.ExportedPopped | src/polyfem/mesh/remesh/PhysicsRemesher.cpp:201-283 | When no valid queue entry names the popped edge, its export shows order 0 and the current energy. |
| SortedSets.Insert | src/polyfem/mesh/remesh/PhysicsRemesher.cpp:43-45 | Inserting into a strictly increasing list keeps it strictly increasing and adds exactly `x` to its elements. |
| SortedSets.SortUnique | src/polyfem/mesh/remesh/PhysicsRemesher.cpp:43-45 | Sort, `unique` and erase give a strictly increasing list with the same elements and no greater length. |
| SortedSets.StrictlyIncreasingUnique | src/polyfem/mesh/remesh/PhysicsRemesher.cpp:43-45 | Two strictly increasing lists with the same elements are equal. |
| SortedSets.SortUniqueDependsOnlyOnElements | src/polyfem/mesh/remesh/PhysicsRemesher.cpp:43-45 | The result does not depend on push order, only on the set of pushed indices. |
| SortedSets.SortUniqueIdempotent | src/polyfem/mesh/remesh/PhysicsRemesher.cpp:43-45 | Applied to an already sorted, duplicate-free list it changes nothing. |
| QuadratureRefinement.HalvedRows | src/polyfem/solver/forms/ElasticForm.cpp:124 | The final `A / 2` halves every entry of the integer table, row by row. |
| QuadratureRefinement.RefinedNodes | src/polyfem/solver/forms/ElasticForm.cpp:46-125 | The column operations of the switch yield the reference table `RefinedNodesOf`. |
| QuadratureRefinement.TriangleColumns | src/polyfem/solver/forms/ElasticForm.cpp:49-70 | The triangle cases' column updates produce the table entry of sub-triangle `i`, for each `i` in 0-3. |
| QuadratureRefinement.TetColumns | src/polyfem/solver/forms/ElasticForm.cpp:72-123 | The tetrahedron cases' column updates, including the swaps through `tmp` in cases 4-7, produce the table entry of sub-tetrahedron `i`. |
| QuadratureRefinement.RefinedNodesInSimplex | src/polyfem/solver/forms/ElasticForm.cpp:46-125 | Sub-simplex indices 0-3 (2D) and 0-7 (3D) give a `(dim+1) x dim` matrix of corners inside the reference simplex: coordinates in [0, 1] and sum at most 1. Any other index fails with "Invalid node index". |
| QuadratureRefinement.TableEntry | src/polyfem/solver/forms/ElasticForm.cpp:46-125 | Every coordinate of every valid table entry is 0, 1/2 or 1. |
| QuadratureRefinement.FirstSubSimplexIsHalfReference | src/polyfem/solver/forms/ElasticForm.cpp:50-58 | Sub-simplex 0 is the reference simplex halved. |
| QuadratureRefinement.SubSimplexVolume | src/polyfem/solver/forms/ElasticForm.cpp:46-125 | Every sub-simplex has edge determinant ±1 before halving, i.e. volume `1/2^dim` of the reference. |
| QuadratureRefinement.ExtractSubelement | src/polyfem/solver/forms/ElasticForm.cpp:131-164 | It succeeds iff every node of the tree has a valid child count. On success it gives one level per leaf, equal to the leaf's depth, and `(dim+1)` corner rows per leaf. |
| QuadratureRefinement.ExtractChildren | src/polyfem/solver/forms/ElasticForm.cpp:140-163 | The child loop concatenates the children's corners and levels (each level plus one) and fails on an out-of-range child index. |
| QuadratureRefinement.Pow2Add | src/polyfem/solver/forms/ElasticForm.cpp:202 | `2^(a+b) = 2^a * 2^b`, used for the level divisor. |
| QuadratureRefinement.RefineQuadrature | src/polyfem/solver/forms/ElasticForm.cpp:166-207 | It succeeds iff the tree is admissible and fails with "Invalid node index" otherwise. The weights are the base weights divided by `2^(dim*level)` for each leaf. The points are the base points mapped into each leaf's corners. |
| QuadratureRefinement.ShareShift | src/polyfem/solver/forms/ElasticForm.cpp:158-161 | Deepening every leaf by one level divides the weight share by `2^dim`. |
| QuadratureRefinement.FullTreeShare | src/polyfem/solver/forms/ElasticForm.cpp:202-204 | A full subdivision tree is admissible, and its leaves' shares add up to the whole. |
| QuadratureRefinement.FullChildrenShare | src/polyfem/solver/forms/ElasticForm.cpp:140-163 | Full children each carry `1/2^dim` of the whole. |
| QuadratureRefinement.SumConcat | src/polyfem/solver/forms/ElasticForm.cpp:201-202 | Sum over stacked weight blocks is the sum of the block sums. |
| QuadratureRefinement.SumScaled | src/polyfem/solver/forms/ElasticForm.cpp:202 | Dividing every weight by `d` divides the sum by `d`. |
| QuadratureRefinement.LeafWeightsTotal | src/polyfem/solver/forms/ElasticForm.cpp:199-203 | The refined weights sum to the base total split over the leaves by level. |
| QuadratureRefinement.RefinedWeightPreserved | src/polyfem/solver/forms/ElasticForm.cpp:204 | For a full subdivision tree the refined weights sum to the base weights' sum, which is what the closing assertion checks. |
| ElasticForm.RowsLength | src/polyfem/solver/forms/ElasticForm.cpp:212-222 | The first `n` rows hold `n(2o+3-n)/2` samples. |
| ElasticForm.RowsOrdered | src/polyfem/solver/forms/ElasticForm.cpp:214-222 | Every sample `(i, j)` has `i + j <= o`, and samples come in strictly increasing lexicographic order. |
| ElasticForm.RowsSlot | src/polyfem/solver/forms/ElasticForm.cpp:214-222 | Sample `(i, j)` sits at position `(rows before i) + j`. |
| ElasticForm.DenseLattice | src/polyfem/solver/forms/ElasticForm.cpp:209-224 | The lattice has `(o+2)(o+1)/2` entries, all in the triangle, strictly increasing, with every `(i, j)` with `i + j <= o` at its slot. |
| ElasticForm.DenseUvSamples | src/polyfem/solver/forms/ElasticForm.cpp:209-224 | The nested loops fill an array of exactly `(o+2)(o+1)/2` rows with the lattice in order. |
| ElasticForm.WriteRow | src/polyfem/solver/forms/ElasticForm.cpp:216-221 | The inner loop appends row `i`, the samples `(i, 0) .. (i, o - i)`, right after the entries already written. Those earlier entries are left alone. |
| ElasticForm.UniformStep | src/polyfem/solver/forms/ElasticForm.cpp:314-325 | The remembered order after a prefix decides whether the next element keeps the orders uniform. |
| ElasticForm.ConstructorCheck | src/polyfem/solver/forms/ElasticForm.cpp:306-326 | "Discrete" always passes. Otherwise an inverted zero state fails with "Initial state has inverted elements!", and otherwise the check passes iff the basis orders and geometric orders are uniform. Each order error names the first element breaking uniformity. |
| ElasticForm.RefinedPoints | src/polyfem/solver/forms/ElasticForm.cpp:767-790 | The stacked corners of the selected elements are returned. This fails with "Invalid node index" iff some selected tree is not admissible, and has `(dim+1)` rows per selected leaf. |
| ElasticForm.SelectedLeavesPrefix | src/polyfem/solver/forms/ElasticForm.cpp:770-776 | The leaf count of a prefix of elements never exceeds the total. |
| ElasticForm.MeshStep | src/polyfem/solver/forms/ElasticForm.cpp:779-792 | One element step appends its corners at the running row offset, or skips an unselected element. |
| ElasticForm.ConnectivityInjective | src/polyfem/solver/forms/ElasticForm.cpp:796-799 | Distinct `(i, j)` get distinct point indices `i*(dim+1) + j`. |
| ElasticForm.ConnectivityCovers | src/polyfem/solver/forms/ElasticForm.cpp:796-799 | Every refined point index is used by exactly the element and corner it decomposes into. |
| ElasticForm.CountSelectedLeaves | src/polyfem/solver/forms/ElasticForm.cpp:770-776 | The counting loop gives the number of leaves over the selected elements. |
| ElasticForm.Connectivity | src/polyfem/solver/forms/ElasticForm.cpp:796-799 | It is `n_elem x (dim+1)`, with entry `(i, j)` equal to `i*(dim+1) + j`. |
| ElasticForm.ElasticForm.constructor | src/polyfem/solver/forms/ElasticForm.cpp:274-300 | The hierarchy has one empty tree per element. |
| ElasticForm.ElasticForm.MaxStepSize | src/polyfem/solver/forms/ElasticForm.cpp:378-494 | "Discrete" returns 1 and touches nothing. Otherwise it returns the step, and only when `invalidID >= 0` and step < 0.5 is that element's tree merged with the subdivision tree. |
| ElasticForm.ElasticForm.Finish | src/polyfem/solver/forms/ElasticForm.cpp:372-376 | Every tree of the hierarchy is reset to an empty tree. |
| ElasticForm.ElasticForm.GetRefinedMesh | src/polyfem/solver/forms/ElasticForm.cpp:767-802 | It succeeds iff every selected tree is admissible. The points are then the stacked refined corners, with `n_elem = (selected leaves)` rows of connectivity `i*(dim+1) + j`. |
| ElasticForm.FillRefinedPoints | src/polyfem/solver/forms/ElasticForm.cpp:780-795 | The fill loop gives a buffer equal to the stacked corners of every selected element's leaves, and succeeds iff each selected tree extracts. |
| ElasticForm.CopyRows | src/polyfem/solver/forms/ElasticForm.cpp:793 | Copying a block at `idx` keeps the first `idx` rows and follows them with the block. |
| Parametrization.InverseOf | src/polyfem/solver/forms/parametrization/Parametrization.hpp:17-21 | The base `inverse_eval` fails with "Not supported", exactly for a component without an override. |
| Parametrization.CompositeSize | src/polyfem/solver/forms/parametrization/Parametrization.hpp:37-44 | The loop threads the size through the components in list order. |
| Parametrization.CompositeEval | src/polyfem/solver/forms/parametrization/Parametrization.hpp:60-72 | The loop applies every component in list order. An empty list gives the identity. |
| Parametrization.CompositeInverseEval | src/polyfem/solver/forms/parametrization/Parametrization.hpp:46-58 | The downward loop applies the inverses last to first and stops at the first failure. |
| Parametrization.CompositeApplyJacobian | src/polyfem/solver/forms/parametrization/Parametrization.hpp:73-93 | The two passes equal the chain rule, each Jacobian taken at the input its component received. |
| Parametrization.EmptyComposite | src/polyfem/solver/forms/parametrization/Parametrization.hpp:37-101 | An empty composite passes every input through and has empty indexing. |
| Parametrization.SizeConcat | src/polyfem/solver/forms/parametrization/Parametrization.hpp:37-44 | The size of `a + b` is the size through `a`, then through `b`. |
| Parametrization.EvalConcat | src/polyfem/solver/forms/parametrization/Parametrization.hpp:60-72 | Evaluating `a + b` evaluates `a`, then `b`. |
| Parametrization.InverseEvalConcat | src/polyfem/solver/forms/parametrization/Parametrization.hpp:46-58 | Inverting `a + b` inverts `b`, then `a`. |
| Parametrization.InverseRoundTrip | src/polyfem/solver/forms/parametrization/Parametrization.hpp:46-72 | If every component's inverse undoes its eval, the composite inverse undoes the composite eval. |
| Parametrization.InverseFailsIffMissing | src/polyfem/solver/forms/parametrization/Parametrization.hpp:17-58 | The composite inverse fails iff some component lacks an inverse, and always with "Not supported". |
| Parametrization.ChainRule | src/polyfem/solver/forms/parametrization/Parametrization.hpp:73-93 | Pulling back through `a + b` pulls back through `b` at `eval_a(x)`, then through `a`. |
| Parametrization.SingleComponent | src/polyfem/solver/forms/parametrization/Parametrization.hpp:37-101 | A one-component composite behaves as that component, indexing included. |
| Parametrization.StateIndexingConcat | src/polyfem/solver/forms/parametrization/Parametrization.hpp:95-101 | `StateIndexing` models `get_state_variable_indexing`: the last component's indexing, or the empty default. Appending a non-empty list of components replaces the indexing with that list's, and appending nothing keeps it. |
| StatePref.GetOptP | src/polyfem/state/StatePref.cpp:34-45 | The result is the estimate clamped to `[p_ref, p_max]`: exactly the estimate when it lies between them, `p_ref` when the estimate is below `p_ref <= p_max`, and `p_max` when the estimate reaches `p_max` or `p_ref` exceeds it. It is never above `p_max`, and never below `p_ref` when `p_ref <= p_max`. |
| StatePref.Targets | src/polyfem/state/StatePref.cpp:98 | Each element's target order is `get_opt_p` of its own estimate, as computed in the 2D and 3D loops (also line 198). It is at most `p_max`, and at least `p_ref` when `p_ref <= p_max`. |
| StatePref.RaiseAllEffect | src/polyfem/state/StatePref.cpp:100-111 | Raising a list of entries to `p` never lowers one, lifts each listed entry to at least `p`, and otherwise leaves entries or sets them to `p`. |
| StatePref.PropagateEffect | src/polyfem/state/StatePref.cpp:67-121 | After the element loop each order is the maximum of its old value and every order offered to it by a simplex element. It has not decreased, it is at least every offer, and it is its old value or one of the offers. |
| StatePref.PropagateBelowMax | src/polyfem/state/StatePref.cpp:34-111 | With clamped estimates no order is raised above the larger of its old value and `p_max`. |
| StatePref.EdgeCellsMembers | src/polyfem/state/StatePref.cpp:203-213 | A cell is raised from cell `c` iff it lies around one of `c`'s edges. |
| StatePref.PRefinement2D | src/polyfem/state/StatePref.cpp:47-134 | The face loop leaves `disc_orders` equal to the propagation of the clamped orders from every simplex face to itself and its edge neighbours. Boundary sides are skipped. |
| StatePref.PRefinement3D | src/polyfem/state/StatePref.cpp:136-231 | The cell loop leaves `disc_orders` equal to the propagation from every simplex cell to itself and every cell around its six edges. |
| StatePref.RaiseCells | src/polyfem/state/StatePref.cpp:208-212 | Raising the cells around one edge leaves `disc_orders` equal to `RaiseAll` of those cells. |
| StatePref.RaiseAroundEdges | src/polyfem/state/StatePref.cpp:203-213 | The edge loop raises the cells around each edge in turn. That is `RaiseAll` over the concatenated cell lists. |
| StatePref.RaiseAllConcat | src/polyfem/state/StatePref.cpp:199-213 | Raising one list and then another is the same as raising their concatenation. This lets the per-edge raises and the raise of `c` add up to one propagation step. |
| StateHelpers.HasPeriodicBc | src/polyfem/State.hpp:389-397 | True iff some entry of the periodic dimensions is true. |
| StateHelpers.FullToPeriodic | src/polyfem/State.hpp:407-418 | The in-place remap, sort and unique equals `Periodic`. |
| StateHelpers.PeriodicElements | src/polyfem/State.hpp:407-418 | With periodic conditions and no periodic basis, the result is strictly increasing and holds exactly the images `periodic_reduce_map[node]`. Otherwise it is the input unchanged. |
| StateHelpers.PeriodicIdempotent | src/polyfem/State.hpp:407-418 | When the reduce map is a projection, remapping twice equals remapping once. |
| StateHelpers.PeriodicNodesIn | src/polyfem/State.hpp:407-418 | When the reduce map is a projection, the remapped list names only nodes of the map. |
| StateHelpers.Ndof | src/polyfem/State.hpp:689-696 | `actual_dim * n_bases`, plus the pressure bases in a mixed formulation. |
| StateHelpers.DofIndexInRange | src/polyfem/State.hpp:689-696 | Every node-component index `actual_dim*b + d` is below `ndof`. |
| StateHelpers.DofDecompose | src/polyfem/State.hpp:689-696 | Every dof below `actual_dim*n_bases` is component `k mod actual_dim` of basis `k / actual_dim`. The rest exist only in mixed formulations and are pressure dofs. |
| StateHelpers.GetBdfOrder | src/polyfem/State.hpp:698-709 | 1 for ImplicitEuler and the configured steps for BDF. Any other integrator fails with "Integrator type not supported for differentiability.". |
| StateHelpers.IsObstacleVertex | src/polyfem/State.hpp:563-566 | True iff `vi` is among the last `n_obstacle` rows, after the signed difference is converted to `size_t`. A negative difference makes every realistic index false. |
| StateHelpers.ObstacleVerticesAreLast | src/polyfem/State.hpp:563-566 | The obstacle vertices are the last `n_obstacle` rows. Row `vi` is one exactly when fewer than `n_obstacle` rows follow it. |
| StateHelpers.BasisSets.GeomBases | src/polyfem/State.hpp:244-247 | The solution bases when isoparametric, the separate geometry bases otherwise. |
| StateHelpers.BasisSets.SetGeomBases | src/polyfem/State.hpp:249-252 | Writing through the mutable `geom_bases()` overwrites the solution bases when isoparametric and only the geometry bases otherwise. |
| StateHelpers.DiscrOrder | src/polyfem/State.hpp:278-279 | The order is at least every discretisation order and every geometric order (at least 1 without geometric orders), and is one of them. |
| StateHelpers.NBoundarySamples | src/polyfem/State.hpp:274-284 | The count is never below the configured count nor below the mass quadrature order, and is one of the two. |
| StateHelpers.Solver.Solve | src/polyfem/State.hpp:310-326 | Without a mesh it only reports "Load the mesh first!" and builds nothing. Otherwise it runs mesh statistics, basis, right-hand side and stiffness in order, then solves with export off and no frames, and turns export back on. |
| ElasticProblem.ShearSupport | cpp/src/problem/ElasticProblem.cpp:8-33 | The Dirichlet value is non-zero exactly on the default ids {1, 3, 5, 6}, and only in the first two columns. |
| ElasticProblem.ShearOneColumn | cpp/src/problem/ElasticProblem.cpp:24-31 | No row gets a non-zero value in both columns. |
| ElasticProblem.ElasticProblem.constructor | cpp/src/problem/ElasticProblem.cpp:8-12 | The default Dirichlet ids are {1, 3, 5, 6}. |
| ElasticProblem.ElasticProblem.Rhs | cpp/src/problem/ElasticProblem.cpp:14-17 | All zero, of the points' size. |
| ElasticProblem.ElasticProblem.Bc | cpp/src/problem/ElasticProblem.cpp:19-33 | The matrix is rows × dimension. x is -0.25/+0.25 on ids 1/3, y is -0.25/+0.25 on ids 5/6, and every other entry is 0. |
| ElasticProblem.ElasticForceProblem.constructor | cpp/src/problem/ElasticProblem.cpp:36-46 | The Dirichlet ids are {2}, the Neumann ids {4}, and the force is (0.1, 0, 0). |
| ElasticProblem.ElasticForceProblem.Rhs | cpp/src/problem/ElasticProblem.cpp:48-51 | All zero. |
| ElasticProblem.ElasticForceProblem.Bc | cpp/src/problem/ElasticProblem.cpp:53-62 | All zero, rows × dimension. |
| ElasticProblem.ElasticForceProblem.NeumannBc | cpp/src/problem/ElasticProblem.cpp:64-75 | Rows on id 4 carry the force component-wise, and every other row is zero. |
| ElasticProblem.ElasticForceProblem.SetParameters | cpp/src/problem/ElasticProblem.cpp:77-116 | Each of the boundary ids, Neumann ids and force is replaced only when its key is present. An array force overwrites only the leading `ff.size()` entries, and a non-array force is ignored. |
| ElasticProblem.ElasticForceProblem.OverwriteForce | cpp/src/problem/ElasticProblem.cpp:107-115 | The copy loop overwrites the leading entries and keeps the rest. |
| ElasticProblem.CopyIds | cpp/src/problem/ElasticProblem.cpp:79-104 | The resize-and-copy loop reproduces the parameter list. |
| ElasticProblem.UpdatedForceIdempotent | cpp/src/problem/ElasticProblem.cpp:107-115 | Applying the same force array twice equals applying it once, and an empty array changes nothing. |
| ElasticProblem.ElasticProblemZeroBC.constructor | cpp/src/problem/ElasticProblem.cpp:119-123 | The Dirichlet ids are {1, ..., 6}. |
| ElasticProblem.ElasticProblemZeroBC.Rhs | cpp/src/problem/ElasticProblem.cpp:125-129 | Column 1 is 0.5 and everything else is 0. |
| ElasticProblem.ElasticProblemZeroBC.Bc | cpp/src/problem/ElasticProblem.cpp:131-140 | All zero, rows × dimension. |
| ElasticProblem.EvalFun | cpp/src/problem/ElasticProblem.cpp:248-257 | It is defined iff the point has 2 or 3 coordinates, dispatching to the 2D or 3D field, and has the point's size. |
| ElasticProblem.CompressionScalesCubic | cpp/src/problem/ElasticProblem.cpp:147-192 | The compression field is the cubic field scaled by -5/2 in 2D and -40/7 in 3D. |
| ElasticProblem.FieldsVanishAtOrigin | cpp/src/problem/ElasticProblem.cpp:147-240 | All four closed-form fields are zero at the origin. |

## Left out

- Floating-point numerics are not modelled: the elastic energy, gradients and Hessians, `evaluate_jacobian`, `maxTimeStep` and `isValid`. In `max_step_size`, the step, the invalid element and the subdivision tree are inputs. The tree's `merge` is a function parameter whose result replaces the element's tree.
- `update_quadrature`, and the assembly-cache refresh after a merge, are not modelled. They are assembler calls outside this model.
- `force_material_derivative`, `force_shape_derivative`, `local_mesh_energy` and `edge_elastic_energy` are assembly and parallel numerics.
- The WMTK topology kernel is not part of this model. Tuple validity, navigation, `boundary_facets`, `get_edges`, ball selection and `extend_local_patch` are given as sequences and functions.
- PhysicsRemesher.UniqueEdgeTuples: stands in for `wmtk::unique_edge_tuples`, whose source is not part of this model. Its contract states only the set and no-duplicate properties, not which duplicate survives.
- The queue executor's concurrency is left out. The snapshot is a sequence of (energy, op, tuple, id) entries.
- `write_priority_queue_mesh`: the recomputed-energy check, `|diff|`, the tolerance asserts and the VTU writer are left out.
- ElasticForm.DenseUvSamples: returns the lattice indices `(i, j)`, not the quotients `i/o`, `j/o`. The division, and the NaN it gives for `o = 0`, are floating point.
- `refined_nodes` is modelled on integers scaled by 2. The final halving is `HalvedRows`.
- The base quadrature rules (`TriQuadrature`, `TetQuadrature`) and their barycentric extension are not modelled; the base rule is an input to `RefineQuadrature`.
- QuadratureRefinement.RefinedWeightPreserved: proved for full subdivision trees, where every node has all `2^dim` children. A tree with missing children loses their share of the weight; the source asserts the total only up to 1e-8.
- StatePref.GetOptP: the estimate `round(ptmp)` is an input. The logarithm formula, the angles, the inradius and the statistics (`stats.*`, the `num_p` logs) are floating point.
- StatePref.PRefinement2D, StatePref.PRefinement3D: mesh navigation (`switch_face`, `next_around_face`, `cell_edge`, `edge_neighs`) is given as neighbour tables.
- `MAX_P_BASES` is generated code and is not part of this model. `p_max` is an input.
- Parametrization: components are given by their behaviour as functions. A composite nested as a component of another composite is not modelled separately.
- StateHelpers.FullToPeriodic: the vector passed by reference is an in/out sequence. The matrix overloads of `full_to_periodic` and `periodic_to_full` are not modelled.
- StateHelpers.NBoundarySamples: `AssemblerUtils::quadrature_order` is a function parameter for the mesh dimension.
- `geom_bases` is modelled over an arbitrary basis type. `ElementBases` itself is not part of this model.
- StateHelpers.Solver.Solve: `solve_problem`, `build_basis` and the assembly steps are recorded as stages, not executed. The frames `solve_problem` produces are an input.
- ElasticProblem.EvalFun: for a point of another size the source hits `assert(false)` and, without assertions, returns an uninitialised vector. The model returns `None`.
- The autodiff overloads of `eval_fun` compute the same fields on autodiff scalars and are not modelled separately.
- ElasticProblem `bc`/`neumann_bc` take the boundary id of each sample row as input. Mesh lookup via `get_boundary_id` is not part of this model. As in the source, the Neumann value is keyed on the literal id 4, not on `neumann_boundary_ids_`.
- JSON parsing is not modelled. `set_parameters` takes the present keys as `Option` fields, and a force array longer than the three-entry force vector is excluded by precondition.
