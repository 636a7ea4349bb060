/** Bookkeeping of the physics-driven remesher: which degrees of freedom are
    Dirichlet nodes of a patch, whether a patch touches the domain boundary,
    which operations are re-enqueued after an operation, and the diagnostic
    dump of the priority queue.

    The mesh kernel is not part of this model. A mesh handle (`Tuple`) is
    represented by the answers the kernel gives about it right now: its vertex,
    the vertex across the edge, its edge id and whether it is still valid.
    Elements are identified by their ids; per-element facet and edge data are
    given as tables indexed by element id. */
module PhysicsRemesher {
  import opened Wrappers
  import opened SortedSets

  // ---------------------------------------------------------------------------
  // Mesh view

  /** A mesh handle together with what the kernel reports about it. */
  datatype Tuple = Tuple(vid: nat, switchVid: nat, eid: nat, elementId: nat, valid: bool)

  datatype EnergyRank = Top | Bottom | NoRank

  function FacetsPerElement(isTet: bool): nat { if isTet then 4 else 3 }

  function EdgesPerElement(isTet: bool): nat { if isTet then 6 else 3 }

  // ---------------------------------------------------------------------------
  // boundary_nodes

  /** One entry of the Dirichlet boundary list of the configuration. */
  datatype DirichletBc = DirichletBc(id: int, dimension: seq<bool>)

  /** A boundary facet: its vertex ids and its boundary id. */
  datatype BoundaryFacet = BoundaryFacet(vids: seq<nat>, boundaryId: int)

  /** The `bc_ids` table: every configured id maps to the axis flags of the
      LAST entry that carries it. */
  function BcTable(bcs: seq<DirichletBc>): (m: map<int, seq<bool>>)
    ensures forall id :: id in m <==> exists k :: 0 <= k < |bcs| && bcs[k].id == id
    ensures forall id :: id in m ==>
              exists k :: 0 <= k < |bcs| && bcs[k].id == id && m[id] == bcs[k].dimension
  {
    if bcs == [] then map[]
    else
      var last := bcs[|bcs| - 1];
      var m := BcTable(bcs[..|bcs| - 1])[last.id := last.dimension];
      assert forall k :: 0 <= k < |bcs| - 1 ==> bcs[..|bcs| - 1][k] == bcs[k];
      m
  }

  /** A repeated boundary id keeps the flags of its last entry. */
  lemma {:induction false} BcTableLastWins(bcs: seq<DirichletBc>, k: nat)
    requires k < |bcs|
    requires forall k' :: k < k' < |bcs| ==> bcs[k'].id != bcs[k].id
    ensures bcs[k].id in BcTable(bcs) && BcTable(bcs)[bcs[k].id] == bcs[k].dimension
  {
    if k < |bcs| - 1 {
      var init := bcs[..|bcs| - 1];
      assert forall k' :: k < k' < |init| ==> init[k'] == bcs[k'];
      BcTableLastWins(init, k);
      assert init[k] == bcs[k];
    }
  }

  /** Indices pushed for one vertex: `base + d` for every set flag `d < n`. */
  function VertexDofs(base: int, flags: seq<bool>, n: nat): (r: seq<int>)
    requires n <= |flags|
    ensures forall k :: k in r <==> exists d :: 0 <= d < n && flags[d] && k == base + d
  {
    if n == 0 then []
    else
      var r := VertexDofs(base, flags, n - 1) + (if flags[n - 1] then [base + n - 1] else []);
      assert forall k :: k in r <==> k in VertexDofs(base, flags, n - 1) || (flags[n - 1] && k == base + n - 1);
      r
  }

  /** Indices pushed for the vertices of one configured facet. */
  function FacetDofs(dim: nat, vertexToBasis: seq<int>, flags: seq<bool>, vids: seq<nat>): (r: seq<int>)
    requires dim <= |flags|
    requires forall j :: 0 <= j < |vids| ==> vids[j] < |vertexToBasis|
    ensures forall k :: k in r <==>
              exists j, d :: 0 <= j < |vids| && 0 <= d < dim && flags[d] && k == dim * vertexToBasis[vids[j]] + d
  {
    if vids == [] then []
    else
      var init := vids[..|vids| - 1];
      var last := vids[|vids| - 1];
      var r := FacetDofs(dim, vertexToBasis, flags, init) + VertexDofs(dim * vertexToBasis[last], flags, dim);
      assert forall j :: 0 <= j < |init| ==> init[j] == vids[j];
      r
  }

  ghost predicate TableFlagsCover(table: map<int, seq<bool>>, dim: nat) {
    forall id :: id in table ==> dim <= |table[id]|
  }

  ghost predicate VertexIdsInRange(facets: seq<BoundaryFacet>, vertexToBasis: seq<int>) {
    forall i, j :: 0 <= i < |facets| && 0 <= j < |facets[i].vids| ==> facets[i].vids[j] < |vertexToBasis|
  }

  /** Every index pushed while walking the facets, in push order. */
  function PushedDofs(dim: nat, vertexToBasis: seq<int>, table: map<int, seq<bool>>, facets: seq<BoundaryFacet>): (r: seq<int>)
    requires TableFlagsCover(table, dim)
    requires VertexIdsInRange(facets, vertexToBasis)
    ensures forall k :: k in r <==>
              exists i, j, d :: 0 <= i < |facets| && 0 <= j < |facets[i].vids| && 0 <= d < dim
                                && facets[i].boundaryId in table && table[facets[i].boundaryId][d]
                                && k == dim * vertexToBasis[facets[i].vids[j]] + d
  {
    if facets == [] then []
    else
      var init := facets[..|facets| - 1];
      var f := facets[|facets| - 1];
      assert forall i :: 0 <= i < |init| ==> init[i] == facets[i];
      PushedDofs(dim, vertexToBasis, table, init)
      + (if f.boundaryId in table then FacetDofs(dim, vertexToBasis, table[f.boundaryId], f.vids) else [])
  }

  /** `k` is a Dirichlet degree of freedom: `k = dim * vertexToBasis[v] + d` for
      a vertex `v` of a boundary facet whose id is configured with flag `d` set. */
  ghost predicate IsBoundaryDof(dim: nat, vertexToBasis: seq<int>, bcs: seq<DirichletBc>,
                                facets: seq<BoundaryFacet>, k: int)
    requires VertexIdsInRange(facets, vertexToBasis)
  {
    var table := BcTable(bcs);
    exists i, j, d :: 0 <= i < |facets| && 0 <= j < |facets[i].vids| && 0 <= d < dim
                      && facets[i].boundaryId in table && d < |table[facets[i].boundaryId]|
                      && table[facets[i].boundaryId][d]
                      && k == dim * vertexToBasis[facets[i].vids[j]] + d
  }

  /** The loop that fills `bc_ids` from the configured Dirichlet entries. */
  method BuildBcTable(bcs: seq<DirichletBc>) returns (table: map<int, seq<bool>>)
    ensures table == BcTable(bcs)
  {
    table := map[];
    for b := 0 to |bcs|
      invariant table == BcTable(bcs[..b])
    {
      assert bcs[..b + 1][..b] == bcs[..b];
      table := table[bcs[b].id := bcs[b].dimension];
    }
    assert bcs[..|bcs|] == bcs;
  }

  /** The two inner loops for one configured facet: push one index per
      (vertex, set flag), appending to `raw`. */
  method PushFacetDofs(dim: nat, vertexToBasis: seq<int>, flags: seq<bool>, vids: seq<nat>, raw: seq<int>)
    returns (raw': seq<int>)
    requires dim <= |flags|
    requires forall j :: 0 <= j < |vids| ==> vids[j] < |vertexToBasis|
    ensures raw' == raw + FacetDofs(dim, vertexToBasis, flags, vids)
  {
    raw' := raw;
    for j := 0 to |vids|
      invariant raw' == raw + FacetDofs(dim, vertexToBasis, flags, vids[..j])
    {
      assert vids[..j + 1][..j] == vids[..j];
      var vid := vids[j];
      for d := 0 to dim
        invariant raw' == raw + FacetDofs(dim, vertexToBasis, flags, vids[..j])
                          + VertexDofs(dim * vertexToBasis[vid], flags, d)
      {
        if flags[d] {
          raw' := raw' + [dim * vertexToBasis[vid] + d];
        }
      }
    }
    assert vids[..|vids|] == vids;
  }

  /** The facet loop of `boundary_nodes`; facets with an unconfigured id are
      skipped. */
  method PushBoundaryDofs(dim: nat, vertexToBasis: seq<int>, table: map<int, seq<bool>>, facets: seq<BoundaryFacet>)
    returns (raw: seq<int>)
    requires TableFlagsCover(table, dim)
    requires VertexIdsInRange(facets, vertexToBasis)
    ensures raw == PushedDofs(dim, vertexToBasis, table, facets)
  {
    raw := [];
    for i := 0 to |facets|
      invariant raw == PushedDofs(dim, vertexToBasis, table, facets[..i])
    {
      assert facets[..i + 1][..i] == facets[..i];
      var f := facets[i];
      if f.boundaryId !in table {
        continue;
      }
      raw := PushFacetDofs(dim, vertexToBasis, table[f.boundaryId], f.vids, raw);
    }
    assert facets[..|facets|] == facets;
  }

  /** `boundary_nodes`: build the id table, push one index per (facet vertex,
      set axis flag), then sort and drop duplicates. */
  method BoundaryNodes(dim: nat, vertexToBasis: seq<int>, bcs: seq<DirichletBc>, facets: seq<BoundaryFacet>)
    returns (nodes: seq<int>)
    requires forall k :: 0 <= k < |bcs| ==> |bcs[k].dimension| == dim
    requires VertexIdsInRange(facets, vertexToBasis)
    ensures StrictlyIncreasing(nodes)
    ensures forall k :: k in nodes <==> IsBoundaryDof(dim, vertexToBasis, bcs, facets, k)
  {
    var table := BuildBcTable(bcs);
    assert TableFlagsCover(table, dim);
    var raw := PushBoundaryDofs(dim, vertexToBasis, table, facets);
    nodes := SortUnique(raw);
    forall k ensures k in nodes <==> IsBoundaryDof(dim, vertexToBasis, bcs, facets, k) {
      assert k in nodes <==> k in Elements(nodes);
      assert k in raw <==> k in Elements(raw);
    }
  }

  // ---------------------------------------------------------------------------
  // include_global_boundary (local_mesh_energy)

  /** The facet loop of the `any_of` lambda: does some facet `i` at or after
      `from` lie on the domain boundary? */
  function SomeFacetOnBoundary(onBoundary: seq<bool>, from: nat): (r: bool)
    requires from <= |onBoundary|
    ensures r <==> exists i :: from <= i < |onBoundary| && onBoundary[i]
    decreases |onBoundary| - from
  {
    if from == |onBoundary| then false
    else onBoundary[from] || SomeFacetOnBoundary(onBoundary, from + 1)
  }

  ghost predicate FacetTableFits(patch: seq<nat>, facetOnBoundary: seq<seq<bool>>, isTet: bool) {
    forall k :: 0 <= k < |patch| ==>
      patch[k] < |facetOnBoundary| && |facetOnBoundary[patch[k]]| == FacetsPerElement(isTet)
  }

  /** `std::any_of` over the patch elements. */
  function SomeElementOnBoundary(patch: seq<nat>, facetOnBoundary: seq<seq<bool>>, isTet: bool): (r: bool)
    requires FacetTableFits(patch, facetOnBoundary, isTet)
    ensures r <==> exists k, i :: 0 <= k < |patch| && 0 <= i < FacetsPerElement(isTet)
                                  && facetOnBoundary[patch[k]][i]
  {
    if patch == [] then false
    else
      var rest := SomeElementOnBoundary(patch[1..], facetOnBoundary, isTet);
      assert forall k :: 1 <= k < |patch| ==> patch[1..][k - 1] == patch[k];
      SomeFacetOnBoundary(facetOnBoundary[patch[0]], 0) || rest
  }

  /** `include_global_boundary`: contact is enabled and some patch element owns
      a facet on the domain boundary. */
  function IncludeGlobalBoundary(contactEnabled: bool, patch: seq<nat>,
                                 facetOnBoundary: seq<seq<bool>>, isTet: bool): (r: bool)
    requires FacetTableFits(patch, facetOnBoundary, isTet)
    ensures r <==> contactEnabled && exists k, i :: 0 <= k < |patch| && 0 <= i < FacetsPerElement(isTet)
                                                    && facetOnBoundary[patch[k]][i]
  {
    contactEnabled && SomeElementOnBoundary(patch, facetOnBoundary, isTet)
  }

  // ---------------------------------------------------------------------------
  // renew_neighbor_tuples

  /** Where the next local patch is centred. */
  datatype Center = AtVertex(v: nat) | Midpoint(v0: nat, v1: nat)

  /** The handle of local edge `local` of element `element`, with its edge id. */
  datatype EdgeHandle = EdgeHandle(element: nat, local: nat, eid: nat)

  datatype Operation = Operation(name: string, edge: EdgeHandle)

  /** The re-centring rule: on triangle meshes a split centres on the vertex
      across the returned edge, a swap on the midpoint of the swapped edge and
      anything else on the tuple's own vertex; tet meshes always use the
      tuple's own vertex (they only renew after splits and collapses). */
  function RenewCenter(op: string, isTet: bool, t: Tuple): (c: Center)
    requires isTet ==> op == "edge_split" || op == "edge_collapse"
    ensures c.Midpoint? <==> !isTet && op == "edge_swap"
    ensures c.Midpoint? ==> c == Midpoint(t.vid, t.switchVid)
    ensures c.AtVertex? ==> c.v == (if !isTet && op == "edge_split" then t.switchVid else t.vid)
  {
    if !isTet && op == "edge_split" then AtVertex(t.switchVid)
    else if !isTet && op == "edge_swap" then Midpoint(t.vid, t.switchVid)
    else AtVertex(t.vid)
  }

  /** The energy-rank filter: splits only consider TOP edges, collapses only
      BOTTOM edges, every other operation keeps every edge. */
  predicate RankAdmits(op: string, rank: EnergyRank) {
    if op == "edge_split" then rank == Top
    else if op == "edge_collapse" then rank == Bottom
    else true
  }

  ghost predicate EdgeTableFits(elementEdges: seq<seq<nat>>, ranks: seq<EnergyRank>, isTet: bool) {
    forall t :: 0 <= t < |elementEdges| ==>
      |elementEdges[t]| == EdgesPerElement(isTet) && forall j :: 0 <= j < |elementEdges[t]| ==> elementEdges[t][j] < |ranks|
  }

  /** An edge handle that the renewal may emit for this patch and operation. */
  ghost predicate Admissible(h: EdgeHandle, op: string, patch: seq<nat>, elementEdges: seq<seq<nat>>,
                             ranks: seq<EnergyRank>, isTet: bool)
    requires EdgeTableFits(elementEdges, ranks, isTet)
  {
    && h.element in patch && h.element < |elementEdges|
    && h.local < EdgesPerElement(isTet)
    && h.eid == elementEdges[h.element][h.local]
    && RankAdmits(op, ranks[h.eid])
  }

  predicate DistinctEdges(hs: seq<EdgeHandle>) {
    forall a, b :: 0 <= a < b < |hs| ==> hs[a].eid != hs[b].eid
  }

  /** Stand-in for `wmtk::unique_edge_tuples` (not part of this model): keeps
      one handle per edge id. */
  method UniqueEdgeTuples(edges: seq<EdgeHandle>) returns (r: seq<EdgeHandle>)
    ensures DistinctEdges(r)
    ensures forall h :: h in r ==> h in edges
    ensures forall h :: h in edges ==> exists h' :: h' in r && h'.eid == h.eid
  {
    r := [];
    var seen: set<nat> := {};
    for i := 0 to |edges|
      invariant DistinctEdges(r)
      invariant forall h :: h in r ==> h in edges[..i]
      invariant seen == set h | h in r :: h.eid
      invariant forall k :: 0 <= k < i ==> edges[k].eid in seen
    {
      if edges[i].eid !in seen {
        r := r + [edges[i]];
        seen := seen + {edges[i].eid};
      }
    }
    forall h | h in edges ensures exists h' :: h' in r && h'.eid == h.eid {
      var k :| 0 <= k < |edges| && edges[k] == h;
      assert edges[k].eid in seen;
    }
  }

  /** The edge loops of `renew_neighbor_tuples`: every local edge of every
      patch element whose rank suits `op`, in patch order. */
  method CollectRankedEdges(op: string, patch: seq<nat>, elementEdges: seq<seq<nat>>,
                            ranks: seq<EnergyRank>, isTet: bool)
    returns (edges: seq<EdgeHandle>)
    requires EdgeTableFits(elementEdges, ranks, isTet)
    requires forall k :: 0 <= k < |patch| ==> patch[k] < |elementEdges|
    ensures forall h :: h in edges ==> Admissible(h, op, patch, elementEdges, ranks, isTet)
    ensures forall k, j :: 0 <= k < |patch| && 0 <= j < EdgesPerElement(isTet)
              && RankAdmits(op, ranks[elementEdges[patch[k]][j]])
              ==> EdgeHandle(patch[k], j, elementEdges[patch[k]][j]) in edges
  {
    edges := [];
    for k := 0 to |patch|
      invariant forall h :: h in edges ==> Admissible(h, op, patch, elementEdges, ranks, isTet)
      invariant forall k', j :: 0 <= k' < k && 0 <= j < EdgesPerElement(isTet)
                  && RankAdmits(op, ranks[elementEdges[patch[k']][j]])
                  ==> EdgeHandle(patch[k'], j, elementEdges[patch[k']][j]) in edges
    {
      var tId := patch[k];
      assert tId in patch;
      for j := 0 to EdgesPerElement(isTet)
        invariant forall h :: h in edges ==> Admissible(h, op, patch, elementEdges, ranks, isTet)
        invariant forall k', j' :: 0 <= k' < k && 0 <= j' < EdgesPerElement(isTet)
                    && RankAdmits(op, ranks[elementEdges[patch[k']][j']])
                    ==> EdgeHandle(patch[k'], j', elementEdges[patch[k']][j']) in edges
        invariant forall j' :: 0 <= j' < j && RankAdmits(op, ranks[elementEdges[tId][j']])
                    ==> EdgeHandle(tId, j', elementEdges[tId][j']) in edges
      {
        var e := EdgeHandle(tId, j, elementEdges[tId][j]);
        if op == "edge_split" && ranks[e.eid] != Top {
          continue;
        } else if op == "edge_collapse" && ranks[e.eid] != Bottom {
          continue;
        }
        edges := edges + [e];
      }
    }
  }

  /** `renew_neighbor_tuples`: re-centre, take the (extended) patch around the
      centre, keep the edges whose rank suits `op`, deduplicate by edge id and
      wrap each in an operation named `op`. `ballSelection` stands for the
      patch extraction with its extension ring; it returns element ids. */
  method RenewNeighborTuples(op: string, elements: seq<Tuple>, isTet: bool,
                             ballSelection: Center -> seq<nat>,
                             elementEdges: seq<seq<nat>>, ranks: seq<EnergyRank>)
    returns (ops: seq<Operation>)
    requires |elements| == 1
    requires op != "vertex_smooth"
    requires isTet ==> op == "edge_split" || op == "edge_collapse"
    requires EdgeTableFits(elementEdges, ranks, isTet)
    requires forall c: Center, t :: t in ballSelection(c) ==> t < |elementEdges|
    ensures var patch := ballSelection(RenewCenter(op, isTet, elements[0]));
            && (forall o :: o in ops ==> o.name == op && Admissible(o.edge, op, patch, elementEdges, ranks, isTet))
            && (forall t, j :: t in patch && 0 <= j < EdgesPerElement(isTet) && RankAdmits(op, ranks[elementEdges[t][j]])
                  ==> exists o :: o in ops && o.edge.eid == elementEdges[t][j])
    ensures forall a, b :: 0 <= a < b < |ops| ==> ops[a].edge.eid != ops[b].edge.eid
  {
    var center := RenewCenter(op, isTet, elements[0]);
    var patch := ballSelection(center);
    assert forall k :: 0 <= k < |patch| ==> patch[k] in patch;

    var edges := CollectRankedEdges(op, patch, elementEdges, ranks, isTet);
    var unique := UniqueEdgeTuples(edges);

    ops := WrapOperations(op, unique);
    RenewalCovers(op, patch, elementEdges, ranks, isTet, edges, unique, ops);
  }

  /** Wraps each handle, in order, in an operation named `op`. */
  method WrapOperations(op: string, hs: seq<EdgeHandle>) returns (ops: seq<Operation>)
    ensures |ops| == |hs| && forall k :: 0 <= k < |hs| ==> ops[k] == Operation(op, hs[k])
  {
    ops := [];
    for i := 0 to |hs|
      invariant |ops| == i
      invariant forall k :: 0 <= k < i ==> ops[k] == Operation(op, hs[k])
    {
      ops := ops + [Operation(op, hs[i])];
    }
  }

  /** Every admissible edge of the patch reaches the output: it is collected,
      deduplication keeps a handle with its edge id, and that handle is
      wrapped. */
  lemma RenewalCovers(op: string, patch: seq<nat>, elementEdges: seq<seq<nat>>, ranks: seq<EnergyRank>, isTet: bool,
                      edges: seq<EdgeHandle>, unique: seq<EdgeHandle>, ops: seq<Operation>)
    requires EdgeTableFits(elementEdges, ranks, isTet)
    requires forall k :: 0 <= k < |patch| ==> patch[k] < |elementEdges|
    requires forall k, j :: 0 <= k < |patch| && 0 <= j < EdgesPerElement(isTet)
               && RankAdmits(op, ranks[elementEdges[patch[k]][j]])
               ==> EdgeHandle(patch[k], j, elementEdges[patch[k]][j]) in edges
    requires forall h :: h in edges ==> exists h' :: h' in unique && h'.eid == h.eid
    requires |ops| == |unique| && forall k :: 0 <= k < |unique| ==> ops[k] == Operation(op, unique[k])
    ensures forall t, j :: t in patch && 0 <= j < EdgesPerElement(isTet) && RankAdmits(op, ranks[elementEdges[t][j]])
              ==> exists o :: o in ops && o.edge.eid == elementEdges[t][j]
  {
    forall t, j | t in patch && 0 <= j < EdgesPerElement(isTet) && RankAdmits(op, ranks[elementEdges[t][j]])
      ensures exists o :: o in ops && o.edge.eid == elementEdges[t][j]
    {
      var k :| 0 <= k < |patch| && patch[k] == t;
      assert EdgeHandle(t, j, elementEdges[t][j]) in edges;
      var h' :| h' in unique && h'.eid == elementEdges[t][j];
      var m :| 0 <= m < |unique| && unique[m] == h';
      assert ops[m] == Operation(op, h');
    }
  }

  // ---------------------------------------------------------------------------
  // write_priority_queue_mesh

  /** A queue entry as the scheduler stores it: (energy, operation, tuple, id). */
  datatype QueueEntry = QueueEntry(energy: real, op: string, tuple: Tuple, id: nat)

  /** The fields recorded per edge: stored energy and position in pop order. */
  datatype EdgeFields = EdgeFields(energy: real, order: int)

  /** One synthetic export vertex: the mesh vertex whose rest position and
      displacement it copies, and the edge's fields (None stands for NaN). */
  datatype ExportVertex = ExportVertex(source: nat, energy: Option<real>, order: Option<int>)

  datatype ExportMesh = ExportMesh(elements: seq<seq<nat>>, vertices: seq<ExportVertex>)

  /** Number of entries whose tuple is still valid. */
  function ValidCount(q: seq<QueueEntry>): (n: nat)
    ensures n <= |q|
  {
    if q == [] then 0
    else ValidCount(q[..|q| - 1]) + (if q[|q| - 1].tuple.valid then 1 else 0)
  }

  /** Entry `k` is valid and no later valid entry names the same edge. */
  ghost predicate LastValidFor(q: seq<QueueEntry>, k: int) {
    0 <= k < |q| && q[k].tuple.valid
    && forall k' :: k < k' < |q| && q[k'].tuple.valid ==> q[k'].tuple.eid != q[k].tuple.eid
  }

  ghost function SeenEdges(e: Tuple, q: seq<QueueEntry>): set<nat> {
    {e.eid} + set k | 0 <= k < |q| && q[k].tuple.valid :: q[k].tuple.eid
  }

  lemma ValidCountStep(q: seq<QueueEntry>, n: nat)
    requires n < |q|
    ensures ValidCount(q[..n + 1]) == ValidCount(q[..n]) + (if q[n].tuple.valid then 1 else 0)
  {
    assert q[..n + 1][..n] == q[..n];
  }

  /** Valid entries are numbered 1, 2, 3, ... in pop order: numbers grow
      strictly along the queue and never exceed the number of valid entries. */
  lemma {:induction false} NumberingIsConsecutive(q: seq<QueueEntry>, k1: nat, k2: nat)
    requires k1 < k2 < |q| && q[k1].tuple.valid && q[k2].tuple.valid
    ensures 1 <= ValidCount(q[..k1]) + 1 < ValidCount(q[..k2]) + 1 <= ValidCount(q)
  {
    CountMonotone(q, k1 + 1, k2);
    ValidCountStep(q, k1);
    ValidCountStep(q, k2);
    CountMonotone(q, k2 + 1, |q|);
    assert q[..|q|] == q;
  }

  lemma {:induction false} CountMonotone(q: seq<QueueEntry>, a: nat, b: nat)
    requires a <= b <= |q|
    ensures ValidCount(q[..a]) <= ValidCount(q[..b])
    decreases b - a
  {
    if a < b {
      ValidCountStep(q, b - 1);
      CountMonotone(q, a, b - 1);
    }
  }

  ghost function SeenPrefix(e: Tuple, q: seq<QueueEntry>, n: nat): set<nat>
    requires n <= |q|
  {
    {e.eid} + set k | 0 <= k < n && q[k].tuple.valid :: q[k].tuple.eid
  }

  lemma SeenPrefixStep(e: Tuple, q: seq<QueueEntry>, n: nat)
    requires n < |q|
    ensures SeenPrefix(e, q, n + 1) == SeenPrefix(e, q, n) + (if q[n].tuple.valid then {q[n].tuple.eid} else {})
  {
  }

  /** Entry `k < n` is valid and no valid entry before `n` after it names the same edge. */
  ghost predicate LastValidWithin(q: seq<QueueEntry>, n: nat, k: int)
    requires n <= |q|
  {
    0 <= k < n && q[k].tuple.valid
    && forall k' :: k < k' < n && q[k'].tuple.valid ==> q[k'].tuple.eid != q[k].tuple.eid
  }

  ghost predicate NoValidEntryFor(q: seq<QueueEntry>, n: nat, eid: nat)
    requires n <= |q|
  {
    forall k :: 0 <= k < n && q[k].tuple.valid ==> q[k].tuple.eid != eid
  }

  /** Recording entry `n` keeps every earlier last-valid entry's number. */
  lemma NumberingStep(q: seq<QueueEntry>, n: nat, before: map<nat, EdgeFields>, after: map<nat, EdgeFields>, i: int)
    requires n < |q|
    requires i == ValidCount(q[..n]) + 1
    requires forall k :: 0 <= k < n && q[k].tuple.valid ==> q[k].tuple.eid in before
    requires forall k :: LastValidWithin(q, n, k) ==>
               before[q[k].tuple.eid] == EdgeFields(q[k].energy, ValidCount(q[..k]) + 1)
    requires after == if q[n].tuple.valid then before[q[n].tuple.eid := EdgeFields(q[n].energy, i)] else before
    ensures forall k :: LastValidWithin(q, n + 1, k) ==>
              after[q[k].tuple.eid] == EdgeFields(q[k].energy, ValidCount(q[..k]) + 1)
  {
    forall k | LastValidWithin(q, n + 1, k)
      ensures after[q[k].tuple.eid] == EdgeFields(q[k].energy, ValidCount(q[..k]) + 1)
    {
      if k < n {
        assert LastValidWithin(q, n, k);
      }
    }
  }

  /** What the draining loop knows after popping `n` entries. */
  ghost predicate Drained(e: Tuple, currentEnergy: real, q: seq<QueueEntry>, n: nat, i: int,
                          fields: map<nat, EdgeFields>)
    requires n <= |q|
  {
    && i == ValidCount(q[..n]) + 1
    && fields.Keys == SeenPrefix(e, q, n)
    && (forall k :: LastValidWithin(q, n, k) ==>
          fields[q[k].tuple.eid] == EdgeFields(q[k].energy, ValidCount(q[..k]) + 1))
    && (NoValidEntryFor(q, n, e.eid) ==> fields[e.eid] == EdgeFields(currentEnergy, 0))
  }

  /** Popping entry `n` (recording it when valid) keeps `Drained`. */
  lemma DrainStep(e: Tuple, currentEnergy: real, q: seq<QueueEntry>, n: nat, i: int,
                  before: map<nat, EdgeFields>)
    requires n < |q|
    requires Drained(e, currentEnergy, q, n, i, before)
    ensures q[n].tuple.valid ==>
              Drained(e, currentEnergy, q, n + 1, i + 1, before[q[n].tuple.eid := EdgeFields(q[n].energy, i)])
    ensures !q[n].tuple.valid ==> Drained(e, currentEnergy, q, n + 1, i, before)
  {
    var after := if q[n].tuple.valid then before[q[n].tuple.eid := EdgeFields(q[n].energy, i)] else before;
    ValidCountStep(q, n);
    SeenPrefixStep(e, q, n);
    assert forall k :: 0 <= k < n && q[k].tuple.valid ==> q[k].tuple.eid in SeenPrefix(e, q, n);
    NumberingStep(q, n, before, after, i);
  }

  /** The draining loop of `write_priority_queue_mesh`: the popped edge gets
      order 0, invalid entries are skipped without consuming a number, valid
      ones are numbered from 1 in pop order; a later entry for the same edge
      overwrites an earlier one. */
  method DrainQueue(e: Tuple, currentEnergy: real, queue: seq<QueueEntry>)
    returns (fields: map<nat, EdgeFields>)
    ensures fields.Keys == SeenEdges(e, queue)
    ensures forall k :: LastValidFor(queue, k) ==>
              queue[k].tuple.eid in fields && fields[queue[k].tuple.eid] == EdgeFields(queue[k].energy, ValidCount(queue[..k]) + 1)
    ensures (forall k :: 0 <= k < |queue| && queue[k].tuple.valid ==> queue[k].tuple.eid != e.eid)
              ==> e.eid in fields && fields[e.eid] == EdgeFields(currentEnergy, 0)
  {
    var next;
    fields, next := DrainLoop(e, currentEnergy, queue);
    DrainDone(e, currentEnergy, queue, next, fields);
  }

  /** The loop itself: after it, every entry has been popped and `next` is
      the number the next valid entry would get. */
  method DrainLoop(e: Tuple, currentEnergy: real, queue: seq<QueueEntry>)
    returns (fields: map<nat, EdgeFields>, next: int)
    ensures Drained(e, currentEnergy, queue, |queue|, next, fields)
  {
    fields := map[e.eid := EdgeFields(currentEnergy, 0)];
    var popped := 0;
    var i := 1;
    DrainStart(e, currentEnergy, queue);
    while popped < |queue|
      invariant popped <= |queue|
      invariant Drained(e, currentEnergy, queue, popped, i, fields)
    {
      var entry := queue[popped];
      DrainStep(e, currentEnergy, queue, popped, i, fields);
      if !entry.tuple.valid {
        i := i - 1; // an invalid entry does not consume a number
      } else {
        fields := fields[entry.tuple.eid := EdgeFields(entry.energy, i)];
      }
      i := i + 1;
      popped := popped + 1;
    }
    next := i;
  }

  lemma DrainStart(e: Tuple, currentEnergy: real, q: seq<QueueEntry>)
    ensures Drained(e, currentEnergy, q, 0, 1, map[e.eid := EdgeFields(currentEnergy, 0)])
  {
    assert q[..0] == [];
    assert SeenPrefix(e, q, 0) == {e.eid};
  }

  lemma DrainDone(e: Tuple, currentEnergy: real, q: seq<QueueEntry>, i: int, fields: map<nat, EdgeFields>)
    requires Drained(e, currentEnergy, q, |q|, i, fields)
    ensures fields.Keys == SeenEdges(e, q)
    ensures forall k :: LastValidFor(q, k) ==>
              q[k].tuple.eid in fields && fields[q[k].tuple.eid] == EdgeFields(q[k].energy, ValidCount(q[..k]) + 1)
    ensures (forall k :: 0 <= k < |q| && q[k].tuple.valid ==> q[k].tuple.eid != e.eid)
              ==> e.eid in fields && fields[e.eid] == EdgeFields(currentEnergy, 0)
  {
    forall k | LastValidFor(q, k)
      ensures q[k].tuple.eid in fields && fields[q[k].tuple.eid] == EdgeFields(q[k].energy, ValidCount(q[..k]) + 1)
    {
      assert LastValidWithin(q, |q|, k);
    }
  }

  /** Export vertex `v` copies mesh vertex `source` and the fields of edge
      `eid`, or NaN (None) when the edge was never recorded. */
  ghost predicate ExportedFrom(v: ExportVertex, source: nat, fields: map<nat, EdgeFields>, eid: nat) {
    && v.source == source
    && (if eid in fields
        then v.energy == Some(fields[eid].energy) && v.order == Some(fields[eid].order)
        else v.energy == None && v.order == None)
  }

  /** The export layout: two synthetic vertices per edge, edge `ei` owning
      vertices `2*ei` and `2*ei+1`, each carrying its edge's fields, or none
      (NaN) for an edge that never appeared. */
  method ExportLayout(edges: seq<Tuple>, fields: map<nat, EdgeFields>) returns (mesh: ExportMesh)
    ensures |mesh.elements| == |edges| && |mesh.vertices| == 2 * |edges|
    ensures forall ei :: 0 <= ei < |edges| ==> mesh.elements[ei] == [2 * ei, 2 * ei + 1]
    ensures forall ei :: 0 <= ei < |edges| ==>
              && ExportedFrom(mesh.vertices[2 * ei], edges[ei].vid, fields, edges[ei].eid)
              && ExportedFrom(mesh.vertices[2 * ei + 1], edges[ei].switchVid, fields, edges[ei].eid)
  {
    var nVertices := 2 * |edges|;
    var elements := new seq<nat>[|edges|];
    var vertices := new ExportVertex[nVertices];
    for ei := 0 to |edges|
      invariant forall k :: 0 <= k < ei ==> elements[k] == [2 * k, 2 * k + 1]
      invariant forall k :: 0 <= k < ei ==>
                  && ExportedFrom(vertices[2 * k], edges[k].vid, fields, edges[k].eid)
                  && ExportedFrom(vertices[2 * k + 1], edges[k].switchVid, fields, edges[k].eid)
    {
      var vids := [edges[ei].vid, edges[ei].switchVid];
      var energy: Option<real>, order: Option<int>;
      if edges[ei].eid in fields {
        var f := fields[edges[ei].eid];
        energy, order := Some(f.energy), Some(f.order);
      } else {
        energy, order := None, None;
      }
      var row := [0, 0];
      for vi := 0 to 2
        invariant |row| == 2 && forall w :: 0 <= w < vi ==> row[w] == 2 * ei + w
        invariant forall k :: 0 <= k < ei ==> elements[k] == [2 * k, 2 * k + 1]
        invariant forall k :: 0 <= k < ei ==>
                    && ExportedFrom(vertices[2 * k], edges[k].vid, fields, edges[k].eid)
                    && ExportedFrom(vertices[2 * k + 1], edges[k].switchVid, fields, edges[k].eid)
        invariant forall w :: 0 <= w < vi ==> vertices[2 * ei + w] == ExportVertex(vids[w], energy, order)
      {
        row := row[vi := 2 * ei + vi];
        vertices[row[vi]] := ExportVertex(vids[vi], energy, order);
      }
      elements[ei] := row;
      assert vertices[2 * ei] == ExportVertex(vids[0], energy, order);
      assert vertices[2 * ei + 1] == ExportVertex(vids[1], energy, order);
    }
    mesh := ExportMesh(elements[..], vertices[..]);
  }

  /** `write_priority_queue_mesh` without the file writer: number the queue
      snapshot and lay out the per-edge export. Both vertices of edge `ei`
      carry the same fields; the ensures speak of the first one, `2*ei`. */
  method WritePriorityQueueMesh(e: Tuple, currentEnergy: real, queue: seq<QueueEntry>, edges: seq<Tuple>)
    returns (mesh: ExportMesh)
    ensures |mesh.elements| == |edges| && |mesh.vertices| == 2 * |edges|
    ensures forall ei :: 0 <= ei < |edges| ==> mesh.elements[ei] == [2 * ei, 2 * ei + 1]
    ensures forall ei :: 0 <= ei < |edges| ==>
              mesh.vertices[2 * ei + 1].order == mesh.vertices[2 * ei].order
              && mesh.vertices[2 * ei + 1].energy == mesh.vertices[2 * ei].energy
    ensures forall ei :: 0 <= ei < |edges| ==>
              mesh.vertices[2 * ei].source == edges[ei].vid && mesh.vertices[2 * ei + 1].source == edges[ei].switchVid
    ensures forall ei :: 0 <= ei < |edges| ==>
              && (mesh.vertices[2 * ei].order.Some? <==> edges[ei].eid in SeenEdges(e, queue))
              && (mesh.vertices[2 * ei].energy.Some? <==> edges[ei].eid in SeenEdges(e, queue))
    ensures forall ei, k :: 0 <= ei < |edges| && LastValidFor(queue, k) && queue[k].tuple.eid == edges[ei].eid
              ==> mesh.vertices[2 * ei].order == Some(ValidCount(queue[..k]) + 1)
                  && mesh.vertices[2 * ei].energy == Some(queue[k].energy)
    ensures (forall k :: 0 <= k < |queue| && queue[k].tuple.valid ==> queue[k].tuple.eid != e.eid) ==>
              forall ei :: 0 <= ei < |edges| && edges[ei].eid == e.eid ==>
                mesh.vertices[2 * ei].order == Some(0) && mesh.vertices[2 * ei].energy == Some(currentEnergy)
  {
    var fields := DrainQueue(e, currentEnergy, queue);
    mesh := ExportLayout(edges, fields);
    ExportedPairs(e, queue, edges, fields, mesh);
    ExportedOrders(queue, edges, fields, mesh);
    ExportedPopped(e, currentEnergy, queue, edges, fields, mesh);
  }

  /** The export as `ExportLayout` promises it: edge `ei`'s two vertices
      carry the fields recorded for its edge id. */
  ghost predicate LaidOut(edges: seq<Tuple>, fields: map<nat, EdgeFields>, mesh: ExportMesh) {
    && |mesh.vertices| == 2 * |edges|
    && forall ei :: 0 <= ei < |edges| ==>
         && ExportedFrom(mesh.vertices[2 * ei], edges[ei].vid, fields, edges[ei].eid)
         && ExportedFrom(mesh.vertices[2 * ei + 1], edges[ei].switchVid, fields, edges[ei].eid)
  }

  /** Both vertices of an edge carry the same fields, and they are present
      exactly for the edges the drain saw (NaN otherwise); the first copies
      the edge's vertex, the second the vertex across it. */
  lemma ExportedPairs(e: Tuple, queue: seq<QueueEntry>, edges: seq<Tuple>, fields: map<nat, EdgeFields>, mesh: ExportMesh)
    requires fields.Keys == SeenEdges(e, queue)
    requires LaidOut(edges, fields, mesh)
    ensures forall ei :: 0 <= ei < |edges| ==>
              mesh.vertices[2 * ei + 1].order == mesh.vertices[2 * ei].order
              && mesh.vertices[2 * ei + 1].energy == mesh.vertices[2 * ei].energy
    ensures forall ei :: 0 <= ei < |edges| ==>
              mesh.vertices[2 * ei].source == edges[ei].vid && mesh.vertices[2 * ei + 1].source == edges[ei].switchVid
    ensures forall ei :: 0 <= ei < |edges| ==>
              && (mesh.vertices[2 * ei].order.Some? <==> edges[ei].eid in SeenEdges(e, queue))
              && (mesh.vertices[2 * ei].energy.Some? <==> edges[ei].eid in SeenEdges(e, queue))
  {
    forall ei | 0 <= ei < |edges|
      ensures mesh.vertices[2 * ei + 1].order == mesh.vertices[2 * ei].order
      ensures mesh.vertices[2 * ei + 1].energy == mesh.vertices[2 * ei].energy
      ensures mesh.vertices[2 * ei].source == edges[ei].vid && mesh.vertices[2 * ei + 1].source == edges[ei].switchVid
      ensures mesh.vertices[2 * ei].order.Some? <==> edges[ei].eid in fields
      ensures mesh.vertices[2 * ei].energy.Some? <==> edges[ei].eid in fields
    {
      SameFields(mesh.vertices[2 * ei], mesh.vertices[2 * ei + 1], edges[ei].vid, edges[ei].switchVid, fields, edges[ei].eid);
    }
  }

  /** An edge whose last valid entry is `k` shows that entry's energy and
      number. */
  lemma ExportedOrders(queue: seq<QueueEntry>, edges: seq<Tuple>, fields: map<nat, EdgeFields>, mesh: ExportMesh)
    requires forall k :: LastValidFor(queue, k) ==>
               queue[k].tuple.eid in fields && fields[queue[k].tuple.eid] == EdgeFields(queue[k].energy, ValidCount(queue[..k]) + 1)
    requires LaidOut(edges, fields, mesh)
    ensures forall ei, k :: 0 <= ei < |edges| && LastValidFor(queue, k) && queue[k].tuple.eid == edges[ei].eid
              ==> mesh.vertices[2 * ei].order == Some(ValidCount(queue[..k]) + 1)
                  && mesh.vertices[2 * ei].energy == Some(queue[k].energy)
  {
    forall ei, k | 0 <= ei < |edges| && LastValidFor(queue, k) && queue[k].tuple.eid == edges[ei].eid
      ensures mesh.vertices[2 * ei].order == Some(ValidCount(queue[..k]) + 1)
      ensures mesh.vertices[2 * ei].energy == Some(queue[k].energy)
    {
      assert ExportedFrom(mesh.vertices[2 * ei], edges[ei].vid, fields, edges[ei].eid);
    }
  }

  /** When no valid entry names the popped edge, its vertices show order 0
      and the current energy. */
  lemma ExportedPopped(e: Tuple, currentEnergy: real, queue: seq<QueueEntry>, edges: seq<Tuple>,
                       fields: map<nat, EdgeFields>, mesh: ExportMesh)
    requires (forall k :: 0 <= k < |queue| && queue[k].tuple.valid ==> queue[k].tuple.eid != e.eid)
               ==> e.eid in fields && fields[e.eid] == EdgeFields(currentEnergy, 0)
    requires LaidOut(edges, fields, mesh)
    ensures (forall k :: 0 <= k < |queue| && queue[k].tuple.valid ==> queue[k].tuple.eid != e.eid) ==>
              forall ei :: 0 <= ei < |edges| && edges[ei].eid == e.eid ==>
                mesh.vertices[2 * ei].order == Some(0) && mesh.vertices[2 * ei].energy == Some(currentEnergy)
  {
    if forall k :: 0 <= k < |queue| && queue[k].tuple.valid ==> queue[k].tuple.eid != e.eid {
      forall ei | 0 <= ei < |edges| && edges[ei].eid == e.eid
        ensures mesh.vertices[2 * ei].order == Some(0) && mesh.vertices[2 * ei].energy == Some(currentEnergy)
      {
        assert ExportedFrom(mesh.vertices[2 * ei], edges[ei].vid, fields, edges[ei].eid);
      }
    }
  }

  /** Two vertices exported for the same edge carry the same fields. */
  lemma SameFields(v: ExportVertex, w: ExportVertex, s: nat, t: nat, fields: map<nat, EdgeFields>, eid: nat)
    requires ExportedFrom(v, s, fields, eid) && ExportedFrom(w, t, fields, eid)
    ensures v.order == w.order && v.energy == w.energy
    ensures v.source == s && w.source == t
    ensures v.order.Some? <==> eid in fields
    ensures v.energy.Some? <==> eid in fields
  {
  }
}
