/** p-refinement: every simplex element gets an estimated polynomial order,
    clamped to [p_ref, p_max], and the element and its neighbours have their
    discretisation order raised to it, never lowered. The geometric estimate
    itself (angles, inradius, logarithms) is an input here. */
module StatePref {

  /** `get_opt_p`: the rounded estimate, at least `pRef`, then at most
      `pMax`. */
  function GetOptP(pRef: int, estimate: int, pMax: int): (p: int)
    ensures p <= pMax
    ensures pRef <= pMax ==> pRef <= p
    ensures p == pMax || p == pRef || p == estimate
    ensures pRef <= estimate <= pMax ==> p == estimate
    ensures estimate <= pRef <= pMax ==> p == pRef
    ensures pMax <= estimate || pMax < pRef ==> p == pMax
  {
    var lower := if pRef < estimate then estimate else pRef;
    if lower < pMax then lower else pMax
  }

  // ---------------------------------------------------------------------------
  // Raising orders

  /** Raises entry `k` to `p` when `p` is larger; a negative `k` (a missing
      neighbour) is skipped. */
  function Raise(orders: seq<int>, k: int, p: int): (r: seq<int>)
    requires k < |orders|
    ensures |r| == |orders|
  {
    if 0 <= k && p > orders[k] then orders[k := p] else orders
  }

  predicate TargetsIn(ks: seq<int>, n: nat) {
    forall i :: 0 <= i < |ks| ==> ks[i] < n
  }

  /** Raises every listed entry to `p`, in list order. */
  function RaiseAll(orders: seq<int>, ks: seq<int>, p: int): (r: seq<int>)
    requires TargetsIn(ks, |orders|)
    ensures |r| == |orders|
  {
    if ks == [] then orders
    else
      var m := |ks| - 1;
      Raise(RaiseAll(orders, ks[..m], p), ks[m], p)
  }

  /** Raising to `p` keeps each entry or replaces it by `p`: listed entries
      end at least at `p`, nothing decreases, and unlisted entries are
      untouched. */
  lemma {:induction false} RaiseAllEffect(orders: seq<int>, ks: seq<int>, p: int, k: nat)
    requires TargetsIn(ks, |orders|) && k < |orders|
    ensures RaiseAll(orders, ks, p)[k] >= orders[k]
    ensures k in ks ==> RaiseAll(orders, ks, p)[k] >= p
    ensures RaiseAll(orders, ks, p)[k] == orders[k] || (k in ks && RaiseAll(orders, ks, p)[k] == p)
  {
    if ks != [] {
      var m := |ks| - 1;
      RaiseAllEffect(orders, ks[..m], p, k);
      assert k in ks <==> k in ks[..m] || k == ks[m] by {
        assert ks == ks[..m] + [ks[m]];
      }
    }
  }

  /** The targets of every simplex element `f < n`, in element order: each
      is raised to `p[f]`. */
  function Propagate(orders: seq<int>, isSimplex: seq<bool>, p: seq<int>, targets: seq<seq<int>>, n: nat): (r: seq<int>)
    requires n <= |isSimplex| == |p| == |targets|
    requires forall f :: 0 <= f < |targets| ==> TargetsIn(targets[f], |orders|)
    ensures |r| == |orders|
  {
    if n == 0 then orders
    else
      var before := Propagate(orders, isSimplex, p, targets, n - 1);
      if isSimplex[n - 1] then RaiseAll(before, targets[n - 1], p[n - 1]) else before
  }

  /** Element `f` raises entry `k`: it is a simplex and `k` is one of its
      targets. Non-simplex elements never raise anything. */
  predicate Offers(isSimplex: seq<bool>, targets: seq<seq<int>>, f: int, k: int)
    requires |isSimplex| == |targets|
  {
    0 <= f < |targets| && isSimplex[f] && k in targets[f]
  }

  /** After the first `n` elements, entry `k` is the largest of its
      original order and the orders offered to it: it has not decreased,
      it is at least every offer, and it is its original value or one of
      the offers. */
  lemma {:induction false} PropagateEffect(orders: seq<int>, isSimplex: seq<bool>, p: seq<int>, targets: seq<seq<int>>, n: nat, k: nat)
    requires n <= |isSimplex| == |p| == |targets|
    requires forall f :: 0 <= f < |targets| ==> TargetsIn(targets[f], |orders|)
    requires k < |orders|
    ensures Propagate(orders, isSimplex, p, targets, n)[k] >= orders[k]
    ensures forall f :: 0 <= f < n && Offers(isSimplex, targets, f, k) ==> Propagate(orders, isSimplex, p, targets, n)[k] >= p[f]
    ensures Propagate(orders, isSimplex, p, targets, n)[k] == orders[k]
            || exists f :: 0 <= f < n && Offers(isSimplex, targets, f, k) && Propagate(orders, isSimplex, p, targets, n)[k] == p[f]
  {
    if n > 0 {
      var before := Propagate(orders, isSimplex, p, targets, n - 1);
      PropagateEffect(orders, isSimplex, p, targets, n - 1, k);
      if isSimplex[n - 1] {
        RaiseAllEffect(before, targets[n - 1], p[n - 1], k);
      }
    }
  }

  /** With every offer clamped below `pMax`, no entry ends above the larger
      of its original order and `pMax`. */
  lemma PropagateBelowMax(orders: seq<int>, isSimplex: seq<bool>, p: seq<int>, targets: seq<seq<int>>, k: nat, pMax: int)
    requires |isSimplex| == |p| == |targets|
    requires forall f :: 0 <= f < |targets| ==> TargetsIn(targets[f], |orders|)
    requires forall f :: 0 <= f < |p| ==> p[f] <= pMax
    requires k < |orders|
    ensures Propagate(orders, isSimplex, p, targets, |p|)[k] <= if orders[k] < pMax then pMax else orders[k]
  {
    PropagateEffect(orders, isSimplex, p, targets, |p|, k);
  }

  // ---------------------------------------------------------------------------
  // The two overloads

  /** The clamped order of every element. */
  function Targets(pRef: int, estimates: seq<int>, pMax: int): (p: seq<int>)
    ensures |p| == |estimates|
    ensures forall f :: 0 <= f < |p| ==> p[f] == GetOptP(pRef, estimates[f], pMax)
    ensures forall f :: 0 <= f < |p| ==> p[f] <= pMax && (pRef <= pMax ==> pRef <= p[f])
  {
    seq(|estimates|, f requires 0 <= f < |estimates| => GetOptP(pRef, estimates[f], pMax))
  }

  /** In 2D a face raises itself and the faces across its three edges. */
  function FaceTargets(neighbours: seq<seq<int>>): (t: seq<seq<int>>)
    requires forall f :: 0 <= f < |neighbours| ==> TargetsIn(neighbours[f], |neighbours|)
    ensures |t| == |neighbours|
    ensures forall f :: 0 <= f < |t| ==> t[f] == [f] + neighbours[f]
    ensures forall f :: 0 <= f < |t| ==> TargetsIn(t[f], |neighbours|)
  {
    var t := seq(|neighbours|, f requires 0 <= f < |neighbours| => [f] + neighbours[f]);
    assert forall f, i :: 0 <= f < |t| && 0 <= i < |t[f]| ==> t[f][i] < |neighbours| by {
      forall f, i | 0 <= f < |t| && 0 <= i < |t[f]| ensures t[f][i] < |neighbours| {
        assert t[f] == [f] + neighbours[f];
        assert TargetsIn(neighbours[f], |neighbours|);
        if i > 0 {
          assert t[f][i] == neighbours[f][i - 1];
        } else {
          assert t[f][i] == f;
        }
      }
    }
    t
  }

  /** `p_refinement` on a 2D mesh. `neighbours[f]` lists the face across
      each of the three edges of face `f`, negative on the boundary;
      `estimates[f]` is the rounded order estimate of face `f`. */
  method PRefinement2D(discOrders: array<int>, isSimplex: seq<bool>, estimates: seq<int>,
                       neighbours: seq<seq<int>>, pRef: int, pMax: int)
    requires |isSimplex| == |estimates| == |neighbours| == discOrders.Length
    requires forall f :: 0 <= f < |neighbours| ==> |neighbours[f]| == 3 && TargetsIn(neighbours[f], discOrders.Length)
    modifies discOrders
    ensures discOrders[..] == Propagate(old(discOrders[..]), isSimplex, Targets(pRef, estimates, pMax),
                                        FaceTargets(neighbours), |isSimplex|)
  {
    ghost var orders0 := discOrders[..];
    ghost var ps := Targets(pRef, estimates, pMax);
    ghost var targets := FaceTargets(neighbours);
    for f := 0 to |isSimplex|
      invariant discOrders[..] == Propagate(orders0, isSimplex, ps, targets, f)
    {
      if isSimplex[f] {
        var p := GetOptP(pRef, estimates[f], pMax);
        ghost var start := discOrders[..];
        if p > discOrders[f] {
          discOrders[f] := p;
        }
        assert targets[f][..1] == [f];
        assert discOrders[..] == RaiseAll(start, targets[f][..1], p);
        for lv := 0 to 3
          invariant discOrders[..] == RaiseAll(start, targets[f][..lv + 1], p)
        {
          assert targets[f][..lv + 2][..lv + 1] == targets[f][..lv + 1];
          var face := neighbours[f][lv];
          if face >= 0 && p > discOrders[face] {
            discOrders[face] := p;
          }
        }
        assert targets[f][..4] == targets[f];
      }
    }
  }

  /** The cells around the six edges of one cell, in edge order. */
  function EdgeCells(edges: seq<int>, edgeNeighs: seq<seq<int>>): seq<int>
    requires forall i :: 0 <= i < |edges| ==> 0 <= edges[i] < |edgeNeighs|
  {
    if edges == [] then []
    else
      var m := |edges| - 1;
      EdgeCells(edges[..m], edgeNeighs) + edgeNeighs[edges[m]]
  }

  /** In 3D a cell raises itself and every cell sharing one of its edges. */
  function CellTargets(cellEdges: seq<seq<int>>, edgeNeighs: seq<seq<int>>): (t: seq<seq<int>>)
    requires forall c :: 0 <= c < |cellEdges| ==> forall i :: 0 <= i < |cellEdges[c]| ==> 0 <= cellEdges[c][i] < |edgeNeighs|
    requires ValidEdgeNeighs(edgeNeighs, |cellEdges|)
    ensures |t| == |cellEdges|
    ensures forall c :: 0 <= c < |t| ==> t[c] == [c] + EdgeCells(cellEdges[c], edgeNeighs)
    ensures forall c :: 0 <= c < |t| ==> TargetsIn(t[c], |cellEdges|)
  {
    var t := seq(|cellEdges|, c requires 0 <= c < |cellEdges| => [c] + EdgeCells(cellEdges[c], edgeNeighs));
    assert forall c :: 0 <= c < |t| ==> TargetsIn(t[c], |cellEdges|) by {
      forall c | 0 <= c < |t| ensures TargetsIn(t[c], |cellEdges|) {
        EdgeCellsIn(cellEdges[c], edgeNeighs, |cellEdges|);
      }
    }
    t
  }

  /** A cell is among the targets of `c` exactly when it is `c` or lies
      around one of `c`'s edges. */
  lemma {:induction false} EdgeCellsMembers(edges: seq<int>, edgeNeighs: seq<seq<int>>, k: int)
    requires forall i :: 0 <= i < |edges| ==> 0 <= edges[i] < |edgeNeighs|
    ensures k in EdgeCells(edges, edgeNeighs) <==> exists i :: 0 <= i < |edges| && k in edgeNeighs[edges[i]]
  {
    if edges != [] {
      var m := |edges| - 1;
      EdgeCellsMembers(edges[..m], edgeNeighs, k);
      assert forall i :: 0 <= i < m ==> edges[..m][i] == edges[i];
    }
  }

  predicate ValidEdgeNeighs(edgeNeighs: seq<seq<int>>, n: nat) {
    forall e :: 0 <= e < |edgeNeighs| ==> forall i :: 0 <= i < |edgeNeighs[e]| ==> 0 <= edgeNeighs[e][i] < n
  }

  lemma {:induction false} EdgeCellsIn(edges: seq<int>, edgeNeighs: seq<seq<int>>, n: nat)
    requires forall i :: 0 <= i < |edges| ==> 0 <= edges[i] < |edgeNeighs|
    requires ValidEdgeNeighs(edgeNeighs, n)
    ensures TargetsIn(EdgeCells(edges, edgeNeighs), n)
  {
    if edges != [] {
      var m := |edges| - 1;
      EdgeCellsIn(edges[..m], edgeNeighs, n);
    }
  }

  /** Raising `a` and then `b` is raising their concatenation. */
  lemma {:induction false} RaiseAllConcat(orders: seq<int>, a: seq<int>, b: seq<int>, p: int)
    requires TargetsIn(a, |orders|) && TargetsIn(b, |orders|)
    ensures TargetsIn(a + b, |orders|)
    ensures RaiseAll(orders, a + b, p) == RaiseAll(RaiseAll(orders, a, p), b, p)
  {
    if b == [] {
      assert a + b == a;
    } else {
      var m := |b| - 1;
      assert (a + b)[..|a + b| - 1] == a + b[..m];
      RaiseAllConcat(orders, a, b[..m], p);
    }
  }

  /** The innermost loop: raises every listed cell to `p`. */
  method RaiseCells(discOrders: array<int>, cells: seq<int>, p: int)
    requires forall i :: 0 <= i < |cells| ==> 0 <= cells[i] < discOrders.Length
    modifies discOrders
    ensures discOrders[..] == RaiseAll(old(discOrders[..]), cells, p)
  {
    ghost var start := discOrders[..];
    for i := 0 to |cells|
      invariant discOrders[..] == RaiseAll(start, cells[..i], p)
    {
      assert cells[..i + 1][..i] == cells[..i];
      var cId := cells[i];
      if p > discOrders[cId] {
        discOrders[cId] := p;
      }
    }
    assert cells[..|cells|] == cells;
  }

  /** The edge loop of one cell: raises the cells around each edge in turn. */
  method RaiseAroundEdges(discOrders: array<int>, edges: seq<int>, edgeNeighs: seq<seq<int>>, p: int)
    requires forall i :: 0 <= i < |edges| ==> 0 <= edges[i] < |edgeNeighs|
    requires ValidEdgeNeighs(edgeNeighs, discOrders.Length)
    modifies discOrders
    ensures TargetsIn(EdgeCells(edges, edgeNeighs), discOrders.Length)
    ensures discOrders[..] == RaiseAll(old(discOrders[..]), EdgeCells(edges, edgeNeighs), p)
  {
    ghost var start := discOrders[..];
    assert edges[..0] == [];
    for le := 0 to |edges|
      invariant TargetsIn(EdgeCells(edges[..le], edgeNeighs), discOrders.Length)
      invariant discOrders[..] == RaiseAll(start, EdgeCells(edges[..le], edgeNeighs), p)
    {
      assert edges[..le + 1][..le] == edges[..le];
      var cells := edgeNeighs[edges[le]];
      ghost var before := discOrders[..];
      RaiseCells(discOrders, cells, p);
      RaiseAllConcat(start, EdgeCells(edges[..le], edgeNeighs), cells, p);
      assert EdgeCells(edges[..le + 1], edgeNeighs) == EdgeCells(edges[..le], edgeNeighs) + cells;
    }
    assert edges[..|edges|] == edges;
  }

  /** `p_refinement` on a 3D mesh. `cellEdges[c]` lists the six edges of
      cell `c` and `edgeNeighs[e]` the cells around edge `e`. */
  method PRefinement3D(discOrders: array<int>, isSimplex: seq<bool>, estimates: seq<int>,
                       cellEdges: seq<seq<int>>, edgeNeighs: seq<seq<int>>, pRef: int, pMax: int)
    requires |isSimplex| == |estimates| == |cellEdges| == discOrders.Length
    requires forall c :: 0 <= c < |cellEdges| ==>
               |cellEdges[c]| == 6 && forall i :: 0 <= i < 6 ==> 0 <= cellEdges[c][i] < |edgeNeighs|
    requires ValidEdgeNeighs(edgeNeighs, discOrders.Length)
    modifies discOrders
    ensures discOrders[..] == Propagate(old(discOrders[..]), isSimplex, Targets(pRef, estimates, pMax),
                                        CellTargets(cellEdges, edgeNeighs), |isSimplex|)
  {
    ghost var orders0 := discOrders[..];
    ghost var ps := Targets(pRef, estimates, pMax);
    ghost var targets := CellTargets(cellEdges, edgeNeighs);
    for c := 0 to |isSimplex|
      invariant discOrders[..] == Propagate(orders0, isSimplex, ps, targets, c)
    {
      if isSimplex[c] {
        var p := GetOptP(pRef, estimates[c], pMax);
        ghost var start := discOrders[..];
        if p > discOrders[c] {
          discOrders[c] := p;
        }
        assert [c][..0] == [];
        assert discOrders[..] == RaiseAll(start, [c], p);
        RaiseAroundEdges(discOrders, cellEdges[c], edgeNeighs, p);
        RaiseAllConcat(start, [c], EdgeCells(cellEdges[c], edgeNeighs), p);
      }
    }
  }
}
