/** A composite parametrization: a list of parametrizations applied one
    after the other. Each component is given by its behaviour; the composite
    threads sizes and values through them in list order, undoes them in
    reverse order, and pulls gradients back from the last to the first. */
module Parametrization {
  import opened Wrappers

  type Vector = seq<real>

  /** One component. `inverse` is `None` for a component that keeps the base
      class's `inverse_eval`, which always fails with "Not supported";
      `jacobian(grad, x)` pulls `grad` back through the component at input
      `x`; `indexing` is the component's state-variable indexing (empty for
      the base class's default). */
  datatype Component = Component(
    sizeOf: int -> int,
    eval: Vector -> Vector,
    inverse: Option<Vector -> Vector>,
    jacobian: (Vector, Vector) -> Vector,
    indexing: seq<int>)

  /** The base `inverse_eval` and its overrides. */
  function InverseOf(c: Component, y: Vector): (r: Result<Vector>)
    ensures r.Failure? <==> c.inverse.None?
    ensures r.Failure? ==> r.error == "Not supported"
  {
    match c.inverse
    case None => Failure("Not supported")
    case Some(f) => Success(f(y))
  }

  // ---------------------------------------------------------------------------
  // The composite, as folds over the component list

  /** The output size after every component, in list order. */
  function Size(parts: seq<Component>, n: int): int {
    if parts == [] then n
    else parts[|parts| - 1].sizeOf(Size(parts[..|parts| - 1], n))
  }

  /** Every component applied to the previous one's output, first to last. */
  function Eval(parts: seq<Component>, x: Vector): Vector {
    if parts == [] then x
    else parts[|parts| - 1].eval(Eval(parts[..|parts| - 1], x))
  }

  /** The inverses applied last to first; the first component without an
      inverse (counting from the end) makes the whole fail. */
  function InverseEval(parts: seq<Component>, y: Vector): Result<Vector> {
    if parts == [] then Success(y)
    else
      match InverseOf(parts[|parts| - 1], y)
      case Failure(e) => Failure(e)
      case Success(z) => InverseEval(parts[..|parts| - 1], z)
  }

  /** The chain rule: the last component's Jacobian is applied first, at the
      input that component received in the forward pass. */
  function ApplyJacobian(parts: seq<Component>, grad: Vector, x: Vector): Vector {
    if parts == [] then grad
    else
      var m := |parts| - 1;
      ApplyJacobian(parts[..m], parts[m].jacobian(grad, Eval(parts[..m], x)), x)
  }

  /** The last component's indexing, or the empty default. */
  function StateIndexing(parts: seq<Component>): seq<int> {
    if |parts| == 0 then [] else parts[|parts| - 1].indexing
  }

  // ---------------------------------------------------------------------------
  // The loops

  /** `size`: threads `xSize` through the components. */
  method CompositeSize(parts: seq<Component>, xSize: int) returns (r: int)
    ensures r == Size(parts, xSize)
  {
    r := xSize;
    for i := 0 to |parts|
      invariant r == Size(parts[..i], xSize)
    {
      assert parts[..i + 1][..i] == parts[..i];
      r := parts[i].sizeOf(r);
    }
    assert parts[..|parts|] == parts;
  }

  /** `eval`: feeds each component's output to the next. */
  method CompositeEval(parts: seq<Component>, x: Vector) returns (y: Vector)
    ensures y == Eval(parts, x)
  {
    if parts == [] {
      return x;
    }
    y := x;
    for i := 0 to |parts|
      invariant y == Eval(parts[..i], x)
    {
      assert parts[..i + 1][..i] == parts[..i];
      y := parts[i].eval(y);
    }
    assert parts[..|parts|] == parts;
  }

  /** `inverse_eval`: applies the inverses from the last component down to
      the first; a component without one makes it fail. */
  method CompositeInverseEval(parts: seq<Component>, y: Vector) returns (r: Result<Vector>)
    ensures r == InverseEval(parts, y)
  {
    if parts == [] {
      return Success(y);
    }
    var x := y;
    var i := |parts|;
    assert parts[..i] == parts;
    while i > 0
      invariant 0 <= i <= |parts|
      invariant InverseEval(parts, y) == InverseEval(parts[..i], x)
    {
      assert parts[..i][..i - 1] == parts[..i - 1];
      var step := InverseOf(parts[i - 1], x);
      if step.Failure? {
        return Failure(step.error);
      }
      x := step.value;
      i := i - 1;
    }
    r := Success(x);
  }

  /** `apply_jacobian`: records the input of every component in a forward
      pass, then pulls the gradient back from the last component to the
      first. */
  method CompositeApplyJacobian(parts: seq<Component>, gradFull: Vector, x: Vector) returns (gradv: Vector)
    ensures gradv == ApplyJacobian(parts, gradFull, x)
  {
    if parts == [] {
      return gradFull;
    }
    var ys: seq<Vector> := [];
    var y := x;
    for i := 0 to |parts|
      invariant |ys| == i && y == Eval(parts[..i], x)
      invariant forall k :: 0 <= k < i ==> ys[k] == Eval(parts[..k], x)
    {
      assert parts[..i + 1][..i] == parts[..i];
      ys := ys + [y];
      y := parts[i].eval(y);
    }
    gradv := gradFull;
    var i := |parts|;
    assert parts[..i] == parts;
    while i > 0
      invariant 0 <= i <= |parts|
      invariant ApplyJacobian(parts, gradFull, x) == ApplyJacobian(parts[..i], gradv, x)
    {
      assert parts[..i][..i - 1] == parts[..i - 1];
      gradv := parts[i - 1].jacobian(gradv, ys[i - 1]);
      i := i - 1;
    }
  }

  // ---------------------------------------------------------------------------
  // Properties of the composite

  /** With no components, everything passes its input through. */
  lemma EmptyComposite(n: int, x: Vector, grad: Vector)
    ensures Size([], n) == n && Eval([], x) == x
    ensures InverseEval([], x) == Success(x)
    ensures ApplyJacobian([], grad, x) == grad
    ensures StateIndexing([]) == []
  {
  }

  lemma {:induction false} SizeConcat(a: seq<Component>, b: seq<Component>, n: int)
    ensures Size(a + b, n) == Size(b, Size(a, n))
  {
    if b == [] {
      assert a + b == a;
    } else {
      var m := |b| - 1;
      assert (a + b)[..|a + b| - 1] == a + b[..m];
      SizeConcat(a, b[..m], n);
    }
  }

  /** Composing two lists evaluates the first, then the second. */
  lemma {:induction false} EvalConcat(a: seq<Component>, b: seq<Component>, x: Vector)
    ensures Eval(a + b, x) == Eval(b, Eval(a, x))
  {
    if b == [] {
      assert a + b == a;
    } else {
      var m := |b| - 1;
      assert (a + b)[..|a + b| - 1] == a + b[..m];
      EvalConcat(a, b[..m], x);
    }
  }

  /** Composing two lists inverts the second, then the first. */
  lemma {:induction false} InverseEvalConcat(a: seq<Component>, b: seq<Component>, y: Vector)
    ensures InverseEval(a + b, y) ==
              match InverseEval(b, y)
              case Failure(e) => Failure(e)
              case Success(z) => InverseEval(a, z)
  {
    if b == [] {
      assert a + b == a;
    } else {
      var m := |b| - 1;
      assert (a + b)[..|a + b| - 1] == a + b[..m];
      match InverseOf(b[m], y)
      case Failure(e) =>
      case Success(z) => InverseEvalConcat(a, b[..m], z);
    }
  }

  /** Every component has an inverse that undoes its `eval`. */
  ghost predicate Invertible(parts: seq<Component>) {
    forall k :: 0 <= k < |parts| ==>
      parts[k].inverse.Some? && forall v :: parts[k].inverse.value(parts[k].eval(v)) == v
  }

  /** Undoing the composite recovers the input when every component's
      inverse undoes it. */
  lemma {:induction false} InverseRoundTrip(parts: seq<Component>, x: Vector)
    requires Invertible(parts)
    ensures InverseEval(parts, Eval(parts, x)) == Success(x)
  {
    if parts != [] {
      var m := |parts| - 1;
      var init := parts[..m];
      assert forall k :: 0 <= k < m ==> init[k] == parts[k];
      assert Invertible(init);
      assert InverseOf(parts[m], Eval(parts, x)) == Success(Eval(init, x));
      InverseRoundTrip(init, x);
    }
  }

  /** The composite inverse fails exactly when some component has none,
      and then with "Not supported". */
  lemma {:induction false} InverseFailsIffMissing(parts: seq<Component>, y: Vector)
    ensures InverseEval(parts, y).Failure? <==> exists k :: 0 <= k < |parts| && parts[k].inverse.None?
    ensures InverseEval(parts, y).Failure? ==> InverseEval(parts, y).error == "Not supported"
  {
    if parts != [] {
      var m := |parts| - 1;
      var init := parts[..m];
      assert forall k :: 0 <= k < m ==> init[k] == parts[k];
      match InverseOf(parts[m], y)
      case Failure(e) =>
      case Success(z) =>
        InverseFailsIffMissing(init, z);
        if exists k :: 0 <= k < |parts| && parts[k].inverse.None? {
          var k :| 0 <= k < |parts| && parts[k].inverse.None?;
          assert init[k].inverse.None?;
        }
    }
  }

  /** The chain rule over a split list: the gradient is first pulled back
      through the second part, at the point the first part produces, then
      through the first part. */
  lemma {:induction false} ChainRule(a: seq<Component>, b: seq<Component>, grad: Vector, x: Vector)
    ensures ApplyJacobian(a + b, grad, x) == ApplyJacobian(a, ApplyJacobian(b, grad, Eval(a, x)), x)
  {
    if b != [] {
      var m := |b| - 1;
      assert (a + b)[..|a + b| - 1] == a + b[..m];
      EvalConcat(a, b[..m], x);
      ChainRule(a, b[..m], b[m].jacobian(grad, Eval(b[..m], Eval(a, x))), x);
    } else {
      assert a + b == a;
    }
  }

  /** The composite's state-variable indexing is its last component's:
      appending a non-empty list replaces it, appending nothing keeps it. */
  lemma StateIndexingConcat(a: seq<Component>, b: seq<Component>)
    ensures StateIndexing(a + b) == if b == [] then StateIndexing(a) else StateIndexing(b)
  {
    if b == [] {
      assert a + b == a;
    } else {
      assert (a + b)[|a + b| - 1] == b[|b| - 1];
    }
  }

  /** A composite of one component behaves as that component. */
  lemma SingleComponent(c: Component, n: int, x: Vector, grad: Vector)
    ensures Size([c], n) == c.sizeOf(n) && Eval([c], x) == c.eval(x)
    ensures InverseEval([c], x) == InverseOf(c, x)
    ensures ApplyJacobian([c], grad, x) == c.jacobian(grad, x)
    ensures StateIndexing([c]) == c.indexing
  {
    assert [c][..0] == [];
  }
}
