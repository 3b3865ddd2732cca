/**
 * The finite-volume heat solver (CHeatSolverFVM): the edge passes that
 * assemble the residual and the Jacobian, the undivided Laplacian, the
 * boundary conditions, the local time step, the explicit and implicit
 * Euler updates, the dual-time source and the multigrid restriction.
 *
 * The solver owns one temperature per point (nVar = 1), its residual and
 * solution vectors and its sparse Jacobian; these are the fields of the
 * class below. The flow solver's state, the mesh and the numerics objects
 * that compute one edge's flux are inputs. Each method is stated against
 * a specification function of the old state; the properties the solver
 * relies on are lemmas about those functions.
 */
module HeatFVM {
  import opened IncNumericsBase
  import opened HeatLinearSystem
  import opened HeatMesh
  import opened HeatState
  import opened HeatBoundary
  import opened HeatTimeIntegration

  // =====================================================================
  // Edge passes
  // =====================================================================

  function Negated(t: EdgeTerm): EdgeTerm {
    EdgeTerm(-t.residual, -t.jacI, -t.jacJ)
  }

  predicate EdgesIn(edges: seq<Edge>, n: nat) {
    forall q :: 0 <= q < |edges| ==> edges[q].i < n && edges[q].j < n
  }

  /** The edges of a valid geometry join points of it. */
  lemma EdgesOfValid(g: Geometry)
    requires Valid(g)
    ensures EdgesIn(g.edges, NPoint(g))
  {
    assert forall k :: 0 <= k < |g.edges| ==> ValidEdge(g, g.edges[k]);
  }

  /** Convective passes: the edge residual is added at i and subtracted at j. */
  function ConvectiveResidualStep(res: Vector, e: Edge, t: EdgeTerm): (r: Vector)
    requires e.i < |res| && e.j < |res|
    ensures |r| == |res|
  {
    SubtractBlock(AddBlock(res, e.i, t.residual), e.j, t.residual)
  }

  /** Convective passes: (i,i) += J_i, (i,j) += J_j, (j,i) -= J_i, (j,j) -= J_j. */
  function ConvectiveJacobianStep(m: Matrix, e: Edge, t: EdgeTerm): Matrix {
    MatSub(MatSub(MatAdd(MatAdd(m, e.i, e.i, t.jacI), e.i, e.j, t.jacJ), e.j, e.i, t.jacI), e.j, e.j, t.jacJ)
  }

  /** The four blocks of edge (i, j) move by the edge's Jacobians; every other block stays. */
  lemma ConvectiveJacobianStepEntries(m: Matrix, e: Edge, t: EdgeTerm)
    ensures var r := ConvectiveJacobianStep(m, e, t);
      && (e.i != e.j ==>
        && Get(r, e.i, e.i) == Get(m, e.i, e.i) + t.jacI
        && Get(r, e.i, e.j) == Get(m, e.i, e.j) + t.jacJ
        && Get(r, e.j, e.i) == Get(m, e.j, e.i) - t.jacI
        && Get(r, e.j, e.j) == Get(m, e.j, e.j) - t.jacJ)
      && (forall a: nat, b: nat :: (a != e.i && a != e.j) || (b != e.i && b != e.j) ==> Get(r, a, b) == Get(m, a, b))
  {
  }

  /** Viscous pass: the residual is subtracted at i and added at j. */
  function ViscousResidualStep(res: Vector, e: Edge, t: EdgeTerm): (r: Vector)
    requires e.i < |res| && e.j < |res|
    ensures |r| == |res|
  {
    AddBlock(SubtractBlock(res, e.i, t.residual), e.j, t.residual)
  }

  /** Viscous pass: (i,i) -= J_i, (i,j) -= J_j, (j,i) += J_i, (j,j) += J_j. */
  function ViscousJacobianStep(m: Matrix, e: Edge, t: EdgeTerm): Matrix {
    MatAdd(MatAdd(MatSub(MatSub(m, e.i, e.i, t.jacI), e.i, e.j, t.jacJ), e.j, e.i, t.jacI), e.j, e.j, t.jacJ)
  }

  /** The residual after the first k edges of a convective pass. */
  function ConvectiveResidualAfter(res: Vector, edges: seq<Edge>, terms: seq<EdgeTerm>, k: nat): (r: Vector)
    requires |terms| == |edges| && k <= |edges| && EdgesIn(edges, |res|)
    ensures |r| == |res|
  {
    if k == 0 then res
    else ConvectiveResidualStep(ConvectiveResidualAfter(res, edges, terms, k - 1), edges[k - 1], terms[k - 1])
  }

  function ConvectiveJacobianAfter(m: Matrix, edges: seq<Edge>, terms: seq<EdgeTerm>, k: nat): Matrix
    requires |terms| == |edges| && k <= |edges|
  {
    if k == 0 then m
    else ConvectiveJacobianStep(ConvectiveJacobianAfter(m, edges, terms, k - 1), edges[k - 1], terms[k - 1])
  }

  function ViscousResidualAfter(res: Vector, edges: seq<Edge>, terms: seq<EdgeTerm>, k: nat): (r: Vector)
    requires |terms| == |edges| && k <= |edges| && EdgesIn(edges, |res|)
    ensures |r| == |res|
  {
    if k == 0 then res
    else ViscousResidualStep(ViscousResidualAfter(res, edges, terms, k - 1), edges[k - 1], terms[k - 1])
  }

  function ViscousJacobianAfter(m: Matrix, edges: seq<Edge>, terms: seq<EdgeTerm>, k: nat): Matrix
    requires |terms| == |edges| && k <= |edges|
  {
    if k == 0 then m
    else ViscousJacobianStep(ViscousJacobianAfter(m, edges, terms, k - 1), edges[k - 1], terms[k - 1])
  }

  /** Jacobian_i is a member array every numerics call overwrites: after a pass it holds the last edge's. */
  function LastJacI(prev: real, terms: seq<EdgeTerm>): real {
    if |terms| == 0 then prev else terms[|terms| - 1].jacI
  }

  /**
   * The state of a convective pass after its first k edges: the residual
   * and the Jacobian are the After functions of the state before the pass,
   * and Jacobian_i holds the last edge's block.
   */
  predicate ConvectiveProgress(res0: Vector, jac0: Matrix, jacI0: real, edges: seq<Edge>, terms: seq<EdgeTerm>,
                               k: nat, res: Vector, jac: Matrix, jacI: real) {
    && |terms| == |edges| && k <= |edges| && EdgesIn(edges, |res0|)
    && res == ConvectiveResidualAfter(res0, edges, terms, k)
    && jac == ConvectiveJacobianAfter(jac0, edges, terms, k)
    && jacI == (if k == 0 then jacI0 else terms[k - 1].jacI)
  }

  /** The same for the viscous pass. */
  predicate ViscousProgress(res0: Vector, jac0: Matrix, jacI0: real, edges: seq<Edge>, terms: seq<EdgeTerm>,
                            k: nat, res: Vector, jac: Matrix, jacI: real) {
    && |terms| == |edges| && k <= |edges| && EdgesIn(edges, |res0|)
    && res == ViscousResidualAfter(res0, edges, terms, k)
    && jac == ViscousJacobianAfter(jac0, edges, terms, k)
    && jacI == (if k == 0 then jacI0 else terms[k - 1].jacI)
  }

  /** One more edge of a convective pass. */
  lemma ConvectiveProgressStep(res0: Vector, jac0: Matrix, jacI0: real, edges: seq<Edge>, terms: seq<EdgeTerm>,
                               k: nat, res: Vector, jac: Matrix, jacI: real)
    requires ConvectiveProgress(res0, jac0, jacI0, edges, terms, k, res, jac, jacI) && k < |edges|
    ensures edges[k].i < |res| && edges[k].j < |res|
    ensures ConvectiveProgress(res0, jac0, jacI0, edges, terms, k + 1, ConvectiveResidualStep(res, edges[k], terms[k]),
                               ConvectiveJacobianStep(jac, edges[k], terms[k]), terms[k].jacI)
  {
  }

  /** One more edge of the viscous pass. */
  lemma ViscousProgressStep(res0: Vector, jac0: Matrix, jacI0: real, edges: seq<Edge>, terms: seq<EdgeTerm>,
                            k: nat, res: Vector, jac: Matrix, jacI: real)
    requires ViscousProgress(res0, jac0, jacI0, edges, terms, k, res, jac, jacI) && k < |edges|
    ensures edges[k].i < |res| && edges[k].j < |res|
    ensures ViscousProgress(res0, jac0, jacI0, edges, terms, k + 1, ViscousResidualStep(res, edges[k], terms[k]),
                            ViscousJacobianStep(jac, edges[k], terms[k]), terms[k].jacI)
  {
  }

  // ---------------------------------------------------------------------
  // Conservation
  // ---------------------------------------------------------------------

  /** Whatever the edge fluxes, a convective pass leaves the sum of the residuals unchanged. */
  lemma {:induction false} ConvectivePassConserves(res: Vector, edges: seq<Edge>, terms: seq<EdgeTerm>, k: nat)
    requires |terms| == |edges| && k <= |edges| && EdgesIn(edges, |res|)
    ensures Sum(ConvectiveResidualAfter(res, edges, terms, k)) == Sum(res)
  {
    if k > 0 {
      ConvectivePassConserves(res, edges, terms, k - 1);
      var prev := ConvectiveResidualAfter(res, edges, terms, k - 1);
      var e := edges[k - 1];
      var t := terms[k - 1];
      SumAddBlock(prev, e.i, t.residual);
      SumSubtractBlock(AddBlock(prev, e.i, t.residual), e.j, t.residual);
    }
  }

  /** Every column of the Jacobian keeps its sum through a convective pass (the rows of j undo those of i). */
  lemma {:induction false} ConvectivePassConservesColumns(m: Matrix, edges: seq<Edge>, terms: seq<EdgeTerm>, k: nat, c: nat, n: nat)
    requires |terms| == |edges| && k <= |edges| && EdgesIn(edges, n)
    ensures ColSum(ConvectiveJacobianAfter(m, edges, terms, k), c, n) == ColSum(m, c, n)
  {
    if k > 0 {
      ConvectivePassConservesColumns(m, edges, terms, k - 1, c, n);
      var m0 := ConvectiveJacobianAfter(m, edges, terms, k - 1);
      var e := edges[k - 1];
      var t := terms[k - 1];
      var m1 := MatAdd(m0, e.i, e.i, t.jacI);
      var m2 := MatAdd(m1, e.i, e.j, t.jacJ);
      var m3 := MatSub(m2, e.j, e.i, t.jacI);
      ColSumMatAdd(m0, e.i, e.i, t.jacI, c, n);
      ColSumMatAdd(m1, e.i, e.j, t.jacJ, c, n);
      ColSumMatSub(m2, e.j, e.i, t.jacI, c, n);
      ColSumMatSub(m3, e.j, e.j, t.jacJ, c, n);
    }
  }

  function NegatedTerms(terms: seq<EdgeTerm>): (r: seq<EdgeTerm>)
    ensures |r| == |terms| && forall q :: 0 <= q < |terms| ==> r[q] == Negated(terms[q])
  {
    seq(|terms|, q requires 0 <= q < |terms| => Negated(terms[q]))
  }

  lemma ViscousResidualStepIsNegated(res: Vector, e: Edge, t: EdgeTerm)
    requires e.i < |res| && e.j < |res|
    ensures ViscousResidualStep(res, e, t) == ConvectiveResidualStep(res, e, Negated(t))
  {
    var a := ViscousResidualStep(res, e, t);
    var b := ConvectiveResidualStep(res, e, Negated(t));
    assert forall p :: 0 <= p < |a| ==> a[p] == b[p];
  }

  lemma ViscousJacobianStepIsNegated(m: Matrix, e: Edge, t: EdgeTerm)
    ensures ViscousJacobianStep(m, e, t) == ConvectiveJacobianStep(m, e, Negated(t))
  {
    assert MatSub(m, e.i, e.i, t.jacI) == MatAdd(m, e.i, e.i, -t.jacI);
    var x1 := MatAdd(m, e.i, e.i, -t.jacI);
    assert MatSub(x1, e.i, e.j, t.jacJ) == MatAdd(x1, e.i, e.j, -t.jacJ);
    var x2 := MatAdd(x1, e.i, e.j, -t.jacJ);
    assert MatAdd(x2, e.j, e.i, t.jacI) == MatSub(x2, e.j, e.i, -t.jacI);
    var x3 := MatSub(x2, e.j, e.i, -t.jacI);
    assert MatAdd(x3, e.j, e.j, t.jacJ) == MatSub(x3, e.j, e.j, -t.jacJ);
  }

  /** The viscous pass is the convective pass applied to the negated edge terms. */
  lemma {:induction false} ViscousResidualIsNegatedConvective(res: Vector, edges: seq<Edge>, terms: seq<EdgeTerm>, k: nat)
    requires |terms| == |edges| && k <= |edges| && EdgesIn(edges, |res|)
    ensures ViscousResidualAfter(res, edges, terms, k) == ConvectiveResidualAfter(res, edges, NegatedTerms(terms), k)
  {
    if k > 0 {
      ViscousResidualIsNegatedConvective(res, edges, terms, k - 1);
      ViscousResidualStepIsNegated(ViscousResidualAfter(res, edges, terms, k - 1), edges[k - 1], terms[k - 1]);
    }
  }

  lemma ViscousJacobianIsNegatedConvective(m: Matrix, edges: seq<Edge>, terms: seq<EdgeTerm>, k: nat)
    requires |terms| == |edges| && k <= |edges|
    ensures ViscousJacobianAfter(m, edges, terms, k) == ConvectiveJacobianAfter(m, edges, NegatedTerms(terms), k)
  {
    ViscousJacobianAsConvective(m, edges, terms, NegatedTerms(terms), k);
  }

  /** The induction behind it, for any sequence of terms that negates the edge terms one by one. */
  lemma {:induction false} ViscousJacobianAsConvective(m: Matrix, edges: seq<Edge>, terms: seq<EdgeTerm>,
                                                       negated: seq<EdgeTerm>, k: nat)
    requires |terms| == |edges| == |negated| && k <= |edges|
    requires forall q :: 0 <= q < |terms| ==> negated[q] == Negated(terms[q])
    ensures ViscousJacobianAfter(m, edges, terms, k) == ConvectiveJacobianAfter(m, edges, negated, k)
  {
    if k > 0 {
      ViscousJacobianAsConvective(m, edges, terms, negated, k - 1);
      ViscousJacobianStepIsNegated(ViscousJacobianAfter(m, edges, terms, k - 1), edges[k - 1], terms[k - 1]);
    }
  }

  /** Hence the viscous pass conserves the residual sum and the Jacobian column sums as well. */
  lemma ViscousPassConserves(res: Vector, m: Matrix, edges: seq<Edge>, terms: seq<EdgeTerm>, c: nat)
    requires |terms| == |edges| && EdgesIn(edges, |res|)
    ensures Sum(ViscousResidualAfter(res, edges, terms, |edges|)) == Sum(res)
    ensures ColSum(ViscousJacobianAfter(m, edges, terms, |edges|), c, |res|) == ColSum(m, c, |res|)
  {
    ViscousResidualIsNegatedConvective(res, edges, terms, |edges|);
    ConvectivePassConserves(res, edges, NegatedTerms(terms), |edges|);
    ViscousJacobianIsNegatedConvective(m, edges, terms, |edges|);
    ConvectivePassConservesColumns(m, edges, NegatedTerms(terms), |edges|, c, |res|);
  }

  // =====================================================================
  // The inputs each pass hands to its numerics object
  // =====================================================================

  /** The centred numerics also receive the undivided Laplacians and the neighbour counts. */
  datatype CentredInput = CentredInput(normal: Vec, primI: Vec, primJ: Vec, tempI: real, tempJ: real,
                                       undLaplI: real, undLaplJ: real, neighborsI: nat, neighborsJ: nat)

  /** SetCoord, SetNormal, SetConsVarGradient, SetTemperature, SetThermalDiffusivity (viscous numerics). */
  datatype ViscInput = ViscInput(coordI: Vec, coordJ: Vec, normal: Vec, gradI: Vec, gradJ: Vec,
                                 tempI: real, tempJ: real, diffusivityI: real, diffusivityJ: real)

  predicate NodesShaped(nodes: seq<HeatNode>, nDim: nat) {
    forall p :: 0 <= p < |nodes| ==> |nodes[p].gradient| == nDim
  }

  /** Nodes whose gradients are those of a shaped node list are shaped too. */
  lemma NodesShapedKept(a: seq<HeatNode>, b: seq<HeatNode>, nDim: nat)
    requires NodesShaped(a, nDim) && |b| == |a|
    requires forall q :: 0 <= q < |b| ==> b[q].gradient == a[q].gradient
    ensures NodesShaped(b, nDim)
  {
  }

  /** The flow state carries nVarFlow primitives with an nDim-wide gradient for each. */
  predicate FlowShaped(flow: seq<FlowNode>, nDim: nat, nVarFlow: nat) {
    forall p :: 0 <= p < |flow| ==> FlowNodeShaped(flow[p], nDim, nVarFlow)
  }

  predicate FlowNodeShaped(f: FlowNode, nDim: nat, nVarFlow: nat) {
    && nVarFlow <= |f.primitive|
    && nVarFlow <= |f.gradient|
    && (forall v :: 0 <= v < nVarFlow ==> |f.gradient[v]| == nDim)
  }

  function CentredTerms(g: Geometry, nodes: seq<HeatNode>, flow: seq<FlowNode>,
                        numerics: CentredInput -> EdgeTerm): (ts: seq<EdgeTerm>)
    requires Valid(g) && |nodes| == NPoint(g) && |flow| == NPoint(g)
    ensures |ts| == |g.edges|
  {
    seq(|g.edges|, k requires 0 <= k < |g.edges| => numerics(CentredInputAt(g, nodes, flow, g.edges[k])))
  }

  function CentredInputAt(g: Geometry, nodes: seq<HeatNode>, flow: seq<FlowNode>, e: Edge): CentredInput
    requires Valid(g) && ValidEdge(g, e) && |nodes| == NPoint(g) && |flow| == NPoint(g)
  {
    CentredInput(e.normal, flow[e.i].primitive, flow[e.j].primitive,
                 nodes[e.i].solution, nodes[e.j].solution,
                 nodes[e.i].undLapl, nodes[e.j].undLapl,
                 g.neighbors[e.i], g.neighbors[e.j])
  }

  // ---------------------------------------------------------------------
  // MUSCL reconstruction
  // ---------------------------------------------------------------------

  const NON_PHYSICAL: real := 1.0

  /** Vector_i = 0.5 (x_to - x_from), the half edge from a point towards the face. */
  function HalfEdge(from: Vec, to: Vec, nDim: nat): (v: Vec)
    requires nDim <= |from| && nDim <= |to|
    ensures |v| == nDim && forall d :: 0 <= d < nDim ==> v[d] == 0.5 * (to[d] - from[d])
  {
    seq(nDim, d requires 0 <= d < nDim => 0.5 * (to[d] - from[d]))
  }

  /** vec[0] grad[0] + ... + vec[k-1] grad[k-1], each term scaled by Non_Physical. */
  function ProjectTo(vec: Vec, grad: Vec, k: nat): real
    requires k <= |vec| && k <= |grad|
  {
    if k == 0 then 0.0 else ProjectTo(vec, grad, k - 1) + vec[k - 1] * grad[k - 1] * NON_PHYSICAL
  }

  /** The value at the face: value + vec . grad. */
  function Extrapolate(value: real, grad: Vec, vec: Vec, nDim: nat): real
    requires nDim <= |vec| && nDim <= |grad|
  {
    value + ProjectTo(vec, grad, nDim)
  }

  /** Primitive_Flow = V + vec . grad V, for each of the flow solver's nVarFlow variables. */
  function ReconstructPrimitive(V: Vec, grad: Mat, vec: Vec, nDim: nat, nVarFlow: nat): (r: Vec)
    requires nVarFlow <= |V| && nVarFlow <= |grad| && nDim <= |vec|
    requires forall v :: 0 <= v < nVarFlow ==> nDim <= |grad[v]|
    ensures |r| == nVarFlow
    ensures forall v :: 0 <= v < nVarFlow ==> r[v] == Extrapolate(V[v], grad[v], vec, nDim)
  {
    seq(nVarFlow, v requires 0 <= v < nVarFlow => Extrapolate(V[v], grad[v], vec, nDim))
  }

  /**
   * As written, the constructor sizes the Primitive_Flow_i/j buffers for
   * nDim+1 entries, while the reconstruction loop fills nVarFlow of them.
   */
  function PrimitiveFlowBufferLength(nDim: nat): nat { nDim + 1 }

  /** The incompressible flow solver's primitives: pressure, nDim velocities, temperature. */
  function IncFlowVarCount(nDim: nat): nat { nDim + 2 }

  /**
   * The reconstruction loop of Upwind_Residual as written, into a
   * Primitive_Flow buffer of nDim+1 entries: variable v goes to index v.
   * Writes inside the buffer are performed; the indices of the writes
   * that fall past its end are returned in `lost`, in loop order. Coupled
   * to the incompressible flow solver (nVarFlow = nDim+2), exactly one
   * write, the temperature's at index nDim+1, falls past the end.
   */
  method MusclBufferOverrun(buf: array<real>, V: Vec, grad: Mat, vec: Vec, nDim: nat, nVarFlow: nat) returns (lost: seq<nat>)
    requires buf.Length == PrimitiveFlowBufferLength(nDim)
    requires nVarFlow <= |V| && nVarFlow <= |grad| && nDim <= |vec|
    requires forall v :: 0 <= v < nVarFlow ==> nDim <= |grad[v]|
    modifies buf
    ensures forall v :: v in lost <==> buf.Length <= v < nVarFlow
    ensures nVarFlow == IncFlowVarCount(nDim) ==> lost == [buf.Length]
    ensures forall v :: 0 <= v < buf.Length && v < nVarFlow ==> buf[v] == ReconstructPrimitive(V, grad, vec, nDim, nVarFlow)[v]
    ensures forall v :: nVarFlow <= v < buf.Length ==> buf[v] == old(buf[v])
  {
    lost := [];
    for v := 0 to nVarFlow
      invariant |lost| == (if v <= buf.Length then 0 else v - buf.Length)
      invariant forall k :: 0 <= k < |lost| ==> lost[k] == buf.Length + k
      invariant forall u :: 0 <= u < v && u < buf.Length ==> buf[u] == Extrapolate(V[u], grad[u], vec, nDim)
      invariant forall u :: v <= u < buf.Length ==> buf[u] == old(buf[u])
    {
      var x := Extrapolate(V[v], grad[v], vec, nDim);
      if v < buf.Length {
        buf[v] := x;
      } else {
        lost := lost + [v];
      }
    }
    assert forall v :: v in lost <==> buf.Length <= v < nVarFlow by {
      forall v
        ensures v in lost <==> buf.Length <= v < nVarFlow
      {
        if buf.Length <= v < nVarFlow {
          assert lost[v - buf.Length] == v;
        }
      }
    }
  }

  /** What the upwind pass hands to its numerics for edge e, with or without MUSCL. */
  function UpwindInput(g: Geometry, nodes: seq<HeatNode>, flow: seq<FlowNode>, muscl: bool,
                       nVarFlow: nat, e: Edge): (c: ConvInput)
    requires Valid(g) && ValidEdge(g, e) && |nodes| == NPoint(g) && |flow| == NPoint(g)
    requires NodesShaped(nodes, g.nDim) && FlowShaped(flow, g.nDim, nVarFlow)
    ensures !muscl ==> c == ConvInput(e.normal, flow[e.i].primitive, flow[e.j].primitive,
                                     nodes[e.i].solution, nodes[e.j].solution)
  {
    if muscl then
      var vecI := HalfEdge(g.coord[e.i], g.coord[e.j], g.nDim);
      var vecJ := HalfEdge(g.coord[e.j], g.coord[e.i], g.nDim);
      ConvInput(e.normal,
                ReconstructPrimitive(flow[e.i].primitive, flow[e.i].gradient, vecI, g.nDim, nVarFlow),
                ReconstructPrimitive(flow[e.j].primitive, flow[e.j].gradient, vecJ, g.nDim, nVarFlow),
                Extrapolate(nodes[e.i].solution, nodes[e.i].gradient, vecI, g.nDim),
                Extrapolate(nodes[e.j].solution, nodes[e.j].gradient, vecJ, g.nDim))
    else
      ConvInput(e.normal, flow[e.i].primitive, flow[e.j].primitive, nodes[e.i].solution, nodes[e.j].solution)
  }

  function UpwindTerms(g: Geometry, nodes: seq<HeatNode>, flow: seq<FlowNode>, muscl: bool,
                       nVarFlow: nat, numerics: ConvInput -> EdgeTerm): (ts: seq<EdgeTerm>)
    requires Valid(g) && |nodes| == NPoint(g) && |flow| == NPoint(g)
    requires NodesShaped(nodes, g.nDim) && FlowShaped(flow, g.nDim, nVarFlow)
    ensures |ts| == |g.edges|
  {
    seq(|g.edges|, k requires 0 <= k < |g.edges| =>
      numerics(UpwindInput(g, nodes, flow, muscl, nVarFlow, g.edges[k])))
  }

  lemma {:induction false} ProjectToScaled(u: Vec, w: Vec, grad: Vec, s: real, k: nat)
    requires k <= |u| && k <= |w| && k <= |grad|
    requires forall d :: 0 <= d < k ==> u[d] == s * w[d]
    ensures ProjectTo(u, grad, k) == s * ProjectTo(w, grad, k)
  {
    if k > 0 {
      ProjectToScaled(u, w, grad, s, k - 1);
      assert u[k - 1] * grad[k - 1] * NON_PHYSICAL == s * (w[k - 1] * grad[k - 1] * NON_PHYSICAL);
    }
  }

  /**
   * MUSCL is consistent: for a field that is linear along the edge
   * (T_j = T_i + grad . (x_j - x_i), same gradient at both ends) the two
   * reconstructions meet at the same face value.
   */
  lemma MusclExactForLinearField(ti: real, tj: real, grad: Vec, xi: Vec, xj: Vec, nDim: nat)
    requires nDim <= |xi| && nDim <= |xj| && nDim <= |grad|
    requires tj == ti + ProjectTo(Jump(xj, xi, nDim), grad, nDim)
    ensures Extrapolate(ti, grad, HalfEdge(xi, xj, nDim), nDim) == Extrapolate(tj, grad, HalfEdge(xj, xi, nDim), nDim)
  {
    var d := Jump(xj, xi, nDim);
    ProjectToScaled(HalfEdge(xi, xj, nDim), d, grad, 0.5, nDim);
    ProjectToScaled(HalfEdge(xj, xi, nDim), d, grad, -0.5, nDim);
  }

  // ---------------------------------------------------------------------
  // Viscous pass inputs
  // ---------------------------------------------------------------------

  function ViscousTerms(g: Geometry, nodes: seq<HeatNode>, flow: seq<FlowNode>, kind: SolverKind,
                        d: Diffusion, numerics: ViscInput -> EdgeTerm): (ts: seq<EdgeTerm>)
    requires (forall k :: 0 <= k < |g.edges| ==> ValidEdge(g, g.edges[k]))
    requires |nodes| == NPoint(g) && |flow| == NPoint(g) && DiffusionDefined(kind, d)
    ensures |ts| == |g.edges|
  {
    seq(|g.edges|, k requires 0 <= k < |g.edges| => numerics(ViscInputAt(g, nodes, flow, kind, d, g.edges[k])))
  }

  function ViscInputAt(g: Geometry, nodes: seq<HeatNode>, flow: seq<FlowNode>, kind: SolverKind,
                       d: Diffusion, e: Edge): ViscInput
    requires ValidEdge(g, e) && |nodes| == NPoint(g) && |flow| == NPoint(g) && DiffusionDefined(kind, d)
  {
    ViscInput(g.coord[e.i], g.coord[e.j], e.normal, nodes[e.i].gradient, nodes[e.j].gradient,
              nodes[e.i].solution, nodes[e.j].solution,
              ThermalDiffusivity(IsFlow(kind), d, flow[e.i].eddyViscosity),
              ThermalDiffusivity(IsFlow(kind), d, flow[e.j].eddyViscosity))
  }

  // =====================================================================
  // Undivided Laplacian
  // =====================================================================

  /** Whether the edge updates its first point: it is owned, and it is not a boundary point facing an interior one. */
  predicate LaplUpdatesI(g: Geometry, e: Edge)
    requires Valid(g) && ValidEdge(g, e)
  {
    g.domain[e.i] && (!g.physicalBoundary[e.i] || g.physicalBoundary[e.j])
  }

  predicate LaplUpdatesJ(g: Geometry, e: Edge)
    requires Valid(g) && ValidEdge(g, e)
  {
    g.domain[e.j] && (g.physicalBoundary[e.i] || !g.physicalBoundary[e.j])
  }

  /** One edge: Diff = U_i - U_j is subtracted at i and added at j, each where the rule allows. */
  function LaplacianStep(lapl: seq<real>, g: Geometry, sol: seq<real>, e: Edge): (r: seq<real>)
    requires Valid(g) && ValidEdge(g, e) && |lapl| == NPoint(g) && |sol| == NPoint(g)
    ensures |r| == |lapl|
  {
    var diff := sol[e.i] - sol[e.j];
    var afterI := if LaplUpdatesI(g, e) then lapl[e.i := lapl[e.i] - diff] else lapl;
    if LaplUpdatesJ(g, e) then afterI[e.j := afterI[e.j] + diff] else afterI
  }

  function LaplacianAfter(lapl: seq<real>, g: Geometry, sol: seq<real>, k: nat): (r: seq<real>)
    requires Valid(g) && |lapl| == NPoint(g) && |sol| == NPoint(g) && k <= |g.edges|
    ensures |r| == |lapl|
  {
    if k == 0 then lapl else LaplacianStep(LaplacianAfter(lapl, g, sol, k - 1), g, sol, g.edges[k - 1])
  }

  /** Node by node, after differs from before at most in Und_Lapl. */
  predicate LaplacianOnlyChanged(before: seq<HeatNode>, after: seq<HeatNode>) {
    |after| == |before| && forall p :: 0 <= p < |before| ==> after[p] == before[p].(undLapl := after[p].undLapl)
  }

  /** Changing only the Laplacians keeps the temperatures and the gradient widths. */
  lemma LaplacianOnlyChangedKeeps(a: seq<HeatNode>, b: seq<HeatNode>, nDim: nat)
    requires LaplacianOnlyChanged(a, b)
    ensures Solutions(b) == Solutions(a)
    ensures NodesShaped(a, nDim) ==> NodesShaped(b, nDim)
  {
    assert forall p :: 0 <= p < |a| ==> b[p].solution == a[p].solution && b[p].gradient == a[p].gradient by {
      forall p | 0 <= p < |a| ensures b[p].solution == a[p].solution && b[p].gradient == a[p].gradient {
        assert b[p] == a[p].(undLapl := b[p].undLapl);
      }
    }
  }

  /** The owned points start from zero; halo points keep their value. */
  function ZeroOwned(lapl: seq<real>, nPointDomain: nat): (r: seq<real>)
    ensures |r| == |lapl|
  {
    seq(|lapl|, p requires 0 <= p < |lapl| => if p < nPointDomain then 0.0 else lapl[p])
  }

  /** A uniform temperature field has an undivided Laplacian of zero. */
  lemma {:induction false} UniformFieldHasNoLaplacian(lapl: seq<real>, g: Geometry, sol: seq<real>, k: nat)
    requires Valid(g) && |lapl| == NPoint(g) && |sol| == NPoint(g) && k <= |g.edges|
    requires forall p, q :: 0 <= p < |sol| && 0 <= q < |sol| ==> sol[p] == sol[q]
    ensures LaplacianAfter(lapl, g, sol, k) == lapl
  {
    if k > 0 {
      UniformFieldHasNoLaplacian(lapl, g, sol, k - 1);
      var e := g.edges[k - 1];
      assert ValidEdge(g, e);
      assert sol[e.i] - sol[e.j] == 0.0;
    }
  }

  /** The contribution of edge e to point p: U_j - U_i at its first point, U_i - U_j at its second. */
  function EdgeDifferenceAt(sol: seq<real>, e: Edge, p: nat): real
    requires e.i < |sol| && e.j < |sol|
  {
    (if e.i == p then sol[e.j] - sol[e.i] else 0.0) + (if e.j == p then sol[e.i] - sol[e.j] else 0.0)
  }

  /** Sum over the first k edges of their contribution to point p. */
  function NeighbourDifferences(g: Geometry, sol: seq<real>, p: nat, k: nat): real
    requires Valid(g) && |sol| == NPoint(g) && k <= |g.edges|
  {
    if k == 0 then 0.0
    else NeighbourDifferences(g, sol, p, k - 1) + EdgeDifferenceAt(sol, g.edges[k - 1], p)
  }

  /** Every point is owned and no edge joins a boundary point to an interior one. */
  predicate UniformEdges(g: Geometry)
    requires Valid(g)
  {
    forall k :: 0 <= k < |g.edges| ==>
      g.domain[g.edges[k].i] && g.domain[g.edges[k].j]
      && g.physicalBoundary[g.edges[k].i] == g.physicalBoundary[g.edges[k].j]
  }

  /**
   * Away from the interior/boundary interfaces, the undivided Laplacian
   * at a point is the sum over its edges of (neighbour - own value).
   */
  lemma {:induction false} LaplacianIsNeighbourSum(lapl: seq<real>, g: Geometry, sol: seq<real>, k: nat, p: nat)
    requires Valid(g) && |lapl| == NPoint(g) && |sol| == NPoint(g) && k <= |g.edges| && p < |lapl|
    requires UniformEdges(g)
    ensures LaplacianAfter(lapl, g, sol, k)[p] == lapl[p] + NeighbourDifferences(g, sol, p, k)
  {
    if k > 0 {
      LaplacianIsNeighbourSum(lapl, g, sol, k - 1, p);
      var e := g.edges[k - 1];
      assert ValidEdge(g, e);
      assert LaplUpdatesI(g, e) && LaplUpdatesJ(g, e);
    }
  }

  // =====================================================================
  // The solver
  // =====================================================================

  /** A generic wall pass has handled the first k vertices of marker m. */
  ghost predicate WallProgress(res0: Vector, jac0: Matrix, jacI0: real, g: Geometry, m: nat, vals: seq<real>, jacs: seq<real>,
                               k: nat, res: Vector, jac: Matrix, jacI: real)
    requires PerVertex(g, m, vals) && PerVertex(g, m, jacs) && |res0| == NPoint(g) && k <= |vals|
  {
    && res == WallResidualAfter(res0, g, m, vals, k)
    && jac == WallDiagonalAfter(jac0, g, m, jacs, k)
    && jacI == LastOwned(jacI0, g, m, jacs, k)
  }

  /** The heat-flux loop of BC_HeatFlux_Wall with an integrated flux: q divided by the area of every matching heat-flux marker. */
  method IntegratedHeatFlux(q0: real, hfTags: seq<string>, areas: seq<real>, tag: string) returns (q: real)
    requires |areas| == |hfTags|
    requires forall h :: 0 <= h < |hfTags| && hfTags[h] == tag ==> areas[h] != 0.0
    ensures q == AreaScaledFlux(q0, hfTags, areas, tag, |hfTags|)
  {
    q := q0;
    for h := 0 to |hfTags|
      invariant q == AreaScaledFlux(q0, hfTags, areas, tag, h)
    {
      if tag == hfTags[h] {
        q := q / areas[h];
      }
    }
  }

  /** The flux BC_HeatFlux_Wall applies: per unit area when integrated, then made non-dimensional. */
  method WallFlux(q0: real, integrated: bool, hfTags: seq<string>, areas: seq<real>, tag: string, flowCase: bool, refs: HeatRefs)
    returns (q: real)
    requires |areas| == |hfTags| && HeatRefsDefined(flowCase, refs)
    requires integrated ==> forall h :: 0 <= h < |hfTags| && hfTags[h] == tag ==> areas[h] != 0.0
    ensures q == WallFluxSetting(q0, integrated, hfTags, areas, tag, flowCase, refs)
  {
    q := q0;
    if integrated {
      q := IntegratedHeatFlux(q, hfTags, areas, tag);
    }
    q := q / FluxScale(flowCase, refs);
  }

  /**
   * Marker m against heat-flux marker h of Set_Heatflux_Areas, on matching
   * tags: Local_Surface_Areas[h] restarts from 0 and sums the owned vertex
   * areas, and the monitored total gains the same areas when m is monitored.
   */
  method MarkerAreaInto(g: Geometry, sqrt: real -> real, m: nat, areas: seq<real>, monitor: real, h: nat)
    returns (areas': seq<real>, monitor': real)
    requires HeatMesh.Valid(g) && m < |g.markers| && h < |areas|
    ensures areas' == areas[h := OwnedArea(g, sqrt, m)]
    ensures monitor' == monitor + (if g.markers[m].monitoring then OwnedArea(g, sqrt, m) else 0.0)
  {
    ghost var vals := Areas(g, sqrt, m);
    areas', monitor' := areas[h := 0.0], monitor;
    for k := 0 to |g.markers[m].vertices|
      invariant areas' == areas[h := WallTotal(g, m, vals, k)]
      invariant monitor' == monitor + (if g.markers[m].monitoring then WallTotal(g, m, vals, k) else 0.0)
    {
      var v := g.markers[m].vertices[k];
      if g.domain[v.node] {
        var area := Area(sqrt, v.normal);
        assert vals[k] == area;
        areas' := areas'[h := areas'[h] + area];
        if g.markers[m].monitoring {
          monitor' := monitor' + area;
        }
      }
    }
  }

  /**
   * Heat_Flux[m] and AvgTemperature[m] of Heat_Fluxes, from zero: isothermal
   * walls integrate k dT/dn T_ref Area with the configured wall temperature,
   * CHT and heat-flux walls with the point's own temperature, and only
   * heat-flux walls accumulate T T_ref Area.
   */
  method MarkerFluxes(g: Geometry, sqrt: real -> real, sol: seq<real>, kc: real, tref: real,
                      isothermalTemp: string -> real, m: nat) returns (flux: real, avg: real)
    requires HeatMesh.Valid(g) && m < |g.markers| && |sol| == NPoint(g) && tref != 0.0 && FluxDistancesNonZero(g, sqrt)
    ensures flux == MarkerHeatFlux(g, sqrt, sol, kc, tref, isothermalTemp, m)
    ensures avg == MarkerAvgTemperature(g, sqrt, sol, tref, m)
  {
    flux, avg := 0.0, 0.0;
    var kind := g.markers[m].kind;
    if kind == Isothermal || kind == ChtInterface || kind == HeatFluxWall {
      ghost var vals := VertexHeatFluxes(g, sqrt, sol, kc, tref, isothermalTemp, m);
      ghost var temps := WeightedTemperatures(g, sqrt, sol, tref, m);
      for k := 0 to |g.markers[m].vertices|
        invariant FluxProgress(g, m, vals, temps, k, flux, avg)
      {
        flux, avg := MarkerFluxVertex(g, sqrt, sol, kc, tref, isothermalTemp, m, k, vals, temps, flux, avg);
      }
    }
  }

  /** Vertex k of the BCHeatFluxWall loop: q Area comes off the residual row of an owned vertex. */
  method HeatFluxVertex(g: Geometry, sqrt: real -> real, q: real, m: nat, k: nat, ghost res0: Vector, res: Vector)
    returns (res': Vector)
    requires HeatMesh.Valid(g) && m < |g.markers| && k < |g.markers[m].vertices| && |res0| == NPoint(g)
    requires res == WallResidualAfter(res0, g, m, HeatFluxValues(g, sqrt, q, m), k)
    ensures res' == WallResidualAfter(res0, g, m, HeatFluxValues(g, sqrt, q, m), k + 1)
  {
    ghost var vals := HeatFluxValues(g, sqrt, q, m);
    var v := g.markers[m].vertices[k];
    assert ValidVertex(g, v);
    res' := res;
    if g.domain[v.node] {
      var area := Area(sqrt, v.normal);
      assert vals[k] == q * area by {
        assert Areas(g, sqrt, m)[k] == area;
      }
      res' := SubtractBlock(res, v.node, q * area);
    }
  }

  /** The marker loop of Heat_Fluxes: every marker's flux and average temperature, and their monitored sums. */
  method AllMarkerFluxes(g: Geometry, sqrt: real -> real, sol: seq<real>, kc: real, tref: real,
                         isothermalTemp: string -> real, flux0: seq<real>, avg0: seq<real>)
    returns (markerFlux: seq<real>, markerAvg: seq<real>, allFlux: real, allAvg: real)
    requires HeatMesh.Valid(g) && |sol| == NPoint(g) && tref != 0.0 && FluxDistancesNonZero(g, sqrt)
    requires |flux0| == |g.markers| && |avg0| == |g.markers|
    ensures markerFlux == MarkerHeatFluxes(g, sqrt, sol, kc, tref, isothermalTemp)
    ensures markerAvg == AvgTemperatures(g, sqrt, sol, tref)
    ensures allFlux == MonitoredSum(g, markerFlux, |g.markers|)
    ensures allAvg == MonitoredSum(g, markerAvg, |g.markers|)
  {
    ghost var fluxes := MarkerHeatFluxes(g, sqrt, sol, kc, tref, isothermalTemp);
    ghost var avgs := AvgTemperatures(g, sqrt, sol, tref);
    markerFlux, markerAvg := flux0, avg0;
    allFlux, allAvg := 0.0, 0.0;
    for m := 0 to |g.markers|
      invariant |markerFlux| == |g.markers| && |markerAvg| == |g.markers|
      invariant forall i :: 0 <= i < m ==> markerFlux[i] == fluxes[i]
      invariant forall i :: 0 <= i < m ==> markerAvg[i] == avgs[i]
      invariant allFlux == MonitoredSum(g, fluxes, m)
      invariant allAvg == MonitoredSum(g, avgs, m)
    {
      var flux, avg := MarkerFluxes(g, sqrt, sol, kc, tref, isothermalTemp, m);
      markerAvg := markerAvg[m := avg];
      markerFlux := markerFlux[m := flux];
      if g.markers[m].monitoring {
        allFlux := allFlux + flux;
        allAvg := allAvg + avg;
      }
    }
  }

  /** One vertex of the Heat_Fluxes loop: owned vertices add their flux, and on heat-flux walls their temperature. */
  method MarkerFluxVertex(g: Geometry, sqrt: real -> real, sol: seq<real>, kc: real, tref: real,
                          isothermalTemp: string -> real, m: nat, k: nat, ghost vals: seq<real>, ghost temps: seq<real>,
                          flux: real, avg: real) returns (flux': real, avg': real)
    requires HeatMesh.Valid(g) && m < |g.markers| && |sol| == NPoint(g) && tref != 0.0 && FluxDistancesNonZero(g, sqrt)
    requires g.markers[m].kind in {Isothermal, ChtInterface, HeatFluxWall}
    requires vals == VertexHeatFluxes(g, sqrt, sol, kc, tref, isothermalTemp, m)
    requires temps == WeightedTemperatures(g, sqrt, sol, tref, m)
    requires k < |vals| && FluxProgress(g, m, vals, temps, k, flux, avg)
    ensures FluxProgress(g, m, vals, temps, k + 1, flux', avg')
  {
    flux', avg' := flux, avg;
    if g.domain[g.markers[m].vertices[k].node] {
      var q, t := VertexFluxTerms(g, sqrt, sol, kc, tref, isothermalTemp, m, k);
      FluxProgressStep(g, m, vals, temps, k, flux, avg, q, t);
      flux' := flux + q;
      if g.markers[m].kind == HeatFluxWall {
        avg' := avg + t;
      }
    } else {
      FluxProgressStep(g, m, vals, temps, k, flux, avg, 0.0, 0.0);
    }
  }

  /** The flux and, on a heat-flux wall, the temperature sums over the first k vertices of marker m. */
  ghost predicate FluxProgress(g: Geometry, m: nat, vals: seq<real>, temps: seq<real>, k: nat, flux: real, avg: real)
    requires PerVertex(g, m, vals) && PerVertex(g, m, temps) && k <= |vals|
  {
    && flux == WallTotal(g, m, vals, k)
    && (g.markers[m].kind == HeatFluxWall ==> avg == WallTotal(g, m, temps, k))
    && (g.markers[m].kind != HeatFluxWall ==> avg == 0.0)
  }

  lemma FluxProgressStep(g: Geometry, m: nat, vals: seq<real>, temps: seq<real>, k: nat, flux: real, avg: real, q: real, t: real)
    requires PerVertex(g, m, vals) && PerVertex(g, m, temps) && k < |vals|
    requires FluxProgress(g, m, vals, temps, k, flux, avg)
    ensures g.domain[g.markers[m].vertices[k].node] && q == vals[k] && (g.markers[m].kind == HeatFluxWall ==> t == temps[k]) ==>
      FluxProgress(g, m, vals, temps, k + 1, flux + q, if g.markers[m].kind == HeatFluxWall then avg + t else avg)
    ensures !g.domain[g.markers[m].vertices[k].node] ==> FluxProgress(g, m, vals, temps, k + 1, flux, avg)
  {
    WallTotalNext(g, m, vals, k);
    WallTotalNext(g, m, temps, k);
  }

  /**
   * At an owned vertex of a wall, k dT/dn T_ref Area with dT/dn = (T_wall -
   * T_normal)/dist, and T_wall T_ref Area.
   */
  method VertexFluxTerms(g: Geometry, sqrt: real -> real, sol: seq<real>, kc: real, tref: real,
                         isothermalTemp: string -> real, m: nat, k: nat) returns (q: real, t: real)
    requires HeatMesh.Valid(g) && m < |g.markers| && |sol| == NPoint(g) && tref != 0.0 && FluxDistancesNonZero(g, sqrt)
    requires g.markers[m].kind in {Isothermal, ChtInterface, HeatFluxWall}
    requires k < |g.markers[m].vertices| && g.domain[g.markers[m].vertices[k].node]
    ensures q == VertexHeatFluxes(g, sqrt, sol, kc, tref, isothermalTemp, m)[k]
    ensures g.markers[m].kind != Isothermal ==> t == WeightedTemperatures(g, sqrt, sol, tref, m)[k]
  {
    var v := g.markers[m].vertices[k];
    assert ValidVertex(g, v);
    var p := v.node;
    var nn := v.normalNeighbor;
    var twall := if g.markers[m].kind == Isothermal then isothermalTemp(g.markers[m].tag) / tref else sol[p];
    var area := Area(sqrt, v.normal);
    var dist := Distance(sqrt, g.coord[p], g.coord[nn]);
    assert Areas(g, sqrt, m)[k] == area && WallDistance(g, sqrt, v) == dist;
    assert WallTemperatures(g, sol, tref, isothermalTemp, m)[k] == twall;
    var dTdn := (twall - sol[nn]) / dist;
    q := kc * dTdn * tref * area;
    t := twall * tref * area;
  }

  /** One more vertex of a generic wall pass. */
  lemma WallProgressStep(res0: Vector, jac0: Matrix, jacI0: real, g: Geometry, m: nat, vals: seq<real>, jacs: seq<real>,
                         k: nat, res: Vector, jac: Matrix, jacI: real)
    requires PerVertex(g, m, vals) && PerVertex(g, m, jacs) && |res0| == NPoint(g) && k < |vals|
    requires WallProgress(res0, jac0, jacI0, g, m, vals, jacs, k, res, jac, jacI)
    ensures var p := g.markers[m].vertices[k].node;
      if g.domain[p] then WallProgress(res0, jac0, jacI0, g, m, vals, jacs, k + 1, SubtractBlock(res, p, vals[k]), MatSub(jac, p, p, jacs[k]), jacs[k])
      else WallProgress(res0, jac0, jacI0, g, m, vals, jacs, k + 1, res, jac, jacI)
  {
  }

  /**
   * A wall pass whose Jacobian part runs only when implicit has handled the
   * first k vertices of marker m, starting from a0.
   */
  ghost predicate SolidProgress(a0: Assembly, g: Geometry, m: nat, vals: seq<real>, jacs: seq<real>, implicit: bool,
                                k: nat, a: Assembly)
    requires PerVertex(g, m, vals) && PerVertex(g, m, jacs) && |a0.res| == NPoint(g) && k <= |vals|
  {
    && a.res == WallResidualAfter(a0.res, g, m, vals, k)
    && a.jac == (if implicit then WallDiagonalAfter(a0.jac, g, m, jacs, k) else a0.jac)
    && a.jacI == (if implicit then LastOwned(a0.jacI, g, m, jacs, k) else a0.jacI)
  }

  /** One more vertex of such a pass. */
  lemma SolidProgressStep(a0: Assembly, g: Geometry, m: nat, vals: seq<real>, jacs: seq<real>, implicit: bool, k: nat, a: Assembly)
    requires PerVertex(g, m, vals) && PerVertex(g, m, jacs) && |a0.res| == NPoint(g) && k < |vals|
    requires SolidProgress(a0, g, m, vals, jacs, implicit, k, a)
    ensures var p := g.markers[m].vertices[k].node;
      if g.domain[p] then
        SolidProgress(a0, g, m, vals, jacs, implicit, k + 1,
                      Assembly(SubtractBlock(a.res, p, vals[k]),
                               if implicit then MatSub(a.jac, p, p, jacs[k]) else a.jac,
                               if implicit then jacs[k] else a.jacI))
      else SolidProgress(a0, g, m, vals, jacs, implicit, k + 1, a)
  {
  }

  // ---------------------------------------------------------------------
  // SetTime_Step, pass by pass
  // ---------------------------------------------------------------------

  /** Max_Lambda_Inv and Max_Lambda_Visc set to zero on the owned points. */
  method ResetRadiiPass(r: Radii, nPointDomain: nat) returns (r': Radii)
    requires nPointDomain <= |r.inv| == |r.visc|
    ensures r' == ResetRadii(r, nPointDomain)
  {
    var inv, visc := r.inv, r.visc;
    var p := 0;
    while p < nPointDomain
      invariant p <= nPointDomain && |inv| == |r.inv| && |visc| == |r.visc|
      invariant forall q :: 0 <= q < |inv| ==> inv[q] == if q < p then 0.0 else r.inv[q]
      invariant forall q :: 0 <= q < |visc| ==> visc[q] == if q < p then 0.0 else r.visc[q]
    {
      inv := inv[p := 0.0];
      visc := visc[p := 0.0];
      p := p + 1;
    }
    r' := Radii(inv, visc);
  }

  /** One interior edge of the spectral-radius loop. */
  method EdgeRadiiUpdate(g: Geometry, sqrt: real -> real, flow: seq<FlowNode>, flowCase: bool, c: TimeConfig, r: Radii, e: Edge)
    returns (r': Radii)
    requires HeatMesh.Valid(g) && ValidEdge(g, e) && |flow| == NPoint(g) && RadiiShaped(r, NPoint(g))
    requires flowCase ==> c.prandtlLam != 0.0 && c.prandtlTurb != 0.0
    requires flowCase ==> |flow[e.i].velocity| == g.nDim && |flow[e.j].velocity| == g.nDim
                          && flow[e.i].density + flow[e.j].density != 0.0
    ensures r' == EdgeRadii(r, g, sqrt, flow, flowCase, c, e)
  {
    var area := Area(sqrt, e.normal);
    var inv := r.inv;
    if flowCase {
      var meanProjVel := 0.5 * (Dot(flow[e.i].velocity, e.normal) + Dot(flow[e.j].velocity, e.normal));
      var meanBeta := 0.5 * (flow[e.i].betaInc2 + flow[e.j].betaInc2);
      var meanDensity := 0.5 * (flow[e.i].density + flow[e.j].density);
      var lambda := ConvectiveRadius(sqrt, meanProjVel, meanBeta, meanDensity, area);
      if g.domain[e.i] { inv := inv[e.i := inv[e.i] + lambda]; }
      if g.domain[e.j] { inv := inv[e.j := inv[e.j] + lambda]; }
    }
    var diffusivity := c.diffusivitySolid;
    if flowCase {
      diffusivity := c.muConstantND / c.prandtlLam + flow[e.i].eddyViscosity / c.prandtlTurb;
    }
    var lambdaVisc := ViscousRadius(diffusivity, area);
    var visc := r.visc;
    if g.domain[e.i] { visc := visc[e.i := visc[e.i] + lambdaVisc]; }
    if g.domain[e.j] { visc := visc[e.j := visc[e.j] + lambdaVisc]; }
    r' := Radii(inv, visc);
  }

  /** The interior-edge loop of the spectral radii. */
  method EdgeRadiiPass(g: Geometry, sqrt: real -> real, flow: seq<FlowNode>, flowCase: bool, c: TimeConfig, r: Radii)
    returns (r': Radii)
    requires HeatMesh.Valid(g) && |flow| == NPoint(g) && RadiiShaped(r, NPoint(g))
    requires flowCase ==> c.prandtlLam != 0.0 && c.prandtlTurb != 0.0 && FlowTimeDefined(g, flow)
    ensures r' == EdgeRadiiAfter(r, g, sqrt, flow, flowCase, c, |g.edges|)
  {
    r' := r;
    for k := 0 to |g.edges|
      invariant r' == EdgeRadiiAfter(r, g, sqrt, flow, flowCase, c, k)
    {
      FlowDefinedAtEdge(g, flow, flowCase, k);
      EdgeRadiiAfterNext(r, g, sqrt, flow, flowCase, c, k);
      r' := EdgeRadiiUpdate(g, sqrt, flow, flowCase, c, r', g.edges[k]);
    }
  }

  /** One boundary vertex of the spectral-radius loop. */
  method VertexRadiiUpdate(g: Geometry, sqrt: real -> real, flow: seq<FlowNode>, flowCase: bool, c: TimeConfig, r: Radii, v: Vertex)
    returns (r': Radii)
    requires HeatMesh.Valid(g) && ValidVertex(g, v) && |flow| == NPoint(g) && RadiiShaped(r, NPoint(g))
    requires flowCase ==> c.prandtlLam != 0.0 && c.prandtlTurb != 0.0
    requires flowCase ==> |flow[v.node].velocity| == g.nDim && flow[v.node].density != 0.0
    ensures r' == VertexRadii(r, g, sqrt, flow, flowCase, c, v)
  {
    var p := v.node;
    var area := Area(sqrt, v.normal);
    var inv := r.inv;
    if flowCase {
      var projVel := Dot(flow[p].velocity, v.normal);
      var lambda := ConvectiveRadius(sqrt, projVel, flow[p].betaInc2, flow[p].density, area);
      if g.domain[p] { inv := inv[p := inv[p] + lambda]; }
    }
    var diffusivity := c.diffusivitySolid;
    if flowCase {
      diffusivity := c.muConstantND / c.prandtlLam + flow[p].eddyViscosity / c.prandtlTurb;
    }
    var visc := r.visc;
    if g.domain[p] { visc := visc[p := visc[p] + ViscousRadius(diffusivity, area)]; }
    r' := Radii(inv, visc);
  }

  /** The boundary-vertex loop of the spectral radii, marker by marker. */
  method BoundaryRadiiPass(g: Geometry, sqrt: real -> real, flow: seq<FlowNode>, flowCase: bool, c: TimeConfig, r: Radii)
    returns (r': Radii)
    requires HeatMesh.Valid(g) && |flow| == NPoint(g) && RadiiShaped(r, NPoint(g))
    requires flowCase ==> c.prandtlLam != 0.0 && c.prandtlTurb != 0.0 && FlowTimeDefined(g, flow)
    ensures r' == BoundaryRadiiAfter(r, g, sqrt, flow, flowCase, c, |g.markers|)
  {
    r' := r;
    for m := 0 to |g.markers|
      invariant r' == BoundaryRadiiAfter(r, g, sqrt, flow, flowCase, c, m)
    {
      ghost var start := r';
      for k := 0 to |g.markers[m].vertices|
        invariant r' == MarkerRadiiAfter(start, g, sqrt, flow, flowCase, c, m, k)
      {
        FlowDefinedAtVertex(g, flow, flowCase, m, k);
        MarkerRadiiAfterNext(start, g, sqrt, flow, flowCase, c, m, k);
        r' := VertexRadiiUpdate(g, sqrt, flow, flowCase, c, r', g.markers[m].vertices[k]);
      }
    }
  }

  /**
   * The point loop: each owned point's time step from its radii, and the
   * running Min_Delta_Time, Max_Delta_Time and Global_Delta_Time.
   */
  method PointTimeSteps(g: Geometry, r: Radii, flow: seq<FlowNode>, flowCase: bool, c: TimeConfig, e0: Extremes)
    returns (dts: seq<real>, x: Extremes)
    requires HeatMesh.Valid(g) && RadiiShaped(r, NPoint(g)) && |flow| == NPoint(g) && RadiiDefined(g, r, flowCase)
    ensures dts == PointDeltaTimes(g, r, flow, flowCase, c)
    ensures x == ExtremesAfter(e0, g, r, flow, flowCase, c, g.nPointDomain)
  {
    dts := [];
    x := e0;
    var p := 0;
    while p < g.nPointDomain
      invariant p <= g.nPointDomain && |dts| == p
      invariant forall q :: 0 <= q < p ==> dts[q] == PointDeltaTime(g, r, flow, flowCase, c, q)
      invariant x == ExtremesAfter(e0, g, r, flow, flowCase, c, p)
    {
      var dt;
      dt, x := PointTimeStep(g, r, flow, flowCase, c, x, p);
      dts := dts + [dt];
      p := p + 1;
    }
  }

  /** One owned point of the point loop. */
  method PointTimeStep(g: Geometry, r: Radii, flow: seq<FlowNode>, flowCase: bool, c: TimeConfig, x: Extremes, p: nat)
    returns (dt: real, x': Extremes)
    requires HeatMesh.Valid(g) && RadiiShaped(r, NPoint(g)) && |flow| == NPoint(g) && RadiiDefined(g, r, flowCase)
    requires p < g.nPointDomain
    ensures dt == PointDeltaTime(g, r, flow, flowCase, c, p)
    ensures x' == ExtremesStep(x, g, r, flow, flowCase, c, p)
  {
    dt := 0.0;
    x' := x;
    if g.volume[p] != 0.0 {
      var local := LocalTimeStep(g, r, flow, flowCase, c, p);
      x' := Extremes(Min(x.minDt, local), Max(x.maxDt, local), Min(x.globalDt, local));
      if local > c.maxDeltaTime {
        local := c.maxDeltaTime;
      }
      dt := c.cflReduction * local;
    }
  }

  /** Local_Delta_Time at an owned point with volume: the inviscid and viscous steps, and the one the rule selects. */
  method LocalTimeStep(g: Geometry, r: Radii, flow: seq<FlowNode>, flowCase: bool, c: TimeConfig, p: nat)
    returns (local: real)
    requires HeatMesh.Valid(g) && RadiiShaped(r, NPoint(g)) && |flow| == NPoint(g) && RadiiDefined(g, r, flowCase)
    requires p < g.nPointDomain && g.volume[p] != 0.0
    ensures local == LocalDeltaTime(g, r, flow, flowCase, c, p)
  {
    var vol := g.volume[p];
    var dtInv := c.maxDeltaTime;
    if flowCase {
      dtInv := c.cfl * vol / r.inv[p];
    }
    var dtVisc := c.cfl * K_V * vol * vol / r.visc[p];
    local := match c.rule
      case MinimumRule => Min(dtInv, dtVisc)
      case ConvectiveRule => dtInv
      case ViscousRule => dtVisc
      case ByFlowRule => flow[p].deltaTime;
  }

  /**
   * The end of SetTime_Step: the global step everywhere under time
   * stepping, then the cap at 2/3 of the physical step for an explicit
   * dual-time run.
   */
  method FinalTimeSteps(g: Geometry, r: Radii, flow: seq<FlowNode>, flowCase: bool, c: TimeConfig,
                        globalDt: real, unstTimeND: real, dts0: seq<real>) returns (dts: seq<real>)
    requires HeatMesh.Valid(g) && RadiiShaped(r, NPoint(g)) && |flow| == NPoint(g) && RadiiDefined(g, r, flowCase)
    requires dts0 == PointDeltaTimes(g, r, flow, flowCase, c)
    ensures dts == FinalDeltaTimes(g, r, flow, flowCase, c, globalDt, unstTimeND)
  {
    dts := dts0;
    if c.unsteady == TimeStepping {
      var p := 0;
      while p < g.nPointDomain
        invariant p <= g.nPointDomain && |dts| == g.nPointDomain
        invariant forall q :: 0 <= q < g.nPointDomain ==> dts[q] == if q < p then globalDt else dts0[q]
      {
        dts := dts[p := globalDt];
        p := p + 1;
      }
    }
    ghost var stepped := dts;
    if IsDualTime(c.unsteady) {
      var p := 0;
      while p < g.nPointDomain
        invariant p <= g.nPointDomain && |dts| == g.nPointDomain
        invariant forall q :: 0 <= q < g.nPointDomain ==>
          dts[q] == if q < p && !c.implicit then Min((2.0 / 3.0) * unstTimeND, stepped[q]) else stepped[q]
      {
        if !c.implicit {
          dts := dts[p := Min((2.0 / 3.0) * unstTimeND, dts[p])];
        }
        p := p + 1;
      }
    }
  }

  /** SetTime_Step on values: the radii, the extremes, the final time steps and the physical step. */
  method TimeStepPass(g: Geometry, sqrt: real -> real, flowCase: bool, flow: seq<FlowNode>, c: TimeConfig,
                      iteration: nat, iMesh: nat, globalStart: real, r0: Radii)
    returns (r: Radii, x: Extremes, dts: seq<real>, unstTimeND: real)
    requires HeatMesh.Valid(g) && |flow| == NPoint(g) && RadiiShaped(r0, NPoint(g))
    requires flowCase ==> c.prandtlLam != 0.0 && c.prandtlTurb != 0.0 && FlowTimeDefined(g, flow)
    requires RadiiDefined(g, SpectralRadii(r0, g, sqrt, flow, flowCase, c), flowCase)
    requires RecomputesUnsteadyStep(c, iteration, iMesh) ==> c.cfl != 0.0
    ensures r == SpectralRadii(r0, g, sqrt, flow, flowCase, c)
    ensures x == ExtremesAfter(Extremes(MIN_DELTA_TIME_START, 0.0, globalStart), g, r, flow, flowCase, c, g.nPointDomain)
    ensures unstTimeND == UnsteadyTimeStep(c, iteration, iMesh, x.globalDt)
    ensures dts == FinalDeltaTimes(g, r, flow, flowCase, c, x.globalDt, unstTimeND)
  {
    r := ResetRadiiPass(r0, g.nPointDomain);
    r := EdgeRadiiPass(g, sqrt, flow, flowCase, c, r);
    r := BoundaryRadiiPass(g, sqrt, flow, flowCase, c, r);
    dts, x := PointTimeSteps(g, r, flow, flowCase, c, Extremes(MIN_DELTA_TIME_START, 0.0, globalStart));
    unstTimeND := c.deltaUnstTimeND;
    if RecomputesUnsteadyStep(c, iteration, iMesh) {
      unstTimeND := UnsteadyStepOf(c, x.globalDt);
    }
    dts := FinalTimeSteps(g, r, flow, flowCase, c, x.globalDt, unstTimeND, dts);
  }

  /** The point loop of ExplicitEuler_Iteration on values. */
  method ExplicitPass(g: Geometry, res: Vector, nodes: seq<HeatNode>, adjoint: bool)
    returns (ns: seq<HeatNode>, norms: ResidualNorms)
    requires HeatMesh.Valid(g) && VolumesNonZero(g) && |res| == NPoint(g) && |nodes| == NPoint(g)
    ensures ns == ExplicitNodes(g, res, nodes, adjoint)
    ensures norms == ExplicitNorms(g, res, nodes, adjoint)
  {
    norms := ResidualNorms(0.0, 0.0);
    ns := nodes;
    ghost var vals := ExplicitResiduals(res, nodes, g.nPointDomain);
    for p := 0 to g.nPointDomain
      invariant |ns| == |nodes|
      invariant forall q :: 0 <= q < |ns| ==>
        ns[q] == if q < p then nodes[q].(solution := ExplicitSolution(g, res, nodes, adjoint, q)) else nodes[q]
      invariant norms == if adjoint then ResidualNorms(0.0, 0.0) else NormsOf(vals, p)
    {
      var delta := ns[p].deltaTime / g.volume[p];
      if !adjoint {
        var r := res[p] + ns[p].resTruncError;
        assert ns[p] == nodes[p];
        assert ns[p].solution + -r * delta == ExplicitSolution(g, res, nodes, adjoint, p);
        ns := ns[p := ns[p].(solution := ns[p].solution + -r * delta)];
        norms := AddNorms(norms, r);
      }
    }
  }

  /** The build of ImplicitEuler_Iteration on values: the owned rows, then the halo rows. */
  method ImplicitBuildPass(g: Geometry, res0: Vector, sol0: Vector, jac0: Matrix, nodes: seq<HeatNode>)
    returns (res: Vector, sol: Vector, jac: Matrix, ns: seq<HeatNode>, norms: ResidualNorms)
    requires HeatMesh.Valid(g) && |res0| == NPoint(g) && |sol0| == NPoint(g) && |nodes| == NPoint(g)
    ensures jac == ImplicitJacobian(jac0, g, nodes, g.nPointDomain)
    ensures res == ImplicitRhsAll(g, res0, nodes)
    ensures |sol| == NPoint(g) && forall p :: 0 <= p < |sol| ==> sol[p] == 0.0
    ensures ns == TruncationFrozen(g, nodes)
    ensures norms == NormsOf(res, g.nPointDomain)
  {
    res, sol, jac, ns, norms := ImplicitOwnedRows(g, res0, sol0, jac0, nodes);
    ghost var rhs := ImplicitRhsAll(g, res0, nodes);
    ghost var owned := res;
    for p := g.nPointDomain to NPoint(g)
      invariant |res| == NPoint(g) && |sol| == NPoint(g)
      invariant forall q :: 0 <= q < NPoint(g) ==> res[q] == if q < p then rhs[q] else owned[q]
      invariant forall q :: 0 <= q < NPoint(g) ==> sol[q] == 0.0 || g.nPointDomain <= p <= q
      invariant forall q :: p <= q < NPoint(g) ==> sol[q] == sol0[q] || q < g.nPointDomain
    {
      res := res[p := 0.0];
      sol := sol[p := 0.0];
    }
    NormsPrefix(rhs, owned, g.nPointDomain);
  }

  /** Norms depend only on the values they have seen. */
  lemma {:induction false} NormsPrefix(a: seq<real>, b: seq<real>, k: nat)
    requires k <= |a| && k <= |b| && forall q :: 0 <= q < k ==> a[q] == b[q]
    ensures NormsOf(a, k) == NormsOf(b, k)
  {
    if k > 0 {
      NormsPrefix(a, b, k - 1);
    }
  }

  /** The owned rows of the implicit build: diagonal, right-hand side, zero guess, norms. */
  method ImplicitOwnedRows(g: Geometry, res0: Vector, sol0: Vector, jac0: Matrix, nodes: seq<HeatNode>)
    returns (res: Vector, sol: Vector, jac: Matrix, ns: seq<HeatNode>, norms: ResidualNorms)
    requires HeatMesh.Valid(g) && |res0| == NPoint(g) && |sol0| == NPoint(g) && |nodes| == NPoint(g)
    ensures jac == ImplicitJacobian(jac0, g, nodes, g.nPointDomain)
    ensures |res| == NPoint(g) && |sol| == NPoint(g)
    ensures forall q :: 0 <= q < NPoint(g) ==> res[q] == if q < g.nPointDomain then ImplicitRhs(g, res0, nodes, q) else res0[q]
    ensures forall q :: 0 <= q < NPoint(g) ==> sol[q] == if q < g.nPointDomain then 0.0 else sol0[q]
    ensures ns == TruncationFrozen(g, nodes)
    ensures norms == NormsOf(res, g.nPointDomain)
  {
    res, sol, jac, ns := res0, sol0, jac0, nodes;
    norms := ResidualNorms(0.0, 0.0);
    for p := 0 to g.nPointDomain
      invariant ImplicitProgress(g, res0, sol0, jac0, nodes, p, res, sol, jac, ns, norms)
    {
      res, sol, jac, ns, norms := ImplicitOwnedRow(g, res0, sol0, jac0, nodes, p, res, sol, jac, ns, norms);
    }
  }

  /** The implicit build after its first p owned rows. */
  ghost predicate ImplicitProgress(g: Geometry, res0: Vector, sol0: Vector, jac0: Matrix, nodes: seq<HeatNode>, p: nat,
                                   res: Vector, sol: Vector, jac: Matrix, ns: seq<HeatNode>, norms: ResidualNorms)
    requires HeatMesh.Valid(g) && |res0| == NPoint(g) && |sol0| == NPoint(g) && |nodes| == NPoint(g)
  {
    && p <= g.nPointDomain
    && |res| == NPoint(g) && |sol| == NPoint(g) && |ns| == NPoint(g)
    && jac == ImplicitJacobian(jac0, g, nodes, p)
    && (forall q :: 0 <= q < NPoint(g) ==> res[q] == if q < p then ImplicitRhs(g, res0, nodes, q) else res0[q])
    && (forall q :: 0 <= q < NPoint(g) ==> sol[q] == if q < p then 0.0 else sol0[q])
    && (forall q :: 0 <= q < NPoint(g) ==> ns[q] == if q < p then TruncationFrozen(g, nodes)[q] else nodes[q])
    && norms == NormsOf(res, p)
  }

  /** Owned row p of the implicit build: Vol/dt on the diagonal (or the identity row), the right-hand side, a zero guess. */
  method ImplicitOwnedRow(g: Geometry, ghost res0: Vector, ghost sol0: Vector, ghost jac0: Matrix, ghost nodes: seq<HeatNode>,
                          p: nat, res: Vector, sol: Vector, jac: Matrix, ns: seq<HeatNode>, norms: ResidualNorms)
    returns (res': Vector, sol': Vector, jac': Matrix, ns': seq<HeatNode>, norms': ResidualNorms)
    requires HeatMesh.Valid(g) && |res0| == NPoint(g) && |sol0| == NPoint(g) && |nodes| == NPoint(g)
    requires p < g.nPointDomain && ImplicitProgress(g, res0, sol0, jac0, nodes, p, res, sol, jac, ns, norms)
    ensures ImplicitProgress(g, res0, sol0, jac0, nodes, p + 1, res', sol', jac', ns', norms')
  {
    res', ns' := res, ns;
    if ns[p].deltaTime != 0.0 {
      jac' := MatAdd(jac, p, p, g.volume[p] / ns[p].deltaTime);
    } else {
      jac' := SetVal2Diag(jac, p, 1.0);
      res' := res'[p := 0.0];
      ns' := ns'[p := ns'[p].(resTruncError := 0.0)];
    }
    res' := res'[p := -(res'[p] + ns'[p].resTruncError)];
    sol' := sol[p := 0.0];
    NormsPrefix(res, res', p);
    norms' := AddNorms(norms, res'[p]);
  }

  /** The edge loop of Centered_Residual, on the values it reads and writes. */
  method CentredPass(g: Geometry, nodes: seq<HeatNode>, flow: seq<FlowNode>, numerics: CentredInput -> EdgeTerm,
                     res0: Vector, jac0: Matrix, jacI0: real) returns (res: Vector, jac: Matrix, jacI: real)
    requires Valid(g) && |nodes| == NPoint(g) && |flow| == NPoint(g) && |res0| == NPoint(g)
    ensures |res| == |res0|
    ensures var terms := CentredTerms(g, nodes, flow, numerics);
      && res == ConvectiveResidualAfter(res0, g.edges, terms, |g.edges|)
      && jac == ConvectiveJacobianAfter(jac0, g.edges, terms, |g.edges|)
      && jacI == LastJacI(jacI0, terms)
  {
    ghost var terms := CentredTerms(g, nodes, flow, numerics);
    EdgesOfValid(g);
    res, jac, jacI := res0, jac0, jacI0;
    for k := 0 to |g.edges|
      invariant ConvectiveProgress(res0, jac0, jacI0, g.edges, terms, k, res, jac, jacI)
    {
      res, jac, jacI := CentredEdge(g, nodes, flow, numerics, k, terms, res0, jac0, jacI0, res, jac, jacI);
    }
  }

  /** One edge of Centered_Residual: the numerics on the edge's input, then the four blocks. */
  method CentredEdge(g: Geometry, nodes: seq<HeatNode>, flow: seq<FlowNode>, numerics: CentredInput -> EdgeTerm, k: nat,
                     ghost terms: seq<EdgeTerm>, ghost res0: Vector, ghost jac0: Matrix, ghost jacI0: real,
                     res: Vector, jac: Matrix, jacI: real)
    returns (res': Vector, jac': Matrix, jacI': real)
    requires Valid(g) && |nodes| == NPoint(g) && |flow| == NPoint(g) && k < |g.edges| == |terms|
    requires terms[k] == numerics(CentredInputAt(g, nodes, flow, g.edges[k]))
    requires ConvectiveProgress(res0, jac0, jacI0, g.edges, terms, k, res, jac, jacI)
    ensures ConvectiveProgress(res0, jac0, jacI0, g.edges, terms, k + 1, res', jac', jacI')
  {
    var e := g.edges[k];
    assert ValidEdge(g, e);
    var t := numerics(CentredInputAt(g, nodes, flow, e));
    assert t == terms[k];
    ConvectiveProgressStep(res0, jac0, jacI0, g.edges, terms, k, res, jac, jacI);
    res', jac', jacI' := ConvectiveResidualStep(res, e, t), ConvectiveJacobianStep(jac, e, t), t.jacI;
  }

  /** The edge loop of Upwind_Residual: the face states (reconstructed under MUSCL), the numerics, the four blocks. */
  method UpwindPass(g: Geometry, nodes: seq<HeatNode>, flow: seq<FlowNode>, muscl: bool, nVarFlow: nat,
                    numerics: ConvInput -> EdgeTerm,
                    res0: Vector, jac0: Matrix, jacI0: real) returns (res: Vector, jac: Matrix, jacI: real)
    requires Valid(g) && |nodes| == NPoint(g) && |flow| == NPoint(g) && |res0| == NPoint(g)
    requires NodesShaped(nodes, g.nDim) && FlowShaped(flow, g.nDim, nVarFlow)
    ensures |res| == |res0|
    ensures var terms := UpwindTerms(g, nodes, flow, muscl, nVarFlow, numerics);
      && res == ConvectiveResidualAfter(res0, g.edges, terms, |g.edges|)
      && jac == ConvectiveJacobianAfter(jac0, g.edges, terms, |g.edges|)
      && jacI == LastJacI(jacI0, terms)
  {
    ghost var terms := UpwindTerms(g, nodes, flow, muscl, nVarFlow, numerics);
    EdgesOfValid(g);
    res, jac, jacI := res0, jac0, jacI0;
    for k := 0 to |g.edges|
      invariant ConvectiveProgress(res0, jac0, jacI0, g.edges, terms, k, res, jac, jacI)
    {
      res, jac, jacI := UpwindEdge(g, nodes, flow, muscl, nVarFlow, numerics, k, terms, res0, jac0, jacI0, res, jac, jacI);
    }
  }

  /** One edge of Upwind_Residual: the face states, the numerics, then the four blocks. */
  method UpwindEdge(g: Geometry, nodes: seq<HeatNode>, flow: seq<FlowNode>, muscl: bool, nVarFlow: nat,
                    numerics: ConvInput -> EdgeTerm, k: nat, ghost terms: seq<EdgeTerm>,
                    ghost res0: Vector, ghost jac0: Matrix, ghost jacI0: real, res: Vector, jac: Matrix, jacI: real)
    returns (res': Vector, jac': Matrix, jacI': real)
    requires Valid(g) && |nodes| == NPoint(g) && |flow| == NPoint(g) && k < |g.edges| == |terms|
    requires NodesShaped(nodes, g.nDim) && FlowShaped(flow, g.nDim, nVarFlow)
    requires terms[k] == numerics(UpwindInput(g, nodes, flow, muscl, nVarFlow, g.edges[k]))
    requires ConvectiveProgress(res0, jac0, jacI0, g.edges, terms, k, res, jac, jacI)
    ensures ConvectiveProgress(res0, jac0, jacI0, g.edges, terms, k + 1, res', jac', jacI')
  {
    var e := g.edges[k];
    assert ValidEdge(g, e);
    var t := numerics(UpwindInput(g, nodes, flow, muscl, nVarFlow, e));
    assert t == terms[k];
    ConvectiveProgressStep(res0, jac0, jacI0, g.edges, terms, k, res, jac, jacI);
    res', jac', jacI' := ConvectiveResidualStep(res, e, t), ConvectiveJacobianStep(jac, e, t), t.jacI;
  }

  /** The edge loop of Viscous_Residual: the diffusivities at both ends, the numerics, the four blocks. */
  method ViscousPass(g: Geometry, nodes: seq<HeatNode>, flow: seq<FlowNode>, kind: SolverKind, d: Diffusion,
                     numerics: ViscInput -> EdgeTerm,
                     res0: Vector, jac0: Matrix, jacI0: real) returns (res: Vector, jac: Matrix, jacI: real)
    requires Valid(g) && |nodes| == NPoint(g) && |flow| == NPoint(g) && |res0| == NPoint(g) && DiffusionDefined(kind, d)
    ensures |res| == |res0|
    ensures var terms := ViscousTerms(g, nodes, flow, kind, d, numerics);
      && res == ViscousResidualAfter(res0, g.edges, terms, |g.edges|)
      && jac == ViscousJacobianAfter(jac0, g.edges, terms, |g.edges|)
      && jacI == LastJacI(jacI0, terms)
  {
    ghost var terms := ViscousTerms(g, nodes, flow, kind, d, numerics);
    EdgesOfValid(g);
    res, jac, jacI := res0, jac0, jacI0;
    for k := 0 to |g.edges|
      invariant ViscousProgress(res0, jac0, jacI0, g.edges, terms, k, res, jac, jacI)
    {
      res, jac, jacI := ViscousEdge(g, nodes, flow, kind, d, numerics, k, terms, res0, jac0, jacI0, res, jac, jacI);
    }
  }

  /** One edge of Viscous_Residual: the diffusivities, the numerics, then the four blocks. */
  method ViscousEdge(g: Geometry, nodes: seq<HeatNode>, flow: seq<FlowNode>, kind: SolverKind, d: Diffusion,
                     numerics: ViscInput -> EdgeTerm, k: nat, ghost terms: seq<EdgeTerm>,
                     ghost res0: Vector, ghost jac0: Matrix, ghost jacI0: real, res: Vector, jac: Matrix, jacI: real)
    returns (res': Vector, jac': Matrix, jacI': real)
    requires Valid(g) && |nodes| == NPoint(g) && |flow| == NPoint(g) && DiffusionDefined(kind, d) && k < |g.edges| == |terms|
    requires terms[k] == numerics(ViscInputAt(g, nodes, flow, kind, d, g.edges[k]))
    requires ViscousProgress(res0, jac0, jacI0, g.edges, terms, k, res, jac, jacI)
    ensures ViscousProgress(res0, jac0, jacI0, g.edges, terms, k + 1, res', jac', jacI')
  {
    var e := g.edges[k];
    assert ValidEdge(g, e);
    var t := numerics(ViscInputAt(g, nodes, flow, kind, d, e));
    assert t == terms[k];
    ViscousProgressStep(res0, jac0, jacI0, g.edges, terms, k, res, jac, jacI);
    res', jac', jacI' := ViscousResidualStep(res, e, t), ViscousJacobianStep(jac, e, t), t.jacI;
  }

  class HeatSolverFVM {
    const nPoint: nat
    const nPointDomain: nat
    var nodes: seq<HeatNode>
    var linSysRes: Vector
    var linSysSol: Vector
    var jacobian: Matrix
    /** The member block Jacobian_i[0][0]; the numerics and the boundary conditions write it in place. */
    var jacobianI: real
    /** Per marker: the integrated heat flux and the area-weighted temperature (Heat_Flux, AvgTemperature). */
    var heatFlux: seq<real>
    var avgTemperature: seq<real>
    /** Per heat-flux marker: its owned wall area (Surface_Areas). */
    var surfaceAreas: seq<real>
    var totalHeatFluxAreas: real
    var totalHeatFluxAreasMonitor: real
    var allBoundHeatFlux: real
    var allBoundAvgTemperature: real
    var totalHeatFlux: real
    var totalAvgTemperature: real
    var minDeltaTime: real
    var maxDeltaTime: real
    /** Res_RMS and Res_Max of the single variable. */
    var resRMS: real
    var resMax: real

    predicate Valid() reads this`nodes, this`linSysRes, this`linSysSol {
      nPointDomain <= nPoint && |nodes| == nPoint && |linSysRes| == nPoint && |linSysSol| == nPoint
    }

    /** The geometry the solver was built on. */
    predicate OnMesh(g: Geometry) reads this`nodes {
      HeatMesh.Valid(g) && NPoint(g) == nPoint && g.nPointDomain == nPointDomain
      && NodesShaped(nodes, g.nDim)
    }

    /**
     * Every point starts at the free-stream temperature t0 with zero
     * residual, solution increment and Jacobian.
     */
    constructor (g: Geometry, nMarker: nat, nMarkerHeatFlux: nat, t0: real)
      requires HeatMesh.Valid(g)
      ensures Valid() && OnMesh(g)
      ensures forall p :: 0 <= p < nPoint ==> nodes[p].solution == t0
      ensures linSysRes == seq(nPoint, p => 0.0) && linSysSol == seq(nPoint, p => 0.0) && jacobian == map[]
      ensures |heatFlux| == nMarker && |avgTemperature| == nMarker
      ensures |surfaceAreas| == nMarkerHeatFlux
    {
      nPoint := NPoint(g);
      nPointDomain := g.nPointDomain;
      nodes := seq(NPoint(g), p => HeatNode(t0, t0, t0, t0, seq(g.nDim, d => 0.0), 0.0, 0.0, 0.0, 0.0, 0.0));
      linSysRes := seq(NPoint(g), p => 0.0);
      linSysSol := seq(NPoint(g), p => 0.0);
      jacobian := map[];
      jacobianI := 0.0;
      heatFlux := seq(nMarker, m => 0.0);
      avgTemperature := seq(nMarker, m => 0.0);
      surfaceAreas := seq(nMarkerHeatFlux, m => 0.0);
      totalHeatFluxAreas, totalHeatFluxAreasMonitor := 0.0, 0.0;
      allBoundHeatFlux, allBoundAvgTemperature := 0.0, 0.0;
      totalHeatFlux, totalAvgTemperature := 0.0, 0.0;
      minDeltaTime, maxDeltaTime := 0.0, 0.0;
      resRMS, resMax := 0.0, 0.0;
    }

    // -------------------------------------------------------------------
    // Edge passes
    // -------------------------------------------------------------------

    /** Centered_Residual: only when coupled to a flow solver. */
    method CenteredResidual(g: Geometry, kind: SolverKind, flow: seq<FlowNode>, numerics: CentredInput -> EdgeTerm)
      requires Valid() && OnMesh(g) && |flow| == nPoint
      modifies this`linSysRes, this`jacobian, this`jacobianI
      ensures Valid()
      ensures var terms := CentredTerms(g, old(nodes), flow, numerics);
        && linSysRes == (if IsFlow(kind) then ConvectiveResidualAfter(old(linSysRes), g.edges, terms, |g.edges|) else old(linSysRes))
        && jacobian == (if IsFlow(kind) then ConvectiveJacobianAfter(old(jacobian), g.edges, terms, |g.edges|) else old(jacobian))
        && jacobianI == (if IsFlow(kind) then LastJacI(old(jacobianI), terms) else old(jacobianI))
    {
      if IsFlow(kind) {
        linSysRes, jacobian, jacobianI := CentredPass(g, nodes, flow, numerics, linSysRes, jacobian, jacobianI);
      }
    }

    /** Upwind_Residual: only when coupled to a flow solver; MUSCL reconstructs both states at the face. */
    method UpwindResidual(g: Geometry, kind: SolverKind, flow: seq<FlowNode>, muscl: bool, nVarFlow: nat,
                          numerics: ConvInput -> EdgeTerm)
      requires Valid() && OnMesh(g) && |flow| == nPoint && FlowShaped(flow, g.nDim, nVarFlow)
      modifies this`linSysRes, this`jacobian, this`jacobianI
      ensures Valid()
      ensures var terms := UpwindTerms(g, old(nodes), flow, muscl, nVarFlow, numerics);
        && linSysRes == (if IsFlow(kind) then ConvectiveResidualAfter(old(linSysRes), g.edges, terms, |g.edges|) else old(linSysRes))
        && jacobian == (if IsFlow(kind) then ConvectiveJacobianAfter(old(jacobian), g.edges, terms, |g.edges|) else old(jacobian))
        && jacobianI == (if IsFlow(kind) then LastJacI(old(jacobianI), terms) else old(jacobianI))
    {
      if IsFlow(kind) {
        linSysRes, jacobian, jacobianI := UpwindPass(g, nodes, flow, muscl, nVarFlow, numerics, linSysRes, jacobian, jacobianI);
      }
    }

    /** Viscous_Residual: runs for solids and fluids alike, with the opposite signs. */
    method ViscousResidual(g: Geometry, kind: SolverKind, flow: seq<FlowNode>, d: Diffusion,
                           numerics: ViscInput -> EdgeTerm)
      requires Valid() && OnMesh(g) && |flow| == nPoint && DiffusionDefined(kind, d)
      modifies this`linSysRes, this`jacobian, this`jacobianI
      ensures Valid()
      ensures var terms := ViscousTerms(g, old(nodes), flow, kind, d, numerics);
        && linSysRes == ViscousResidualAfter(old(linSysRes), g.edges, terms, |g.edges|)
        && jacobian == ViscousJacobianAfter(old(jacobian), g.edges, terms, |g.edges|)
        && jacobianI == LastJacI(old(jacobianI), terms)
    {
      linSysRes, jacobian, jacobianI := ViscousPass(g, nodes, flow, kind, d, numerics, linSysRes, jacobian, jacobianI);
    }

    /** SetUndivided_Laplacian: only Und_Lapl changes at each point. */
    method SetUndividedLaplacian(g: Geometry)
      requires Valid() && OnMesh(g)
      modifies this`nodes
      ensures Valid() && OnMesh(g)
      ensures Laplacians(nodes)
           == LaplacianAfter(ZeroOwned(Laplacians(old(nodes)), nPointDomain), g, Solutions(old(nodes)), |g.edges|)
      ensures LaplacianOnlyChanged(old(nodes), nodes)
    {
      ghost var sol := Solutions(nodes);
      ZeroOwnedLaplacians();
      ghost var start := Laplacians(nodes);
      for k := 0 to |g.edges|
        invariant Valid() && LaplacianOnlyChanged(old(nodes), nodes)
        invariant Laplacians(nodes) == LaplacianAfter(start, g, sol, k)
      {
        assert ValidEdge(g, g.edges[k]);
        LaplacianEdge(g, g.edges[k], sol, old(nodes));
      }
      LaplacianOnlyChangedKeeps(old(nodes), nodes, g.nDim);
    }

    /** The first loop of SetUndividedLaplacian: SetUnd_LaplZero on the owned points. */
    method ZeroOwnedLaplacians()
      requires Valid()
      modifies this`nodes
      ensures Valid()
      ensures Laplacians(nodes) == ZeroOwned(Laplacians(old(nodes)), nPointDomain)
      ensures LaplacianOnlyChanged(old(nodes), nodes)
    {
      for p := 0 to nPointDomain
        invariant Valid() && LaplacianOnlyChanged(old(nodes), nodes)
        invariant forall q :: 0 <= q < nPoint ==> nodes[q].undLapl == (if q < p then 0.0 else old(nodes)[q].undLapl)
      {
        nodes := nodes[p := nodes[p].(undLapl := 0.0)];
      }
    }

    /**
     * One edge of the second loop of SetUndividedLaplacian, with the
     * source's three boundary cases. `start` is the state before the loop.
     */
    method LaplacianEdge(g: Geometry, e: Edge, ghost sol: seq<real>, ghost start: seq<HeatNode>)
      requires Valid() && OnMesh(g) && ValidEdge(g, e)
      requires LaplacianOnlyChanged(start, nodes) && sol == Solutions(start)
      modifies this`nodes
      ensures Valid() && LaplacianOnlyChanged(start, nodes)
      ensures Laplacians(nodes) == LaplacianStep(old(Laplacians(nodes)), g, sol, e)
    {
      LaplacianOnlyChangedKeeps(start, nodes, g.nDim);
      var i := e.i;
      var j := e.j;
      var diff := nodes[i].solution - nodes[j].solution;
      var boundaryI := g.physicalBoundary[i];
      var boundaryJ := g.physicalBoundary[j];
      if (!boundaryI && !boundaryJ) || (boundaryI && boundaryJ) {
        if g.domain[i] { SubtractUndLapl(i, diff, start); }
        if g.domain[j] { AddUndLapl(j, diff, start); }
      }
      if !boundaryI && boundaryJ {
        if g.domain[i] { SubtractUndLapl(i, diff, start); }
      }
      if boundaryI && !boundaryJ {
        if g.domain[j] { AddUndLapl(j, diff, start); }
      }
    }

    /** CHeatFVMVariable::SubtractUnd_Lapl at point p. */
    method SubtractUndLapl(p: nat, x: real, ghost start: seq<HeatNode>)
      requires Valid() && p < nPoint && LaplacianOnlyChanged(start, nodes)
      modifies this`nodes
      ensures Valid() && LaplacianOnlyChanged(start, nodes)
      ensures Laplacians(nodes) == old(Laplacians(nodes))[p := old(nodes[p].undLapl) - x]
    {
      nodes := nodes[p := nodes[p].(undLapl := nodes[p].undLapl - x)];
    }

    /** CHeatFVMVariable::AddUnd_Lapl at point p. */
    method AddUndLapl(p: nat, x: real, ghost start: seq<HeatNode>)
      requires Valid() && p < nPoint && LaplacianOnlyChanged(start, nodes)
      modifies this`nodes
      ensures Valid() && LaplacianOnlyChanged(start, nodes)
      ensures Laplacians(nodes) == old(Laplacians(nodes))[p := old(nodes[p].undLapl) + x]
    {
      nodes := nodes[p := nodes[p].(undLapl := nodes[p].undLapl + x)];
    }

    // -------------------------------------------------------------------
    // Boundary conditions
    // -------------------------------------------------------------------

    /**
     * BC_Isothermal_Wall on marker m: the generic wall passes with the
     * isothermal residual and Jacobian at T_wall = T_iso/T_ref. When not
     * implicit, the member Jacobian_i is left as it was and that value is
     * what every owned vertex subtracts from its diagonal block.
     */
    method BCIsothermalWall(g: Geometry, sqrt: real -> real, kind: SolverKind, d: Diffusion, implicit: bool,
                            isothermalTemp: string -> real, tref: real, m: nat)
      requires Valid() && OnMesh(g) && m < |g.markers| && DistancesNonZero(g, sqrt, m) && tref != 0.0
      requires IsFlow(kind) ==> d.prandtlLam != 0.0
      modifies this`linSysRes, this`jacobian, this`jacobianI
      ensures Valid()
      ensures var kappa := WallDiffusivity(IsFlow(kind), d);
        WallProgress(old(linSysRes), old(jacobian), old(jacobianI), g, m,
                     IsothermalFluxes(g, sqrt, Solutions(nodes), kappa, isothermalTemp(g.markers[m].tag) / tref, m),
                     IsothermalJacobians(g, sqrt, kappa, implicit, old(jacobianI), m), |g.markers[m].vertices|,
                     linSysRes, jacobian, jacobianI)
    {
      var twall := isothermalTemp(g.markers[m].tag) / tref;
      var kappa := if IsFlow(kind) then d.muConstantND / d.prandtlLam else d.diffusivitySolid;
      ghost var vals := IsothermalFluxes(g, sqrt, Solutions(nodes), kappa, twall, m);
      ghost var jacs := IsothermalJacobians(g, sqrt, kappa, implicit, jacobianI, m);
      for k := 0 to |g.markers[m].vertices|
        invariant Valid()
        invariant WallProgress(old(linSysRes), old(jacobian), old(jacobianI), g, m, vals, jacs, k, linSysRes, jacobian, jacobianI)
      {
        IsothermalVertex(g, sqrt, kappa, twall, implicit, m, k, vals, jacs, old(linSysRes), old(jacobian), old(jacobianI));
      }
    }

    /** Vertex k of BCIsothermalWall. */
    method IsothermalVertex(g: Geometry, sqrt: real -> real, kappa: real, twall: real, implicit: bool, m: nat, k: nat,
                            ghost vals: seq<real>, ghost jacs: seq<real>, ghost res0: Vector, ghost jac0: Matrix, ghost jacI0: real)
      requires Valid() && OnMesh(g) && m < |g.markers| && k < |g.markers[m].vertices| && DistancesNonZero(g, sqrt, m)
      requires vals == IsothermalFluxes(g, sqrt, Solutions(nodes), kappa, twall, m)
      requires jacs == IsothermalJacobians(g, sqrt, kappa, implicit, jacI0, m)
      requires |res0| == nPoint && WallProgress(res0, jac0, jacI0, g, m, vals, jacs, k, linSysRes, jacobian, jacobianI)
      modifies this`linSysRes, this`jacobian, this`jacobianI
      ensures Valid()
      ensures WallProgress(res0, jac0, jacI0, g, m, vals, jacs, k + 1, linSysRes, jacobian, jacobianI)
    {
      var v := g.markers[m].vertices[k];
      assert ValidVertex(g, v);
      var p := v.node;
      if g.domain[p] {
        var nn := v.normalNeighbor;
        var area := Area(sqrt, v.normal);
        var dist := Distance(sqrt, g.coord[p], g.coord[nn]);
        assert WallDistance(g, sqrt, v) == dist;
        if implicit {
          assert -kappa / dist * area == jacs[k];
        } else {
          LastOwnedUniform(jacI0, g, m, jacs, k);
        }
        var dTdn := -(nodes[nn].solution - twall) / dist;
        var resVisc := kappa * dTdn * area;
        assert resVisc == vals[k];
        if implicit {
          jacobianI := -kappa / dist * area;
        }
        WallProgressStep(res0, jac0, jacI0, g, m, vals, jacs, k, linSysRes, jacobian, old(jacobianI));
        linSysRes := SubtractBlock(linSysRes, p, resVisc);
        jacobian := MatSub(jacobian, p, p, jacobianI);
      } else {
        WallProgressStep(res0, jac0, jacI0, g, m, vals, jacs, k, linSysRes, jacobian, jacobianI);
      }
    }

    /**
     * BC_HeatFlux_Wall on marker m: the configured flux, divided by the
     * heat-flux areas of the matching tags when it is an integrated flux,
     * made non-dimensional, times each owned vertex's area, is subtracted
     * from the residual. Nothing else changes.
     */
    method BCHeatFluxWall(g: Geometry, sqrt: real -> real, kind: SolverKind, integrated: bool, wallHeatFlux: string -> real,
                          hfTags: seq<string>, refs: HeatRefs, m: nat)
      requires Valid() && OnMesh(g) && m < |g.markers| && |surfaceAreas| == |hfTags| && HeatRefsDefined(IsFlow(kind), refs)
      requires integrated ==> forall h :: 0 <= h < |hfTags| && hfTags[h] == g.markers[m].tag ==> surfaceAreas[h] != 0.0
      modifies this`linSysRes
      ensures Valid()
      ensures var q := WallFluxSetting(wallHeatFlux(g.markers[m].tag), integrated, hfTags, surfaceAreas, g.markers[m].tag, IsFlow(kind), refs);
        linSysRes == WallResidualAfter(old(linSysRes), g, m, HeatFluxValues(g, sqrt, q, m), |g.markers[m].vertices|)
    {
      var q := WallFlux(wallHeatFlux(g.markers[m].tag), integrated, hfTags, surfaceAreas, g.markers[m].tag, IsFlow(kind), refs);
      HeatFluxVertices(g, sqrt, q, m);
    }

    /** The vertex loop of BCHeatFluxWall: Res_Visc = q Area subtracted at every owned vertex. */
    method HeatFluxVertices(g: Geometry, sqrt: real -> real, q: real, m: nat)
      requires Valid() && OnMesh(g) && m < |g.markers|
      modifies this`linSysRes
      ensures Valid()
      ensures linSysRes == WallResidualAfter(old(linSysRes), g, m, HeatFluxValues(g, sqrt, q, m), |g.markers[m].vertices|)
    {
      ghost var vals := HeatFluxValues(g, sqrt, q, m);
      for k := 0 to |g.markers[m].vertices|
        invariant Valid()
        invariant linSysRes == WallResidualAfter(old(linSysRes), g, m, vals, k)
      {
        linSysRes := HeatFluxVertex(g, sqrt, q, m, k, old(linSysRes), linSysRes);
      }
    }

    /**
     * BC_Inlet on marker m, stated by InletAfter. GetCharacPrimVar returns
     * the flow solver's own storage, which the inlet overwrites; written is
     * marker m's CharacPrimVar afterwards (InletCharac).
     */
    method BCInlet(g: Geometry, sqrt: real -> real, kind: SolverKind, flow: seq<FlowNode>, charac: (nat, nat) -> Vec,
                   numerics: ConvInput -> EdgeTerm, s: InletSettings, m: nat) returns (written: seq<Vec>)
      requires Valid() && OnMesh(g) && m < |g.markers| && DistancesNonZero(g, sqrt, m) && |flow| == nPoint && InletDefined(kind, s)
      modifies this`linSysRes, this`jacobian, this`jacobianI
      ensures Valid()
      ensures Assembly(linSysRes, jacobian, jacobianI)
           == InletAfter(Assembly(old(linSysRes), old(jacobian), old(jacobianI)), g, sqrt, Solutions(nodes), flow, charac,
                         numerics, kind, s, m, |g.markers[m].vertices|)
      ensures written == InletCharac(g, charac, kind, s, m)
    {
      written := [];
      ghost var w := InletCharac(g, charac, kind, s, m);
      for k := 0 to |g.markers[m].vertices|
        invariant Valid()
        invariant Assembly(linSysRes, jacobian, jacobianI)
               == InletAfter(Assembly(old(linSysRes), old(jacobian), old(jacobianI)), g, sqrt, Solutions(nodes), flow, charac,
                             numerics, kind, s, m, k)
        invariant |written| == k && forall j :: 0 <= j < k ==> written[j] == w[j]
      {
        var stored := InletVertex(g, sqrt, kind, flow, charac, numerics, s, m, k);
        written := written + [stored];
      }
    }

    /** Vertex k of BCInlet: InletStep on the current residual, Jacobian and Jacobian_i. */
    method InletVertex(g: Geometry, sqrt: real -> real, kind: SolverKind, flow: seq<FlowNode>, charac: (nat, nat) -> Vec,
                       numerics: ConvInput -> EdgeTerm, s: InletSettings, m: nat, k: nat) returns (stored: Vec)
      requires Valid() && OnMesh(g) && m < |g.markers| && k < |g.markers[m].vertices| && DistancesNonZero(g, sqrt, m)
      requires |flow| == nPoint && InletDefined(kind, s)
      modifies this`linSysRes, this`jacobian, this`jacobianI
      ensures Valid()
      ensures Assembly(linSysRes, jacobian, jacobianI)
           == InletStep(Assembly(old(linSysRes), old(jacobian), old(jacobianI)), g, sqrt, Solutions(nodes), flow, charac,
                        numerics, kind, s, m, k)
      ensures stored == InletCharac(g, charac, kind, s, m)[k]
    {
      var v := g.markers[m].vertices[k];
      assert ValidVertex(g, v);
      stored := charac(m, k);
      if g.domain[v.node] {
        stored := InletConvectiveVertex(g, kind, flow, charac, numerics, s, m, k);
        InletViscousVertex(g, sqrt, s, m, k);
      }
    }

    /** The convective part of InletVertex. */
    method InletConvectiveVertex(g: Geometry, kind: SolverKind, flow: seq<FlowNode>, charac: (nat, nat) -> Vec,
                                 numerics: ConvInput -> EdgeTerm, s: InletSettings, m: nat, k: nat) returns (stored: Vec)
      requires Valid() && OnMesh(g) && m < |g.markers| && k < |g.markers[m].vertices|
      requires |flow| == nPoint && InletDefined(kind, s)
      modifies this`linSysRes, this`jacobian, this`jacobianI
      ensures Valid()
      ensures Assembly(linSysRes, jacobian, jacobianI)
           == InletConvective(Assembly(old(linSysRes), old(jacobian), old(jacobianI)), g, Solutions(nodes), flow, charac,
                              numerics, kind, s, m, k)
      ensures stored == if IsFlow(kind) then InletState(charac(m, k), InletSpeed(s), s.flowDir, g.nDim) else charac(m, k)
    {
      stored := charac(m, k);
      var v := g.markers[m].vertices[k];
      assert ValidVertex(g, v);
      var p := v.node;
      /* the source negates its copy of the normal before either part */
      var normal := Negate(v.normal);
      if IsFlow(kind) {
        var velMag := s.ptotal / s.velocityRef;
        var vInlet := InletState(charac(m, k), velMag, s.flowDir, g.nDim);
        stored := vInlet;
        var t := numerics(ConvInput(normal, flow[p].primitive, vInlet, nodes[p].solution, s.ttotal / s.temperatureRef));
        linSysRes := AddBlock(linSysRes, p, t.residual);
        jacobianI := t.jacI;
        if s.implicit {
          jacobian := MatAdd(jacobian, p, p, jacobianI);
        }
      }
    }

    /** The viscous part of InletVertex. */
    method InletViscousVertex(g: Geometry, sqrt: real -> real, s: InletSettings, m: nat, k: nat)
      requires Valid() && OnMesh(g) && m < |g.markers| && k < |g.markers[m].vertices| && DistancesNonZero(g, sqrt, m)
      requires Owned(g, m, k) && (s.viscous ==> s.prandtlLam != 0.0)
      modifies this`linSysRes, this`jacobian, this`jacobianI
      ensures Valid()
      ensures Assembly(linSysRes, jacobian, jacobianI)
           == InletViscous(Assembly(old(linSysRes), old(jacobian), old(jacobianI)), g, sqrt, Solutions(nodes), s, m, k)
    {
      var v := g.markers[m].vertices[k];
      assert ValidVertex(g, v);
      var p := v.node;
      if s.viscous {
        var nn := v.normalNeighbor;
        var area := Area(sqrt, v.normal);
        var dist := Distance(sqrt, g.coord[p], g.coord[nn]);
        var dTdn := -(nodes[nn].solution - s.tFreeStreamND) / dist;
        var kappa := s.muConstantND / s.prandtlLam;
        var resVisc := kappa * dTdn * area;
        assert resVisc == IsothermalFlux(InletDiffusivity(s), s.tFreeStreamND, Solutions(nodes)[nn], WallDistance(g, sqrt, v), area);
        if s.implicit {
          jacobianI := -kappa / dist * area;
          assert jacobianI == IsothermalJacobian(InletDiffusivity(s), WallDistance(g, sqrt, v), area);
        }
        linSysRes := SubtractBlock(linSysRes, p, resVisc);
        jacobian := MatSub(jacobian, p, p, jacobianI);
      }
    }

    /**
     * BC_Outlet on marker m, stated by OutletAfter; written is marker m's
     * CharacPrimVar after the outlet overwrites it in place (OutletCharac).
     */
    method BCOutlet(g: Geometry, kind: SolverKind, implicit: bool, flow: seq<FlowNode>, charac: (nat, nat) -> Vec,
                    numerics: ConvInput -> EdgeTerm, m: nat) returns (written: seq<Vec>)
      requires Valid() && OnMesh(g) && m < |g.markers| && |flow| == nPoint
      modifies this`linSysRes, this`jacobian, this`jacobianI
      ensures Valid()
      ensures Assembly(linSysRes, jacobian, jacobianI)
           == OutletAfter(Assembly(old(linSysRes), old(jacobian), old(jacobianI)), g, Solutions(nodes), flow, charac,
                          numerics, kind, implicit, m, |g.markers[m].vertices|)
      ensures written == OutletCharac(g, flow, charac, kind, m)
    {
      written := [];
      ghost var w := OutletCharac(g, flow, charac, kind, m);
      for k := 0 to |g.markers[m].vertices|
        invariant Valid()
        invariant Assembly(linSysRes, jacobian, jacobianI)
               == OutletAfter(Assembly(old(linSysRes), old(jacobian), old(jacobianI)), g, Solutions(nodes), flow, charac,
                              numerics, kind, implicit, m, k)
        invariant |written| == k && forall j :: 0 <= j < k ==> written[j] == w[j]
      {
        var stored := OutletVertex(g, kind, implicit, flow, charac, numerics, m, k);
        written := written + [stored];
      }
    }

    /** Vertex k of BCOutlet: OutletStep on the current residual, Jacobian and Jacobian_i. */
    method OutletVertex(g: Geometry, kind: SolverKind, implicit: bool, flow: seq<FlowNode>, charac: (nat, nat) -> Vec,
                        numerics: ConvInput -> EdgeTerm, m: nat, k: nat) returns (stored: Vec)
      requires Valid() && OnMesh(g) && m < |g.markers| && k < |g.markers[m].vertices| && |flow| == nPoint
      modifies this`linSysRes, this`jacobian, this`jacobianI
      ensures Valid()
      ensures Assembly(linSysRes, jacobian, jacobianI)
           == OutletStep(Assembly(old(linSysRes), old(jacobian), old(jacobianI)), g, Solutions(nodes), flow, charac,
                         numerics, kind, implicit, m, k)
      ensures stored == OutletCharac(g, flow, charac, kind, m)[k]
    {
      var v := g.markers[m].vertices[k];
      assert ValidVertex(g, v);
      var p := v.node;
      stored := charac(m, k);
      if g.domain[p] && kind != HeatEquation {
        var nn := v.normalNeighbor;
        var normal := Negate(v.normal);
        var vOutlet := OutletState(charac(m, k), flow[nn].primitive, g.nDim);
        stored := vOutlet;
        var t := numerics(ConvInput(normal, flow[p].primitive, vOutlet, nodes[p].solution, nodes[nn].solution));
        assert ConvInput(normal, flow[p].primitive, vOutlet, nodes[p].solution, nodes[nn].solution)
            == OutletInput(g, Solutions(nodes), flow, charac, m, k);
        linSysRes := AddBlock(linSysRes, p, t.residual);
        jacobianI := t.jacI;
        if implicit {
          jacobian := MatAdd(jacobian, p, p, jacobianI);
        }
      }
    }

    /**
     * BC_ConjugateHeat_Interface. val_marker is not read: next to a flow or
     * in a solid the condition walks every CHT_WALL_INTERFACE marker. Next
     * to a flow it imposes the conjugate temperature (ChtFlowAfter); in a
     * solid it subtracts the conjugate heat flux (ChtSolidAfter) with
     * rho_s cp_s = densitySolid cpSolid.
     */
    method BCConjugateHeatInterface(g: Geometry, sqrt: real -> real, kind: SolverKind, implicit: bool,
                                    conj: (nat, nat, nat) -> real, tref: real, densitySolid: real, cpSolid: real,
                                    valMarker: nat)
      requires Valid() && OnMesh(g) && tref != 0.0
      requires !IsFlow(kind) ==> densitySolid * cpSolid != 0.0
      modifies this`nodes, this`linSysRes, this`jacobian, this`jacobianI
      ensures Valid() && OnMesh(g)
      ensures IsFlow(kind) ==>
        && ChtState(linSysRes, jacobian, nodes)
           == ChtFlowAfter(ChtState(old(linSysRes), old(jacobian), old(nodes)), g, conj, tref, implicit, |g.markers|)
        && jacobianI == old(jacobianI)
      ensures !IsFlow(kind) ==>
        && nodes == old(nodes)
        && Assembly(linSysRes, jacobian, jacobianI)
           == ChtSolidAfter(Assembly(old(linSysRes), old(jacobian), old(jacobianI)), g, sqrt, Solutions(old(nodes)), conj,
                            tref, densitySolid * cpSolid, implicit, |g.markers|)
    {
      if IsFlow(kind) {
        ChtFlowSide(g, conj, tref, implicit);
      } else {
        var rhoCpSolid := densitySolid * cpSolid;
        ChtSolidSide(g, sqrt, conj, tref, rhoCpSolid, implicit);
      }
    }

    /** The flow branch of BC_ConjugateHeat_Interface. */
    method ChtFlowSide(g: Geometry, conj: (nat, nat, nat) -> real, tref: real, implicit: bool)
      requires Valid() && OnMesh(g) && tref != 0.0
      modifies this`nodes, this`linSysRes, this`jacobian
      ensures Valid() && OnMesh(g)
      ensures ChtState(linSysRes, jacobian, nodes)
           == ChtFlowAfter(ChtState(old(linSysRes), old(jacobian), old(nodes)), g, conj, tref, implicit, |g.markers|)
    {
      ghost var start := ChtState(linSysRes, jacobian, nodes);
      for m := 0 to |g.markers|
        invariant Valid() && OnMesh(g)
        invariant ChtState(linSysRes, jacobian, nodes) == ChtFlowAfter(start, g, conj, tref, implicit, m)
      {
        if g.markers[m].kind == ChtInterface {
          ghost var prev := ChtState(linSysRes, jacobian, nodes);
          for k := 0 to |g.markers[m].vertices|
            invariant Valid() && OnMesh(g)
            invariant ChtState(linSysRes, jacobian, nodes) == ChtFlowMarker(prev, g, conj, tref, implicit, m, k)
          {
            ChtFlowVertex(g, conj, tref, implicit, m, k);
          }
        }
      }
    }

    /** Vertex k of marker m, next to a flow. */
    method ChtFlowVertex(g: Geometry, conj: (nat, nat, nat) -> real, tref: real, implicit: bool, m: nat, k: nat)
      requires Valid() && OnMesh(g) && tref != 0.0 && m < |g.markers| && k < |g.markers[m].vertices|
      modifies this`nodes, this`linSysRes, this`jacobian
      ensures Valid() && OnMesh(g)
      ensures ChtState(linSysRes, jacobian, nodes)
           == ChtFlowStep(ChtState(old(linSysRes), old(jacobian), old(nodes)), g, conj, tref, implicit, m, k)
    {
      var v := g.markers[m].vertices[k];
      assert ValidVertex(g, v);
      var p := v.node;
      if g.domain[p] {
        var tConjugate := conj(m, k, 0) / tref;
        nodes := nodes[p := nodes[p].(solutionOld := tConjugate)];
        linSysRes := SetBlock(linSysRes, p, 0.0);
        nodes := nodes[p := nodes[p].(resTruncError := 0.0)];
        if implicit {
          jacobian := DeleteValsRowi(jacobian, p);
        }
      }
    }

    /** The solid branch of BC_ConjugateHeat_Interface. */
    method ChtSolidSide(g: Geometry, sqrt: real -> real, conj: (nat, nat, nat) -> real, tref: real, rhoCpSolid: real, implicit: bool)
      requires Valid() && OnMesh(g) && tref != 0.0 && rhoCpSolid != 0.0
      modifies this`linSysRes, this`jacobian, this`jacobianI
      ensures Valid()
      ensures Assembly(linSysRes, jacobian, jacobianI)
           == ChtSolidAfter(Assembly(old(linSysRes), old(jacobian), old(jacobianI)), g, sqrt, Solutions(nodes), conj,
                            tref, rhoCpSolid, implicit, |g.markers|)
    {
      ghost var start := Assembly(linSysRes, jacobian, jacobianI);
      for m := 0 to |g.markers|
        invariant Valid()
        invariant Assembly(linSysRes, jacobian, jacobianI)
               == ChtSolidAfter(start, g, sqrt, Solutions(nodes), conj, tref, rhoCpSolid, implicit, m)
      {
        if g.markers[m].kind == ChtInterface {
          ChtSolidMarkerPass(g, sqrt, conj, tref, rhoCpSolid, implicit, m);
        }
      }
    }

    /** One CHT marker in a solid. */
    method ChtSolidMarkerPass(g: Geometry, sqrt: real -> real, conj: (nat, nat, nat) -> real, tref: real, rhoCpSolid: real,
                              implicit: bool, m: nat)
      requires Valid() && OnMesh(g) && tref != 0.0 && rhoCpSolid != 0.0 && m < |g.markers|
      modifies this`linSysRes, this`jacobian, this`jacobianI
      ensures Valid()
      ensures Assembly(linSysRes, jacobian, jacobianI)
           == ChtSolidMarker(Assembly(old(linSysRes), old(jacobian), old(jacobianI)), g, sqrt, Solutions(nodes), conj,
                             tref, rhoCpSolid, implicit, m)
    {
      ghost var vals := ChtSolidFluxes(g, sqrt, Solutions(nodes), conj, tref, rhoCpSolid, m);
      ghost var jacs := ChtSolidJacobians(g, sqrt, conj, rhoCpSolid, m);
      ghost var a0 := Assembly(linSysRes, jacobian, jacobianI);
      for k := 0 to |g.markers[m].vertices|
        invariant Valid()
        invariant SolidProgress(a0, g, m, vals, jacs, implicit, k, Assembly(linSysRes, jacobian, jacobianI))
      {
        ChtSolidVertex(g, sqrt, conj, tref, rhoCpSolid, implicit, m, k, vals, jacs, a0);
      }
    }

    /** Vertex k of a CHT marker in a solid. */
    method ChtSolidVertex(g: Geometry, sqrt: real -> real, conj: (nat, nat, nat) -> real, tref: real, rhoCpSolid: real,
                          implicit: bool, m: nat, k: nat, ghost vals: seq<real>, ghost jacs: seq<real>, ghost a0: Assembly)
      requires Valid() && OnMesh(g) && tref != 0.0 && rhoCpSolid != 0.0 && m < |g.markers| && k < |g.markers[m].vertices|
      requires vals == ChtSolidFluxes(g, sqrt, Solutions(nodes), conj, tref, rhoCpSolid, m)
      requires jacs == ChtSolidJacobians(g, sqrt, conj, rhoCpSolid, m)
      requires |a0.res| == nPoint && SolidProgress(a0, g, m, vals, jacs, implicit, k, Assembly(linSysRes, jacobian, jacobianI))
      modifies this`linSysRes, this`jacobian, this`jacobianI
      ensures Valid()
      ensures SolidProgress(a0, g, m, vals, jacs, implicit, k + 1, Assembly(linSysRes, jacobian, jacobianI))
    {
      var v := g.markers[m].vertices[k];
      assert ValidVertex(g, v);
      var p := v.node;
      SolidProgressStep(a0, g, m, vals, jacs, implicit, k, Assembly(linSysRes, jacobian, jacobianI));
      if g.domain[p] {
        var area := Area(sqrt, v.normal);
        var tInterface := nodes[p].solution;
        var tNormalConjugate := conj(m, k, 3) / tref;
        var conductance := conj(m, k, 2) / rhoCpSolid;
        assert Areas(g, sqrt, m)[k] == area && ChtConductances(g, conj, rhoCpSolid, m)[k] == conductance;
        assert conductance * area == jacs[k];
        var heatFluxDensity := conductance * (tInterface - tNormalConjugate);
        var heatFluxValue := heatFluxDensity * area;
        assert -heatFluxValue == vals[k];
        linSysRes := SubtractBlock(linSysRes, p, -heatFluxValue);
        if implicit {
          jacobianI := conductance * area;
          jacobian := MatSub(jacobian, p, p, jacobianI);
        }
      }
    }

    // -------------------------------------------------------------------
    // Heat-flux areas and reported heat fluxes
    // -------------------------------------------------------------------

    /**
     * Set_Heatflux_Areas: Surface_Areas and Total_HeatFlux_Areas_Monitor as
     * HeatFluxAreas tallies them, and Total_HeatFlux_Areas their sum.
     */
    method SetHeatfluxAreas(g: Geometry, sqrt: real -> real, hfTags: seq<string>)
      requires HeatMesh.Valid(g)
      modifies this`surfaceAreas, this`totalHeatFluxAreas, this`totalHeatFluxAreasMonitor
      ensures surfaceAreas == HeatFluxAreas(g, sqrt, hfTags).areas
      ensures totalHeatFluxAreasMonitor == HeatFluxAreas(g, sqrt, hfTags).monitor
      ensures totalHeatFluxAreas == Sum(surfaceAreas)
    {
      ghost var start := AreaTally(seq(|hfTags|, h => 0.0), 0.0);
      var localAreas := seq(|hfTags|, h => 0.0);
      var localMonitor := 0.0;
      for m := 0 to |g.markers|
        invariant AreaTally(localAreas, localMonitor) == AreaTallyAfter(start, g, sqrt, hfTags, m)
      {
        ghost var prev := AreaTally(localAreas, localMonitor);
        for h := 0 to |hfTags|
          invariant AreaTally(localAreas, localMonitor) == AreaTallyMarker(prev, g, sqrt, hfTags, m, h)
        {
          if g.markers[m].tag == hfTags[h] {
            localAreas, localMonitor := MarkerAreaInto(g, sqrt, m, localAreas, localMonitor, h);
          }
        }
      }
      surfaceAreas := localAreas;
      totalHeatFluxAreasMonitor := localMonitor;
      var total := 0.0;
      for h := 0 to |hfTags|
        invariant total == SumTo(localAreas, h)
      {
        total := total + localAreas[h];
      }
      totalHeatFluxAreas := total;
    }

    /**
     * Heat_Fluxes: Heat_Flux and AvgTemperature per marker, their monitored
     * sums, Total_HeatFlux, and Total_AvgTemperature as the monitored
     * weighted temperature over the monitored heat-flux area (0 when that
     * area is 0). The conductivity is the dimensional one of Conductivity.
     */
    method HeatFluxes(g: Geometry, sqrt: real -> real, kind: SolverKind, settings: FluxSettings,
                      isothermalTemp: string -> real, tref: real)
      requires Valid() && OnMesh(g) && tref != 0.0 && FluxDistancesNonZero(g, sqrt)
      requires IsFlow(kind) ==> settings.prandtlLam != 0.0
      requires |heatFlux| == |g.markers| && |avgTemperature| == |g.markers|
      modifies this`heatFlux, this`avgTemperature, this`allBoundHeatFlux, this`allBoundAvgTemperature,
               this`totalHeatFlux, this`totalAvgTemperature
      ensures heatFlux == MarkerHeatFluxes(g, sqrt, Solutions(nodes), Conductivity(IsFlow(kind), settings), tref, isothermalTemp)
      ensures avgTemperature == AvgTemperatures(g, sqrt, Solutions(nodes), tref)
      ensures allBoundHeatFlux == MonitoredSum(g, heatFlux, |g.markers|)
      ensures allBoundAvgTemperature == MonitoredSum(g, avgTemperature, |g.markers|)
      ensures totalAvgTemperature == TotalAvgTemperature(allBoundAvgTemperature, totalHeatFluxAreasMonitor)
      ensures totalHeatFlux == allBoundHeatFlux
    {
      var sol := Solutions(nodes);
      var kc := Conductivity(IsFlow(kind), settings);
      var markerFlux, markerAvg, allFlux, allAvg := AllMarkerFluxes(g, sqrt, sol, kc, tref, isothermalTemp,
                                                                    heatFlux, avgTemperature);
      heatFlux, avgTemperature := markerFlux, markerAvg;
      allBoundHeatFlux, allBoundAvgTemperature := allFlux, allAvg;
      if totalHeatFluxAreasMonitor != 0.0 {
        totalAvgTemperature := allBoundAvgTemperature / totalHeatFluxAreasMonitor;
      } else {
        totalAvgTemperature := 0.0;
      }
      totalHeatFlux := allBoundHeatFlux;
    }

    /**
     * SetTime_Step: the spectral radii from the interior edges and the
     * boundary vertices, each owned point's local time step, and the
     * adjustments for time stepping and dual time. The returned value is
     * the physical time step Delta_UnstTimeND the configuration holds
     * afterwards; globalStart is the value Global_Delta_Time starts from.
     */
    method SetTimeStep(g: Geometry, sqrt: real -> real, kind: SolverKind, flow: seq<FlowNode>, c: TimeConfig,
                       iteration: nat, iMesh: nat, globalStart: real) returns (unstTimeND: real)
      requires Valid() && OnMesh(g) && |flow| == nPoint
      requires IsFlow(kind) ==> c.prandtlLam != 0.0 && c.prandtlTurb != 0.0 && FlowTimeDefined(g, flow)
      requires RadiiDefined(g, SpectralRadii(RadiiOf(nodes), g, sqrt, flow, IsFlow(kind), c), IsFlow(kind))
      requires RecomputesUnsteadyStep(c, iteration, iMesh) ==> c.cfl != 0.0
      modifies this`nodes, this`minDeltaTime, this`maxDeltaTime
      ensures Valid() && OnMesh(g)
      ensures var r := SpectralRadii(RadiiOf(old(nodes)), g, sqrt, flow, IsFlow(kind), c);
        var x := ExtremesAfter(Extremes(MIN_DELTA_TIME_START, 0.0, globalStart), g, r, flow, IsFlow(kind), c, nPointDomain);
        && minDeltaTime == x.minDt && maxDeltaTime == x.maxDt
        && unstTimeND == UnsteadyTimeStep(c, iteration, iMesh, x.globalDt)
        && nodes == TimeStepNodes(old(nodes), r, FinalDeltaTimes(g, r, flow, IsFlow(kind), c, x.globalDt, unstTimeND))
    {
      var r, x, dts;
      r, x, dts, unstTimeND := TimeStepPass(g, sqrt, IsFlow(kind), flow, c, iteration, iMesh, globalStart, RadiiOf(nodes));
      minDeltaTime := x.minDt;
      maxDeltaTime := x.maxDt;
      NodesShapedKept(nodes, TimeStepNodes(nodes, r, dts), g.nDim);
      nodes := TimeStepNodes(nodes, r, dts);
    }

    /**
     * ExplicitEuler_Iteration: every owned point moves by -Res dt/Vol with
     * Res = LinSysRes + Res_TruncError, and Res_RMS and Res_Max collect Res.
     */
    method ExplicitEulerIteration(g: Geometry, adjoint: bool)
      requires Valid() && OnMesh(g) && VolumesNonZero(g)
      modifies this`nodes, this`resRMS, this`resMax
      ensures Valid() && OnMesh(g)
      ensures nodes == ExplicitNodes(g, linSysRes, old(nodes), adjoint)
      ensures resRMS == ExplicitNorms(g, linSysRes, old(nodes), adjoint).rms
      ensures resMax == ExplicitNorms(g, linSysRes, old(nodes), adjoint).max
    {
      var ns, norms := ExplicitPass(g, linSysRes, nodes, adjoint);
      NodesShapedKept(nodes, ns, g.nDim);
      nodes := ns;
      resRMS := norms.rms;
      resMax := norms.max;
    }

    /**
     * ImplicitEuler_Iteration: the system (J + Vol/dt) x = -Res is built,
     * handed to the linear solver, and the owned points add x.
     */
    method ImplicitEulerIteration(g: Geometry, solve: (Matrix, Vector) -> Vector)
      requires Valid() && OnMesh(g)
      requires forall m: Matrix, b: Vector :: |solve(m, b)| == |b|
      modifies this`nodes, this`linSysRes, this`linSysSol, this`jacobian, this`resRMS, this`resMax
      ensures Valid() && OnMesh(g)
      ensures jacobian == ImplicitJacobian(old(jacobian), g, old(nodes), nPointDomain)
      ensures linSysRes == ImplicitRhsAll(g, old(linSysRes), old(nodes))
      ensures linSysSol == solve(jacobian, linSysRes)
      ensures nodes == SolutionAdded(g, TruncationFrozen(g, old(nodes)), linSysSol)
      ensures resRMS == NormsOf(linSysRes, nPointDomain).rms && resMax == NormsOf(linSysRes, nPointDomain).max
    {
      ImplicitEulerBuild(g);
      linSysSol := solve(jacobian, linSysRes);
      ImplicitEulerUpdate(g);
    }

    /** The build of the implicit system: diagonal, right-hand side, zero initial guess, norms. */
    method ImplicitEulerBuild(g: Geometry)
      requires Valid() && OnMesh(g)
      modifies this`nodes, this`linSysRes, this`linSysSol, this`jacobian, this`resRMS, this`resMax
      ensures Valid() && OnMesh(g)
      ensures jacobian == ImplicitJacobian(old(jacobian), g, old(nodes), nPointDomain)
      ensures linSysRes == ImplicitRhsAll(g, old(linSysRes), old(nodes))
      ensures forall p :: 0 <= p < nPoint ==> linSysSol[p] == 0.0
      ensures nodes == TruncationFrozen(g, old(nodes))
      ensures resRMS == NormsOf(linSysRes, nPointDomain).rms && resMax == NormsOf(linSysRes, nPointDomain).max
    {
      var res, sol, jac, ns, norms := ImplicitBuildPass(g, linSysRes, linSysSol, jacobian, nodes);
      NodesShapedKept(nodes, ns, g.nDim);
      linSysRes, linSysSol, jacobian, nodes := res, sol, jac, ns;
      resRMS := norms.rms;
      resMax := norms.max;
    }

    /** The update after the solve: each owned point adds its increment. */
    method ImplicitEulerUpdate(g: Geometry)
      requires Valid() && OnMesh(g)
      modifies this`nodes
      ensures Valid() && OnMesh(g)
      ensures nodes == SolutionAdded(g, old(nodes), linSysSol)
    {
      var ns := nodes;
      for p := 0 to nPointDomain
        invariant |ns| == nPoint
        invariant forall q :: 0 <= q < nPoint ==>
          ns[q] == if q < p then nodes[q].(solution := nodes[q].solution + linSysSol[q]) else nodes[q]
      {
        ns := ns[p := ns[p].(solution := ns[p].solution + linSysSol[p])];
      }
      NodesShapedKept(nodes, ns, g.nDim);
      nodes := ns;
    }

    /**
     * SetResidual_DualTime on a static mesh: each owned point adds the
     * dual-time source term to its residual and, for an implicit scheme,
     * its derivative to the diagonal (through the member Jacobian_i).
     * With grid movement nothing is added.
     */
    method SetResidualDualTime(g: Geometry, scheme: DualScheme, timeStep: real, implicit: bool, gridMovement: bool)
      requires Valid() && OnMesh(g) && (!gridMovement ==> timeStep != 0.0)
      modifies this`linSysRes, this`jacobian, this`jacobianI
      ensures Valid() && OnMesh(g)
      ensures gridMovement ==> linSysRes == old(linSysRes) && jacobian == old(jacobian) && jacobianI == old(jacobianI)
      ensures !gridMovement ==>
        && linSysRes == DualTimeResidualAfter(old(linSysRes), g, nodes, scheme, timeStep, nPointDomain)
        && jacobian == (if implicit then DualTimeJacobianAfter(old(jacobian), g, scheme, timeStep, nPointDomain) else old(jacobian))
        && jacobianI == (if implicit && nPointDomain > 0 then DualTimeJacobian(scheme, g.volume[nPointDomain - 1], timeStep)
                         else old(jacobianI))
    {
      if !gridMovement {
        var res, jac, jacI := linSysRes, jacobian, jacobianI;
        for p := 0 to nPointDomain
          invariant res == DualTimeResidualAfter(linSysRes, g, nodes, scheme, timeStep, p)
          invariant jac == if implicit then DualTimeJacobianAfter(jacobian, g, scheme, timeStep, p) else jacobian
          invariant jacI == if implicit && p > 0 then DualTimeJacobian(scheme, g.volume[p - 1], timeStep) else jacobianI
        {
          var un1, un, unm1 := nodes[p].solution, nodes[p].solutionTimeN, nodes[p].solutionTimeN1;
          var vol := g.volume[p];
          var residual := match scheme
            case FirstOrder => (un1 - un) * vol / timeStep
            case SecondOrder => (3.0 * un1 - 4.0 * un + 1.0 * unm1) * vol / (2.0 * timeStep);
          assert residual == DualTimeResidual(scheme, un1, un, unm1, vol, timeStep);
          res := AddBlock(res, p, residual);
          if implicit {
            jacI := match scheme
              case FirstOrder => vol / timeStep
              case SecondOrder => (vol * 3.0) / (2.0 * timeStep);
            jac := MatAdd(jac, p, p, jacI);
          }
        }
        linSysRes, jacobian, jacobianI := res, jac, jacI;
      }
    }

    /**
     * The restriction of SetInitialCondition and LoadRestart on a coarse
     * level: each point's solution becomes the volume-weighted sum of its
     * fine children's solutions over its own volume.
     */
    method RestrictSolution(g: Geometry, fineSol: seq<real>, fineVol: seq<real>, children: seq<seq<nat>>)
      requires Valid() && OnMesh(g) && |fineSol| == |fineVol| && ChildrenValid(children, g.volume, |fineSol|)
      requires |children| == nPoint
      modifies this`nodes
      ensures Valid() && OnMesh(g)
      ensures nodes == RestrictedNodes(old(nodes), fineSol, fineVol, children, g.volume)
    {
      var ns := nodes;
      for p := 0 to nPoint
        invariant |ns| == nPoint
        invariant forall q :: 0 <= q < nPoint ==>
          ns[q] == if q < p then RestrictedNodes(nodes, fineSol, fineVol, children, g.volume)[q] else nodes[q]
      {
        var parentVol := g.volume[p];
        var solution := 0.0;
        for k := 0 to |children[p]|
          invariant solution == RestrictedTo(fineSol, fineVol, children[p], parentVol, k)
        {
          var fine := children[p][k];
          solution := solution + fineSol[fine] * fineVol[fine] / parentVol;
        }
        ns := ns[p := ns[p].(solution := solution)];
      }
      NodesShapedKept(nodes, ns, g.nDim);
      nodes := ns;
    }

    /**
     * The push-back of the initial condition: Set_Solution_time_n at every
     * point, then Set_Solution_time_n1 when both levels are pushed (second
     * order, or SetInitialCondition).
     */
    method PushBackTimeLevels(g: Geometry, both: bool)
      requires Valid() && OnMesh(g)
      modifies this`nodes
      ensures Valid() && OnMesh(g)
      ensures nodes == PushBackAll(old(nodes), both)
    {
      var ns := nodes;
      for p := 0 to nPoint
        invariant |ns| == nPoint
        invariant forall q :: 0 <= q < nPoint ==> ns[q] == if q < p then PushBack(nodes[q], both) else nodes[q]
      {
        ns := ns[p := ns[p].(solutionTimeN := ns[p].solution)];
        if both {
          ns := ns[p := ns[p].(solutionTimeN1 := ns[p].solutionTimeN)];
        }
      }
      NodesShapedKept(nodes, ns, g.nDim);
      nodes := ns;
    }
  }
}
