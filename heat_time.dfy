/**
 * Time integration of the finite-volume heat solver: the local time step
 * (SetTime_Step), the explicit and implicit Euler updates, the dual-time
 * source term, and the multigrid restriction and time-level push-back of
 * the initial condition. Each is stated here as a function of the solver's
 * state; the solver's methods are proved against these.
 */
module HeatTimeIntegration {
  import opened IncNumericsBase
  import opened HeatLinearSystem
  import opened HeatMesh
  import opened HeatState

  // ---------------------------------------------------------------------
  // SetTime_Step
  // ---------------------------------------------------------------------

  /** Kind_TimeStep_Heat. */
  datatype TimeStepRule = MinimumRule | ConvectiveRule | ViscousRule | ByFlowRule

  /** Unsteady_Simulation, as far as the heat solver distinguishes it. */
  datatype Unsteady = Steady | TimeStepping | DualTime1st | DualTime2nd | OtherUnsteady

  predicate IsDualTime(u: Unsteady) { u == DualTime1st || u == DualTime2nd }

  /** What SetTime_Step reads from the configuration. */
  datatype TimeConfig = TimeConfig(
    cfl: real,
    maxDeltaTime: real,
    cflReduction: real,
    rule: TimeStepRule,
    muConstantND: real,
    prandtlLam: real,
    prandtlTurb: real,
    diffusivitySolid: real,
    unsteady: Unsteady,
    implicit: bool,
    unstCfl: real,
    deltaUnstTimeND: real)

  /** K_v, the viscous time-step factor. */
  const K_V: real := 0.25
  /** The value Min_Delta_Time starts from. */
  const MIN_DELTA_TIME_START: real := 1000000.0

  /** std::min: the second argument only when it is strictly smaller. */
  function Min(a: real, b: real): real { if b < a then b else a }

  /** The per-point spectral radii Max_Lambda_Inv and Max_Lambda_Visc. */
  datatype Radii = Radii(inv: seq<real>, visc: seq<real>)

  predicate RadiiShaped(r: Radii, n: nat) { |r.inv| == n && |r.visc| == n }

  /** The flow state the time step divides by is defined: mean densities are non-zero. */
  predicate FlowTimeDefined(g: Geometry, flow: seq<FlowNode>)
    requires Valid(g) && |flow| == NPoint(g)
  {
    && (forall p :: 0 <= p < |flow| ==> |flow[p].velocity| == g.nDim)
    && (forall k :: 0 <= k < |g.edges| ==> flow[g.edges[k].i].density + flow[g.edges[k].j].density != 0.0)
    && (forall m, k :: 0 <= m < |g.markers| && 0 <= k < |g.markers[m].vertices| ==>
          flow[g.markers[m].vertices[k].node].density != 0.0)
  }

  /** The facts the radii of edge k need. */
  lemma FlowDefinedAtEdge(g: Geometry, flow: seq<FlowNode>, flowCase: bool, k: nat)
    requires Valid(g) && |flow| == NPoint(g) && (flowCase ==> FlowTimeDefined(g, flow)) && k < |g.edges|
    ensures var e := g.edges[k];
      ValidEdge(g, e) && (flowCase ==> |flow[e.i].velocity| == g.nDim && |flow[e.j].velocity| == g.nDim
                                       && flow[e.i].density + flow[e.j].density != 0.0)
  {
    assert ValidEdge(g, g.edges[k]);
  }

  /** The facts the radii of vertex k of marker m need. */
  lemma FlowDefinedAtVertex(g: Geometry, flow: seq<FlowNode>, flowCase: bool, m: nat, k: nat)
    requires Valid(g) && |flow| == NPoint(g) && (flowCase ==> FlowTimeDefined(g, flow))
    requires m < |g.markers| && k < |g.markers[m].vertices|
    ensures var v := g.markers[m].vertices[k];
      ValidVertex(g, v) && (flowCase ==> |flow[v.node].velocity| == g.nDim && flow[v.node].density != 0.0)
  {
    assert ValidVertex(g, g.markers[m].vertices[k]);
  }

  /** |u_n| + sqrt(u_n^2 + (beta^2/rho) Area^2) of the mean state on a face. */
  function ConvectiveRadius(sqrt: real -> real, projVel: real, beta2: real, density: real, area: real): real
    requires density != 0.0
  {
    Abs(projVel) + sqrt(projVel * projVel + (beta2 / density) * area * area)
  }

  /** The diffusivity the viscous radius uses: mu/Pr_lam + mu_t(i)/Pr_turb next to a flow, the solid's otherwise. */
  function RadiusDiffusivity(flowCase: bool, c: TimeConfig, eddy: real): real
    requires flowCase ==> c.prandtlLam != 0.0 && c.prandtlTurb != 0.0
  {
    if flowCase then c.muConstantND / c.prandtlLam + eddy / c.prandtlTurb else c.diffusivitySolid
  }

  /** Add x at point p when p is owned by this rank. */
  function AddOwned(v: seq<real>, g: Geometry, p: nat, x: real): (r: seq<real>)
    requires Valid(g) && |v| == NPoint(g) && p < NPoint(g)
    ensures |r| == |v|
  {
    if g.domain[p] then AddBlock(v, p, x) else v
  }

  /** The convective radius of an interior edge, from the mean of its two ends' states. */
  function EdgeConvectiveRadius(g: Geometry, sqrt: real -> real, flow: seq<FlowNode>, e: Edge): real
    requires Valid(g) && ValidEdge(g, e) && |flow| == NPoint(g)
    requires |flow[e.i].velocity| == g.nDim && |flow[e.j].velocity| == g.nDim && flow[e.i].density + flow[e.j].density != 0.0
  {
    ConvectiveRadius(sqrt, 0.5 * (Dot(flow[e.i].velocity, e.normal) + Dot(flow[e.j].velocity, e.normal)),
                     0.5 * (flow[e.i].betaInc2 + flow[e.j].betaInc2),
                     0.5 * (flow[e.i].density + flow[e.j].density), Area(sqrt, e.normal))
  }

  /** The viscous radius of a face: diffusivity times Area^2. */
  function ViscousRadius(d: real, area: real): real { d * area * area }

  /** One interior edge: both owned ends gain the edge's radii (the viscous one uses the eddy viscosity at i). */
  function EdgeRadii(r: Radii, g: Geometry, sqrt: real -> real, flow: seq<FlowNode>, flowCase: bool, c: TimeConfig, e: Edge): (r': Radii)
    requires Valid(g) && ValidEdge(g, e) && |flow| == NPoint(g) && RadiiShaped(r, NPoint(g))
    requires flowCase ==> c.prandtlLam != 0.0 && c.prandtlTurb != 0.0
    requires flowCase ==> |flow[e.i].velocity| == g.nDim && |flow[e.j].velocity| == g.nDim
                          && flow[e.i].density + flow[e.j].density != 0.0
    ensures RadiiShaped(r', NPoint(g))
  {
    var inv :=
      if flowCase then
        var lambda := EdgeConvectiveRadius(g, sqrt, flow, e);
        AddOwned(AddOwned(r.inv, g, e.i, lambda), g, e.j, lambda)
      else r.inv;
    var lambdaVisc := ViscousRadius(RadiusDiffusivity(flowCase, c, flow[e.i].eddyViscosity), Area(sqrt, e.normal));
    Radii(inv, AddOwned(AddOwned(r.visc, g, e.i, lambdaVisc), g, e.j, lambdaVisc))
  }

  /** One boundary vertex: its owned point gains the face's radii from its own state. */
  function VertexRadii(r: Radii, g: Geometry, sqrt: real -> real, flow: seq<FlowNode>, flowCase: bool, c: TimeConfig, v: Vertex): (r': Radii)
    requires Valid(g) && ValidVertex(g, v) && |flow| == NPoint(g) && RadiiShaped(r, NPoint(g))
    requires flowCase ==> c.prandtlLam != 0.0 && c.prandtlTurb != 0.0
    requires flowCase ==> |flow[v.node].velocity| == g.nDim && flow[v.node].density != 0.0
    ensures RadiiShaped(r', NPoint(g))
  {
    var p := v.node;
    var area := Area(sqrt, v.normal);
    var inv :=
      if flowCase then
        AddOwned(r.inv, g, p, ConvectiveRadius(sqrt, Dot(flow[p].velocity, v.normal), flow[p].betaInc2, flow[p].density, area))
      else r.inv;
    Radii(inv, AddOwned(r.visc, g, p, ViscousRadius(RadiusDiffusivity(flowCase, c, flow[p].eddyViscosity), area)))
  }

  /** The radii after the first k interior edges. */
  function EdgeRadiiAfter(r: Radii, g: Geometry, sqrt: real -> real, flow: seq<FlowNode>, flowCase: bool, c: TimeConfig, k: nat): (r': Radii)
    requires Valid(g) && k <= |g.edges| && |flow| == NPoint(g) && RadiiShaped(r, NPoint(g))
    requires flowCase ==> c.prandtlLam != 0.0 && c.prandtlTurb != 0.0 && FlowTimeDefined(g, flow)
    ensures RadiiShaped(r', NPoint(g))
  {
    if k == 0 then r
    else EdgeRadii(EdgeRadiiAfter(r, g, sqrt, flow, flowCase, c, k - 1), g, sqrt, flow, flowCase, c, g.edges[k - 1])
  }

  lemma EdgeRadiiAfterNext(r: Radii, g: Geometry, sqrt: real -> real, flow: seq<FlowNode>, flowCase: bool, c: TimeConfig, k: nat)
    requires Valid(g) && k < |g.edges| && |flow| == NPoint(g) && RadiiShaped(r, NPoint(g))
    requires flowCase ==> c.prandtlLam != 0.0 && c.prandtlTurb != 0.0 && FlowTimeDefined(g, flow)
    ensures ValidEdge(g, g.edges[k])
    ensures EdgeRadiiAfter(r, g, sqrt, flow, flowCase, c, k + 1)
         == EdgeRadii(EdgeRadiiAfter(r, g, sqrt, flow, flowCase, c, k), g, sqrt, flow, flowCase, c, g.edges[k])
  {
    assert ValidEdge(g, g.edges[k]);
  }

  /** The radii after the first k vertices of marker m. */
  function MarkerRadiiAfter(r: Radii, g: Geometry, sqrt: real -> real, flow: seq<FlowNode>, flowCase: bool, c: TimeConfig,
                            m: nat, k: nat): (r': Radii)
    requires Valid(g) && m < |g.markers| && k <= |g.markers[m].vertices| && |flow| == NPoint(g) && RadiiShaped(r, NPoint(g))
    requires flowCase ==> c.prandtlLam != 0.0 && c.prandtlTurb != 0.0 && FlowTimeDefined(g, flow)
    ensures RadiiShaped(r', NPoint(g))
  {
    if k == 0 then r
    else VertexRadii(MarkerRadiiAfter(r, g, sqrt, flow, flowCase, c, m, k - 1), g, sqrt, flow, flowCase, c, g.markers[m].vertices[k - 1])
  }

  lemma MarkerRadiiAfterNext(r: Radii, g: Geometry, sqrt: real -> real, flow: seq<FlowNode>, flowCase: bool, c: TimeConfig,
                             m: nat, k: nat)
    requires Valid(g) && m < |g.markers| && k < |g.markers[m].vertices| && |flow| == NPoint(g) && RadiiShaped(r, NPoint(g))
    requires flowCase ==> c.prandtlLam != 0.0 && c.prandtlTurb != 0.0 && FlowTimeDefined(g, flow)
    ensures ValidVertex(g, g.markers[m].vertices[k])
    ensures MarkerRadiiAfter(r, g, sqrt, flow, flowCase, c, m, k + 1)
         == VertexRadii(MarkerRadiiAfter(r, g, sqrt, flow, flowCase, c, m, k), g, sqrt, flow, flowCase, c, g.markers[m].vertices[k])
  {
    assert ValidVertex(g, g.markers[m].vertices[k]);
  }

  /** The radii after every vertex of the first mm markers. */
  function BoundaryRadiiAfter(r: Radii, g: Geometry, sqrt: real -> real, flow: seq<FlowNode>, flowCase: bool, c: TimeConfig,
                              mm: nat): (r': Radii)
    requires Valid(g) && mm <= |g.markers| && |flow| == NPoint(g) && RadiiShaped(r, NPoint(g))
    requires flowCase ==> c.prandtlLam != 0.0 && c.prandtlTurb != 0.0 && FlowTimeDefined(g, flow)
    ensures RadiiShaped(r', NPoint(g))
  {
    if mm == 0 then r
    else
      var prev := BoundaryRadiiAfter(r, g, sqrt, flow, flowCase, c, mm - 1);
      MarkerRadiiAfter(prev, g, sqrt, flow, flowCase, c, mm - 1, |g.markers[mm - 1].vertices|)
  }

  /** The radii reset to zero on the owned points below nPointDomain; the others keep theirs. */
  function ResetRadii(r: Radii, nPointDomain: nat): (r': Radii)
    ensures |r'.inv| == |r.inv| && |r'.visc| == |r.visc|
  {
    Radii(seq(|r.inv|, p requires 0 <= p < |r.inv| => if p < nPointDomain then 0.0 else r.inv[p]),
          seq(|r.visc|, p requires 0 <= p < |r.visc| => if p < nPointDomain then 0.0 else r.visc[p]))
  }

  /** The spectral radii SetTime_Step leaves: reset, then every interior edge, then every boundary vertex. */
  function SpectralRadii(r: Radii, g: Geometry, sqrt: real -> real, flow: seq<FlowNode>, flowCase: bool, c: TimeConfig): (r': Radii)
    requires Valid(g) && |flow| == NPoint(g) && RadiiShaped(r, NPoint(g))
    requires flowCase ==> c.prandtlLam != 0.0 && c.prandtlTurb != 0.0 && FlowTimeDefined(g, flow)
    ensures RadiiShaped(r', NPoint(g))
  {
    var reset := ResetRadii(r, g.nPointDomain);
    BoundaryRadiiAfter(EdgeRadiiAfter(reset, g, sqrt, flow, flowCase, c, |g.edges|), g, sqrt, flow, flowCase, c, |g.markers|)
  }

  /** The radii the time step divides by are non-zero at every owned point with a volume. */
  predicate RadiiDefined(g: Geometry, r: Radii, flowCase: bool)
    requires Valid(g) && RadiiShaped(r, NPoint(g))
  {
    forall p :: 0 <= p < g.nPointDomain && g.volume[p] != 0.0 ==> r.visc[p] != 0.0 && (flowCase ==> r.inv[p] != 0.0)
  }

  /** Local_Delta_Time before clamping, as Kind_TimeStep_Heat selects it. */
  function SelectedDeltaTime(c: TimeConfig, flowCase: bool, vol: real, lambdaInv: real, lambdaVisc: real, flowDt: real): real
    requires lambdaVisc != 0.0 && (flowCase ==> lambdaInv != 0.0)
  {
    var dtInv := if flowCase then c.cfl * vol / lambdaInv else c.maxDeltaTime;
    var dtVisc := c.cfl * K_V * vol * vol / lambdaVisc;
    match c.rule
    case MinimumRule => Min(dtInv, dtVisc)
    case ConvectiveRule => dtInv
    case ViscousRule => dtVisc
    case ByFlowRule => flowDt
  }

  /** Local_Delta_Time at owned point p; 0 stands for a point without volume, which records nothing. */
  function LocalDeltaTime(g: Geometry, r: Radii, flow: seq<FlowNode>, flowCase: bool, c: TimeConfig, p: nat): real
    requires Valid(g) && RadiiShaped(r, NPoint(g)) && |flow| == NPoint(g) && RadiiDefined(g, r, flowCase) && p < g.nPointDomain
    requires g.volume[p] != 0.0
  {
    SelectedDeltaTime(c, flowCase, g.volume[p], r.inv[p], r.visc[p], flow[p].deltaTime)
  }

  /** Delta_Time at owned point p after the point loop: the clamped, CFL-reduced local step, or 0 without volume. */
  function PointDeltaTime(g: Geometry, r: Radii, flow: seq<FlowNode>, flowCase: bool, c: TimeConfig, p: nat): real
    requires Valid(g) && RadiiShaped(r, NPoint(g)) && |flow| == NPoint(g) && RadiiDefined(g, r, flowCase) && p < g.nPointDomain
  {
    if g.volume[p] == 0.0 then 0.0
    else
      var dt := LocalDeltaTime(g, r, flow, flowCase, c, p);
      c.cflReduction * (if dt > c.maxDeltaTime then c.maxDeltaTime else dt)
  }

  /** Min_Delta_Time, Max_Delta_Time and Global_Delta_Time after the first k owned points. */
  datatype Extremes = Extremes(minDt: real, maxDt: real, globalDt: real)

  function ExtremesAfter(e: Extremes, g: Geometry, r: Radii, flow: seq<FlowNode>, flowCase: bool, c: TimeConfig, k: nat): Extremes
    requires Valid(g) && RadiiShaped(r, NPoint(g)) && |flow| == NPoint(g) && RadiiDefined(g, r, flowCase) && k <= g.nPointDomain
  {
    if k == 0 then e
    else ExtremesStep(ExtremesAfter(e, g, r, flow, flowCase, c, k - 1), g, r, flow, flowCase, c, k - 1)
  }

  /** Owned point p folded into the running extremes; a point without volume is skipped. */
  function ExtremesStep(x: Extremes, g: Geometry, r: Radii, flow: seq<FlowNode>, flowCase: bool, c: TimeConfig, p: nat): Extremes
    requires Valid(g) && RadiiShaped(r, NPoint(g)) && |flow| == NPoint(g) && RadiiDefined(g, r, flowCase) && p < g.nPointDomain
  {
    if g.volume[p] == 0.0 then x
    else
      var dt := LocalDeltaTime(g, r, flow, flowCase, c, p);
      Extremes(Min(x.minDt, dt), Max(x.maxDt, dt), Min(x.globalDt, dt))
  }

  /**
   * Delta_UnstTimeND after SetTime_Step: recomputed as Unst_CFL
   * Global_Delta_Time / CFL on the first iteration of a dual-time run on
   * the finest mesh with a non-zero unsteady CFL, kept otherwise.
   */
  function UnsteadyTimeStep(c: TimeConfig, iteration: nat, iMesh: nat, globalDt: real): real
    requires RecomputesUnsteadyStep(c, iteration, iMesh) ==> c.cfl != 0.0
  {
    if RecomputesUnsteadyStep(c, iteration, iMesh) then UnsteadyStepOf(c, globalDt)
    else c.deltaUnstTimeND
  }

  /** Unst_CFL Global_Delta_Time / CFL: the physical step scaled from the smallest local step. */
  function UnsteadyStepOf(c: TimeConfig, globalDt: real): real
    requires c.cfl != 0.0
  {
    c.unstCfl * globalDt / c.cfl
  }

  predicate RecomputesUnsteadyStep(c: TimeConfig, iteration: nat, iMesh: nat) {
    IsDualTime(c.unsteady) && iteration == 0 && c.unstCfl != 0.0 && iMesh == 0
  }

  /**
   * Delta_Time at owned point p at the end of SetTime_Step: the point's
   * step, replaced by Global_Delta_Time under time stepping, and capped at
   * 2/3 of the physical step in an explicit dual-time run.
   */
  function FinalDeltaTime(g: Geometry, r: Radii, flow: seq<FlowNode>, flowCase: bool, c: TimeConfig,
                          globalDt: real, unstTimeND: real, p: nat): real
    requires Valid(g) && RadiiShaped(r, NPoint(g)) && |flow| == NPoint(g) && RadiiDefined(g, r, flowCase) && p < g.nPointDomain
  {
    var dt := if c.unsteady == TimeStepping then globalDt else PointDeltaTime(g, r, flow, flowCase, c, p);
    if IsDualTime(c.unsteady) && !c.implicit then Min((2.0 / 3.0) * unstTimeND, dt) else dt
  }

  /** Delta_Time of every owned point after the point loop. */
  function PointDeltaTimes(g: Geometry, r: Radii, flow: seq<FlowNode>, flowCase: bool, c: TimeConfig): (dts: seq<real>)
    requires Valid(g) && RadiiShaped(r, NPoint(g)) && |flow| == NPoint(g) && RadiiDefined(g, r, flowCase)
    ensures |dts| == g.nPointDomain
  {
    seq(g.nPointDomain, p requires 0 <= p < g.nPointDomain => PointDeltaTime(g, r, flow, flowCase, c, p))
  }

  /** Delta_Time of every owned point at the end of SetTime_Step. */
  function FinalDeltaTimes(g: Geometry, r: Radii, flow: seq<FlowNode>, flowCase: bool, c: TimeConfig,
                           globalDt: real, unstTimeND: real): (dts: seq<real>)
    requires Valid(g) && RadiiShaped(r, NPoint(g)) && |flow| == NPoint(g) && RadiiDefined(g, r, flowCase)
    ensures |dts| == g.nPointDomain
  {
    seq(g.nPointDomain, p requires 0 <= p < g.nPointDomain => FinalDeltaTime(g, r, flow, flowCase, c, globalDt, unstTimeND, p))
  }

  /** The spectral radii stored in the nodes. */
  function RadiiOf(nodes: seq<HeatNode>): (r: Radii)
    ensures RadiiShaped(r, |nodes|)
  {
    Radii(seq(|nodes|, p requires 0 <= p < |nodes| => nodes[p].maxLambdaInv),
          seq(|nodes|, p requires 0 <= p < |nodes| => nodes[p].maxLambdaVisc))
  }

  /** The nodes with the radii r and, at the first |dts| points, the time steps dts; nothing else changes. */
  function TimeStepNodes(nodes: seq<HeatNode>, r: Radii, dts: seq<real>): (ns: seq<HeatNode>)
    requires RadiiShaped(r, |nodes|) && |dts| <= |nodes|
    ensures |ns| == |nodes| && RadiiOf(ns) == r
  {
    seq(|nodes|, p requires 0 <= p < |nodes| =>
      nodes[p].(maxLambdaInv := r.inv[p], maxLambdaVisc := r.visc[p],
                deltaTime := if p < |dts| then dts[p] else nodes[p].deltaTime))
  }

  /** A point with volume gets the CFL-reduced step clamped to Max_DeltaTime; a point without gets 0. */
  lemma PointDeltaTimeClamped(g: Geometry, r: Radii, flow: seq<FlowNode>, flowCase: bool, c: TimeConfig, p: nat)
    requires Valid(g) && RadiiShaped(r, NPoint(g)) && |flow| == NPoint(g) && RadiiDefined(g, r, flowCase) && p < g.nPointDomain
    requires c.cflReduction >= 0.0
    ensures g.volume[p] == 0.0 ==> PointDeltaTime(g, r, flow, flowCase, c, p) == 0.0
    ensures g.volume[p] != 0.0 ==>
      PointDeltaTime(g, r, flow, flowCase, c, p) <= c.cflReduction * c.maxDeltaTime
      && (LocalDeltaTime(g, r, flow, flowCase, c, p) <= c.maxDeltaTime ==>
            PointDeltaTime(g, r, flow, flowCase, c, p) == c.cflReduction * LocalDeltaTime(g, r, flow, flowCase, c, p))
  {
    if g.volume[p] != 0.0 {
      var dt := LocalDeltaTime(g, r, flow, flowCase, c, p);
      var clamped := if dt > c.maxDeltaTime then c.maxDeltaTime else dt;
      assert clamped <= c.maxDeltaTime;
      MulMonotone(c.cflReduction, clamped, c.maxDeltaTime);
    }
  }

  lemma MulMonotone(a: real, x: real, y: real)
    requires a >= 0.0 && x <= y
    ensures a * x <= a * y
  {
    assert a * y - a * x == a * (y - x);
    assert a * (y - x) >= 0.0 by {
      if a > 0.0 && y - x > 0.0 { MulPositive(a, y - x); }
    }
  }

  /**
   * Min_Delta_Time and Max_Delta_Time bound the local step of every owned
   * point with a volume seen so far, before clamping, and the minimum never
   * exceeds its start value nor the maximum falls below its own.
   */
  lemma {:induction false} ExtremesBound(e: Extremes, g: Geometry, r: Radii, flow: seq<FlowNode>, flowCase: bool, c: TimeConfig,
                                         k: nat, p: nat)
    requires Valid(g) && RadiiShaped(r, NPoint(g)) && |flow| == NPoint(g) && RadiiDefined(g, r, flowCase) && k <= g.nPointDomain
    ensures ExtremesAfter(e, g, r, flow, flowCase, c, k).minDt <= e.minDt
    ensures ExtremesAfter(e, g, r, flow, flowCase, c, k).maxDt >= e.maxDt
    ensures ExtremesAfter(e, g, r, flow, flowCase, c, k).globalDt <= e.globalDt
    ensures p < k && g.volume[p] != 0.0 ==>
      var x := ExtremesAfter(e, g, r, flow, flowCase, c, k);
      x.minDt <= LocalDeltaTime(g, r, flow, flowCase, c, p) <= x.maxDt && x.globalDt <= LocalDeltaTime(g, r, flow, flowCase, c, p)
  {
    if k > 0 {
      ExtremesBound(e, g, r, flow, flowCase, c, k - 1, p);
    }
  }

  /**
   * The step an owned point keeps at the end of SetTime_Step. In an
   * explicit dual-time run it is its local step, cut to 2/3 of the
   * physical step when larger, so it never exceeds that cap. In a time-stepping
   * run every point takes the global minimum. Otherwise it is the local step.
   */
  lemma ExplicitDualTimeCap(g: Geometry, r: Radii, flow: seq<FlowNode>, flowCase: bool, c: TimeConfig,
                            globalDt: real, unstTimeND: real, p: nat)
    requires Valid(g) && RadiiShaped(r, NPoint(g)) && |flow| == NPoint(g) && RadiiDefined(g, r, flowCase) && p < g.nPointDomain
    ensures var dt := FinalDeltaTime(g, r, flow, flowCase, c, globalDt, unstTimeND, p);
            var local := PointDeltaTime(g, r, flow, flowCase, c, p);
            var cap := (2.0 / 3.0) * unstTimeND;
            if IsDualTime(c.unsteady) && !c.implicit then
              dt <= cap && dt <= local && (dt == cap || dt == local) && (local <= cap ==> dt == local)
            else if c.unsteady == TimeStepping then dt == globalDt
            else dt == local
  {
  }

  /** Adding a non-negative amount at an owned point never lowers any entry. */
  lemma AddOwnedGrows(v: seq<real>, g: Geometry, p: nat, x: real, q: nat)
    requires Valid(g) && |v| == NPoint(g) && p < NPoint(g) && q < NPoint(g) && x >= 0.0
    ensures AddOwned(v, g, p, x)[q] >= v[q]
  {
  }

  lemma ConvectiveRadiusNonNeg(g: Geometry, sqrt: real -> real, flow: seq<FlowNode>, e: Edge)
    requires Valid(g) && ValidEdge(g, e) && |flow| == NPoint(g)
    requires |flow[e.i].velocity| == g.nDim && |flow[e.j].velocity| == g.nDim && flow[e.i].density + flow[e.j].density != 0.0
    requires forall x :: sqrt(x) >= 0.0
    ensures EdgeConvectiveRadius(g, sqrt, flow, e) >= 0.0
  {
  }

  /** One interior edge never lowers a radius. */
  lemma EdgeRadiiStepGrows(r: Radii, g: Geometry, sqrt: real -> real, flow: seq<FlowNode>, flowCase: bool, c: TimeConfig,
                           e: Edge, p: nat)
    requires Valid(g) && ValidEdge(g, e) && |flow| == NPoint(g) && RadiiShaped(r, NPoint(g)) && p < NPoint(g)
    requires flowCase ==> c.prandtlLam != 0.0 && c.prandtlTurb != 0.0
    requires flowCase ==> |flow[e.i].velocity| == g.nDim && |flow[e.j].velocity| == g.nDim
                          && flow[e.i].density + flow[e.j].density != 0.0
    requires forall x :: sqrt(x) >= 0.0
    requires RadiusDiffusivity(flowCase, c, flow[e.i].eddyViscosity) >= 0.0
    ensures EdgeRadii(r, g, sqrt, flow, flowCase, c, e).inv[p] >= r.inv[p]
    ensures EdgeRadii(r, g, sqrt, flow, flowCase, c, e).visc[p] >= r.visc[p]
  {
    var lv := ViscousRadius(RadiusDiffusivity(flowCase, c, flow[e.i].eddyViscosity), Area(sqrt, e.normal));
    ViscousRadiusNonNegative(RadiusDiffusivity(flowCase, c, flow[e.i].eddyViscosity), Area(sqrt, e.normal));
    AddOwnedGrows(r.visc, g, e.i, lv, p);
    AddOwnedGrows(AddOwned(r.visc, g, e.i, lv), g, e.j, lv, p);
    if flowCase {
      var lambda := EdgeConvectiveRadius(g, sqrt, flow, e);
      ConvectiveRadiusNonNeg(g, sqrt, flow, e);
      AddOwnedGrows(r.inv, g, e.i, lambda, p);
      AddOwnedGrows(AddOwned(r.inv, g, e.i, lambda), g, e.j, lambda, p);
    }
  }

  /** With a non-negative sqrt and diffusivity, both radii only grow along a pass of interior edges. */
  lemma {:induction false} EdgeRadiiGrow(r: Radii, g: Geometry, sqrt: real -> real, flow: seq<FlowNode>, flowCase: bool,
                                         c: TimeConfig, k: nat, p: nat)
    requires Valid(g) && k <= |g.edges| && |flow| == NPoint(g) && RadiiShaped(r, NPoint(g)) && p < NPoint(g)
    requires flowCase ==> c.prandtlLam != 0.0 && c.prandtlTurb != 0.0 && FlowTimeDefined(g, flow)
    requires forall x :: sqrt(x) >= 0.0
    requires forall q :: 0 <= q < NPoint(g) ==> RadiusDiffusivity(flowCase, c, flow[q].eddyViscosity) >= 0.0
    ensures EdgeRadiiAfter(r, g, sqrt, flow, flowCase, c, k).inv[p] >= r.inv[p]
    ensures EdgeRadiiAfter(r, g, sqrt, flow, flowCase, c, k).visc[p] >= r.visc[p]
  {
    if k > 0 {
      EdgeRadiiGrow(r, g, sqrt, flow, flowCase, c, k - 1, p);
      var e := g.edges[k - 1];
      assert ValidEdge(g, e);
      EdgeRadiiStepGrows(EdgeRadiiAfter(r, g, sqrt, flow, flowCase, c, k - 1), g, sqrt, flow, flowCase, c, e, p);
    }
  }

  lemma ViscousRadiusNonNegative(d: real, area: real)
    requires d >= 0.0
    ensures ViscousRadius(d, area) >= 0.0
  {
    SquareNonNeg(area);
    assert d * area * area == d * Sq(area);
    assert d * Sq(area) >= 0.0 by {
      if d > 0.0 && Sq(area) > 0.0 { MulPositive(d, Sq(area)); }
    }
  }

  // ---------------------------------------------------------------------
  // ExplicitEuler_Iteration and ImplicitEuler_Iteration
  // ---------------------------------------------------------------------

  /** Res_RMS (before SetResidual_RMS) and Res_Max of the single variable. */
  datatype ResidualNorms = ResidualNorms(rms: real, max: real)

  /** AddRes_RMS(x^2) and AddRes_Max(|x|). */
  function AddNorms(n: ResidualNorms, x: real): ResidualNorms {
    ResidualNorms(n.rms + Sq(x), if Abs(x) > n.max then Abs(x) else n.max)
  }

  /** The norms of the first k values of vals, from zero. */
  function NormsOf(vals: seq<real>, k: nat): ResidualNorms
    requires k <= |vals|
  {
    if k == 0 then ResidualNorms(0.0, 0.0) else AddNorms(NormsOf(vals, k - 1), vals[k - 1])
  }

  /** Res = LinSysRes + Res_TruncError at each of the first n points. */
  function ExplicitResiduals(res: Vector, nodes: seq<HeatNode>, n: nat): (r: seq<real>)
    requires n <= |res| && n <= |nodes|
    ensures |r| == n
  {
    seq(n, p requires 0 <= p < n => res[p] + nodes[p].resTruncError)
  }

  /** The volumes the explicit update divides by are non-zero at the owned points. */
  predicate VolumesNonZero(g: Geometry) requires Valid(g) {
    forall p :: 0 <= p < g.nPointDomain ==> g.volume[p] != 0.0
  }

  /**
   * ExplicitEuler_Iteration: each owned point's solution moves by
   * -Res Delta_Time/Vol, unless the run is a continuous adjoint; the other
   * points keep theirs.
   */
  function ExplicitSolution(g: Geometry, res: Vector, nodes: seq<HeatNode>, adjoint: bool, p: nat): real
    requires Valid(g) && VolumesNonZero(g) && |res| == NPoint(g) && |nodes| == NPoint(g) && p < NPoint(g)
  {
    if p < g.nPointDomain && !adjoint then
      nodes[p].solution + -(res[p] + nodes[p].resTruncError) * (nodes[p].deltaTime / g.volume[p])
    else nodes[p].solution
  }

  /** The nodes after ExplicitEuler_Iteration: only the solution changes. */
  function ExplicitNodes(g: Geometry, res: Vector, nodes: seq<HeatNode>, adjoint: bool): (ns: seq<HeatNode>)
    requires Valid(g) && VolumesNonZero(g) && |res| == NPoint(g) && |nodes| == NPoint(g)
    ensures |ns| == |nodes|
  {
    seq(|nodes|, p requires 0 <= p < |nodes| => nodes[p].(solution := ExplicitSolution(g, res, nodes, adjoint, p)))
  }

  /** Res_RMS and Res_Max after ExplicitEuler_Iteration: zero for a continuous adjoint, the norms of Res otherwise. */
  function ExplicitNorms(g: Geometry, res: Vector, nodes: seq<HeatNode>, adjoint: bool): ResidualNorms
    requires Valid(g) && |res| == NPoint(g) && |nodes| == NPoint(g)
  {
    if adjoint then ResidualNorms(0.0, 0.0)
    else NormsOf(ExplicitResiduals(res, nodes, g.nPointDomain), g.nPointDomain)
  }

  /** Norms of a list of values are zero exactly when every value is zero. */
  lemma {:induction false} NormsZeroIffAllZero(vals: seq<real>, k: nat)
    requires k <= |vals|
    ensures NormsOf(vals, k).rms >= 0.0 && NormsOf(vals, k).max >= 0.0
    ensures NormsOf(vals, k).rms == 0.0 <==> forall i :: 0 <= i < k ==> vals[i] == 0.0
    ensures NormsOf(vals, k).max == 0.0 <==> forall i :: 0 <= i < k ==> vals[i] == 0.0
  {
    if k > 0 {
      NormsZeroIffAllZero(vals, k - 1);
      SquareNonNeg(vals[k - 1]);
    }
  }

  /** Res_Max bounds every value seen. */
  lemma {:induction false} NormsMaxBounds(vals: seq<real>, k: nat, i: nat)
    requires i < k <= |vals|
    ensures Abs(vals[i]) <= NormsOf(vals, k).max
  {
    if i < k - 1 {
      NormsMaxBounds(vals, k - 1, i);
    }
  }

  /** A point whose residual and truncation error cancel is a fixed point of the explicit update. */
  lemma ExplicitFixedPoint(g: Geometry, res: Vector, nodes: seq<HeatNode>, adjoint: bool, p: nat)
    requires Valid(g) && VolumesNonZero(g) && |res| == NPoint(g) && |nodes| == NPoint(g) && p < NPoint(g)
    requires res[p] + nodes[p].resTruncError == 0.0
    ensures ExplicitSolution(g, res, nodes, adjoint, p) == nodes[p].solution
  {
  }

  /** The Jacobian after the build of the first k owned points. */
  function ImplicitJacobian(jac: Matrix, g: Geometry, nodes: seq<HeatNode>, k: nat): Matrix
    requires Valid(g) && |nodes| == NPoint(g) && k <= g.nPointDomain
  {
    if k == 0 then jac
    else
      var p := k - 1;
      if nodes[p].deltaTime != 0.0 then MatAdd(ImplicitJacobian(jac, g, nodes, p), p, p, g.volume[p] / nodes[p].deltaTime)
      else SetVal2Diag(ImplicitJacobian(jac, g, nodes, p), p, 1.0)
  }

  /** The right-hand side at point p after the build: owned points as ImplicitBuild says, halo points 0. */
  function ImplicitRhs(g: Geometry, res: Vector, nodes: seq<HeatNode>, p: nat): real
    requires Valid(g) && |res| == NPoint(g) && |nodes| == NPoint(g) && p < NPoint(g)
  {
    if p < g.nPointDomain && nodes[p].deltaTime != 0.0 then -(res[p] + nodes[p].resTruncError) else 0.0
  }

  /** The right-hand sides of all points. */
  function ImplicitRhsAll(g: Geometry, res: Vector, nodes: seq<HeatNode>): (r: Vector)
    requires Valid(g) && |res| == NPoint(g) && |nodes| == NPoint(g)
    ensures |r| == NPoint(g)
  {
    seq(NPoint(g), p requires 0 <= p < NPoint(g) => ImplicitRhs(g, res, nodes, p))
  }

  /** Row p after the build: the diagonal Vol/dt larger than before, or the identity entry 1 without a time step. */
  lemma {:induction false} ImplicitDiagonal(jac: Matrix, g: Geometry, nodes: seq<HeatNode>, k: nat, p: nat, b: nat)
    requires Valid(g) && |nodes| == NPoint(g) && k <= g.nPointDomain
    ensures Get(ImplicitJacobian(jac, g, nodes, k), p, b) ==
      if p != b || p >= k then Get(jac, p, b)
      else if nodes[p].deltaTime != 0.0 then Get(jac, p, p) + g.volume[p] / nodes[p].deltaTime
      else 1.0
  {
    if k > 0 {
      ImplicitDiagonal(jac, g, nodes, k - 1, p, b);
    }
  }

  /**
   * Where the time step is non-zero the implicit right-hand side is the
   * explicit residual negated: both updates are driven by the same Res.
   */
  lemma ImplicitRhsIsExplicitResidual(g: Geometry, res: Vector, nodes: seq<HeatNode>, p: nat)
    requires Valid(g) && |res| == NPoint(g) && |nodes| == NPoint(g) && p < g.nPointDomain && nodes[p].deltaTime != 0.0
    ensures ImplicitRhs(g, res, nodes, p) == -ExplicitResiduals(res, nodes, g.nPointDomain)[p]
  {
  }

  /** The solution update after the linear solve: owned points add LinSysSol, halo points keep theirs. */
  function ImplicitSolution(g: Geometry, nodes: seq<HeatNode>, sol: Vector, p: nat): real
    requires Valid(g) && |nodes| == NPoint(g) && |sol| == NPoint(g) && p < NPoint(g)
  {
    if p < g.nPointDomain then nodes[p].solution + sol[p] else nodes[p].solution
  }

  /** The nodes after the build: an owned point without a time step loses its truncation error. */
  function TruncationFrozen(g: Geometry, nodes: seq<HeatNode>): (ns: seq<HeatNode>)
    requires Valid(g) && |nodes| == NPoint(g)
    ensures |ns| == |nodes|
  {
    seq(|nodes|, p requires 0 <= p < |nodes| =>
      if p < g.nPointDomain && nodes[p].deltaTime == 0.0 then nodes[p].(resTruncError := 0.0) else nodes[p])
  }

  /** The nodes after the solve: owned points add the increment. */
  function SolutionAdded(g: Geometry, nodes: seq<HeatNode>, sol: Vector): (ns: seq<HeatNode>)
    requires Valid(g) && |nodes| == NPoint(g) && |sol| == NPoint(g)
    ensures |ns| == |nodes|
  {
    seq(|nodes|, p requires 0 <= p < |nodes| => nodes[p].(solution := ImplicitSolution(g, nodes, sol, p)))
  }

  /** A point without a time step is frozen: its row of the system reads 1 x = 0, so it gets no increment. */
  lemma FrozenPointStaysPut(jac: Matrix, g: Geometry, res: Vector, nodes: seq<HeatNode>, p: nat)
    requires Valid(g) && |res| == NPoint(g) && |nodes| == NPoint(g) && p < g.nPointDomain && nodes[p].deltaTime == 0.0
    ensures ImplicitRhs(g, res, nodes, p) == 0.0
    ensures Get(ImplicitJacobian(jac, g, nodes, g.nPointDomain), p, p) == 1.0
  {
    ImplicitDiagonal(jac, g, nodes, g.nPointDomain, p, p);
  }

  // ---------------------------------------------------------------------
  // SetResidual_DualTime
  // ---------------------------------------------------------------------

  /** The dual time-stepping scheme (DT_STEPPING_1ST or DT_STEPPING_2ND). */
  datatype DualScheme = FirstOrder | SecondOrder

  /** A change of the solution per unit time, times the volume. */
  function PerStep(change: real, vol: real, t: real): real
    requires t != 0.0
  {
    change * vol / t
  }

  /** (U^{n+1} - U^n) V/dt, or (3U^{n+1} - 4U^n + U^{n-1}) V/(2 dt). */
  function DualTimeResidual(s: DualScheme, un1: real, un: real, unm1: real, vol: real, dt: real): real
    requires dt != 0.0
  {
    match s
    case FirstOrder => PerStep(un1 - un, vol, dt)
    case SecondOrder => PerStep(3.0 * un1 - 4.0 * un + 1.0 * unm1, vol, 2.0 * dt)
  }

  /** V/dt, or 3V/(2 dt). */
  function DualTimeJacobian(s: DualScheme, vol: real, dt: real): real
    requires dt != 0.0
  {
    match s
    case FirstOrder => vol / dt
    case SecondOrder => (vol * 3.0) / (2.0 * dt)
  }

  /**
   * The Jacobian entry is the derivative of the source term in U^{n+1}:
   * moving U^{n+1} by d moves the residual by J d, and the term vanishes
   * when the three time levels agree.
   */
  lemma DualTimeJacobianIsSlope(s: DualScheme, un1: real, un: real, unm1: real, vol: real, dt: real, d: real)
    requires dt != 0.0
    ensures DualTimeResidual(s, un1 + d, un, unm1, vol, dt) - DualTimeResidual(s, un1, un, unm1, vol, dt)
         == DualTimeJacobian(s, vol, dt) * d
    ensures un1 == un == unm1 ==> DualTimeResidual(s, un1, un, unm1, vol, dt) == 0.0
  {
    match s
    case FirstOrder =>
      PerStepSlope(un1 + d - un, un1 - un, d, vol, dt);
      PerStepScale(d, vol, dt, 1.0);
    case SecondOrder =>
      PerStepSlope(3.0 * (un1 + d) - 4.0 * un + 1.0 * unm1, 3.0 * un1 - 4.0 * un + 1.0 * unm1, 3.0 * d, vol, 2.0 * dt);
      PerStepScale(d, vol, 2.0 * dt, 3.0);
  }

  /** PerStep is linear in the change, and zero for no change. */
  lemma PerStepSlope(a: real, b: real, diff: real, vol: real, t: real)
    requires t != 0.0 && a - b == diff
    ensures PerStep(a, vol, t) - PerStep(b, vol, t) == PerStep(diff, vol, t)
    ensures PerStep(0.0, vol, t) == 0.0
  {
    assert a * vol - b * vol == diff * vol;
  }

  /** PerStep(f d, V, t) is (V f)/t times d. */
  lemma PerStepScale(d: real, vol: real, t: real, f: real)
    requires t != 0.0
    ensures PerStep(f * d, vol, t) == (vol * f) / t * d
    ensures f == 1.0 ==> PerStep(d, vol, t) == vol / t * d
  {
    assert (f * d) * vol == (vol * f) * d;
  }

  /** The residual after the source term of the first k owned points. */
  function DualTimeResidualAfter(res: Vector, g: Geometry, nodes: seq<HeatNode>, s: DualScheme, dt: real, k: nat): (r: Vector)
    requires Valid(g) && |res| == NPoint(g) && |nodes| == NPoint(g) && k <= g.nPointDomain && dt != 0.0
    ensures |r| == |res|
  {
    if k == 0 then res
    else
      var p := k - 1;
      AddBlock(DualTimeResidualAfter(res, g, nodes, s, dt, p), p,
               DualTimeResidual(s, nodes[p].solution, nodes[p].solutionTimeN, nodes[p].solutionTimeN1, g.volume[p], dt))
  }

  /** The Jacobian after the source term of the first k owned points. */
  function DualTimeJacobianAfter(jac: Matrix, g: Geometry, s: DualScheme, dt: real, k: nat): Matrix
    requires Valid(g) && k <= g.nPointDomain && dt != 0.0
  {
    if k == 0 then jac
    else MatAdd(DualTimeJacobianAfter(jac, g, s, dt, k - 1), k - 1, k - 1, DualTimeJacobian(s, g.volume[k - 1], dt))
  }

  /** Each owned point gains exactly its own source term; halo points are untouched. */
  lemma {:induction false} DualTimeResidualAt(res: Vector, g: Geometry, nodes: seq<HeatNode>, s: DualScheme, dt: real, k: nat, p: nat)
    requires Valid(g) && |res| == NPoint(g) && |nodes| == NPoint(g) && k <= g.nPointDomain && dt != 0.0 && p < NPoint(g)
    ensures DualTimeResidualAfter(res, g, nodes, s, dt, k)[p] ==
      if p < k then res[p] + DualTimeResidual(s, nodes[p].solution, nodes[p].solutionTimeN, nodes[p].solutionTimeN1, g.volume[p], dt)
      else res[p]
  {
    if k > 0 {
      DualTimeResidualAt(res, g, nodes, s, dt, k - 1, p);
    }
  }

  // ---------------------------------------------------------------------
  // Multigrid restriction and time-level push-back
  // ---------------------------------------------------------------------

  /** The volume-weighted sum of the first k children's solutions over the parent's volume. */
  function RestrictedTo(fineSol: seq<real>, fineVol: seq<real>, children: seq<nat>, parentVol: real, k: nat): real
    requires k <= |children| && (|children| > 0 ==> parentVol != 0.0)
    requires forall c :: 0 <= c < |children| ==> children[c] < |fineSol| && children[c] < |fineVol|
  {
    if k == 0 then 0.0
    else
      var f := children[k - 1];
      RestrictedTo(fineSol, fineVol, children, parentVol, k - 1) + fineSol[f] * fineVol[f] / parentVol
  }

  /** The children's volumes. */
  function ChildVolume(fineVol: seq<real>, children: seq<nat>, k: nat): real
    requires k <= |children| && forall c :: 0 <= c < |children| ==> children[c] < |fineVol|
  {
    if k == 0 then 0.0 else ChildVolume(fineVol, children, k - 1) + fineVol[children[k - 1]]
  }

  /**
   * Restriction reproduces a uniform field: children all at T give
   * T times their volume share of the parent, hence T itself when the
   * children tile the parent.
   */
  lemma {:induction false} RestrictionOfUniform(fineSol: seq<real>, fineVol: seq<real>, children: seq<nat>, parentVol: real,
                                                t: real, k: nat)
    requires k <= |children| && parentVol != 0.0
    requires forall c :: 0 <= c < |children| ==> children[c] < |fineSol| && children[c] < |fineVol|
    requires forall c :: 0 <= c < |children| ==> fineSol[children[c]] == t
    ensures RestrictedTo(fineSol, fineVol, children, parentVol, k) == t * ChildVolume(fineVol, children, k) / parentVol
  {
    if k > 0 {
      RestrictionOfUniform(fineSol, fineVol, children, parentVol, t, k - 1);
      var f := children[k - 1];
      var prevVol := ChildVolume(fineVol, children, k - 1);
      assert t * prevVol / parentVol + t * fineVol[f] / parentVol == t * (prevVol + fineVol[f]) / parentVol;
    }
  }

  lemma RestrictionOfUniformTiled(fineSol: seq<real>, fineVol: seq<real>, children: seq<nat>, parentVol: real, t: real)
    requires parentVol != 0.0
    requires forall c :: 0 <= c < |children| ==> children[c] < |fineSol| && children[c] < |fineVol|
    requires forall c :: 0 <= c < |children| ==> fineSol[children[c]] == t
    requires ChildVolume(fineVol, children, |children|) == parentVol
    ensures RestrictedTo(fineSol, fineVol, children, parentVol, |children|) == t
  {
    RestrictionOfUniform(fineSol, fineVol, children, parentVol, t, |children|);
    assert t * parentVol / parentVol == t;
  }

  /** The children of each coarse point index the fine level, and a parent with children has a volume. */
  predicate ChildrenValid(children: seq<seq<nat>>, volume: seq<real>, nFine: nat) {
    && |children| == |volume|
    && (forall p, c :: 0 <= p < |children| && 0 <= c < |children[p]| ==> children[p][c] < nFine)
    && (forall p :: 0 <= p < |children| && |children[p]| > 0 ==> volume[p] != 0.0)
  }

  /** The coarse nodes after the restriction: each solution becomes its children's volume-weighted mean. */
  function RestrictedNodes(nodes: seq<HeatNode>, fineSol: seq<real>, fineVol: seq<real>,
                           children: seq<seq<nat>>, volume: seq<real>): (ns: seq<HeatNode>)
    requires |nodes| == |children| && |fineSol| == |fineVol| && ChildrenValid(children, volume, |fineSol|)
    ensures |ns| == |nodes|
  {
    seq(|nodes|, p requires 0 <= p < |nodes| =>
      nodes[p].(solution := RestrictedTo(fineSol, fineVol, children[p], volume[p], |children[p]|)))
  }

  /**
   * Set_Solution_time_n copies the solution to time level n; with
   * both set, Set_Solution_time_n1 then copies level n to level n-1.
   */
  function PushBack(n: HeatNode, both: bool): (r: HeatNode) {
    var atN := n.(solutionTimeN := n.solution);
    if both then atN.(solutionTimeN1 := atN.solutionTimeN) else atN
  }

  function PushBackAll(nodes: seq<HeatNode>, both: bool): (ns: seq<HeatNode>)
    ensures |ns| == |nodes|
  {
    seq(|nodes|, p requires 0 <= p < |nodes| => PushBack(nodes[p], both))
  }

  /** After the full push-back the three time levels agree, so the first dual-time source term is zero. */
  lemma PushBackStartsAtRest(n: HeatNode, s: DualScheme, vol: real, dt: real)
    requires dt != 0.0
    ensures PushBack(n, true).solutionTimeN == n.solution && PushBack(n, true).solutionTimeN1 == n.solution
    ensures DualTimeResidual(s, PushBack(n, true).solution, PushBack(n, true).solutionTimeN,
                             PushBack(n, true).solutionTimeN1, vol, dt) == 0.0
  {
    DualTimeJacobianIsSlope(s, n.solution, n.solution, n.solution, vol, dt, 0.0);
  }

  /** After a first-order push-back only level n is the current solution; the first-order source term is still zero. */
  lemma FirstOrderPushBackAtRest(n: HeatNode, vol: real, dt: real)
    requires dt != 0.0
    ensures PushBack(n, false).solutionTimeN1 == n.solutionTimeN1
    ensures DualTimeResidual(FirstOrder, PushBack(n, false).solution, PushBack(n, false).solutionTimeN,
                             PushBack(n, false).solutionTimeN1, vol, dt) == 0.0
  {
    PerStepSlope(0.0, 0.0, 0.0, vol, dt);
  }
}
