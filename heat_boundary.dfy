/**
 * The wall conditions of the finite-volume heat solver and the reductions
 * over the walls, as functions of the state before the call.
 *
 * A wall condition visits the vertices of one marker in order and, at each
 * vertex whose point this rank owns, changes the residual block and the
 * diagonal Jacobian block of that point. The generic passes below take the
 * per-vertex values as a sequence; each wall condition is a generic pass
 * applied to its own values, and what is proved once about the generic
 * passes (the change at each point, the change of the residual total)
 * holds for all of them.
 */
module HeatBoundary {
  import opened IncNumericsBase
  import opened HeatLinearSystem
  import opened HeatMesh
  import opened HeatState

  /** One value per vertex of marker m. */
  predicate PerVertex(g: Geometry, m: nat, vals: seq<real>) {
    Valid(g) && m < |g.markers| && |vals| == |g.markers[m].vertices|
  }

  /** The k-th vertex of marker m lies on a point this rank owns (GetDomain). */
  predicate Owned(g: Geometry, m: nat, k: nat)
    requires Valid(g) && m < |g.markers| && k < |g.markers[m].vertices|
  {
    g.domain[g.markers[m].vertices[k].node]
  }

  // ---------------------------------------------------------------------
  // Generic wall passes
  // ---------------------------------------------------------------------

  /** LinSysRes.SubtractBlock(iPoint, vals[k]) at every owned vertex among the first k. */
  function WallResidualAfter(res: Vector, g: Geometry, m: nat, vals: seq<real>, k: nat): (r: Vector)
    requires PerVertex(g, m, vals) && |res| == NPoint(g) && k <= |vals|
    ensures |r| == |res|
  {
    if k == 0 then res
    else
      var prev := WallResidualAfter(res, g, m, vals, k - 1);
      var p := g.markers[m].vertices[k - 1].node;
      if g.domain[p] then SubtractBlock(prev, p, vals[k - 1]) else prev
  }

  /** Jacobian.SubtractBlock(iPoint, iPoint, vals[k]) at every owned vertex among the first k. */
  function WallDiagonalAfter(jac: Matrix, g: Geometry, m: nat, vals: seq<real>, k: nat): Matrix
    requires PerVertex(g, m, vals) && k <= |vals|
  {
    if k == 0 then jac
    else
      var prev := WallDiagonalAfter(jac, g, m, vals, k - 1);
      var p := g.markers[m].vertices[k - 1].node;
      if g.domain[p] then MatSub(prev, p, p, vals[k - 1]) else prev
  }

  /** The member Jacobian_i after the pass: the value of the last owned vertex, else what it held. */
  function LastOwned(prev: real, g: Geometry, m: nat, vals: seq<real>, k: nat): real
    requires PerVertex(g, m, vals) && k <= |vals|
  {
    if k == 0 then prev
    else if Owned(g, m, k - 1) then vals[k - 1]
    else LastOwned(prev, g, m, vals, k - 1)
  }

  /** The sum of vals over the owned vertices of point p among the first k. */
  function WallSumAt(g: Geometry, m: nat, vals: seq<real>, p: nat, k: nat): real
    requires PerVertex(g, m, vals) && k <= |vals|
  {
    if k == 0 then 0.0
    else
      WallSumAt(g, m, vals, p, k - 1)
      + (if Owned(g, m, k - 1) && g.markers[m].vertices[k - 1].node == p then vals[k - 1] else 0.0)
  }

  /** The sum of vals over the owned vertices among the first k. */
  function WallTotal(g: Geometry, m: nat, vals: seq<real>, k: nat): real
    requires PerVertex(g, m, vals) && k <= |vals|
  {
    if k == 0 then 0.0
    else WallTotal(g, m, vals, k - 1) + (if Owned(g, m, k - 1) then vals[k - 1] else 0.0)
  }

  /** WallTotal one vertex further. */
  lemma WallTotalNext(g: Geometry, m: nat, vals: seq<real>, k: nat)
    requires PerVertex(g, m, vals) && k < |vals|
    ensures WallTotal(g, m, vals, k + 1) == WallTotal(g, m, vals, k) + (if Owned(g, m, k) then vals[k] else 0.0)
  {
  }

  /** Point p loses exactly the values of its own owned vertices. */
  lemma {:induction false} WallResidualAt(res: Vector, g: Geometry, m: nat, vals: seq<real>, k: nat, p: nat)
    requires PerVertex(g, m, vals) && |res| == NPoint(g) && k <= |vals| && p < |res|
    ensures WallResidualAfter(res, g, m, vals, k)[p] == res[p] - WallSumAt(g, m, vals, p, k)
  {
    if k > 0 {
      WallResidualAt(res, g, m, vals, k - 1, p);
      assert ValidVertex(g, g.markers[m].vertices[k - 1]);
    }
  }

  /** Only diagonal blocks change, and the diagonal of p loses the values of its owned vertices. */
  lemma {:induction false} WallDiagonalAt(jac: Matrix, g: Geometry, m: nat, vals: seq<real>, k: nat, a: nat, b: nat)
    requires PerVertex(g, m, vals) && k <= |vals|
    ensures Get(WallDiagonalAfter(jac, g, m, vals, k), a, b)
         == Get(jac, a, b) - (if a == b then WallSumAt(g, m, vals, a, k) else 0.0)
  {
    if k > 0 {
      WallDiagonalAt(jac, g, m, vals, k - 1, a, b);
      assert ValidVertex(g, g.markers[m].vertices[k - 1]);
    }
  }

  /** The residual total drops by the sum of the values of the owned vertices. */
  lemma {:induction false} WallResidualTotal(res: Vector, g: Geometry, m: nat, vals: seq<real>, k: nat)
    requires PerVertex(g, m, vals) && |res| == NPoint(g) && k <= |vals|
    ensures Sum(WallResidualAfter(res, g, m, vals, k)) == Sum(res) - WallTotal(g, m, vals, k)
  {
    if k > 0 {
      WallResidualTotal(res, g, m, vals, k - 1);
      var p := g.markers[m].vertices[k - 1].node;
      assert ValidVertex(g, g.markers[m].vertices[k - 1]);
      if g.domain[p] {
        SumSubtractBlock(WallResidualAfter(res, g, m, vals, k - 1), p, vals[k - 1]);
      }
    }
  }

  /** Values that are all zero change nothing at any point. */
  lemma {:induction false} WallSumZero(g: Geometry, m: nat, vals: seq<real>, p: nat, k: nat)
    requires PerVertex(g, m, vals) && k <= |vals|
    requires forall i :: 0 <= i < |vals| ==> vals[i] == 0.0
    ensures WallSumAt(g, m, vals, p, k) == 0.0
  {
    if k > 0 {
      WallSumZero(g, m, vals, p, k - 1);
    }
  }

  /** Scaling the value of every owned vertex scales the total. */
  lemma {:induction false} WallTotalScaled(g: Geometry, m: nat, vals: seq<real>, scaled: seq<real>, c: real, k: nat)
    requires PerVertex(g, m, vals) && |scaled| == |vals| && k <= |vals|
    requires forall i :: 0 <= i < |vals| && Owned(g, m, i) ==> scaled[i] == c * vals[i]
    ensures WallTotal(g, m, scaled, k) == c * WallTotal(g, m, vals, k)
  {
    if k > 0 {
      WallTotalScaled(g, m, vals, scaled, c, k - 1);
    }
  }

  // ---------------------------------------------------------------------
  // Wall geometry
  // ---------------------------------------------------------------------

  /** |x_normal - x_i|, the distance from the wall point to its interior neighbour along the normal. */
  function WallDistance(g: Geometry, sqrt: real -> real, v: Vertex): real
    requires Valid(g) && ValidVertex(g, v)
  {
    Distance(sqrt, g.coord[v.node], g.coord[v.normalNeighbor])
  }

  /** The distances the wall formulas divide by are non-zero at the owned vertices of marker m. */
  predicate DistancesNonZero(g: Geometry, sqrt: real -> real, m: nat)
    requires Valid(g) && m < |g.markers|
  {
    forall k :: 0 <= k < |g.markers[m].vertices| && Owned(g, m, k) ==>
      WallDistance(g, sqrt, g.markers[m].vertices[k]) != 0.0
  }

  /** The face area of each vertex of marker m. */
  function Areas(g: Geometry, sqrt: real -> real, m: nat): (r: seq<real>)
    requires Valid(g) && m < |g.markers|
    ensures PerVertex(g, m, r)
  {
    seq(|g.markers[m].vertices|, k requires 0 <= k < |g.markers[m].vertices| =>
      Area(sqrt, g.markers[m].vertices[k].normal))
  }

  /** The wall area of marker m over the vertices this rank owns. */
  function OwnedArea(g: Geometry, sqrt: real -> real, m: nat): real
    requires Valid(g) && m < |g.markers|
  {
    WallTotal(g, m, Areas(g, sqrt, m), |g.markers[m].vertices|)
  }

  // ---------------------------------------------------------------------
  // BC_Isothermal_Wall
  // ---------------------------------------------------------------------

  /** The diffusivity of the isothermal wall: mu/Pr_lam (laminar part only) next to a flow, else the solid's. */
  function WallDiffusivity(flowCase: bool, d: Diffusion): real
    requires flowCase ==> d.prandtlLam != 0.0
  {
    if flowCase then d.muConstantND / d.prandtlLam else d.diffusivitySolid
  }

  /** Res_Visc = k dT/dn Area with dT/dn = -(T_normal - T_wall)/dist. */
  function IsothermalFlux(kappa: real, twall: real, tNormal: real, dist: real, area: real): real
    requires dist != 0.0
  {
    kappa * (-(tNormal - twall) / dist) * area
  }

  /** Jacobian_i[0][0] = -k/dist Area. */
  function IsothermalJacobian(kappa: real, dist: real, area: real): real
    requires dist != 0.0
  {
    -kappa / dist * area
  }

  /** The residual is linear in the neighbour's temperature, with the Jacobian entry as its slope, and vanishes at the wall temperature. */
  lemma IsothermalFluxIsLinear(kappa: real, twall: real, tNormal: real, dist: real, area: real)
    requires dist != 0.0
    ensures IsothermalFlux(kappa, twall, tNormal, dist, area) == IsothermalJacobian(kappa, dist, area) * (tNormal - twall)
    ensures kappa > 0.0 && dist > 0.0 && area > 0.0 ==>
      (IsothermalFlux(kappa, twall, tNormal, dist, area) > 0.0 <==> twall > tNormal)
  {
    var j := IsothermalJacobian(kappa, dist, area);
    assert IsothermalFlux(kappa, twall, tNormal, dist, area) == -(kappa * area) * ((tNormal - twall) / dist);
    assert j == -(kappa * area) / dist;
    if kappa > 0.0 && dist > 0.0 && area > 0.0 {
      var q := (tNormal - twall) / dist;
      assert (tNormal - twall) == q * dist;
      assert q < 0.0 <==> twall > tNormal;
    }
  }

  /** Res_Visc at every vertex of marker m (zero where the point is not owned, where nothing is applied). */
  function IsothermalFluxes(g: Geometry, sqrt: real -> real, sol: seq<real>, kappa: real, twall: real, m: nat): (r: seq<real>)
    requires Valid(g) && m < |g.markers| && |sol| == NPoint(g) && DistancesNonZero(g, sqrt, m)
    ensures PerVertex(g, m, r)
  {
    seq(|g.markers[m].vertices|, k requires 0 <= k < |g.markers[m].vertices| =>
      if Owned(g, m, k) then
        var v := g.markers[m].vertices[k];
        IsothermalFlux(kappa, twall, sol[v.normalNeighbor], WallDistance(g, sqrt, v), Area(sqrt, v.normal))
      else 0.0)
  }

  /**
   * The Jacobian block subtracted at every vertex: -k/dist Area when
   * implicit; otherwise the member Jacobian_i is not written, and the value
   * it held before the call is subtracted at every owned vertex.
   */
  function IsothermalJacobians(g: Geometry, sqrt: real -> real, kappa: real, implicit: bool, jacI0: real, m: nat): (r: seq<real>)
    requires Valid(g) && m < |g.markers| && DistancesNonZero(g, sqrt, m)
    ensures PerVertex(g, m, r)
  {
    if !implicit then seq(|g.markers[m].vertices|, k => jacI0)
    else
      seq(|g.markers[m].vertices|, k requires 0 <= k < |g.markers[m].vertices| =>
        if Owned(g, m, k) then
          var v := g.markers[m].vertices[k];
          IsothermalJacobian(kappa, WallDistance(g, sqrt, v), Area(sqrt, v.normal))
        else 0.0)
  }

  /** When every owned vertex's neighbour is at the wall temperature, the residual does not change. */
  lemma IsothermalAtWallTemperature(res: Vector, g: Geometry, sqrt: real -> real, sol: seq<real>, kappa: real, twall: real, m: nat)
    requires Valid(g) && m < |g.markers| && |sol| == NPoint(g) && DistancesNonZero(g, sqrt, m) && |res| == NPoint(g)
    requires forall k :: 0 <= k < |g.markers[m].vertices| && Owned(g, m, k) ==>
      sol[g.markers[m].vertices[k].normalNeighbor] == twall
    ensures WallResidualAfter(res, g, m, IsothermalFluxes(g, sqrt, sol, kappa, twall, m), |g.markers[m].vertices|) == res
  {
    var vals := IsothermalFluxes(g, sqrt, sol, kappa, twall, m);
    var n := |g.markers[m].vertices|;
    forall i | 0 <= i < n ensures vals[i] == 0.0 {
      assert ValidVertex(g, g.markers[m].vertices[i]);
    }
    var after := WallResidualAfter(res, g, m, vals, n);
    forall p | 0 <= p < |res| ensures after[p] == res[p] {
      WallResidualAt(res, g, m, vals, n, p);
      WallSumZero(g, m, vals, p, n);
    }
  }

  /**
   * Not implicit: the member Jacobian_i is not written, so it keeps its
   * value, and that stale value is what every owned vertex subtracts from
   * its diagonal block (WallDiagonalAt then gives the change at each point).
   */
  lemma IsothermalExplicitJacobian(g: Geometry, sqrt: real -> real, kappa: real, jacI0: real, m: nat)
    requires Valid(g) && m < |g.markers| && DistancesNonZero(g, sqrt, m)
    ensures var vals := IsothermalJacobians(g, sqrt, kappa, false, jacI0, m);
      && LastOwned(jacI0, g, m, vals, |vals|) == jacI0
      && forall k :: 0 <= k < |vals| ==> vals[k] == jacI0
  {
    var vals := IsothermalJacobians(g, sqrt, kappa, false, jacI0, m);
    LastOwnedUniform(jacI0, g, m, vals, |vals|);
  }

  lemma {:induction false} LastOwnedUniform(c: real, g: Geometry, m: nat, vals: seq<real>, k: nat)
    requires PerVertex(g, m, vals) && k <= |vals|
    requires forall i :: 0 <= i < |vals| ==> vals[i] == c
    ensures LastOwned(c, g, m, vals, k) == c
  {
    if k > 0 {
      LastOwnedUniform(c, g, m, vals, k - 1);
    }
  }

  // ---------------------------------------------------------------------
  // BC_HeatFlux_Wall
  // ---------------------------------------------------------------------

  /**
   * With an integrated heat flux, the configured value is divided by
   * Surface_Areas[h] for every heat-flux marker h whose tag is the
   * marker's, in the order of the heat-flux markers.
   */
  function AreaScaledFlux(q: real, hfTags: seq<string>, areas: seq<real>, tag: string, n: nat): real
    requires |areas| == |hfTags| && n <= |hfTags|
    requires forall h :: 0 <= h < |hfTags| && hfTags[h] == tag ==> areas[h] != 0.0
  {
    if n == 0 then q
    else
      var prev := AreaScaledFlux(q, hfTags, areas, tag, n - 1);
      if hfTags[n - 1] == tag then prev / areas[n - 1] else prev
  }

  /** A tag that appears once, at h, divides by that marker's area; a tag that does not appear leaves q. */
  lemma {:induction false} AreaScaledFluxUnique(q: real, hfTags: seq<string>, areas: seq<real>, tag: string, n: nat, h: nat)
    requires |areas| == |hfTags| && n <= |hfTags|
    requires forall i :: 0 <= i < |hfTags| && hfTags[i] == tag ==> areas[i] != 0.0
    requires h < |hfTags| && hfTags[h] == tag
    requires forall i :: 0 <= i < |hfTags| && hfTags[i] == tag ==> i == h
    ensures AreaScaledFlux(q, hfTags, areas, tag, n) == if h < n then q / areas[h] else q
  {
    if n > 0 {
      AreaScaledFluxUnique(q, hfTags, areas, tag, n - 1, h);
      if n - 1 != h {
        assert hfTags[n - 1] != tag;
      }
    }
  }

  lemma {:induction false} AreaScaledFluxAbsent(q: real, hfTags: seq<string>, areas: seq<real>, tag: string, n: nat)
    requires |areas| == |hfTags| && n <= |hfTags|
    requires forall i :: 0 <= i < |hfTags| ==> hfTags[i] != tag
    ensures AreaScaledFlux(q, hfTags, areas, tag, n) == q
  {
    if n > 0 {
      AreaScaledFluxAbsent(q, hfTags, areas, tag, n - 1);
    }
  }

  /** The references the wall heat flux is made non-dimensional with. */
  datatype HeatRefs = HeatRefs(viscosityRef: real, cp: real, temperatureRef: real, densitySolid: real, cpSolid: real)

  /** The reference heat-flux scale: mu_ref cp T_ref next to a flow, rho_s cp_s T_ref in a solid. */
  function FluxScale(flowCase: bool, r: HeatRefs): real {
    if flowCase then r.viscosityRef * r.cp * r.temperatureRef
    else r.densitySolid * r.cpSolid * r.temperatureRef
  }

  predicate HeatRefsDefined(flowCase: bool, r: HeatRefs) {
    FluxScale(flowCase, r) != 0.0
  }

  /** q / (mu_ref cp T_ref) next to a flow, q / (rho_s cp_s T_ref) in a solid. */
  function NonDimensionalFlux(q: real, flowCase: bool, r: HeatRefs): real
    requires HeatRefsDefined(flowCase, r)
  {
    q / FluxScale(flowCase, r)
  }

  /** The non-dimensional flux BC_HeatFlux_Wall applies on a marker tagged tag whose configured flux is q. */
  function WallFluxSetting(q: real, integrated: bool, hfTags: seq<string>, areas: seq<real>, tag: string,
                           flowCase: bool, r: HeatRefs): real
    requires |areas| == |hfTags| && HeatRefsDefined(flowCase, r)
    requires integrated ==> forall h :: 0 <= h < |hfTags| && hfTags[h] == tag ==> areas[h] != 0.0
  {
    NonDimensionalFlux(if integrated then AreaScaledFlux(q, hfTags, areas, tag, |hfTags|) else q, flowCase, r)
  }

  /** Res_Visc = q Area at every vertex of marker m. */
  function HeatFluxValues(g: Geometry, sqrt: real -> real, q: real, m: nat): (r: seq<real>)
    requires Valid(g) && m < |g.markers|
    ensures PerVertex(g, m, r)
  {
    var areas := Areas(g, sqrt, m);
    seq(|areas|, k requires 0 <= k < |areas| => q * areas[k])
  }

  /** The heat-flux wall takes q times the owned wall area out of the residual total. */
  lemma HeatFluxWallTotal(res: Vector, g: Geometry, sqrt: real -> real, q: real, m: nat)
    requires Valid(g) && m < |g.markers| && |res| == NPoint(g)
    ensures Sum(WallResidualAfter(res, g, m, HeatFluxValues(g, sqrt, q, m), |g.markers[m].vertices|))
         == Sum(res) - q * OwnedArea(g, sqrt, m)
  {
    var n := |g.markers[m].vertices|;
    var vals := HeatFluxValues(g, sqrt, q, m);
    var areas := Areas(g, sqrt, m);
    assert WallTotal(g, m, vals, n) == q * OwnedArea(g, sqrt, m) by {
      assert forall i :: 0 <= i < |areas| ==> vals[i] == q * areas[i];
      WallTotalScaled(g, m, areas, vals, q, n);
    }
    WallResidualTotal(res, g, m, vals, n);
  }

  // ---------------------------------------------------------------------
  // BC_Inlet and BC_Outlet
  // ---------------------------------------------------------------------

  /** The residual, the Jacobian and the member Jacobian_i as a boundary pass leaves them. */
  datatype Assembly = Assembly(res: Vector, jac: Matrix, jacI: real)

  /** The normal negated for the outward convention. */
  function Negate(v: Vec): (r: Vec)
    ensures |r| == |v|
  {
    seq(|v|, i requires 0 <= i < |v| => -v[i])
  }

  /** V_inlet: the characteristic state with entries 1..nDim set to |V| times the flow direction. */
  function InletState(charac: Vec, velMag: real, flowDir: Vec, nDim: nat): Vec {
    seq(|charac|, i requires 0 <= i < |charac| =>
      if 1 <= i <= nDim && i - 1 < |flowDir| then velMag * flowDir[i - 1] else charac[i])
  }

  /** V_outlet: the characteristic state with entries 1..nDim copied from the interior neighbour's primitive state. */
  function OutletState(charac: Vec, neighbour: Vec, nDim: nat): Vec {
    seq(|charac|, i requires 0 <= i < |charac| =>
      if 1 <= i <= nDim && i < |neighbour| then neighbour[i] else charac[i])
  }

  /** What the inlet reads from the configuration. */
  datatype InletSettings = InletSettings(viscous: bool, implicit: bool, ptotal: real, velocityRef: real, flowDir: Vec,
                                         ttotal: real, temperatureRef: real, tFreeStreamND: real,
                                         muConstantND: real, prandtlLam: real)

  /** The divisions the inlet performs are by non-zero values. */
  predicate InletDefined(kind: SolverKind, s: InletSettings) {
    && (IsFlow(kind) ==> s.velocityRef != 0.0 && s.temperatureRef != 0.0)
    && (s.viscous ==> s.prandtlLam != 0.0)
  }

  /** Vel_Mag = Inlet_Ptotal / Velocity_Ref (the total-pressure setting is read as a speed). */
  function InletSpeed(s: InletSettings): real
    requires s.velocityRef != 0.0
  {
    s.ptotal / s.velocityRef
  }

  /** The inlet's diffusivity Mu_ConstantND / Prandtl_Lam. */
  function InletDiffusivity(s: InletSettings): real
    requires s.prandtlLam != 0.0
  {
    s.muConstantND / s.prandtlLam
  }

  /**
   * One inlet vertex. Next to a flow the upwind numerics see the domain
   * state and the prescribed inlet state, and their residual is added (and
   * Jacobian_i on the diagonal when implicit). With viscosity, the wall
   * formula of the isothermal condition at the free-stream temperature is
   * then subtracted; when not implicit the diagonal loses whatever the
   * member Jacobian_i holds at that moment.
   */
  function InletStep(a: Assembly, g: Geometry, sqrt: real -> real, sol: seq<real>, flow: seq<FlowNode>,
                     charac: (nat, nat) -> Vec, numerics: ConvInput -> EdgeTerm, kind: SolverKind, s: InletSettings, m: nat, k: nat): (r: Assembly)
    requires Valid(g) && m < |g.markers| && k < |g.markers[m].vertices| && DistancesNonZero(g, sqrt, m)
    requires |a.res| == NPoint(g) && |sol| == NPoint(g) && |flow| == NPoint(g) && InletDefined(kind, s)
    ensures |r.res| == |a.res|
  {
    if !Owned(g, m, k) then a
    else InletViscous(InletConvective(a, g, sol, flow, charac, numerics, kind, s, m, k), g, sqrt, sol, s, m, k)
  }

  /** The convective part at an owned inlet vertex: only next to a flow. */
  function InletConvective(a: Assembly, g: Geometry, sol: seq<real>, flow: seq<FlowNode>,
                           charac: (nat, nat) -> Vec, numerics: ConvInput -> EdgeTerm, kind: SolverKind, s: InletSettings, m: nat, k: nat): (r: Assembly)
    requires Valid(g) && m < |g.markers| && k < |g.markers[m].vertices|
    requires |a.res| == NPoint(g) && |sol| == NPoint(g) && |flow| == NPoint(g) && InletDefined(kind, s)
    ensures |r.res| == |a.res|
  {
    var v := g.markers[m].vertices[k];
    assert ValidVertex(g, v);
    var p := v.node;
    if IsFlow(kind) then
      var t := numerics(ConvInput(Negate(v.normal), flow[p].primitive,
                                  InletState(charac(m, k), InletSpeed(s), s.flowDir, g.nDim),
                                  sol[p], s.ttotal / s.temperatureRef));
      Assembly(AddBlock(a.res, p, t.residual), if s.implicit then MatAdd(a.jac, p, p, t.jacI) else a.jac, t.jacI)
    else a
  }

  /** The viscous part at an owned inlet vertex: the isothermal formula at the free-stream temperature. */
  function InletViscous(a: Assembly, g: Geometry, sqrt: real -> real, sol: seq<real>, s: InletSettings, m: nat, k: nat): (r: Assembly)
    requires Valid(g) && m < |g.markers| && k < |g.markers[m].vertices| && DistancesNonZero(g, sqrt, m) && Owned(g, m, k)
    requires |a.res| == NPoint(g) && |sol| == NPoint(g) && (s.viscous ==> s.prandtlLam != 0.0)
    ensures |r.res| == |a.res|
  {
    var v := g.markers[m].vertices[k];
    assert ValidVertex(g, v);
    var p := v.node;
    if s.viscous then
      var d := WallDistance(g, sqrt, v);
      var area := Area(sqrt, v.normal);
      var jI := if s.implicit then IsothermalJacobian(InletDiffusivity(s), d, area) else a.jacI;
      Assembly(SubtractBlock(a.res, p, IsothermalFlux(InletDiffusivity(s), s.tFreeStreamND, sol[v.normalNeighbor], d, area)),
               MatSub(a.jac, p, p, jI), jI)
    else a
  }

  function InletAfter(a: Assembly, g: Geometry, sqrt: real -> real, sol: seq<real>, flow: seq<FlowNode>,
                      charac: (nat, nat) -> Vec, numerics: ConvInput -> EdgeTerm, kind: SolverKind, s: InletSettings, m: nat, k: nat): (r: Assembly)
    requires Valid(g) && m < |g.markers| && k <= |g.markers[m].vertices| && DistancesNonZero(g, sqrt, m)
    requires |a.res| == NPoint(g) && |sol| == NPoint(g) && |flow| == NPoint(g) && InletDefined(kind, s)
    ensures |r.res| == |a.res|
  {
    if k == 0 then a
    else InletStep(InletAfter(a, g, sqrt, sol, flow, charac, numerics, kind, s, m, k - 1), g, sqrt, sol, flow, charac, numerics, kind, s, m, k - 1)
  }

  /** Without a flow solver the inlet subtracts the isothermal fluxes at the free-stream temperature. */
  lemma {:induction false} InletWithoutFlowResidual(a: Assembly, g: Geometry, sqrt: real -> real, sol: seq<real>,
      flow: seq<FlowNode>, charac: (nat, nat) -> Vec, numerics: ConvInput -> EdgeTerm, kind: SolverKind, s: InletSettings, m: nat, k: nat)
    requires Valid(g) && m < |g.markers| && k <= |g.markers[m].vertices| && DistancesNonZero(g, sqrt, m)
    requires |a.res| == NPoint(g) && |sol| == NPoint(g) && |flow| == NPoint(g) && InletDefined(kind, s)
    requires !IsFlow(kind) && s.viscous
    ensures InletAfter(a, g, sqrt, sol, flow, charac, numerics, kind, s, m, k).res
         == WallResidualAfter(a.res, g, m, IsothermalFluxes(g, sqrt, sol, InletDiffusivity(s), s.tFreeStreamND, m), k)
  {
    if k > 0 {
      InletWithoutFlowResidual(a, g, sqrt, sol, flow, charac, numerics, kind, s, m, k - 1);
      var prev := InletAfter(a, g, sqrt, sol, flow, charac, numerics, kind, s, m, k - 1);
      InletStepWithoutFlow(prev, g, sqrt, sol, flow, charac, numerics, kind, s, m, k - 1);
    }
  }

  /** Without a flow solver the inlet adds the isothermal Jacobians at the free-stream temperature. */
  lemma {:induction false} InletWithoutFlowJacobians(a: Assembly, g: Geometry, sqrt: real -> real, sol: seq<real>,
      flow: seq<FlowNode>, charac: (nat, nat) -> Vec, numerics: ConvInput -> EdgeTerm, kind: SolverKind, s: InletSettings, m: nat, k: nat)
    requires Valid(g) && m < |g.markers| && k <= |g.markers[m].vertices| && DistancesNonZero(g, sqrt, m)
    requires |a.res| == NPoint(g) && |sol| == NPoint(g) && |flow| == NPoint(g) && InletDefined(kind, s)
    requires !IsFlow(kind) && s.viscous
    ensures var r := InletAfter(a, g, sqrt, sol, flow, charac, numerics, kind, s, m, k);
      var jacs := IsothermalJacobians(g, sqrt, InletDiffusivity(s), s.implicit, a.jacI, m);
      && r.jac == WallDiagonalAfter(a.jac, g, m, jacs, k)
      && r.jacI == LastOwned(a.jacI, g, m, jacs, k)
  {
    if k > 0 {
      InletWithoutFlowJacobians(a, g, sqrt, sol, flow, charac, numerics, kind, s, m, k - 1);
      var prev := InletAfter(a, g, sqrt, sol, flow, charac, numerics, kind, s, m, k - 1);
      var jacs := IsothermalJacobians(g, sqrt, InletDiffusivity(s), s.implicit, a.jacI, m);
      InletStepWithoutFlow(prev, g, sqrt, sol, flow, charac, numerics, kind, s, m, k - 1);
      if Owned(g, m, k - 1) {
        assert LastOwned(a.jacI, g, m, jacs, k) == jacs[k - 1];
        if !s.implicit {
          LastOwnedUniform(a.jacI, g, m, jacs, k - 1);
        }
      }
    }
  }

  /**
   * Without a flow solver the inlet is the isothermal wall at the
   * free-stream temperature with diffusivity mu/Pr_lam: the same residual,
   * the same diagonal and the same member Jacobian_i afterwards.
   */
  lemma InletWithoutFlowIsIsothermal(a: Assembly, g: Geometry, sqrt: real -> real, sol: seq<real>,
      flow: seq<FlowNode>, charac: (nat, nat) -> Vec, numerics: ConvInput -> EdgeTerm, kind: SolverKind, s: InletSettings, m: nat, k: nat)
    requires Valid(g) && m < |g.markers| && k <= |g.markers[m].vertices| && DistancesNonZero(g, sqrt, m)
    requires |a.res| == NPoint(g) && |sol| == NPoint(g) && |flow| == NPoint(g) && InletDefined(kind, s)
    requires !IsFlow(kind) && s.viscous
    ensures var r := InletAfter(a, g, sqrt, sol, flow, charac, numerics, kind, s, m, k);
      var jacs := IsothermalJacobians(g, sqrt, InletDiffusivity(s), s.implicit, a.jacI, m);
      && r.res == WallResidualAfter(a.res, g, m, IsothermalFluxes(g, sqrt, sol, InletDiffusivity(s), s.tFreeStreamND, m), k)
      && r.jac == WallDiagonalAfter(a.jac, g, m, jacs, k)
      && r.jacI == LastOwned(a.jacI, g, m, jacs, k)
  {
    InletWithoutFlowResidual(a, g, sqrt, sol, flow, charac, numerics, kind, s, m, k);
    InletWithoutFlowJacobians(a, g, sqrt, sol, flow, charac, numerics, kind, s, m, k);
  }

  /** One inlet vertex without a flow solver: the isothermal formula at the free-stream temperature. */
  lemma InletStepWithoutFlow(a: Assembly, g: Geometry, sqrt: real -> real, sol: seq<real>,
      flow: seq<FlowNode>, charac: (nat, nat) -> Vec, numerics: ConvInput -> EdgeTerm, kind: SolverKind, s: InletSettings, m: nat, k: nat)
    requires Valid(g) && m < |g.markers| && k < |g.markers[m].vertices| && DistancesNonZero(g, sqrt, m)
    requires |a.res| == NPoint(g) && |sol| == NPoint(g) && |flow| == NPoint(g) && InletDefined(kind, s)
    requires !IsFlow(kind) && s.viscous
    ensures var p := g.markers[m].vertices[k].node;
      var kappa := InletDiffusivity(s);
      var fluxes := IsothermalFluxes(g, sqrt, sol, kappa, s.tFreeStreamND, m);
      var jI := if s.implicit then IsothermalJacobians(g, sqrt, kappa, s.implicit, a.jacI, m)[k] else a.jacI;
      InletStep(a, g, sqrt, sol, flow, charac, numerics, kind, s, m, k)
        == if Owned(g, m, k) then Assembly(SubtractBlock(a.res, p, fluxes[k]), MatSub(a.jac, p, p, jI), jI) else a
  {
    assert ValidVertex(g, g.markers[m].vertices[k]);
  }

  /** Neither coupled to a flow nor viscous: the inlet changes nothing. */
  lemma {:induction false} InletInert(a: Assembly, g: Geometry, sqrt: real -> real, sol: seq<real>,
      flow: seq<FlowNode>, charac: (nat, nat) -> Vec, numerics: ConvInput -> EdgeTerm, kind: SolverKind, s: InletSettings, m: nat, k: nat)
    requires Valid(g) && m < |g.markers| && k <= |g.markers[m].vertices| && DistancesNonZero(g, sqrt, m)
    requires |a.res| == NPoint(g) && |sol| == NPoint(g) && |flow| == NPoint(g) && InletDefined(kind, s)
    requires !IsFlow(kind) && !s.viscous
    ensures InletAfter(a, g, sqrt, sol, flow, charac, numerics, kind, s, m, k) == a
  {
    if k > 0 {
      InletInert(a, g, sqrt, sol, flow, charac, numerics, kind, s, m, k - 1);
    }
  }

  /** The outlet's numerics input at vertex k: the domain state, the outlet state and the neighbour's temperature. */
  function OutletInput(g: Geometry, sol: seq<real>, flow: seq<FlowNode>, charac: (nat, nat) -> Vec, m: nat, k: nat): ConvInput
    requires Valid(g) && m < |g.markers| && k < |g.markers[m].vertices| && |sol| == NPoint(g) && |flow| == NPoint(g)
  {
    var v := g.markers[m].vertices[k];
    assert ValidVertex(g, v);
    ConvInput(Negate(v.normal), flow[v.node].primitive,
              OutletState(charac(m, k), flow[v.normalNeighbor].primitive, g.nDim), sol[v.node], sol[v.normalNeighbor])
  }

  /**
   * One outlet vertex. The outlet's flow test is Kind_Solver != HEAT_EQUATION,
   * so it also runs for the stand-alone finite-volume heat solver. The
   * numerics' residual is added, and Jacobian_i on the diagonal when
   * implicit; there is no viscous part.
   */
  function OutletStep(a: Assembly, g: Geometry, sol: seq<real>, flow: seq<FlowNode>, charac: (nat, nat) -> Vec,
                      numerics: ConvInput -> EdgeTerm, kind: SolverKind, implicit: bool, m: nat, k: nat): (r: Assembly)
    requires Valid(g) && m < |g.markers| && k < |g.markers[m].vertices|
    requires |a.res| == NPoint(g) && |sol| == NPoint(g) && |flow| == NPoint(g)
    ensures |r.res| == |a.res|
  {
    var p := g.markers[m].vertices[k].node;
    if !g.domain[p] || kind == HeatEquation then a
    else
      var t := numerics(OutletInput(g, sol, flow, charac, m, k));
      Assembly(AddBlock(a.res, p, t.residual), if implicit then MatAdd(a.jac, p, p, t.jacI) else a.jac, t.jacI)
  }

  function OutletAfter(a: Assembly, g: Geometry, sol: seq<real>, flow: seq<FlowNode>, charac: (nat, nat) -> Vec,
                       numerics: ConvInput -> EdgeTerm, kind: SolverKind, implicit: bool, m: nat, k: nat): (r: Assembly)
    requires Valid(g) && m < |g.markers| && k <= |g.markers[m].vertices|
    requires |a.res| == NPoint(g) && |sol| == NPoint(g) && |flow| == NPoint(g)
    ensures |r.res| == |a.res|
  {
    if k == 0 then a
    else OutletStep(OutletAfter(a, g, sol, flow, charac, numerics, kind, implicit, m, k - 1), g, sol, flow, charac, numerics, kind, implicit, m, k - 1)
  }

  /** The residuals the outlet numerics return at each vertex. */
  function OutletResiduals(g: Geometry, sol: seq<real>, flow: seq<FlowNode>, charac: (nat, nat) -> Vec,
                           numerics: ConvInput -> EdgeTerm, m: nat): (r: seq<real>)
    requires Valid(g) && m < |g.markers| && |sol| == NPoint(g) && |flow| == NPoint(g)
    ensures PerVertex(g, m, r)
  {
    seq(|g.markers[m].vertices|, k requires 0 <= k < |g.markers[m].vertices| =>
      numerics(OutletInput(g, sol, flow, charac, m, k)).residual)
  }

  /**
   * Unless the solver is HEAT_EQUATION, each point gains the residuals of
   * its owned outlet vertices; for HEAT_EQUATION the outlet changes nothing.
   */
  lemma {:induction false} OutletResidualAt(a: Assembly, g: Geometry, sol: seq<real>, flow: seq<FlowNode>, charac: (nat, nat) -> Vec,
                                            numerics: ConvInput -> EdgeTerm, kind: SolverKind, implicit: bool, m: nat, k: nat, p: nat)
    requires Valid(g) && m < |g.markers| && k <= |g.markers[m].vertices|
    requires |a.res| == NPoint(g) && |sol| == NPoint(g) && |flow| == NPoint(g) && p < NPoint(g)
    ensures OutletAfter(a, g, sol, flow, charac, numerics, kind, implicit, m, k).res[p]
         == a.res[p] + (if kind == HeatEquation then 0.0 else WallSumAt(g, m, OutletResiduals(g, sol, flow, charac, numerics, m), p, k))
  {
    if k > 0 {
      OutletResidualAt(a, g, sol, flow, charac, numerics, kind, implicit, m, k - 1, p);
      assert ValidVertex(g, g.markers[m].vertices[k - 1]);
    }
  }

  // ---------------------------------------------------------------------
  // CharacPrimVar, written in place by BC_Inlet and BC_Outlet
  // ---------------------------------------------------------------------

  /**
   * Marker m's CharacPrimVar as BC_Inlet leaves it. GetCharacPrimVar hands
   * out the flow solver's own storage, so at an owned vertex next to a flow
   * the prescribed velocity is written into that storage.
   */
  function InletCharac(g: Geometry, charac: (nat, nat) -> Vec, kind: SolverKind, s: InletSettings, m: nat): (r: seq<Vec>)
    requires Valid(g) && m < |g.markers| && InletDefined(kind, s)
    ensures |r| == |g.markers[m].vertices|
  {
    seq(|g.markers[m].vertices|, k requires 0 <= k < |g.markers[m].vertices| =>
      if Owned(g, m, k) && IsFlow(kind) then InletState(charac(m, k), InletSpeed(s), s.flowDir, g.nDim) else charac(m, k))
  }

  /** Marker m's CharacPrimVar as BC_Outlet leaves it: owned vertices take the interior neighbour's velocity. */
  function OutletCharac(g: Geometry, flow: seq<FlowNode>, charac: (nat, nat) -> Vec, kind: SolverKind, m: nat): (r: seq<Vec>)
    requires Valid(g) && m < |g.markers| && |flow| == NPoint(g)
    ensures |r| == |g.markers[m].vertices|
  {
    seq(|g.markers[m].vertices|, k requires 0 <= k < |g.markers[m].vertices| =>
      var v := g.markers[m].vertices[k];
      assert ValidVertex(g, v);
      if Owned(g, m, k) && kind != HeatEquation then OutletState(charac(m, k), flow[v.normalNeighbor].primitive, g.nDim) else charac(m, k))
  }

  /** The flow solver's CharacPrimVar with marker m's entries replaced by w. */
  function WithMarker(charac: (nat, nat) -> Vec, m: nat, w: seq<Vec>): (nat, nat) -> Vec {
    (m2: nat, k: nat) => if m2 == m && k < |w| then w[k] else charac(m2, k)
  }

  lemma InletStateIdempotent(c: Vec, velMag: real, flowDir: Vec, nDim: nat)
    ensures InletState(InletState(c, velMag, flowDir, nDim), velMag, flowDir, nDim) == InletState(c, velMag, flowDir, nDim)
  {}

  lemma OutletStateIdempotent(c: Vec, neighbour: Vec, nDim: nat)
    ensures OutletState(OutletState(c, neighbour, nDim), neighbour, nDim) == OutletState(c, neighbour, nDim)
  {}

  /** Inlet entries written once are written again unchanged. */
  lemma InletCharacStable(g: Geometry, charac: (nat, nat) -> Vec, kind: SolverKind, s: InletSettings, m: nat)
    requires Valid(g) && m < |g.markers| && InletDefined(kind, s)
    ensures InletCharac(g, WithMarker(charac, m, InletCharac(g, charac, kind, s, m)), kind, s, m) == InletCharac(g, charac, kind, s, m)
  {
    var w := InletCharac(g, charac, kind, s, m);
    var c2 := WithMarker(charac, m, w);
    forall j | 0 <= j < |w| ensures InletCharac(g, c2, kind, s, m)[j] == w[j] {
      if Owned(g, m, j) && IsFlow(kind) {
        InletStateIdempotent(charac(m, j), InletSpeed(s), s.flowDir, g.nDim);
      }
    }
  }

  /** One inlet vertex reads the same state from the written CharacPrimVar. */
  lemma InletStepOnWritten(a: Assembly, g: Geometry, sqrt: real -> real, sol: seq<real>, flow: seq<FlowNode>,
      charac: (nat, nat) -> Vec, numerics: ConvInput -> EdgeTerm, kind: SolverKind, s: InletSettings, m: nat, k: nat)
    requires Valid(g) && m < |g.markers| && k < |g.markers[m].vertices| && DistancesNonZero(g, sqrt, m)
    requires |a.res| == NPoint(g) && |sol| == NPoint(g) && |flow| == NPoint(g) && InletDefined(kind, s)
    ensures var c2 := WithMarker(charac, m, InletCharac(g, charac, kind, s, m));
      InletStep(a, g, sqrt, sol, flow, c2, numerics, kind, s, m, k) == InletStep(a, g, sqrt, sol, flow, charac, numerics, kind, s, m, k)
  {
    var c2 := WithMarker(charac, m, InletCharac(g, charac, kind, s, m));
    if Owned(g, m, k) && IsFlow(kind) {
      InletStateIdempotent(charac(m, k), InletSpeed(s), s.flowDir, g.nDim);
      assert InletConvective(a, g, sol, flow, c2, numerics, kind, s, m, k)
          == InletConvective(a, g, sol, flow, charac, numerics, kind, s, m, k);
    }
  }

  /**
   * The write is harmless to a second call: BC_Inlet run again on the
   * CharacPrimVar it left writes the same entries and assembles the same
   * residual, Jacobian and Jacobian_i.
   */
  lemma {:induction false} InletRerunOnWritten(a: Assembly, g: Geometry, sqrt: real -> real, sol: seq<real>, flow: seq<FlowNode>,
      charac: (nat, nat) -> Vec, numerics: ConvInput -> EdgeTerm, kind: SolverKind, s: InletSettings, m: nat, k: nat)
    requires Valid(g) && m < |g.markers| && k <= |g.markers[m].vertices| && DistancesNonZero(g, sqrt, m)
    requires |a.res| == NPoint(g) && |sol| == NPoint(g) && |flow| == NPoint(g) && InletDefined(kind, s)
    ensures var c2 := WithMarker(charac, m, InletCharac(g, charac, kind, s, m));
      && InletCharac(g, c2, kind, s, m) == InletCharac(g, charac, kind, s, m)
      && InletAfter(a, g, sqrt, sol, flow, c2, numerics, kind, s, m, k) == InletAfter(a, g, sqrt, sol, flow, charac, numerics, kind, s, m, k)
  {
    InletCharacStable(g, charac, kind, s, m);
    if k > 0 {
      InletRerunOnWritten(a, g, sqrt, sol, flow, charac, numerics, kind, s, m, k - 1);
      InletStepOnWritten(InletAfter(a, g, sqrt, sol, flow, charac, numerics, kind, s, m, k - 1), g, sqrt, sol, flow, charac, numerics, kind, s, m, k - 1);
    }
  }

  /** The same for BC_Outlet: a second call on the written CharacPrimVar changes nothing more. */
  lemma {:induction false} OutletRerunOnWritten(a: Assembly, g: Geometry, sol: seq<real>, flow: seq<FlowNode>, charac: (nat, nat) -> Vec,
      numerics: ConvInput -> EdgeTerm, kind: SolverKind, implicit: bool, m: nat, k: nat)
    requires Valid(g) && m < |g.markers| && k <= |g.markers[m].vertices|
    requires |a.res| == NPoint(g) && |sol| == NPoint(g) && |flow| == NPoint(g)
    ensures var c2 := WithMarker(charac, m, OutletCharac(g, flow, charac, kind, m));
      && OutletCharac(g, flow, c2, kind, m) == OutletCharac(g, flow, charac, kind, m)
      && OutletAfter(a, g, sol, flow, c2, numerics, kind, implicit, m, k) == OutletAfter(a, g, sol, flow, charac, numerics, kind, implicit, m, k)
  {
    var w := OutletCharac(g, flow, charac, kind, m);
    var c2 := WithMarker(charac, m, w);
    forall j | 0 <= j < |w| ensures OutletCharac(g, flow, c2, kind, m)[j] == w[j] {
      var v := g.markers[m].vertices[j];
      assert ValidVertex(g, v);
      if Owned(g, m, j) && kind != HeatEquation {
        OutletStateIdempotent(charac(m, j), flow[v.normalNeighbor].primitive, g.nDim);
      }
    }
    if k > 0 {
      OutletRerunOnWritten(a, g, sol, flow, charac, numerics, kind, implicit, m, k - 1);
      var v := g.markers[m].vertices[k - 1];
      assert ValidVertex(g, v);
      if Owned(g, m, k - 1) && kind != HeatEquation {
        OutletStateIdempotent(charac(m, k - 1), flow[v.normalNeighbor].primitive, g.nDim);
        assert OutletInput(g, sol, flow, c2, m, k - 1) == OutletInput(g, sol, flow, charac, m, k - 1);
      }
    }
  }

  // ---------------------------------------------------------------------
  // BC_ConjugateHeat_Interface
  // ---------------------------------------------------------------------

  /** What the interface changes next to a flow: the residual, the Jacobian and the point variables. */
  datatype ChtState = ChtState(res: Vector, jac: Matrix, nodes: seq<HeatNode>)

  /**
   * Next to a flow, one owned interface vertex imposes the conjugate
   * temperature: Solution_Old := T_conjugate/T_ref, the residual block and
   * the truncation error are zeroed, and when implicit the Jacobian row is
   * replaced by the identity row.
   */
  function ChtFlowStep(s: ChtState, g: Geometry, conj: (nat, nat, nat) -> real, tref: real, implicit: bool, m: nat, k: nat): (r: ChtState)
    requires Valid(g) && m < |g.markers| && k < |g.markers[m].vertices| && tref != 0.0
    requires |s.res| == NPoint(g) && |s.nodes| == NPoint(g)
    ensures |r.res| == |s.res| && |r.nodes| == |s.nodes|
  {
    var p := g.markers[m].vertices[k].node;
    if !g.domain[p] then s
    else
      ChtState(SetBlock(s.res, p, 0.0),
               if implicit then DeleteValsRowi(s.jac, p) else s.jac,
               s.nodes[p := s.nodes[p].(solutionOld := conj(m, k, 0) / tref, resTruncError := 0.0)])
  }

  function ChtFlowMarker(s: ChtState, g: Geometry, conj: (nat, nat, nat) -> real, tref: real, implicit: bool, m: nat, k: nat): (r: ChtState)
    requires Valid(g) && m < |g.markers| && k <= |g.markers[m].vertices| && tref != 0.0
    requires |s.res| == NPoint(g) && |s.nodes| == NPoint(g)
    ensures |r.res| == |s.res| && |r.nodes| == |s.nodes|
  {
    if k == 0 then s
    else ChtFlowStep(ChtFlowMarker(s, g, conj, tref, implicit, m, k - 1), g, conj, tref, implicit, m, k - 1)
  }

  /** The interface walks every CHT_WALL_INTERFACE marker among the first mm, whichever marker it was called for. */
  function ChtFlowAfter(s: ChtState, g: Geometry, conj: (nat, nat, nat) -> real, tref: real, implicit: bool, mm: nat): (r: ChtState)
    requires Valid(g) && mm <= |g.markers| && tref != 0.0
    requires |s.res| == NPoint(g) && |s.nodes| == NPoint(g)
    ensures |r.res| == |s.res| && |r.nodes| == |s.nodes|
  {
    if mm == 0 then s
    else
      var prev := ChtFlowAfter(s, g, conj, tref, implicit, mm - 1);
      if g.markers[mm - 1].kind == ChtInterface then ChtFlowMarker(prev, g, conj, tref, implicit, mm - 1, |g.markers[mm - 1].vertices|)
      else prev
  }

  /** Point p carries the interface condition: zero residual and truncation error, and an identity row when implicit. */
  ghost predicate Cleared(s: ChtState, p: nat, implicit: bool)
    requires p < |s.res| && p < |s.nodes|
  {
    && s.res[p] == 0.0
    && s.nodes[p].resTruncError == 0.0
    && (implicit ==> forall b: nat :: Get(s.jac, p, b) == if b == p then 1.0 else 0.0)
  }

  lemma ChtStepKeepsCleared(s: ChtState, g: Geometry, conj: (nat, nat, nat) -> real, tref: real, implicit: bool, m: nat, k: nat, p: nat)
    requires Valid(g) && m < |g.markers| && k < |g.markers[m].vertices| && tref != 0.0
    requires |s.res| == NPoint(g) && |s.nodes| == NPoint(g) && p < NPoint(g)
    requires Cleared(s, p, implicit)
    ensures Cleared(ChtFlowStep(s, g, conj, tref, implicit, m, k), p, implicit)
  {
    assert ValidVertex(g, g.markers[m].vertices[k]);
  }

  lemma {:induction false} ChtMarkerKeepsCleared(s: ChtState, g: Geometry, conj: (nat, nat, nat) -> real, tref: real, implicit: bool, m: nat, k: nat, p: nat)
    requires Valid(g) && m < |g.markers| && k <= |g.markers[m].vertices| && tref != 0.0
    requires |s.res| == NPoint(g) && |s.nodes| == NPoint(g) && p < NPoint(g)
    requires Cleared(s, p, implicit)
    ensures Cleared(ChtFlowMarker(s, g, conj, tref, implicit, m, k), p, implicit)
  {
    if k > 0 {
      ChtMarkerKeepsCleared(s, g, conj, tref, implicit, m, k - 1, p);
      ChtStepKeepsCleared(ChtFlowMarker(s, g, conj, tref, implicit, m, k - 1), g, conj, tref, implicit, m, k - 1, p);
    }
  }

  /** After a marker, the point of each of its owned vertices is cleared. */
  lemma {:induction false} ChtMarkerClears(s: ChtState, g: Geometry, conj: (nat, nat, nat) -> real, tref: real, implicit: bool, m: nat, k: nat, i: nat)
    requires Valid(g) && m < |g.markers| && k <= |g.markers[m].vertices| && tref != 0.0
    requires |s.res| == NPoint(g) && |s.nodes| == NPoint(g)
    requires i < k && Owned(g, m, i)
    ensures g.markers[m].vertices[i].node < NPoint(g)
    ensures Cleared(ChtFlowMarker(s, g, conj, tref, implicit, m, k), g.markers[m].vertices[i].node, implicit)
  {
    assert ValidVertex(g, g.markers[m].vertices[i]);
    var p := g.markers[m].vertices[i].node;
    var prev := ChtFlowMarker(s, g, conj, tref, implicit, m, k - 1);
    if i == k - 1 {
      assert Cleared(ChtFlowStep(prev, g, conj, tref, implicit, m, i), p, implicit);
    } else {
      ChtMarkerClears(s, g, conj, tref, implicit, m, k - 1, i);
      ChtStepKeepsCleared(prev, g, conj, tref, implicit, m, k - 1, p);
    }
  }

  lemma {:induction false} ChtAllKeepsCleared(s: ChtState, g: Geometry, conj: (nat, nat, nat) -> real, tref: real, implicit: bool, mm: nat, p: nat)
    requires Valid(g) && mm <= |g.markers| && tref != 0.0
    requires |s.res| == NPoint(g) && |s.nodes| == NPoint(g) && p < NPoint(g)
    requires Cleared(s, p, implicit)
    ensures Cleared(ChtFlowAfter(s, g, conj, tref, implicit, mm), p, implicit)
  {
    if mm > 0 {
      ChtAllKeepsCleared(s, g, conj, tref, implicit, mm - 1, p);
      if g.markers[mm - 1].kind == ChtInterface {
        ChtMarkerKeepsCleared(ChtFlowAfter(s, g, conj, tref, implicit, mm - 1), g, conj, tref, implicit,
                              mm - 1, |g.markers[mm - 1].vertices|, p);
      }
    }
  }

  /**
   * Next to a flow, after the interface pass every owned vertex of every
   * CHT marker carries the interface condition: zero residual and
   * truncation error and, when implicit, an identity Jacobian row; later
   * vertices never undo what an earlier vertex imposed.
   */
  lemma {:induction false} ChtFlowClearsRows(s: ChtState, g: Geometry, conj: (nat, nat, nat) -> real, tref: real, implicit: bool,
                                             mm: nat, m: nat, i: nat)
    requires Valid(g) && mm <= |g.markers| && tref != 0.0
    requires |s.res| == NPoint(g) && |s.nodes| == NPoint(g)
    requires m < mm && g.markers[m].kind == ChtInterface && i < |g.markers[m].vertices| && Owned(g, m, i)
    ensures g.markers[m].vertices[i].node < NPoint(g)
    ensures Cleared(ChtFlowAfter(s, g, conj, tref, implicit, mm), g.markers[m].vertices[i].node, implicit)
  {
    assert ValidVertex(g, g.markers[m].vertices[i]);
    var p := g.markers[m].vertices[i].node;
    var prev := ChtFlowAfter(s, g, conj, tref, implicit, mm - 1);
    if m == mm - 1 {
      ChtMarkerClears(prev, g, conj, tref, implicit, m, |g.markers[m].vertices|, i);
    } else {
      ChtFlowClearsRows(s, g, conj, tref, implicit, mm - 1, m, i);
      if g.markers[mm - 1].kind == ChtInterface {
        ChtMarkerKeepsCleared(prev, g, conj, tref, implicit, mm - 1, |g.markers[mm - 1].vertices|, p);
      }
    }
  }

  /** The conductance conj(m,k,2)/(rho_s cp_s) the solid side applies at each vertex of marker m. */
  function ChtConductances(g: Geometry, conj: (nat, nat, nat) -> real, rhoCp: real, m: nat): (r: seq<real>)
    requires Valid(g) && m < |g.markers| && rhoCp != 0.0
    ensures PerVertex(g, m, r)
  {
    seq(|g.markers[m].vertices|, k requires 0 <= k < |g.markers[m].vertices| => conj(m, k, 2) / rhoCp)
  }

  /**
   * In a solid, Res_Visc = -Conductance (T_interface - T_normal_conjugate/T_ref) Area,
   * which is subtracted, at every owned vertex.
   */
  function ChtSolidFluxes(g: Geometry, sqrt: real -> real, sol: seq<real>, conj: (nat, nat, nat) -> real,
                          tref: real, rhoCp: real, m: nat): (r: seq<real>)
    requires Valid(g) && m < |g.markers| && |sol| == NPoint(g) && tref != 0.0 && rhoCp != 0.0
    ensures PerVertex(g, m, r)
  {
    var cond := ChtConductances(g, conj, rhoCp, m);
    var areas := Areas(g, sqrt, m);
    seq(|g.markers[m].vertices|, k requires 0 <= k < |g.markers[m].vertices| =>
      -(cond[k] * (sol[g.markers[m].vertices[k].node] - conj(m, k, 3) / tref) * areas[k]))
  }

  /** Jacobian_i[0][0] = Conductance Area, subtracted from the diagonal when implicit. */
  function ChtSolidJacobians(g: Geometry, sqrt: real -> real, conj: (nat, nat, nat) -> real, rhoCp: real, m: nat): (r: seq<real>)
    requires Valid(g) && m < |g.markers| && rhoCp != 0.0
    ensures PerVertex(g, m, r)
  {
    var cond := ChtConductances(g, conj, rhoCp, m);
    var areas := Areas(g, sqrt, m);
    seq(|g.markers[m].vertices|, k requires 0 <= k < |g.markers[m].vertices| => cond[k] * areas[k])
  }

  /** The solid side on one CHT marker: the generic passes; Jacobian_i is written only when implicit. */
  function ChtSolidMarker(a: Assembly, g: Geometry, sqrt: real -> real, sol: seq<real>, conj: (nat, nat, nat) -> real,
                          tref: real, rhoCp: real, implicit: bool, m: nat): (r: Assembly)
    requires Valid(g) && m < |g.markers| && |sol| == NPoint(g) && |a.res| == NPoint(g) && tref != 0.0 && rhoCp != 0.0
    ensures |r.res| == |a.res|
  {
    var n := |g.markers[m].vertices|;
    var jacs := ChtSolidJacobians(g, sqrt, conj, rhoCp, m);
    Assembly(WallResidualAfter(a.res, g, m, ChtSolidFluxes(g, sqrt, sol, conj, tref, rhoCp, m), n),
             if implicit then WallDiagonalAfter(a.jac, g, m, jacs, n) else a.jac,
             if implicit then LastOwned(a.jacI, g, m, jacs, n) else a.jacI)
  }

  /** In a solid, the interface walks every CHT_WALL_INTERFACE marker among the first mm. */
  function ChtSolidAfter(a: Assembly, g: Geometry, sqrt: real -> real, sol: seq<real>, conj: (nat, nat, nat) -> real,
                         tref: real, rhoCp: real, implicit: bool, mm: nat): (r: Assembly)
    requires Valid(g) && mm <= |g.markers| && |sol| == NPoint(g) && |a.res| == NPoint(g) && tref != 0.0 && rhoCp != 0.0
    ensures |r.res| == |a.res|
  {
    if mm == 0 then a
    else
      var prev := ChtSolidAfter(a, g, sqrt, sol, conj, tref, rhoCp, implicit, mm - 1);
      if g.markers[mm - 1].kind == ChtInterface then ChtSolidMarker(prev, g, sqrt, sol, conj, tref, rhoCp, implicit, mm - 1)
      else prev
  }

  /** At interface equilibrium on marker m the residual is unchanged. */
  lemma ChtSolidMarkerEquilibrium(a: Assembly, g: Geometry, sqrt: real -> real, sol: seq<real>, conj: (nat, nat, nat) -> real,
                                  tref: real, rhoCp: real, implicit: bool, m: nat)
    requires Valid(g) && m < |g.markers| && |sol| == NPoint(g) && |a.res| == NPoint(g) && tref != 0.0 && rhoCp != 0.0
    requires forall k :: 0 <= k < |g.markers[m].vertices| && Owned(g, m, k) ==>
      sol[g.markers[m].vertices[k].node] == conj(m, k, 3) / tref
    ensures ChtSolidMarker(a, g, sqrt, sol, conj, tref, rhoCp, implicit, m).res == a.res
  {
    var n := |g.markers[m].vertices|;
    var vals := ChtSolidFluxes(g, sqrt, sol, conj, tref, rhoCp, m);
    forall i | 0 <= i < n && Owned(g, m, i) ensures vals[i] == 0.0 {
      assert ValidVertex(g, g.markers[m].vertices[i]);
      var t := sol[g.markers[m].vertices[i].node];
      assert -(ChtConductances(g, conj, rhoCp, m)[i] * (t - conj(m, i, 3) / tref) * Areas(g, sqrt, m)[i]) == 0.0;
    }
    var after := WallResidualAfter(a.res, g, m, vals, n);
    forall p | 0 <= p < |a.res| ensures after[p] == a.res[p] {
      WallResidualAt(a.res, g, m, vals, n, p);
      WallSumOwnedZero(g, m, vals, p, n);
    }
  }

  /** Values that are zero at every owned vertex change nothing at any point. */
  lemma {:induction false} WallSumOwnedZero(g: Geometry, m: nat, vals: seq<real>, p: nat, k: nat)
    requires PerVertex(g, m, vals) && k <= |vals|
    requires forall i :: 0 <= i < |vals| && Owned(g, m, i) ==> vals[i] == 0.0
    ensures WallSumAt(g, m, vals, p, k) == 0.0
  {
    if k > 0 {
      WallSumOwnedZero(g, m, vals, p, k - 1);
    }
  }

  /**
   * In a solid, when every owned interface point is at the temperature the
   * other zone reports for its normal neighbour, the interface pass leaves
   * the residual as it was: no heat crosses an interface in equilibrium.
   */
  lemma {:induction false} ChtSolidEquilibrium(a: Assembly, g: Geometry, sqrt: real -> real, sol: seq<real>, conj: (nat, nat, nat) -> real,
                                               tref: real, rhoCp: real, implicit: bool, mm: nat)
    requires Valid(g) && mm <= |g.markers| && |sol| == NPoint(g) && |a.res| == NPoint(g) && tref != 0.0 && rhoCp != 0.0
    requires forall m, k :: 0 <= m < |g.markers| && g.markers[m].kind == ChtInterface
                            && 0 <= k < |g.markers[m].vertices| && Owned(g, m, k) ==>
      sol[g.markers[m].vertices[k].node] == conj(m, k, 3) / tref
    ensures ChtSolidAfter(a, g, sqrt, sol, conj, tref, rhoCp, implicit, mm).res == a.res
  {
    if mm > 0 {
      ChtSolidEquilibrium(a, g, sqrt, sol, conj, tref, rhoCp, implicit, mm - 1);
      if g.markers[mm - 1].kind == ChtInterface {
        ChtSolidMarkerEquilibrium(ChtSolidAfter(a, g, sqrt, sol, conj, tref, rhoCp, implicit, mm - 1),
                                  g, sqrt, sol, conj, tref, rhoCp, implicit, mm - 1);
      }
    }
  }

  // ---------------------------------------------------------------------
  // Set_Heatflux_Areas
  // ---------------------------------------------------------------------

  /** Local_Surface_Areas per heat-flux marker and Local_HeatFlux_Areas_Monitor. */
  datatype AreaTally = AreaTally(areas: seq<real>, monitor: real)

  /**
   * Marker m against heat-flux marker h: on matching tags, Surface_Areas[h]
   * is reset and set to the marker's owned area, and a monitored marker
   * adds that area to the monitored total once more for every match.
   */
  function AreaTallyStep(t: AreaTally, g: Geometry, sqrt: real -> real, hfTags: seq<string>, m: nat, h: nat): (r: AreaTally)
    requires Valid(g) && m < |g.markers| && h < |hfTags| && |t.areas| == |hfTags|
    ensures |r.areas| == |t.areas|
  {
    if g.markers[m].tag == hfTags[h] then
      var area := OwnedArea(g, sqrt, m);
      AreaTally(t.areas[h := area], t.monitor + (if g.markers[m].monitoring then area else 0.0))
    else t
  }

  /** Marker m against the first hh heat-flux markers. */
  function AreaTallyMarker(t: AreaTally, g: Geometry, sqrt: real -> real, hfTags: seq<string>, m: nat, hh: nat): (r: AreaTally)
    requires Valid(g) && m < |g.markers| && hh <= |hfTags| && |t.areas| == |hfTags|
    ensures |r.areas| == |t.areas|
  {
    if hh == 0 then t
    else AreaTallyStep(AreaTallyMarker(t, g, sqrt, hfTags, m, hh - 1), g, sqrt, hfTags, m, hh - 1)
  }

  /** The first mm markers against every heat-flux marker. */
  function AreaTallyAfter(t: AreaTally, g: Geometry, sqrt: real -> real, hfTags: seq<string>, mm: nat): (r: AreaTally)
    requires Valid(g) && mm <= |g.markers| && |t.areas| == |hfTags|
    ensures |r.areas| == |t.areas|
  {
    if mm == 0 then t
    else AreaTallyMarker(AreaTallyAfter(t, g, sqrt, hfTags, mm - 1), g, sqrt, hfTags, mm - 1, |hfTags|)
  }

  /** What Set_Heatflux_Areas computes, from zeroed tallies. */
  function HeatFluxAreas(g: Geometry, sqrt: real -> real, hfTags: seq<string>): (r: AreaTally)
    requires Valid(g)
    ensures |r.areas| == |hfTags|
  {
    AreaTallyAfter(AreaTally(seq(|hfTags|, h => 0.0), 0.0), g, sqrt, hfTags, |g.markers|)
  }

  /** A tag's owned area taken once for every heat-flux marker among the first n that carries the tag. */
  function MatchArea(tag: string, area: real, hfTags: seq<string>, n: nat): real
    requires n <= |hfTags|
  {
    if n == 0 then 0.0 else MatchArea(tag, area, hfTags, n - 1) + (if hfTags[n - 1] == tag then area else 0.0)
  }

  /** The monitored area of the first mm markers as Set_Heatflux_Areas counts it. */
  function MonitorShare(g: Geometry, sqrt: real -> real, hfTags: seq<string>, mm: nat): real
    requires Valid(g) && mm <= |g.markers|
  {
    if mm == 0 then 0.0
    else
      MonitorShare(g, sqrt, hfTags, mm - 1)
      + (if g.markers[mm - 1].monitoring then MatchArea(g.markers[mm - 1].tag, OwnedArea(g, sqrt, mm - 1), hfTags, |hfTags|) else 0.0)
  }

  /** What one marker does to the tallies: the matching entries become its area, the monitor gains its matches. */
  lemma {:induction false} AreaTallyMarkerEffect(t: AreaTally, g: Geometry, sqrt: real -> real, hfTags: seq<string>, m: nat, hh: nat)
    requires Valid(g) && m < |g.markers| && hh <= |hfTags| && |t.areas| == |hfTags|
    ensures var r := AreaTallyMarker(t, g, sqrt, hfTags, m, hh);
      && (forall h :: 0 <= h < |hfTags| ==>
            r.areas[h] == if h < hh && hfTags[h] == g.markers[m].tag then OwnedArea(g, sqrt, m) else t.areas[h])
      && r.monitor == t.monitor
           + (if g.markers[m].monitoring then MatchArea(g.markers[m].tag, OwnedArea(g, sqrt, m), hfTags, hh) else 0.0)
  {
    if hh > 0 {
      AreaTallyMarkerEffect(t, g, sqrt, hfTags, m, hh - 1);
    }
  }

  /**
   * A heat-flux marker whose tag only marker m0 carries ends with m0's owned
   * area once m0 has been visited, and keeps its start value before.
   */
  lemma {:induction false} AreaOfUniqueTag(t: AreaTally, g: Geometry, sqrt: real -> real, hfTags: seq<string>, mm: nat, h: nat, m0: nat)
    requires Valid(g) && mm <= |g.markers| && |t.areas| == |hfTags| && h < |hfTags|
    requires m0 < |g.markers| && g.markers[m0].tag == hfTags[h]
    requires forall m :: 0 <= m < |g.markers| && g.markers[m].tag == hfTags[h] ==> m == m0
    ensures AreaTallyAfter(t, g, sqrt, hfTags, mm).areas[h] == if m0 < mm then OwnedArea(g, sqrt, m0) else t.areas[h]
  {
    if mm > 0 {
      AreaOfUniqueTag(t, g, sqrt, hfTags, mm - 1, h, m0);
      AreaTallyMarkerEffect(AreaTallyAfter(t, g, sqrt, hfTags, mm - 1), g, sqrt, hfTags, mm - 1, |hfTags|);
    }
  }

  /** A heat-flux marker whose tag no marker carries keeps its start value. */
  lemma {:induction false} AreaOfUnusedTag(t: AreaTally, g: Geometry, sqrt: real -> real, hfTags: seq<string>, mm: nat, h: nat)
    requires Valid(g) && mm <= |g.markers| && |t.areas| == |hfTags| && h < |hfTags|
    requires forall m :: 0 <= m < |g.markers| ==> g.markers[m].tag != hfTags[h]
    ensures AreaTallyAfter(t, g, sqrt, hfTags, mm).areas[h] == t.areas[h]
  {
    if mm > 0 {
      AreaOfUnusedTag(t, g, sqrt, hfTags, mm - 1, h);
      AreaTallyMarkerEffect(AreaTallyAfter(t, g, sqrt, hfTags, mm - 1), g, sqrt, hfTags, mm - 1, |hfTags|);
    }
  }

  /** The monitored total grows by MonitorShare. */
  lemma {:induction false} AreaTallyMonitor(t: AreaTally, g: Geometry, sqrt: real -> real, hfTags: seq<string>, mm: nat)
    requires Valid(g) && mm <= |g.markers| && |t.areas| == |hfTags|
    ensures AreaTallyAfter(t, g, sqrt, hfTags, mm).monitor == t.monitor + MonitorShare(g, sqrt, hfTags, mm)
  {
    if mm > 0 {
      AreaTallyMonitor(t, g, sqrt, hfTags, mm - 1);
      AreaTallyMarkerEffect(AreaTallyAfter(t, g, sqrt, hfTags, mm - 1), g, sqrt, hfTags, mm - 1, |hfTags|);
    }
  }

  /** A tag carried by exactly one heat-flux marker counts its area once; an unlisted tag counts nothing. */
  lemma {:induction false} MatchAreaOnce(tag: string, area: real, hfTags: seq<string>, n: nat)
    requires n <= |hfTags|
    requires forall i, j :: 0 <= i < j < |hfTags| ==> hfTags[i] != hfTags[j]
    ensures MatchArea(tag, area, hfTags, n) == if tag in hfTags[..n] then area else 0.0
  {
    if n > 0 {
      MatchAreaOnce(tag, area, hfTags, n - 1);
      assert hfTags[..n] == hfTags[..n - 1] + [hfTags[n - 1]];
    }
  }

  /** The owned area of each marker that is a heat-flux wall, 0 for the others. */
  function HeatFluxWallAreas(g: Geometry, sqrt: real -> real): (r: seq<real>)
    requires Valid(g)
    ensures |r| == |g.markers|
  {
    seq(|g.markers|, m requires 0 <= m < |g.markers| =>
      if g.markers[m].kind == HeatFluxWall then OwnedArea(g, sqrt, m) else 0.0)
  }

  /**
   * The configuration is consistent when the heat-flux tags are distinct and
   * a marker's tag is listed exactly when the marker is a heat-flux wall.
   */
  predicate HeatFluxTagsConsistent(g: Geometry, hfTags: seq<string>) {
    && (forall i, j :: 0 <= i < j < |hfTags| ==> hfTags[i] != hfTags[j])
    && (forall m :: 0 <= m < |g.markers| ==> (g.markers[m].tag in hfTags <==> g.markers[m].kind == HeatFluxWall))
  }

  /** With a consistent configuration the monitored area is that of the monitored heat-flux walls. */
  lemma {:induction false} MonitorShareConsistent(g: Geometry, sqrt: real -> real, hfTags: seq<string>, mm: nat)
    requires Valid(g) && mm <= |g.markers| && HeatFluxTagsConsistent(g, hfTags)
    ensures MonitorShare(g, sqrt, hfTags, mm) == MonitoredSum(g, HeatFluxWallAreas(g, sqrt), mm)
  {
    if mm > 0 {
      MonitorShareConsistent(g, sqrt, hfTags, mm - 1);
      MatchAreaOnce(g.markers[mm - 1].tag, OwnedArea(g, sqrt, mm - 1), hfTags, |hfTags|);
      assert hfTags[..|hfTags|] == hfTags;
    }
  }

  // ---------------------------------------------------------------------
  // Heat_Fluxes
  // ---------------------------------------------------------------------

  /** The constants Heat_Fluxes reads from the configuration. */
  datatype FluxSettings = FluxSettings(viscosityFreeStreamND: real, prandtlLam: real, diffusivitySolid: real, refs: HeatRefs)

  /** Dimensional conductivity: (mu_inf/Pr_lam) mu_ref cp next to a flow, alpha_s cp_s rho_s in a solid. */
  function Conductivity(flowCase: bool, s: FluxSettings): real
    requires flowCase ==> s.prandtlLam != 0.0
  {
    if flowCase then s.viscosityFreeStreamND / s.prandtlLam * s.refs.viscosityRef * s.refs.cp
    else s.diffusivitySolid * (s.refs.cpSolid * s.refs.densitySolid)
  }

  /** k dT/dn T_ref Area with dT/dn = (T_wall - T_normal)/dist. */
  function WallHeatFlux(kc: real, twall: real, tNormal: real, dist: real, tref: real, area: real): real
    requires dist != 0.0
  {
    kc * ((twall - tNormal) / dist) * tref * area
  }

  /** The reported flux is the isothermal residual formula with the dimensional conductivity k T_ref. */
  lemma WallHeatFluxIsResidual(kc: real, twall: real, tNormal: real, dist: real, tref: real, area: real)
    requires dist != 0.0
    ensures WallHeatFlux(kc, twall, tNormal, dist, tref, area) == IsothermalFlux(kc * tref, twall, tNormal, dist, area)
  {
    var q := (twall - tNormal) / dist;
    assert -(tNormal - twall) / dist == q;
    assert kc * q * tref * area == (kc * tref) * q * area;
  }

  /** The wall temperature a marker reports with: the configured one on an isothermal wall, the solution elsewhere. */
  function WallTemperatures(g: Geometry, sol: seq<real>, tref: real, isothermalTemp: string -> real, m: nat): (r: seq<real>)
    requires Valid(g) && m < |g.markers| && |sol| == NPoint(g) && tref != 0.0
    ensures PerVertex(g, m, r)
  {
    seq(|g.markers[m].vertices|, k requires 0 <= k < |g.markers[m].vertices| =>
      if g.markers[m].kind == Isothermal then isothermalTemp(g.markers[m].tag) / tref
      else sol[g.markers[m].vertices[k].node])
  }

  /** The heat flux of each owned vertex of marker m. */
  function VertexHeatFluxes(g: Geometry, sqrt: real -> real, sol: seq<real>, kc: real, tref: real,
                            isothermalTemp: string -> real, m: nat): (r: seq<real>)
    requires Valid(g) && m < |g.markers| && |sol| == NPoint(g) && tref != 0.0 && DistancesNonZero(g, sqrt, m)
    ensures PerVertex(g, m, r)
  {
    var tw := WallTemperatures(g, sol, tref, isothermalTemp, m);
    seq(|g.markers[m].vertices|, k requires 0 <= k < |g.markers[m].vertices| =>
      if Owned(g, m, k) then
        var v := g.markers[m].vertices[k];
        WallHeatFlux(kc, tw[k], sol[v.normalNeighbor], WallDistance(g, sqrt, v), tref, Area(sqrt, v.normal))
      else 0.0)
  }

  /** The distances Heat_Fluxes divides by are non-zero on every wall it integrates over. */
  predicate FluxDistancesNonZero(g: Geometry, sqrt: real -> real)
    requires Valid(g)
  {
    forall m :: 0 <= m < |g.markers| && g.markers[m].kind in {Isothermal, ChtInterface, HeatFluxWall} ==>
      DistancesNonZero(g, sqrt, m)
  }

  /** Heat_Flux[m]: the integrated heat flux over the owned vertices of isothermal, CHT and heat-flux walls, else 0. */
  function MarkerHeatFlux(g: Geometry, sqrt: real -> real, sol: seq<real>, kc: real, tref: real,
                          isothermalTemp: string -> real, m: nat): real
    requires Valid(g) && m < |g.markers| && |sol| == NPoint(g) && tref != 0.0 && FluxDistancesNonZero(g, sqrt)
  {
    if g.markers[m].kind in {Isothermal, ChtInterface, HeatFluxWall} then
      WallTotal(g, m, VertexHeatFluxes(g, sqrt, sol, kc, tref, isothermalTemp, m), |g.markers[m].vertices|)
    else 0.0
  }

  /** AvgTemperature[m]: the area-weighted dimensional temperature, on heat-flux walls only. */
  function MarkerAvgTemperature(g: Geometry, sqrt: real -> real, sol: seq<real>, tref: real, m: nat): real
    requires Valid(g) && m < |g.markers| && |sol| == NPoint(g)
  {
    if g.markers[m].kind == HeatFluxWall then
      WallTotal(g, m, WeightedTemperatures(g, sqrt, sol, tref, m), |g.markers[m].vertices|)
    else 0.0
  }

  /** T T_ref Area at every vertex of marker m. */
  function WeightedTemperatures(g: Geometry, sqrt: real -> real, sol: seq<real>, tref: real, m: nat): (r: seq<real>)
    requires Valid(g) && m < |g.markers| && |sol| == NPoint(g)
    ensures PerVertex(g, m, r)
  {
    var areas := Areas(g, sqrt, m);
    seq(|areas|, k requires 0 <= k < |areas| => sol[g.markers[m].vertices[k].node] * tref * areas[k])
  }

  /** The sum of vals over the monitored markers among the first mm (AllBound_...). */
  function MonitoredSum(g: Geometry, vals: seq<real>, mm: nat): real
    requires mm <= |g.markers| && |vals| == |g.markers|
  {
    if mm == 0 then 0.0
    else MonitoredSum(g, vals, mm - 1) + (if g.markers[mm - 1].monitoring then vals[mm - 1] else 0.0)
  }

  /** Total_AvgTemperature: the monitored weighted temperature over the monitored heat-flux area, 0 without such area. */
  function TotalAvgTemperature(allBoundAvg: real, monitorArea: real): real {
    if monitorArea != 0.0 then allBoundAvg / monitorArea else 0.0
  }

  /** A wall whose owned points are all at the wall temperature of their neighbours reports no heat flux. */
  lemma HeatFluxVanishesInEquilibrium(g: Geometry, sqrt: real -> real, sol: seq<real>, kc: real, tref: real,
                                      isothermalTemp: string -> real, m: nat)
    requires Valid(g) && m < |g.markers| && |sol| == NPoint(g) && tref != 0.0 && FluxDistancesNonZero(g, sqrt)
    requires forall k :: 0 <= k < |g.markers[m].vertices| && Owned(g, m, k) ==>
      sol[g.markers[m].vertices[k].normalNeighbor] == WallTemperatures(g, sol, tref, isothermalTemp, m)[k]
    ensures MarkerHeatFlux(g, sqrt, sol, kc, tref, isothermalTemp, m) == 0.0
  {
    if g.markers[m].kind in {Isothermal, ChtInterface, HeatFluxWall} {
      var vals := VertexHeatFluxes(g, sqrt, sol, kc, tref, isothermalTemp, m);
      var n := |g.markers[m].vertices|;
      forall k | 0 <= k < n && Owned(g, m, k) ensures vals[k] == 0.0 * vals[k] {
        assert ValidVertex(g, g.markers[m].vertices[k]);
      }
      WallTotalScaled(g, m, vals, vals, 0.0, n);
    }
  }

  /** On a wall uniformly at temperature T each owned weight is T T_ref times the vertex area. */
  lemma UniformWeights(g: Geometry, sqrt: real -> real, sol: seq<real>, tref: real, temp: real, m: nat)
    requires Valid(g) && m < |g.markers| && |sol| == NPoint(g)
    requires forall k :: 0 <= k < |g.markers[m].vertices| && Owned(g, m, k) ==> sol[g.markers[m].vertices[k].node] == temp
    ensures forall k :: 0 <= k < |g.markers[m].vertices| && Owned(g, m, k) ==>
      WeightedTemperatures(g, sqrt, sol, tref, m)[k] == (temp * tref) * Areas(g, sqrt, m)[k]
  {
    var areas := Areas(g, sqrt, m);
    var vals := WeightedTemperatures(g, sqrt, sol, tref, m);
    forall k | 0 <= k < |areas| && Owned(g, m, k) ensures vals[k] == (temp * tref) * areas[k] {
      assert ValidVertex(g, g.markers[m].vertices[k]);
    }
  }

  /** A heat-flux wall uniformly at temperature T reports T T_ref times its owned area. */
  lemma UniformWallAverage(g: Geometry, sqrt: real -> real, sol: seq<real>, tref: real, temp: real, m: nat)
    requires Valid(g) && m < |g.markers| && |sol| == NPoint(g) && g.markers[m].kind == HeatFluxWall
    requires forall k :: 0 <= k < |g.markers[m].vertices| && Owned(g, m, k) ==> sol[g.markers[m].vertices[k].node] == temp
    ensures MarkerAvgTemperature(g, sqrt, sol, tref, m) == temp * tref * OwnedArea(g, sqrt, m)
  {
    UniformWeights(g, sqrt, sol, tref, temp, m);
    var areas := Areas(g, sqrt, m);
    var vals := WeightedTemperatures(g, sqrt, sol, tref, m);
    WallTotalScaled(g, m, areas, vals, temp * tref, |areas|);
  }

  /** Temperature on the owned points of every monitored heat-flux wall. */
  predicate MonitoredWallsAt(g: Geometry, sol: seq<real>, temp: real)
    requires Valid(g) && |sol| == NPoint(g)
  {
    forall m, k :: 0 <= m < |g.markers| && g.markers[m].monitoring && g.markers[m].kind == HeatFluxWall
                   && 0 <= k < |g.markers[m].vertices| && Owned(g, m, k) ==>
      sol[g.markers[m].vertices[k].node] == temp
  }

  function AvgTemperatures(g: Geometry, sqrt: real -> real, sol: seq<real>, tref: real): (r: seq<real>)
    requires Valid(g) && |sol| == NPoint(g)
    ensures |r| == |g.markers|
  {
    seq(|g.markers|, m requires 0 <= m < |g.markers| => MarkerAvgTemperature(g, sqrt, sol, tref, m))
  }

  /** Heat_Flux over all markers. */
  function MarkerHeatFluxes(g: Geometry, sqrt: real -> real, sol: seq<real>, kc: real, tref: real,
                            isothermalTemp: string -> real): (r: seq<real>)
    requires Valid(g) && |sol| == NPoint(g) && tref != 0.0 && FluxDistancesNonZero(g, sqrt)
    ensures |r| == |g.markers|
  {
    seq(|g.markers|, m requires 0 <= m < |g.markers| => MarkerHeatFlux(g, sqrt, sol, kc, tref, isothermalTemp, m))
  }

  /** Every value multiplied by c. */
  function Scaled(c: real, vals: seq<real>): (r: seq<real>)
    ensures |r| == |vals|
  {
    seq(|vals|, i requires 0 <= i < |vals| => c * vals[i])
  }

  /** Scaling every value scales the monitored sum. */
  lemma {:induction false} MonitoredSumScaled(g: Geometry, vals: seq<real>, c: real, mm: nat)
    requires mm <= |g.markers| && |vals| == |g.markers|
    ensures MonitoredSum(g, Scaled(c, vals), mm) == c * MonitoredSum(g, vals, mm)
  {
    if mm > 0 {
      MonitoredSumScaled(g, vals, c, mm - 1);
    }
  }

  /** Monitored sums depend only on the monitored markers' values. */
  lemma {:induction false} MonitoredSumAgree(g: Geometry, a: seq<real>, b: seq<real>, mm: nat)
    requires mm <= |g.markers| && |a| == |g.markers| && |b| == |g.markers|
    requires forall m :: 0 <= m < |g.markers| && g.markers[m].monitoring ==> a[m] == b[m]
    ensures MonitoredSum(g, a, mm) == MonitoredSum(g, b, mm)
  {
    if mm > 0 {
      MonitoredSumAgree(g, a, b, mm - 1);
    }
  }

  /** Monitored heat-flux walls uniformly at T sum to T T_ref times their area. */
  lemma MonitoredAverageUniform(g: Geometry, sqrt: real -> real, sol: seq<real>, tref: real, temp: real)
    requires Valid(g) && |sol| == NPoint(g) && MonitoredWallsAt(g, sol, temp)
    ensures MonitoredSum(g, AvgTemperatures(g, sqrt, sol, tref), |g.markers|)
         == MonitoredSum(g, Scaled(temp * tref, HeatFluxWallAreas(g, sqrt)), |g.markers|)
  {
    var avg := AvgTemperatures(g, sqrt, sol, tref);
    var scaled := Scaled(temp * tref, HeatFluxWallAreas(g, sqrt));
    forall m | 0 <= m < |g.markers| && g.markers[m].monitoring ensures avg[m] == scaled[m] {
      if g.markers[m].kind == HeatFluxWall {
        UniformWallAverage(g, sqrt, sol, tref, temp, m);
      }
    }
    MonitoredSumAgree(g, avg, scaled, |g.markers|);
  }

  /**
   * With a consistent heat-flux configuration, when every monitored
   * heat-flux wall sits at one temperature T (non-dimensional), the
   * reported average temperature is T T_ref, provided the monitored area is
   * non-zero: Set_Heatflux_Areas and Heat_Fluxes weigh the same walls by
   * the same areas.
   */
  lemma AverageOfUniformWalls(g: Geometry, sqrt: real -> real, sol: seq<real>, hfTags: seq<string>, tref: real, temp: real)
    requires Valid(g) && |sol| == NPoint(g) && HeatFluxTagsConsistent(g, hfTags) && MonitoredWallsAt(g, sol, temp)
    requires HeatFluxAreas(g, sqrt, hfTags).monitor != 0.0
    ensures TotalAvgTemperature(MonitoredSum(g, AvgTemperatures(g, sqrt, sol, tref), |g.markers|),
                                HeatFluxAreas(g, sqrt, hfTags).monitor) == temp * tref
  {
    var n := |g.markers|;
    var area := MonitoredSum(g, HeatFluxWallAreas(g, sqrt), n);
    var weighted := MonitoredSum(g, AvgTemperatures(g, sqrt, sol, tref), n);
    assert HeatFluxAreas(g, sqrt, hfTags).monitor == area by {
      AreaTallyMonitor(AreaTally(seq(|hfTags|, h => 0.0), 0.0), g, sqrt, hfTags, n);
      MonitorShareConsistent(g, sqrt, hfTags, n);
    }
    assert weighted == temp * tref * area by {
      MonitoredAverageUniform(g, sqrt, sol, tref, temp);
      MonitoredSumScaled(g, HeatFluxWallAreas(g, sqrt), temp * tref, n);
    }
    assert weighted / area == temp * tref;
  }
}

