/**
 * CHeatFVMVariable, what the heat solver stores at each point, and the
 * solver-wide constants it reads from the configuration.
 */
module HeatState {
  import opened IncNumericsBase
  import opened HeatMesh

  /** CHeatFVMVariable: what the solver stores at one point. */
  datatype HeatNode = HeatNode(
    solution: real,
    solutionOld: real,
    solutionTimeN: real,
    solutionTimeN1: real,
    gradient: Vec,
    undLapl: real,
    maxLambdaInv: real,
    maxLambdaVisc: real,
    deltaTime: real,
    resTruncError: real)

  function Solutions(nodes: seq<HeatNode>): (s: seq<real>)
    ensures |s| == |nodes| && forall p :: 0 <= p < |nodes| ==> s[p] == nodes[p].solution
  {
    seq(|nodes|, p requires 0 <= p < |nodes| => nodes[p].solution)
  }

  function Laplacians(nodes: seq<HeatNode>): (s: seq<real>)
    ensures |s| == |nodes| && forall p :: 0 <= p < |nodes| ==> s[p] == nodes[p].undLapl
  {
    seq(|nodes|, p requires 0 <= p < |nodes| => nodes[p].undLapl)
  }

  /** What a numerics object returns for one edge or vertex: Residual, Jacobian_i[0][0], Jacobian_j[0][0]. */
  datatype EdgeTerm = EdgeTerm(residual: real, jacI: real, jacJ: real)

  /** SetNormal, SetPrimitive, SetTemperature (convective numerics). */
  datatype ConvInput = ConvInput(normal: Vec, primI: Vec, primJ: Vec, tempI: real, tempJ: real)

  /** Solver-wide constants the viscous pass reads from the configuration. */
  datatype Diffusion = Diffusion(muConstantND: real, prandtlLam: real, prandtlTurb: real, diffusivitySolid: real)

  /** Coupled to a flow solver: mu/Pr_lam + mu_t/Pr_turb; a solid: the solid's diffusivity. */
  function ThermalDiffusivity(flowCase: bool, d: Diffusion, eddyViscosity: real): real
    requires flowCase ==> d.prandtlLam != 0.0 && d.prandtlTurb != 0.0
  {
    if flowCase then d.muConstantND / d.prandtlLam + eddyViscosity / d.prandtlTurb
    else d.diffusivitySolid
  }

  predicate DiffusionDefined(kind: SolverKind, d: Diffusion) {
    IsFlow(kind) ==> d.prandtlLam != 0.0 && d.prandtlTurb != 0.0
  }
}
