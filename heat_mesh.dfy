/**
 * What the heat solver reads but does not own: the dual mesh (points,
 * edges, boundary markers and their vertices), the kind of solver it is
 * coupled to, and the per-point state of the flow solver it is coupled
 * with. These are inputs to every operation of the solver.
 */
module HeatMesh {
  import opened IncNumericsBase

  /** An edge of the dual mesh: its two end points and its face normal. */
  datatype Edge = Edge(i: nat, j: nat, normal: Vec)

  /** A boundary vertex: the mesh point, its face normal, and the interior neighbour along the normal. */
  datatype Vertex = Vertex(node: nat, normal: Vec, normalNeighbor: nat)

  datatype BCKind = Isothermal | HeatFluxWall | ChtInterface | InletBC | OutletBC | OtherBC

  datatype Marker = Marker(kind: BCKind, tag: string, monitoring: bool, vertices: seq<Vertex>)

  /**
   * CGeometry as the heat solver sees it. `domain[p]` is the point's
   * GetDomain flag (owned by this rank); points below nPointDomain are the
   * owned points the solver loops over.
   */
  datatype Geometry = Geometry(
    nDim: nat,
    nPointDomain: nat,
    coord: seq<Vec>,
    volume: seq<real>,
    domain: seq<bool>,
    physicalBoundary: seq<bool>,
    neighbors: seq<nat>,
    edges: seq<Edge>,
    markers: seq<Marker>)

  function NPoint(g: Geometry): nat { |g.coord| }

  predicate ValidVertex(g: Geometry, v: Vertex) {
    v.node < |g.coord| && v.normalNeighbor < |g.coord| && |v.normal| == g.nDim
  }

  predicate ValidEdge(g: Geometry, e: Edge) {
    e.i < |g.coord| && e.j < |g.coord| && |e.normal| == g.nDim
  }

  predicate Valid(g: Geometry) {
    && |g.volume| == |g.coord|
    && |g.domain| == |g.coord|
    && |g.physicalBoundary| == |g.coord|
    && |g.neighbors| == |g.coord|
    && g.nPointDomain <= |g.coord|
    && (forall p :: 0 <= p < |g.coord| ==> |g.coord[p]| == g.nDim)
    && (forall k :: 0 <= k < |g.edges| ==> ValidEdge(g, g.edges[k]))
    && (forall m, k :: 0 <= m < |g.markers| && 0 <= k < |g.markers[m].vertices| ==>
          ValidVertex(g, g.markers[m].vertices[k]))
  }

  /** Kind_Solver, as far as the heat solver distinguishes it. */
  datatype SolverKind = NavierStokes | Rans | DiscAdjNavierStokes | DiscAdjRans
                      | HeatEquation | HeatEquationFvm | OtherSolver

  /** The `flow` test every routine of the finite-volume heat solver repeats. */
  predicate IsFlow(k: SolverKind) {
    k == NavierStokes || k == Rans || k == DiscAdjNavierStokes || k == DiscAdjRans
  }

  /** What the heat solver reads from the flow solver at one point. */
  datatype FlowNode = FlowNode(
    primitive: Vec,
    gradient: Mat,
    velocity: Vec,
    betaInc2: real,
    density: real,
    eddyViscosity: real,
    deltaTime: real)

  /** |normal|, the face area, as sqrt of the sum of squares the loops accumulate. */
  function Area(sqrt: real -> real, normal: Vec): real {
    sqrt(SumSq(normal))
  }

  /** |x_b - x_a| */
  function Distance(sqrt: real -> real, a: Vec, b: Vec): real
    requires |a| == |b|
  {
    sqrt(SumSq(Jump(b, a, |a|)))
  }
}
