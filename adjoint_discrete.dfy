/**
 * The bookkeeping of the discrete adjoint solver: the global-to-local index
 * map and the restart reading of its constructor, the sharp-edge rule of
 * SetSensitivity, the projection of the sensitivity on the wall normals in
 * SetSurface_Sensitivity, and the residual norms of ExtractAdjoint_Solution.
 * The derivatives themselves come from the algorithmic-differentiation
 * tape and enter as parameters.
 */
module AdjointDiscrete {
  import opened IncNumericsBase
  import HeatTimeIntegration

  datatype Option<T> = None | Some(value: T)

  // ---------------------------------------------------------------------
  // Global2Local
  // ---------------------------------------------------------------------

  /**
   * The local index Global2Local holds for global point g once the first k
   * local points are entered: the last of them whose global index is g, or
   * -1 when none is.
   */
  function LocalOf(globalIndex: seq<nat>, g: nat, k: nat): (r: int)
    requires k <= |globalIndex|
    ensures -1 <= r < k
    ensures r >= 0 ==> globalIndex[r] == g
    ensures forall i :: r < i < k ==> globalIndex[i] != g
  {
    if k == 0 then -1
    else if globalIndex[k - 1] == g then k - 1
    else LocalOf(globalIndex, g, k - 1)
  }

  predicate Distinct(s: seq<nat>) {
    forall i, j :: 0 <= i < j < |s| ==> s[i] != s[j]
  }

  /**
   * With distinct global indices (one rank owns each point once) the map
   * inverts the numbering: each local point is found at its global index,
   * and every index that no local point carries holds -1.
   */
  lemma Global2LocalInverts(globalIndex: seq<nat>, g: nat)
    requires Distinct(globalIndex)
    ensures forall p :: 0 <= p < |globalIndex| ==> LocalOf(globalIndex, globalIndex[p], |globalIndex|) == p
    ensures g !in globalIndex <==> LocalOf(globalIndex, g, |globalIndex|) == -1
  {
  }

  /**
   * The two loops of the constructor: every entry set to -1, then the
   * global index of each local domain point set to its local index.
   */
  method BuildGlobal2Local(nGlobal: nat, globalIndex: seq<nat>) returns (g2l: array<int>)
    requires forall p :: 0 <= p < |globalIndex| ==> globalIndex[p] < nGlobal
    ensures fresh(g2l) && g2l.Length == nGlobal
    ensures forall g :: 0 <= g < nGlobal ==> g2l[g] == LocalOf(globalIndex, g, |globalIndex|)
  {
    g2l := new int[nGlobal];
    for g := 0 to nGlobal
      invariant forall h :: 0 <= h < g ==> g2l[h] == -1
    {
      g2l[g] := -1;
    }
    for p := 0 to |globalIndex|
      invariant forall g :: 0 <= g < nGlobal ==> g2l[g] == LocalOf(globalIndex, g, p)
    {
      g2l[globalIndex[p]] := p;
    }
  }

  // ---------------------------------------------------------------------
  // Restart reading
  // ---------------------------------------------------------------------

  /** The direct solver, as far as the restart layout distinguishes it. */
  datatype DirectSolver = RuntimeFlowSys | RuntimeTurbSys | OtherDirectSolver

  /** The columns skipped after the point index: the coordinates, and the flow adjoint for a turbulence adjoint. */
  function SkipVars(nDim: nat, kind: DirectSolver): (n: nat)
    ensures kind == RuntimeTurbSys ==> n == 2 * nDim + 2
    ensures kind != RuntimeTurbSys ==> n == nDim
  {
    var skip := nDim;
    if kind == RuntimeTurbSys then skip + (nDim + 2) else skip
  }

  /** A data row holds the point index, the skipped columns and the nVar adjoint variables. */
  predicate RowsWellFormed(rows: seq<seq<real>>, skip: nat, nVar: nat) {
    forall r :: 0 <= r < |rows| ==> 1 + skip + nVar <= |rows[r]|
  }

  /** The adjoint variables of a data row. */
  function RowSolution(row: seq<real>, skip: nat, nVar: nat): (s: Vec)
    requires 1 + skip + nVar <= |row|
    ensures |s| == nVar && forall v :: 0 <= v < nVar ==> s[v] == row[1 + skip + v]
  {
    row[1 + skip..1 + skip + nVar]
  }

  /** The data rows of the file: everything after the header line. */
  function DataRows(lines: seq<seq<real>>): seq<seq<real>> {
    if |lines| == 0 then [] else lines[1..]
  }

  /** The node of local point p after the first k data rows: the last row that Global2Local sends to p. */
  function NodeAfter(g2l: seq<int>, rows: seq<seq<real>>, skip: nat, nVar: nat, p: nat, k: nat): Option<Vec>
    requires k <= |rows| <= |g2l| && RowsWellFormed(rows, skip, nVar)
  {
    if k == 0 then None
    else if g2l[k - 1] == p then Some(RowSolution(rows[k - 1], skip, nVar))
    else NodeAfter(g2l, rows, skip, nVar, p, k - 1)
  }

  /** Solution after the first k data rows: the last row read into a node, or the initial values. */
  function LastSolution(g2l: seq<int>, rows: seq<seq<real>>, skip: nat, nVar: nat, init: Vec, k: nat): Vec
    requires k <= |rows| <= |g2l| && RowsWellFormed(rows, skip, nVar)
  {
    if k == 0 then init
    else if g2l[k - 1] >= 0 then RowSolution(rows[k - 1], skip, nVar)
    else LastSolution(g2l, rows, skip, nVar, init, k - 1)
  }

  /**
   * With Global2Local built from distinct global indices, the first k data
   * rows give local point p the row at its own global index when that row
   * is among them, and no node otherwise.
   */
  lemma {:induction false} NodeFromOwnRow(globalIndex: seq<nat>, g2l: seq<int>, rows: seq<seq<real>>, skip: nat, nVar: nat, p: nat, k: nat)
    requires Distinct(globalIndex) && p < |globalIndex|
    requires forall g :: 0 <= g < |g2l| ==> g2l[g] == LocalOf(globalIndex, g, |globalIndex|)
    requires k <= |rows| <= |g2l| && RowsWellFormed(rows, skip, nVar)
    ensures globalIndex[p] < k ==> NodeAfter(g2l, rows, skip, nVar, p, k) == Some(RowSolution(rows[globalIndex[p]], skip, nVar))
    ensures globalIndex[p] >= k ==> NodeAfter(g2l, rows, skip, nVar, p, k) == None
  {
    if k > 0 {
      NodeFromOwnRow(globalIndex, g2l, rows, skip, nVar, p, k - 1);
      var l := LocalOf(globalIndex, k - 1, |globalIndex|);
      assert g2l[k - 1] == l;
      if globalIndex[p] == k - 1 {
        assert l == p;
      } else {
        assert l != p;
      }
    }
  }

  /**
   * The restart branch of the constructor: the header line is skipped; the
   * global point counter advances on every data line; a line whose global
   * point is local creates that node from the line's adjoint variables;
   * then every halo node is created from the last values read (the initial
   * values when no line was local).
   */
  method ReadAdjointRestart(lines: seq<seq<real>>, g2l: seq<int>, nDim: nat, kind: DirectSolver, nVar: nat,
                            nPointDomain: nat, nPoint: nat, init: Vec)
    returns (node: array<Option<Vec>>, solution: Vec)
    requires nPointDomain <= nPoint
    requires |DataRows(lines)| <= |g2l|
    requires forall g :: 0 <= g < |g2l| ==> -1 <= g2l[g] < nPointDomain
    requires RowsWellFormed(DataRows(lines), SkipVars(nDim, kind), nVar)
    ensures fresh(node) && node.Length == nPoint
    ensures solution == LastSolution(g2l, DataRows(lines), SkipVars(nDim, kind), nVar, init, |DataRows(lines)|)
    ensures forall p :: 0 <= p < nPointDomain ==>
      node[p] == NodeAfter(g2l, DataRows(lines), SkipVars(nDim, kind), nVar, p, |DataRows(lines)|)
    ensures forall p :: nPointDomain <= p < nPoint ==> node[p] == Some(solution)
  {
    node := new Option<Vec>[nPoint](_ => None);
    solution := init;
    var skipVars := nDim;
    if kind == RuntimeTurbSys {
      skipVars := skipVars + (nDim + 2);
    }
    ghost var rows := DataRows(lines);
    var iPointGlobal := 0;
    var l := 1;
    while l < |lines|
      invariant 1 <= l && (|lines| > 0 ==> l <= |lines|) && iPointGlobal == l - 1
      invariant iPointGlobal <= |rows|
      invariant solution == LastSolution(g2l, rows, skipVars, nVar, init, iPointGlobal)
      invariant forall p :: 0 <= p < nPointDomain ==> node[p] == NodeAfter(g2l, rows, skipVars, nVar, p, iPointGlobal)
      invariant forall p :: nPointDomain <= p < nPoint ==> node[p] == None
    {
      assert lines[l] == rows[iPointGlobal];
      var iPointLocal := g2l[iPointGlobal];
      if iPointLocal >= 0 {
        solution := lines[l][1 + skipVars..1 + skipVars + nVar];
        node[iPointLocal] := Some(solution);
      }
      iPointGlobal := iPointGlobal + 1;
      l := l + 1;
    }
    for p := nPointDomain to nPoint
      invariant forall q :: 0 <= q < nPointDomain ==> node[q] == NodeAfter(g2l, rows, skipVars, nVar, q, |rows|)
      invariant forall q :: nPointDomain <= q < p ==> node[q] == Some(solution)
    {
      node[p] := Some(solution);
    }
  }

  // ---------------------------------------------------------------------
  // SetSensitivity: the sharp-edge rule
  // ---------------------------------------------------------------------

  /** The options of the sharp-edge rule. */
  datatype SharpEdgeRule = SharpEdgeRule(removeSharp: bool, sharpEdgesCoeff: real, limiterCoeff: real, refElemLength: real)

  /** A point within SharpEdgesCoeff times LimiterCoeff*RefElemLength of a sharp edge, when the rule is on. */
  predicate NearSharpEdge(rule: SharpEdgeRule, distance: real) {
    rule.removeSharp && distance < rule.sharpEdgesCoeff * (rule.limiterCoeff * rule.refElemLength)
  }

  /** The sensitivity stored for one coordinate: zero near a sharp edge, the derivative elsewhere. */
  function StoredSensitivity(rule: SharpEdgeRule, distance: real, derivative: real): (s: real)
    ensures NearSharpEdge(rule, distance) ==> s == 0.0
    ensures !NearSharpEdge(rule, distance) ==> s == derivative
  {
    if rule.removeSharp && distance < rule.sharpEdgesCoeff * (rule.limiterCoeff * rule.refElemLength) then 0.0
    else derivative
  }

  /** The rule only ever removes sensitivity: the stored value is the derivative or zero, and never larger in size. */
  lemma SharpEdgeOnlyRemoves(rule: SharpEdgeRule, distance: real, derivative: real)
    ensures Abs(StoredSensitivity(rule, distance, derivative)) <= Abs(derivative)
    ensures StoredSensitivity(rule, distance, derivative) != derivative ==> StoredSensitivity(rule, distance, derivative) == 0.0
  {
  }

  /** The sensitivities of every point after SetSensitivity's loops. */
  function PointSensitivities(rule: SharpEdgeRule, distance: seq<real>, derivative: seq<Vec>, nDim: nat): (s: seq<Vec>)
    requires |distance| == |derivative| && forall p :: 0 <= p < |derivative| ==> |derivative[p]| == nDim
    ensures |s| == |derivative|
    ensures forall p :: 0 <= p < |s| ==> |s[p]| == nDim
    ensures forall p, d :: 0 <= p < |s| && 0 <= d < nDim ==> s[p][d] == StoredSensitivity(rule, distance[p], derivative[p][d])
  {
    seq(|derivative|, p requires 0 <= p < |derivative| =>
      seq(nDim, d requires 0 <= d < nDim => StoredSensitivity(rule, distance[p], derivative[p][d])))
  }

  // ---------------------------------------------------------------------
  // SetSurface_Sensitivity
  // ---------------------------------------------------------------------

  /** Marker_All_KindBC, as far as SetSurface_Sensitivity distinguishes it. */
  datatype MarkerKind = EulerWall | HeatFluxWall | IsothermalWall | OtherMarker

  datatype Vertex = Vertex(node: nat, normal: Vec)

  datatype Marker = Marker(kind: MarkerKind, vertices: seq<Vertex>)

  /** The wall markers whose sensitivity is projected. */
  predicate IsWall(k: MarkerKind) {
    k == EulerWall || k == HeatFluxWall || k == IsothermalWall
  }

  /** Every vertex is a point of the mesh with an nDim-component normal of non-zero area. */
  predicate ValidMarkers(o: Oracle, markers: seq<Marker>, nPoint: nat, nDim: nat) {
    forall m, v :: 0 <= m < |markers| && 0 <= v < |markers[m].vertices| ==>
      && markers[m].vertices[v].node < nPoint
      && |markers[m].vertices[v].normal| == nDim
      && FaceArea(o, markers[m].vertices[v].normal) != 0.0
  }

  /** The point sensitivities are nDim-vectors and the per-point flags cover the mesh. */
  predicate PointData(sens: seq<Vec>, domain: seq<bool>, flip: seq<bool>, nPoint: nat, nDim: nat) {
    |sens| == nPoint && |domain| == nPoint && |flip| == nPoint
    && forall p :: 0 <= p < nPoint ==> |sens[p]| == nDim
  }

  /** (n . s) / |n|: the sensitivity projected on the unit normal. */
  function Projected(o: Oracle, normal: Vec, s: Vec): real
    requires |normal| <= |s| && FaceArea(o, normal) != 0.0
  {
    DotTo(normal, s, |normal|) / FaceArea(o, normal)
  }

  /** CSensitivity of a vertex: minus the projection, negated again on a point with flipped orientation. */
  function SurfaceSensitivity(proj: real, flipped: bool): (c: real)
    ensures Abs(c) == Abs(proj)
    ensures flipped ==> c == proj
    ensures !flipped ==> c == -proj
  {
    var c := -proj;
    if flipped then -c else c
  }

  /** The projection at vertex v of a valid wall. */
  function VertexProjection(o: Oracle, vx: Vertex, sens: seq<Vec>, nDim: nat): real
    requires vx.node < |sens| && |vx.normal| == nDim && |sens[vx.node]| == nDim && FaceArea(o, vx.normal) != 0.0
  {
    Projected(o, vx.normal, sens[vx.node])
  }

  /** The vertices of a marker are valid for the point data. */
  predicate VerticesOk(o: Oracle, vs: seq<Vertex>, sens: seq<Vec>, nDim: nat) {
    forall v :: 0 <= v < |vs| ==>
      vs[v].node < |sens| && |vs[v].normal| == nDim && |sens[vs[v].node]| == nDim && FaceArea(o, vs[v].normal) != 0.0
  }

  /** Sens_Geo of a wall after its first k vertices: the squared projections at the domain points. */
  function SensGeoTo(o: Oracle, vs: seq<Vertex>, sens: seq<Vec>, domain: seq<bool>, nDim: nat, k: nat): real
    requires k <= |vs| && VerticesOk(o, vs, sens, nDim) && |domain| == |sens|
  {
    if k == 0 then 0.0
    else SensGeoTo(o, vs, sens, domain, nDim, k - 1)
         + (if domain[vs[k - 1].node] then Sq(VertexProjection(o, vs[k - 1], sens, nDim)) else 0.0)
  }

  /** Sens_Geo is a sum of squares: never negative, and zero when every projection at a domain point is. */
  lemma {:induction false} SensGeoNonNegative(o: Oracle, vs: seq<Vertex>, sens: seq<Vec>, domain: seq<bool>, nDim: nat, k: nat)
    requires k <= |vs| && VerticesOk(o, vs, sens, nDim) && |domain| == |sens|
    ensures SensGeoTo(o, vs, sens, domain, nDim, k) >= 0.0
    ensures (forall v :: 0 <= v < k && domain[vs[v].node] ==> VertexProjection(o, vs[v], sens, nDim) == 0.0) ==>
      SensGeoTo(o, vs, sens, domain, nDim, k) == 0.0
  {
    if k > 0 {
      SensGeoNonNegative(o, vs, sens, domain, nDim, k - 1);
      SquareNonNeg(VertexProjection(o, vs[k - 1], sens, nDim));
    }
  }

  /** A sensitivity tangent to the wall (orthogonal to its normal) projects to zero at that vertex. */
  lemma TangentialSensitivityVanishes(o: Oracle, vx: Vertex, sens: seq<Vec>, nDim: nat, flipped: bool)
    requires vx.node < |sens| && |vx.normal| == nDim && |sens[vx.node]| == nDim && FaceArea(o, vx.normal) != 0.0
    requires Dot(vx.normal, sens[vx.node]) == 0.0
    ensures SurfaceSensitivity(VertexProjection(o, vx, sens, nDim), flipped) == 0.0
  {
  }

  /** CSensitivity of every vertex of a wall. */
  function WallSurfaceSensitivity(o: Oracle, vs: seq<Vertex>, sens: seq<Vec>, flip: seq<bool>, nDim: nat): (c: seq<real>)
    requires VerticesOk(o, vs, sens, nDim) && |flip| == |sens|
    ensures |c| == |vs|
  {
    seq(|vs|, v requires 0 <= v < |vs| => SurfaceSensitivity(VertexProjection(o, vs[v], sens, nDim), flip[vs[v].node]))
  }

  /**
   * The vertex loop of one wall marker: CSensitivity of each vertex, and
   * Sens_Geo accumulated from zero over the domain points.
   */
  method WallSensitivity(o: Oracle, vs: seq<Vertex>, sens: seq<Vec>, domain: seq<bool>, flip: seq<bool>, nDim: nat, cOld: seq<real>)
    returns (cs: seq<real>, sensGeo: real)
    requires VerticesOk(o, vs, sens, nDim) && |domain| == |sens| && |flip| == |sens| && |cOld| == |vs|
    ensures cs == WallSurfaceSensitivity(o, vs, sens, flip, nDim)
    ensures sensGeo == SensGeoTo(o, vs, sens, domain, nDim, |vs|)
  {
    cs, sensGeo := cOld, 0.0;
    for v := 0 to |vs|
      invariant |cs| == |vs|
      invariant forall w :: 0 <= w < v ==> cs[w] == WallSurfaceSensitivity(o, vs, sens, flip, nDim)[w]
      invariant sensGeo == SensGeoTo(o, vs, sens, domain, nDim, v)
    {
      var iPoint := vs[v].node;
      var normal := vs[v].normal;
      var prod, area := 0.0, 0.0;
      for d := 0 to nDim
        invariant prod == DotTo(normal, sens[iPoint], d)
        invariant area == SumSqTo(normal, d)
      {
        prod := prod + normal[d] * sens[iPoint][d];
        area := area + normal[d] * normal[d];
      }
      area := o.sqrt(area);
      var s := prod / area;
      assert s == VertexProjection(o, vs[v], sens, nDim);
      cs := cs[v := -s];
      if flip[iPoint] {
        cs := cs[v := -cs[v]];
      }
      if domain[iPoint] {
        sensGeo := sensGeo + s * s;
      }
    }
  }

  /** Sens_Geo of marker m after SetSurface_Sensitivity: the wall sum, zero on the other markers. */
  function MarkerSensGeo(o: Oracle, mk: Marker, sens: seq<Vec>, domain: seq<bool>, nDim: nat): real
    requires VerticesOk(o, mk.vertices, sens, nDim) && |domain| == |sens|
  {
    if IsWall(mk.kind) then SensGeoTo(o, mk.vertices, sens, domain, nDim, |mk.vertices|) else 0.0
  }

  predicate AllVerticesOk(o: Oracle, markers: seq<Marker>, sens: seq<Vec>, nDim: nat) {
    forall m :: 0 <= m < |markers| ==> VerticesOk(o, markers[m].vertices, sens, nDim)
  }

  /** Total_Sens_Geo over the first k markers: sqrt(Sens_Geo) summed over the walls. */
  function TotalSensGeoTo(o: Oracle, markers: seq<Marker>, sens: seq<Vec>, domain: seq<bool>, nDim: nat, k: nat): real
    requires k <= |markers| && AllVerticesOk(o, markers, sens, nDim) && |domain| == |sens|
  {
    if k == 0 then 0.0
    else TotalSensGeoTo(o, markers, sens, domain, nDim, k - 1)
         + (if IsWall(markers[k - 1].kind) then o.sqrt(MarkerSensGeo(o, markers[k - 1], sens, domain, nDim)) else 0.0)
  }

  /** Total_Sens_Geo is never negative, and is zero when there is no wall marker. */
  lemma {:induction false} TotalSensGeoNonNegative(o: Oracle, markers: seq<Marker>, sens: seq<Vec>, domain: seq<bool>, nDim: nat, k: nat)
    requires Sound(o)
    requires k <= |markers| && AllVerticesOk(o, markers, sens, nDim) && |domain| == |sens|
    ensures TotalSensGeoTo(o, markers, sens, domain, nDim, k) >= 0.0
    ensures (forall m :: 0 <= m < k ==> !IsWall(markers[m].kind)) ==> TotalSensGeoTo(o, markers, sens, domain, nDim, k) == 0.0
  {
    if k > 0 {
      TotalSensGeoNonNegative(o, markers, sens, domain, nDim, k - 1);
    }
  }

  // ---------------------------------------------------------------------
  // ExtractAdjoint_Solution: the residual norms
  // ---------------------------------------------------------------------

  /** The change of variable v at the first n points between two solutions. */
  function Increments(newSol: seq<Vec>, oldSol: seq<Vec>, v: nat, n: nat): (d: seq<real>)
    requires n <= |newSol| && n <= |oldSol|
    requires forall p :: 0 <= p < n ==> v < |newSol[p]| && v < |oldSol[p]|
    ensures |d| == n
  {
    seq(n, p requires 0 <= p < n => newSol[p][v] - oldSol[p][v])
  }

  /** The residual norms of variable v, accumulated from zero over the first n points' increments. */
  function ExtractNorms(newSol: seq<Vec>, oldSol: seq<Vec>, v: nat, n: nat): HeatTimeIntegration.ResidualNorms
    requires n <= |newSol| && n <= |oldSol|
    requires forall p :: 0 <= p < n ==> v < |newSol[p]| && v < |oldSol[p]|
  {
    HeatTimeIntegration.NormsOf(Increments(newSol, oldSol, v, n), n)
  }

  /** The adjoint residual of a variable vanishes exactly when no domain point's value of it changed. */
  lemma AdjointResidualZeroIffSteady(newSol: seq<Vec>, oldSol: seq<Vec>, v: nat, n: nat)
    requires n <= |newSol| && n <= |oldSol|
    requires forall p :: 0 <= p < n ==> v < |newSol[p]| && v < |oldSol[p]|
    ensures ExtractNorms(newSol, oldSol, v, n).rms >= 0.0
    ensures ExtractNorms(newSol, oldSol, v, n).max == 0.0 <==> forall p :: 0 <= p < n ==> newSol[p][v] == oldSol[p][v]
    ensures ExtractNorms(newSol, oldSol, v, n).rms == 0.0 <==> forall p :: 0 <= p < n ==> newSol[p][v] == oldSol[p][v]
  {
    var d := Increments(newSol, oldSol, v, n);
    HeatTimeIntegration.NormsZeroIffAllZero(d, n);
    assert forall p :: 0 <= p < n ==> d[p] == newSol[p][v] - oldSol[p][v];
    assert (forall p :: 0 <= p < n ==> d[p] == 0.0) <==> (forall p :: 0 <= p < n ==> newSol[p][v] == oldSol[p][v]);
  }

  /** Unsteady_Simulation, as far as ExtractAdjoint_Solution distinguishes it. */
  datatype TimeMarching = SteadyMarching | DualTimeFirst | DualTimeSecond | OtherMarching

  /** Each of the n points holds an nVar-vector. */
  predicate Vectors(s: seq<Vec>, n: nat, nVar: nat) {
    |s| == n && forall p :: 0 <= p < n ==> |s[p]| == nVar
  }

  // ---------------------------------------------------------------------
  // The solver
  // ---------------------------------------------------------------------

  /** The state of CDiscAdjSolver these operations read and write. */
  class DiscAdjSolver {
    const nDim: nat
    const nVar: nat
    const nPoint: nat
    const nPointDomain: nat
    var solution: seq<Vec>
    var solutionOld: seq<Vec>
    var solutionTimeN: seq<Vec>
    var solutionTimeN1: seq<Vec>
    var sensitivity: seq<Vec>
    var cSensitivity: seq<seq<real>>
    var sensGeo: seq<real>
    var totalSensGeo: real
    var resNorms: seq<HeatTimeIntegration.ResidualNorms>

    ghost predicate Valid()
      reads this
    {
      nPointDomain <= nPoint
      && Vectors(solution, nPoint, nVar) && Vectors(solutionOld, nPoint, nVar)
      && Vectors(solutionTimeN, nPoint, nVar) && Vectors(solutionTimeN1, nPoint, nVar)
      && Vectors(sensitivity, nPoint, nDim)
      && |cSensitivity| == |sensGeo|
      && |resNorms| == nVar
    }

    /** CSensitivity holds one entry per vertex of each marker. */
    ghost predicate OnMarkers(markers: seq<Marker>)
      reads this
    {
      |cSensitivity| == |markers| && forall m :: 0 <= m < |markers| ==> |cSensitivity[m]| == |markers[m].vertices|
    }

    /**
     * The state the constructor leaves: every node at its initial
     * solution, sensitivities and Sens_Geo zero, Res_RMS and Res_Max one.
     */
    constructor (nDim: nat, nVar: nat, nPointDomain: nat, initial: seq<Vec>, markers: seq<Marker>)
      requires nPointDomain <= |initial| && Vectors(initial, |initial|, nVar)
      ensures Valid() && OnMarkers(markers)
      ensures this.nDim == nDim && this.nVar == nVar && this.nPoint == |initial| && this.nPointDomain == nPointDomain
      ensures solution == initial && solutionOld == initial && solutionTimeN == initial && solutionTimeN1 == initial
      ensures forall m, v :: 0 <= m < |markers| && 0 <= v < |markers[m].vertices| ==> cSensitivity[m][v] == 0.0
      ensures forall m :: 0 <= m < |markers| ==> sensGeo[m] == 0.0
      ensures forall v :: 0 <= v < nVar ==> resNorms[v] == HeatTimeIntegration.ResidualNorms(1.0, 1.0)
    {
      this.nDim := nDim;
      this.nVar := nVar;
      this.nPoint := |initial|;
      this.nPointDomain := nPointDomain;
      solution := initial;
      solutionOld := initial;
      solutionTimeN := initial;
      solutionTimeN1 := initial;
      sensitivity := seq(|initial|, p => seq(nDim, d => 0.0));
      cSensitivity := seq(|markers|, m requires 0 <= m < |markers| => seq(|markers[m].vertices|, v => 0.0));
      sensGeo := seq(|markers|, m => 0.0);
      totalSensGeo := 0.0;
      resNorms := seq(nVar, v => HeatTimeIntegration.ResidualNorms(1.0, 1.0));
    }

    /**
     * SetSurface_Sensitivity: for every wall marker, CSensitivity of each
     * vertex from the projection and Sens_Geo from the squared projections;
     * Sens_Geo of every other marker is reset to zero and its CSensitivity
     * kept; Total_Sens_Geo sums sqrt(Sens_Geo) over the walls.
     */
    method SetSurfaceSensitivity(o: Oracle, markers: seq<Marker>, domain: seq<bool>, flip: seq<bool>)
      requires Valid() && OnMarkers(markers)
      requires PointData(sensitivity, domain, flip, nPoint, nDim) && ValidMarkers(o, markers, nPoint, nDim)
      modifies this
      ensures Valid() && OnMarkers(markers)
      ensures AllVerticesOk(o, markers, sensitivity, nDim)
      ensures forall m :: 0 <= m < |markers| ==> sensGeo[m] == MarkerSensGeo(o, markers[m], sensitivity, domain, nDim)
      ensures forall m :: 0 <= m < |markers| ==>
        cSensitivity[m] == MarkerCSensitivity(o, markers[m], sensitivity, flip, nDim, old(cSensitivity[m]))
      ensures totalSensGeo == TotalSensGeoTo(o, markers, sensitivity, domain, nDim, |markers|)
      ensures solution == old(solution) && solutionOld == old(solutionOld) && sensitivity == old(sensitivity)
      ensures solutionTimeN == old(solutionTimeN) && solutionTimeN1 == old(solutionTimeN1) && resNorms == old(resNorms)
    {
      cSensitivity, sensGeo, totalSensGeo := SurfaceSensitivityPass(o, markers, sensitivity, domain, flip, nPoint, nDim, cSensitivity);
    }

    /**
     * SetSensitivity: the derivative of the objective with respect to each
     * coordinate, zeroed near sharp edges when the rule is on, stored per
     * point; then SetSurface_Sensitivity.
     */
    method SetSensitivity(o: Oracle, rule: SharpEdgeRule, derivative: seq<Vec>, sharpDistance: seq<real>,
                          markers: seq<Marker>, domain: seq<bool>, flip: seq<bool>)
      requires Valid() && OnMarkers(markers)
      requires Vectors(derivative, nPoint, nDim) && |sharpDistance| == nPoint
      requires |domain| == nPoint && |flip| == nPoint && ValidMarkers(o, markers, nPoint, nDim)
      modifies this
      ensures Valid() && OnMarkers(markers)
      ensures sensitivity == PointSensitivities(rule, sharpDistance, derivative, nDim)
      ensures AllVerticesOk(o, markers, sensitivity, nDim)
      ensures forall m :: 0 <= m < |markers| ==> sensGeo[m] == MarkerSensGeo(o, markers[m], sensitivity, domain, nDim)
      ensures totalSensGeo == TotalSensGeoTo(o, markers, sensitivity, domain, nDim, |markers|)
      ensures solution == old(solution) && solutionOld == old(solutionOld) && resNorms == old(resNorms)
    {
      sensitivity := SharpEdgePass(rule, derivative, sharpDistance, nPoint, nDim);
      SetSurfaceSensitivity(o, markers, domain, flip);
    }

    /**
     * ExtractAdjoint_Solution: Res_RMS and Res_Max reset to zero; at every
     * point the previous solution becomes Solution_Old and the adjoint
     * read from the direct solver becomes Solution (and the time levels,
     * for dual time stepping); then the increments at the domain points
     * are accumulated into the norms.
     */
    method ExtractAdjointSolution(adjoint: seq<Vec>, adjointTimeN: seq<Vec>, adjointTimeN1: seq<Vec>, marching: TimeMarching)
      requires Valid()
      requires Vectors(adjoint, nPoint, nVar) && Vectors(adjointTimeN, nPoint, nVar) && Vectors(adjointTimeN1, nPoint, nVar)
      modifies this
      ensures Valid()
      ensures solutionOld == old(solution) && solution == adjoint
      ensures solutionTimeN == if marching == DualTimeFirst || marching == DualTimeSecond then adjointTimeN else old(solutionTimeN)
      ensures solutionTimeN1 == if marching == DualTimeSecond then adjointTimeN1 else old(solutionTimeN1)
      ensures forall v :: 0 <= v < nVar ==> resNorms[v] == ExtractNorms(adjoint, old(solution), v, nPointDomain)
      ensures sensitivity == old(sensitivity) && cSensitivity == old(cSensitivity) && sensGeo == old(sensGeo)
    {
      var timeNNeeded := marching == DualTimeFirst || marching == DualTimeSecond;
      var timeN1Needed := marching == DualTimeSecond;
      resNorms := seq(nVar, v => HeatTimeIntegration.ResidualNorms(0.0, 0.0));
      solutionOld := solution;
      solution := adjoint;
      if timeNNeeded {
        solutionTimeN := adjointTimeN;
      }
      if timeN1Needed {
        solutionTimeN1 := adjointTimeN1;
      }
      resNorms := ResidualPass(solution, solutionOld, nPointDomain, nVar, resNorms);
    }
  }

  /** CSensitivity of a marker after SetSurface_Sensitivity: the wall values, or what it held before. */
  function MarkerCSensitivity(o: Oracle, mk: Marker, sens: seq<Vec>, flip: seq<bool>, nDim: nat, cOld: seq<real>): (c: seq<real>)
    requires VerticesOk(o, mk.vertices, sens, nDim) && |flip| == |sens|
    ensures IsWall(mk.kind) ==> c == WallSurfaceSensitivity(o, mk.vertices, sens, flip, nDim)
    ensures !IsWall(mk.kind) ==> c == cOld
  {
    if IsWall(mk.kind) then WallSurfaceSensitivity(o, mk.vertices, sens, flip, nDim) else cOld
  }

  /** The marker loop of SetSurface_Sensitivity over the point sensitivities. */
  method SurfaceSensitivityPass(o: Oracle, markers: seq<Marker>, sens: seq<Vec>, domain: seq<bool>, flip: seq<bool>,
                                nPoint: nat, nDim: nat, cOld: seq<seq<real>>)
    returns (cs: seq<seq<real>>, sg: seq<real>, total: real)
    requires PointData(sens, domain, flip, nPoint, nDim) && ValidMarkers(o, markers, nPoint, nDim)
    requires |cOld| == |markers| && forall m :: 0 <= m < |markers| ==> |cOld[m]| == |markers[m].vertices|
    ensures AllVerticesOk(o, markers, sens, nDim)
    ensures |cs| == |markers| && |sg| == |markers|
    ensures forall m :: 0 <= m < |markers| ==> sg[m] == MarkerSensGeo(o, markers[m], sens, domain, nDim)
    ensures forall m :: 0 <= m < |markers| ==> cs[m] == MarkerCSensitivity(o, markers[m], sens, flip, nDim, cOld[m])
    ensures forall m :: 0 <= m < |markers| ==> |cs[m]| == |markers[m].vertices|
    ensures total == TotalSensGeoTo(o, markers, sens, domain, nDim, |markers|)
  {
    assert AllVerticesOk(o, markers, sens, nDim) by {
      forall m | 0 <= m < |markers|
        ensures VerticesOk(o, markers[m].vertices, sens, nDim)
      {
      }
    }
    cs, sg, total := cOld, seq(|markers|, m => 0.0), 0.0;
    for m := 0 to |markers|
      invariant |cs| == |markers| && |sg| == |markers|
      invariant forall i :: 0 <= i < m ==> sg[i] == MarkerSensGeo(o, markers[i], sens, domain, nDim)
      invariant forall i :: 0 <= i < m ==> cs[i] == MarkerCSensitivity(o, markers[i], sens, flip, nDim, cOld[i])
      invariant forall i :: m <= i < |markers| ==> cs[i] == cOld[i]
      invariant total == TotalSensGeoTo(o, markers, sens, domain, nDim, m)
    {
      sg := sg[m := 0.0];
      if markers[m].kind == EulerWall || markers[m].kind == HeatFluxWall || markers[m].kind == IsothermalWall {
        var wallC, wallGeo := WallSensitivity(o, markers[m].vertices, sens, domain, flip, nDim, cs[m]);
        cs := cs[m := wallC];
        sg := sg[m := wallGeo];
        total := total + o.sqrt(wallGeo);
      }
    }
  }

  /** The point loop of SetSensitivity: each coordinate's derivative through the sharp-edge rule. */
  method SharpEdgePass(rule: SharpEdgeRule, derivative: seq<Vec>, sharpDistance: seq<real>, nPoint: nat, nDim: nat)
    returns (s: seq<Vec>)
    requires Vectors(derivative, nPoint, nDim) && |sharpDistance| == nPoint
    ensures s == PointSensitivities(rule, sharpDistance, derivative, nDim)
  {
    s := derivative;
    for p := 0 to nPoint
      invariant |s| == nPoint
      invariant forall q :: 0 <= q < nPoint ==> |s[q]| == nDim
      invariant forall q :: 0 <= q < p ==> s[q] == PointSensitivities(rule, sharpDistance, derivative, nDim)[q]
    {
      var row := s[p];
      for d := 0 to nDim
        invariant |row| == nDim
        invariant forall e :: 0 <= e < d ==> row[e] == StoredSensitivity(rule, sharpDistance[p], derivative[p][e])
      {
        var value := derivative[p][d];
        if rule.removeSharp {
          var eps := rule.limiterCoeff * rule.refElemLength;
          if sharpDistance[p] < rule.sharpEdgesCoeff * eps {
            value := 0.0;
          }
        }
        row := row[d := value];
      }
      s := s[p := row];
    }
  }

  /** The residual loop of ExtractAdjoint_Solution: AddRes_RMS and AddRes_Max of each increment at the domain points. */
  method ResidualPass(solution: seq<Vec>, solutionOld: seq<Vec>, nPointDomain: nat, nVar: nat,
                      zero: seq<HeatTimeIntegration.ResidualNorms>)
    returns (norms: seq<HeatTimeIntegration.ResidualNorms>)
    requires nPointDomain <= |solution| && nPointDomain <= |solutionOld|
    requires forall p :: 0 <= p < nPointDomain ==> |solution[p]| == nVar && |solutionOld[p]| == nVar
    requires |zero| == nVar && forall v :: 0 <= v < nVar ==> zero[v] == HeatTimeIntegration.ResidualNorms(0.0, 0.0)
    ensures |norms| == nVar
    ensures forall v :: 0 <= v < nVar ==> norms[v] == ExtractNorms(solution, solutionOld, v, nPointDomain)
  {
    norms := zero;
    for p := 0 to nPointDomain
      invariant |norms| == nVar
      invariant forall v :: 0 <= v < nVar ==> norms[v] == ExtractNorms(solution, solutionOld, v, p)
    {
      for v := 0 to nVar
        invariant |norms| == nVar
        invariant forall w :: 0 <= w < v ==> norms[w] == ExtractNorms(solution, solutionOld, w, p + 1)
        invariant forall w :: v <= w < nVar ==> norms[w] == ExtractNorms(solution, solutionOld, w, p)
      {
        var residual := solution[p][v] - solutionOld[p][v];
        ExtractNormsStep(solution, solutionOld, v, p);
        norms := norms[v := HeatTimeIntegration.AddNorms(norms[v], residual)];
      }
    }
  }

  /** One more point adds its increment to the norms. */
  lemma ExtractNormsStep(newSol: seq<Vec>, oldSol: seq<Vec>, v: nat, p: nat)
    requires p < |newSol| && p < |oldSol|
    requires forall q :: 0 <= q <= p ==> v < |newSol[q]| && v < |oldSol[q]|
    ensures ExtractNorms(newSol, oldSol, v, p + 1)
      == HeatTimeIntegration.AddNorms(ExtractNorms(newSol, oldSol, v, p), newSol[p][v] - oldSol[p][v])
  {
    var d := Increments(newSol, oldSol, v, p + 1);
    var e := Increments(newSol, oldSol, v, p);
    assert forall q :: 0 <= q < p ==> d[q] == e[q];
    NormsPrefix(d, e, p);
  }

  /** The norms of the first k values depend on nothing after them. */
  lemma {:induction false} NormsPrefix(a: seq<real>, b: seq<real>, k: nat)
    requires k <= |a| && k <= |b|
    requires forall q :: 0 <= q < k ==> a[q] == b[q]
    ensures HeatTimeIntegration.NormsOf(a, k) == HeatTimeIntegration.NormsOf(b, k)
  {
    if k > 0 {
      NormsPrefix(a, b, k - 1);
    }
  }
}
