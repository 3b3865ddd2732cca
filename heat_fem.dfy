/**
 * CHeatSolver, the finite-element heat solver on linear triangles (2-D)
 * and tetrahedra (3-D): the mass-matrix loops of Source_Residual and
 * SetResidual_DualTime, which add each element's consistent mass matrix
 * (scaled by the time step) to the Jacobian and to the time matrix, the
 * dual-time residual built from the time matrix, and BC_Isothermal_Wall.
 * nVar = 1, so every block is a scalar.
 */
module HeatFEM {
  import opened IncNumericsBase
  import opened HeatLinearSystem
  import opened HeatTimeIntegration

  /** The mesh as the element loops see it: coordinates and element connectivity. */
  datatype FemMesh = FemMesh(nDim: nat, coord: seq<Vec>, elems: seq<seq<nat>>)

  /** The nodes of an element are pairwise different mesh points. */
  predicate Distinct(e: seq<nat>) {
    forall s, t :: 0 <= s < t < |e| ==> e[s] != e[t]
  }

  /** A triangle in 2-D, a tetrahedron in 3-D, over points of the mesh. */
  predicate ValidElem(m: FemMesh, e: seq<nat>) {
    && |e| == m.nDim + 1
    && Distinct(e)
    && (forall s :: 0 <= s < |e| ==> e[s] < |m.coord|)
  }

  predicate ValidMesh(m: FemMesh) {
    && (m.nDim == 2 || m.nDim == 3)
    && (forall p :: 0 <= p < |m.coord| ==> |m.coord[p]| == m.nDim)
    && (forall k :: 0 <= k < |m.elems| ==> ValidElem(m, m.elems[k]))
  }

  // ---------------------------------------------------------------------
  // Element measure
  // ---------------------------------------------------------------------

  /** a[0] b[1] - a[1] b[0] */
  function Cross2(a: Vec, b: Vec): real
    requires 2 <= |a| && 2 <= |b|
  {
    a[0] * b[1] - a[1] * b[0]
  }

  /** c . d with d = (a1 b2 - a2 b1, -(a0 b2 - a2 b0), a0 b1 - a1 b0) */
  function TripleProduct(a: Vec, b: Vec, c: Vec): real
    requires 3 <= |a| && 3 <= |b| && 3 <= |c|
  {
    c[0] * (a[1] * b[2] - a[2] * b[1]) + c[1] * -(a[0] * b[2] - a[2] * b[0]) + c[2] * (a[0] * b[1] - a[1] * b[0])
  }

  /**
   * Area_Local of a triangle or Volume_Local of a tetrahedron, from the
   * edge vectors a = x0 - x2, b = x1 - x2 (and c = x3 - x2).
   */
  function Measure(m: FemMesh, e: seq<nat>): (r: real)
    requires ValidMesh(m) && ValidElem(m, e)
    ensures r >= 0.0
  {
    var a := Jump(m.coord[e[0]], m.coord[e[2]], m.nDim);
    var b := Jump(m.coord[e[1]], m.coord[e[2]], m.nDim);
    if m.nDim == 2 then 0.5 * Abs(Cross2(a, b))
    else
      var c := Jump(m.coord[e[3]], m.coord[e[2]], m.nDim);
      Abs(TripleProduct(a, b, c)) / 6.0
  }

  /** An element with two coincident corners has no area or volume. */
  lemma DegenerateElementHasNoMeasure(m: FemMesh, e: seq<nat>)
    requires ValidMesh(m) && ValidElem(m, e)
    requires m.coord[e[0]] == m.coord[e[2]]
    ensures Measure(m, e) == 0.0
  {
    var a := Jump(m.coord[e[0]], m.coord[e[2]], m.nDim);
    assert forall d :: 0 <= d < m.nDim ==> a[d] == 0.0;
  }

  // ---------------------------------------------------------------------
  // The element mass matrix
  // ---------------------------------------------------------------------

  /** The diagonal entry for element weight w: 2/12 w on a triangle, 2/20 w on a tetrahedron. */
  function ElemDiag(nDim: nat, w: real): real {
    if nDim == 2 then (2.0 / 12.0) * w else (2.0 / 20.0) * w
  }

  /** The off-diagonal entry: 1/12 w on a triangle, 1/20 w on a tetrahedron. */
  function ElemOff(nDim: nat, w: real): real {
    if nDim == 2 then (1.0 / 12.0) * w else (1.0 / 20.0) * w
  }

  /**
   * Entry (a, b) of the element's consistent mass matrix: d on the
   * diagonal and o between two different nodes of the element, zero for
   * a point outside it.
   */
  function ElemEntry(e: seq<nat>, d: real, o: real, a: nat, b: nat): real {
    if a in e && b in e then (if a == b then d else o) else 0.0
  }

  /** The element mass matrix is symmetric. */
  lemma ElemEntrySymmetric(e: seq<nat>, d: real, o: real, a: nat, b: nat)
    ensures ElemEntry(e, d, o, a, b) == ElemEntry(e, d, o, b, a)
  {
  }

  /** Entries of row a against the first k nodes of the element. */
  function RowOver(e: seq<nat>, d: real, o: real, a: nat, k: nat): real
    requires k <= |e|
  {
    if k == 0 then 0.0 else RowOver(e, d, o, a, k - 1) + ElemEntry(e, d, o, a, e[k - 1])
  }

  /** Row e[s] against the first k nodes: d once if s is among them, o for every other node. */
  lemma {:induction false} RowOverSplit(e: seq<nat>, d: real, o: real, s: nat, k: nat)
    requires Distinct(e) && s < |e| && k <= |e|
    ensures RowOver(e, d, o, e[s], k) == (if s < k then d + Times(k - 1, o) else Times(k, o))
  {
    if k > 0 {
      RowOverSplit(e, d, o, s, k - 1);
      assert ElemEntry(e, d, o, e[s], e[k - 1]) == (if s == k - 1 then d else o);
    }
  }

  /** n o, as repeated addition. */
  function Times(n: nat, o: real): real {
    if n == 0 then 0.0 else Times(n - 1, o) + o
  }

  /**
   * The mass matrix is consistent: every row of an element's matrix sums
   * to w/3 on a triangle and w/4 on a tetrahedron, so the element's
   * weight is shared equally by its nodes and the whole matrix sums to w.
   */
  lemma ElemRowSum(e: seq<nat>, nDim: nat, w: real, s: nat)
    requires (nDim == 2 || nDim == 3) && |e| == nDim + 1 && Distinct(e) && s < |e|
    ensures RowOver(e, ElemDiag(nDim, w), ElemOff(nDim, w), e[s], |e|) == w / (nDim + 1) as real
  {
    RowOverSplit(e, ElemDiag(nDim, w), ElemOff(nDim, w), s, |e|);
    var o := ElemOff(nDim, w);
    assert Times(1, o) == o;
    assert Times(2, o) == o + o;
    assert Times(3, o) == o + o + o;
    if nDim == 3 {
      assert Times(4, o) == Times(3, o) + o;
    }
  }

  // ---------------------------------------------------------------------
  // Assembly over the elements
  // ---------------------------------------------------------------------

  /** What the first k elements add at (a, b), element l carrying weight ws[l]. */
  function MassAfter(m: FemMesh, ws: seq<real>, k: nat, a: nat, b: nat): real
    requires k <= |m.elems| && |ws| == |m.elems|
  {
    if k == 0 then 0.0
    else MassAfter(m, ws, k - 1, a, b) + ElemEntry(m.elems[k - 1], ElemDiag(m.nDim, ws[k - 1]), ElemOff(m.nDim, ws[k - 1]), a, b)
  }

  /** The assembled mass matrix is symmetric. */
  lemma {:induction false} MassAfterSymmetric(m: FemMesh, ws: seq<real>, k: nat, a: nat, b: nat)
    requires k <= |m.elems| && |ws| == |m.elems|
    ensures MassAfter(m, ws, k, a, b) == MassAfter(m, ws, k, b, a)
  {
    if k > 0 {
      MassAfterSymmetric(m, ws, k - 1, a, b);
      ElemEntrySymmetric(m.elems[k - 1], ElemDiag(m.nDim, ws[k - 1]), ElemOff(m.nDim, ws[k - 1]), a, b);
    }
  }

  /** A point that belongs to no element receives nothing. */
  lemma {:induction false} MassAfterOutside(m: FemMesh, ws: seq<real>, k: nat, a: nat, b: nat)
    requires k <= |m.elems| && |ws| == |m.elems|
    requires forall l :: 0 <= l < k ==> a !in m.elems[l]
    ensures MassAfter(m, ws, k, a, b) == 0.0
  {
    if k > 0 {
      MassAfterOutside(m, ws, k - 1, a, b);
    }
  }

  /** Source_Residual: the element weight is its measure over Time_Num. */
  function SourceWeight(measure: real, timeNum: real): real
    requires timeNum != 0.0
  {
    measure / timeNum
  }

  /** Time_Num: the physical time step when time stepping, otherwise 1e30. */
  function SourceTimeNum(unsteady: Unsteady, deltaUnstTimeND: real): real {
    if unsteady == TimeStepping then deltaUnstTimeND else 1.0e30
  }

  function SourceWeights(m: FemMesh, timeNum: real): (ws: seq<real>)
    requires ValidMesh(m) && timeNum != 0.0
    ensures |ws| == |m.elems|
  {
    seq(|m.elems|, l requires 0 <= l < |m.elems| => SourceWeight(Measure(m, m.elems[l]), timeNum))
  }

  /** SetResidual_DualTime's TimeJac: 1/dt, or 3/(2 dt). */
  function TimeJac(s: DualScheme, dt: real): real
    requires dt != 0.0
  {
    match s
    case FirstOrder => 1.0 / dt
    case SecondOrder => 3.0 / (2.0 * dt)
  }

  /** SetResidual_DualTime: the element weight is its measure times TimeJac. */
  function DualWeight(measure: real, timeJac: real): real {
    measure * timeJac
  }

  function DualWeights(m: FemMesh, timeJac: real): (ws: seq<real>)
    requires ValidMesh(m)
    ensures |ws| == |m.elems|
  {
    seq(|m.elems|, l requires 0 <= l < |m.elems| => DualWeight(Measure(m, m.elems[l]), timeJac))
  }

  /** A non-negative time factor gives non-negative element weights. */
  lemma DualWeightsNonNegative(m: FemMesh, timeJac: real, l: nat)
    requires ValidMesh(m) && l < |m.elems| && timeJac >= 0.0
    ensures DualWeights(m, timeJac)[l] >= 0.0
  {
    assert Measure(m, m.elems[l]) * timeJac >= 0.0;
  }

  // ---------------------------------------------------------------------
  // The dual-time residual
  // ---------------------------------------------------------------------

  /** LinSysSol at one point: U^{n+1} - U^n, or U^{n+1} - 4/3 U^n + 1/3 U^{n-1}. */
  function DualDelta(s: DualScheme, un1: real, un: real, unm1: real): real {
    match s
    case FirstOrder => un1 - un
    case SecondOrder => un1 - (4.0 / 3.0) * un + (1.0 / 3.0) * unm1
  }

  function DualDeltas(s: DualScheme, sol: seq<real>, timeN: seq<real>, timeN1: seq<real>): (x: Vector)
    requires |timeN| == |sol| && |timeN1| == |sol|
    ensures |x| == |sol| && forall p :: 0 <= p < |sol| ==> x[p] == DualDelta(s, sol[p], timeN[p], timeN1[p])
  {
    seq(|sol|, p requires 0 <= p < |sol| => DualDelta(s, sol[p], timeN[p], timeN1[p]))
  }

  /**
   * Lumped onto one point of volume V, the finite-element term
   * TimeJac V LinSysSol is the finite-volume dual-time residual.
   */
  lemma DualDeltaMatchesFiniteVolume(s: DualScheme, un1: real, un: real, unm1: real, vol: real, dt: real)
    requires dt != 0.0
    ensures DualWeight(vol, TimeJac(s, dt)) * DualDelta(s, un1, un, unm1) == DualTimeResidual(s, un1, un, unm1, vol, dt)
  {
    match s
    case FirstOrder =>
      assert vol * (1.0 / dt) * (un1 - un) == (un1 - un) * vol / dt;
    case SecondOrder =>
      var x := un1 - (4.0 / 3.0) * un + (1.0 / 3.0) * unm1;
      assert 3.0 * un1 - 4.0 * un + 1.0 * unm1 == 3.0 * x;
      assert vol * (3.0 / (2.0 * dt)) * x == (3.0 * x) * vol / (2.0 * dt);
  }

  /** The three time levels agree: the solution is at rest. */
  predicate AtRest(sol: seq<real>, timeN: seq<real>, timeN1: seq<real>)
    requires |timeN| == |sol| && |timeN1| == |sol|
  {
    forall p :: 0 <= p < |sol| ==> sol[p] == timeN[p] == timeN1[p]
  }

  lemma {:induction false} RowDotZero(m: Matrix, i: nat, x: Vector, k: nat)
    requires k <= |x| && forall q :: 0 <= q < |x| ==> x[q] == 0.0
    ensures RowDot(m, i, x, k) == 0.0
  {
    if k > 0 {
      RowDotZero(m, i, x, k - 1);
    }
  }

  /** At rest the time matrix sees a zero LinSysSol, so the dual-time residual adds nothing. */
  lemma DualTimeAtRest(t: Matrix, s: DualScheme, sol: seq<real>, timeN: seq<real>, timeN1: seq<real>)
    requires |timeN| == |sol| && |timeN1| == |sol| && AtRest(sol, timeN, timeN1)
    ensures forall p :: 0 <= p < |sol| ==> MatVec(t, DualDeltas(s, sol, timeN, timeN1))[p] == 0.0
  {
    var x := DualDeltas(s, sol, timeN, timeN1);
    forall p | 0 <= p < |sol|
      ensures MatVec(t, x)[p] == 0.0
    {
      RowDotZero(t, p, x, |x|);
    }
  }

  // ---------------------------------------------------------------------
  // BC_Isothermal_Wall
  // ---------------------------------------------------------------------

  /** The residual written at a wall point: 0 when unsteady, else what the Residual buffer holds. */
  function WallResidual(unsteady: Unsteady, residualBuffer: real): real {
    if unsteady != Steady then 0.0 else residualBuffer
  }

  /** A row of the form x_p = rhs_p: the Jacobian row DeleteValsRowi leaves. */
  ghost predicate IdentityRow(jac: Matrix, p: nat) {
    forall b: nat :: Get(jac, p, b) == (if b == p then 1.0 else 0.0)
  }

  /** An identity row picks out the unknown of its own point. */
  lemma {:induction false} IdentityRowDot(jac: Matrix, p: nat, x: Vector, k: nat)
    requires IdentityRow(jac, p) && k <= |x|
    ensures RowDot(jac, p, x, k) == (if p < k then x[p] else 0.0)
  {
    if k > 0 {
      IdentityRowDot(jac, p, x, k - 1);
    }
  }

  // ---------------------------------------------------------------------
  // The time matrix as written
  // ---------------------------------------------------------------------

  /**
   * Entry (a, b) of what SetResidual_DualTime adds to StiffMatrixTime per
   * element as written: in 3-D the fourth diagonal block goes to Point_2
   * instead of Point_3, so Point_2 gets d twice and Point_3 nothing.
   */
  function TimeEntryAsWritten(e: seq<nat>, d: real, o: real, a: nat, b: nat): real
    requires |e| >= 3
  {
    if |e| == 4 && a == b && a == e[3] then 0.0
    else if |e| == 4 && a == b && a == e[2] then 2.0 * d
    else ElemEntry(e, d, o, a, b)
  }

  /** Row sums of the as-written time matrix: Point_3 short of d, Point_2 over by d. */
  lemma TimeRowsAsWritten(e: seq<nat>, w: real)
    requires |e| == 4 && Distinct(e)
    ensures TimeEntryAsWritten(e, ElemDiag(3, w), ElemOff(3, w), e[3], e[3]) == 0.0
    ensures ElemEntry(e, ElemDiag(3, w), ElemOff(3, w), e[3], e[3]) == w / 10.0
    ensures TimeEntryAsWritten(e, ElemDiag(3, w), ElemOff(3, w), e[2], e[2]) == w / 5.0
  {
    assert e[2] != e[3];
  }

  /**
   * How the as-written entry departs from the element's mass matrix: a
   * tetrahedron's Point_2 gets d more on its diagonal and its Point_3 d
   * less; every other entry, and every entry of a triangle, is the same.
   */
  function TimeShift(e: seq<nat>, d: real, a: nat, b: nat): real {
    if |e| == 4 && a == b && a == e[2] then d
    else if |e| == 4 && a == b && a == e[3] then -d
    else 0.0
  }

  lemma TimeEntryShift(e: seq<nat>, d: real, o: real, a: nat, b: nat)
    requires (|e| == 3 || |e| == 4) && Distinct(e)
    ensures TimeEntryAsWritten(e, d, o, a, b) == ElemEntry(e, d, o, a, b) + TimeShift(e, d, a, b)
  {
    if |e| == 4 {
      assert e[2] != e[3];
    }
  }

  /** What the first k elements add at (a, b) of StiffMatrixTime as written. */
  function TimeAfterAsWritten(m: FemMesh, ws: seq<real>, k: nat, a: nat, b: nat): real
    requires ValidMesh(m) && k <= |m.elems| && |ws| == |m.elems|
  {
    if k == 0 then 0.0
    else TimeAfterAsWritten(m, ws, k - 1, a, b) + TimeEntryAsWritten(m.elems[k - 1], ElemDiag(m.nDim, ws[k - 1]), ElemOff(m.nDim, ws[k - 1]), a, b)
  }

  /** The shifts of the first k elements at (a, b). */
  function ShiftAfter(m: FemMesh, ws: seq<real>, k: nat, a: nat, b: nat): real
    requires k <= |m.elems| && |ws| == |m.elems|
  {
    if k == 0 then 0.0
    else ShiftAfter(m, ws, k - 1, a, b) + TimeShift(m.elems[k - 1], ElemDiag(m.nDim, ws[k - 1]), a, b)
  }

  /**
   * The time matrix as written is the corrected one (the Jacobian's mass
   * matrix) plus the shifts: moved diagonal shares from Point_3 to Point_2.
   */
  lemma {:induction false} TimeAsWrittenIsMassPlusShift(m: FemMesh, ws: seq<real>, k: nat, a: nat, b: nat)
    requires ValidMesh(m) && k <= |m.elems| && |ws| == |m.elems|
    ensures TimeAfterAsWritten(m, ws, k, a, b) == MassAfter(m, ws, k, a, b) + ShiftAfter(m, ws, k, a, b)
  {
    if k > 0 {
      TimeAsWrittenIsMassPlusShift(m, ws, k - 1, a, b);
      assert ValidElem(m, m.elems[k - 1]);
      TimeEntryShift(m.elems[k - 1], ElemDiag(m.nDim, ws[k - 1]), ElemOff(m.nDim, ws[k - 1]), a, b);
    }
  }

  /** Shifts sit on the diagonal only, and a triangle mesh has none. */
  lemma {:induction false} ShiftAfterVanishes(m: FemMesh, ws: seq<real>, k: nat, a: nat, b: nat)
    requires ValidMesh(m) && k <= |m.elems| && |ws| == |m.elems|
    requires a != b || m.nDim == 2
    ensures ShiftAfter(m, ws, k, a, b) == 0.0
  {
    if k > 0 {
      ShiftAfterVanishes(m, ws, k - 1, a, b);
      assert ValidElem(m, m.elems[k - 1]);
    }
  }

  /**
   * Where the two time matrices agree: every off-diagonal entry, and the
   * whole matrix on a 2-D mesh; they can differ only on the diagonal of
   * a tetrahedral mesh.
   */
  lemma TimeMatricesAgreeOffTheDiagonal(m: FemMesh, ws: seq<real>, a: nat, b: nat)
    requires ValidMesh(m) && |ws| == |m.elems|
    requires a != b || m.nDim == 2
    ensures TimeAfterAsWritten(m, ws, |m.elems|, a, b) == MassAfter(m, ws, |m.elems|, a, b)
  {
    TimeAsWrittenIsMassPlusShift(m, ws, |m.elems|, a, b);
    ShiftAfterVanishes(m, ws, |m.elems|, a, b);
  }

  /**
   * The regular tetrahedron on points 0..3 at the unit corners, with
   * TimeJac = 1: its Jacobian gets 1/60 at (3, 3), its time matrix 0.
   */
  lemma UnitTetrahedronTimeMatrix()
    ensures var m := FemMesh(3, [[0.0, 0.0, 0.0], [1.0, 0.0, 0.0], [0.0, 1.0, 0.0], [0.0, 0.0, 1.0]], [[0, 1, 2, 3]]);
            && ValidMesh(m)
            && Measure(m, [0, 1, 2, 3]) == 1.0 / 6.0
            && ElemEntry([0, 1, 2, 3], ElemDiag(3, 1.0 / 6.0), ElemOff(3, 1.0 / 6.0), 3, 3) == 1.0 / 60.0
            && TimeEntryAsWritten([0, 1, 2, 3], ElemDiag(3, 1.0 / 6.0), ElemOff(3, 1.0 / 6.0), 3, 3) == 0.0
    ensures var m := FemMesh(3, [[0.0, 0.0, 0.0], [1.0, 0.0, 0.0], [0.0, 1.0, 0.0], [0.0, 0.0, 1.0]], [[0, 1, 2, 3]]);
            && ValidMesh(m)
            && MassAfter(m, DualWeights(m, 1.0), 1, 3, 3) == 1.0 / 60.0
            && TimeAfterAsWritten(m, DualWeights(m, 1.0), 1, 3, 3) == 0.0
            && TimeAfterAsWritten(m, DualWeights(m, 1.0), 1, 2, 2) == 1.0 / 30.0
  {
    var m := FemMesh(3, [[0.0, 0.0, 0.0], [1.0, 0.0, 0.0], [0.0, 1.0, 0.0], [0.0, 0.0, 1.0]], [[0, 1, 2, 3]]);
    var e: seq<nat> := [0, 1, 2, 3];
    assert ValidElem(m, e);
    var a := Jump(m.coord[e[0]], m.coord[e[2]], 3);
    var b := Jump(m.coord[e[1]], m.coord[e[2]], 3);
    var c := Jump(m.coord[e[3]], m.coord[e[2]], 3);
    assert a == [0.0, -1.0, 0.0] && b == [1.0, -1.0, 0.0] && c == [0.0, -1.0, 1.0];
    assert TripleProduct(a, b, c) == 1.0;
    assert DualWeights(m, 1.0) == [1.0 / 6.0];
    assert m.elems[0] == e;
  }

  // ---------------------------------------------------------------------
  // The element loops
  // ---------------------------------------------------------------------

  /** The diagonal blocks of one element, Point_0 first. */
  method AddElemDiagonal(jac: Matrix, e: seq<nat>, d: real) returns (r: Matrix)
    requires (|e| == 3 || |e| == 4) && Distinct(e)
    ensures forall a: nat, b: nat :: Get(r, a, b) == Get(jac, a, b) + (if a == b && a in e then d else 0.0)
  {
    r := MatAdd(jac, e[0], e[0], d);
    r := MatAdd(r, e[1], e[1], d);
    r := MatAdd(r, e[2], e[2], d);
    if |e| == 4 {
      r := MatAdd(r, e[3], e[3], d);
    }
  }

  /** The off-diagonal blocks among the first three nodes, in the order the source adds them. */
  method AddTriangleOffDiagonal(jac: Matrix, e: seq<nat>, o: real) returns (r: Matrix)
    requires (|e| == 3 || |e| == 4) && Distinct(e)
    ensures forall a: nat, b: nat :: Get(r, a, b) == Get(jac, a, b) + (if a != b && a in e[..3] && b in e[..3] then o else 0.0)
  {
    r := MatAdd(jac, e[0], e[1], o);
    r := MatAdd(r, e[0], e[2], o);
    r := MatAdd(r, e[1], e[0], o);
    r := MatAdd(r, e[1], e[2], o);
    r := MatAdd(r, e[2], e[0], o);
    r := MatAdd(r, e[2], e[1], o);
  }

  /** The off-diagonal blocks between the fourth node of a tetrahedron and the other three. */
  method AddFourthNodeOffDiagonal(jac: Matrix, e: seq<nat>, o: real) returns (r: Matrix)
    requires |e| == 4 && Distinct(e)
    ensures forall a: nat, b: nat ::
      Get(r, a, b) == Get(jac, a, b) + (if (a == e[3] && b in e[..3]) || (b == e[3] && a in e[..3]) then o else 0.0)
  {
    r := MatAdd(jac, e[0], e[3], o);
    r := MatAdd(r, e[1], e[3], o);
    r := MatAdd(r, e[2], e[3], o);
    r := MatAdd(r, e[3], e[0], o);
    r := MatAdd(r, e[3], e[1], o);
    r := MatAdd(r, e[3], e[2], o);
  }

  /** All off-diagonal blocks of one element. */
  method AddElemOffDiagonal(jac: Matrix, e: seq<nat>, o: real) returns (r: Matrix)
    requires (|e| == 3 || |e| == 4) && Distinct(e)
    ensures forall a: nat, b: nat :: Get(r, a, b) == Get(jac, a, b) + (if a != b && a in e && b in e then o else 0.0)
  {
    r := AddTriangleOffDiagonal(jac, e, o);
    if |e| == 4 {
      assert forall a :: a in e <==> a in e[..3] || a == e[3];
      r := AddFourthNodeOffDiagonal(r, e, o);
    } else {
      assert e[..3] == e;
    }
  }

  /** One element's mass matrix added to a matrix. */
  method AddElemMass(jac: Matrix, e: seq<nat>, d: real, o: real) returns (r: Matrix)
    requires (|e| == 3 || |e| == 4) && Distinct(e)
    ensures forall a: nat, b: nat :: Get(r, a, b) == Get(jac, a, b) + ElemEntry(e, d, o, a, b)
  {
    r := AddElemDiagonal(jac, e, d);
    r := AddElemOffDiagonal(r, e, o);
  }

  /**
   * The StiffMatrixTime blocks of one element as written: the fourth
   * diagonal block of a tetrahedron is added at (Point_2, Point_2).
   */
  method AddElemTimeAsWritten(t: Matrix, e: seq<nat>, d: real, o: real) returns (r: Matrix)
    requires (|e| == 3 || |e| == 4) && Distinct(e)
    ensures forall a: nat, b: nat :: Get(r, a, b) == Get(t, a, b) + TimeEntryAsWritten(e, d, o, a, b)
  {
    r := MatAdd(t, e[0], e[0], d);
    r := MatAdd(r, e[1], e[1], d);
    r := MatAdd(r, e[2], e[2], d);
    if |e| == 4 {
      r := MatAdd(r, e[2], e[2], d);
    }
    r := AddElemOffDiagonal(r, e, o);
  }

  /** r is base plus the mass matrices of the first k elements. */
  ghost predicate Assembled(r: Matrix, base: Matrix, m: FemMesh, ws: seq<real>, k: nat)
    requires k <= |m.elems| && |ws| == |m.elems|
  {
    forall a: nat, b: nat :: Get(r, a, b) == Get(base, a, b) + MassAfter(m, ws, k, a, b)
  }

  /** Adding element k's mass matrix, at weight ws[k], extends the assembly by one element. */
  method AddElemMassStep(r: Matrix, ghost base: Matrix, m: FemMesh, ghost ws: seq<real>, k: nat, w: real) returns (r': Matrix)
    requires ValidMesh(m) && k < |m.elems| && |ws| == |m.elems| && w == ws[k]
    requires Assembled(r, base, m, ws, k)
    ensures Assembled(r', base, m, ws, k + 1)
  {
    r' := AddElemMass(r, m.elems[k], ElemDiag(m.nDim, w), ElemOff(m.nDim, w));
  }

  /** Source_Residual's element loop: each element's mass matrix over Time_Num, into the Jacobian. */
  method SourceMassPass(jac: Matrix, m: FemMesh, timeNum: real) returns (r: Matrix)
    requires ValidMesh(m) && timeNum != 0.0
    ensures forall a: nat, b: nat :: Get(r, a, b) == Get(jac, a, b) + MassAfter(m, SourceWeights(m, timeNum), |m.elems|, a, b)
  {
    ghost var ws := SourceWeights(m, timeNum);
    r := jac;
    for k := 0 to |m.elems|
      invariant Assembled(r, jac, m, ws, k)
    {
      var w := SourceWeight(Measure(m, m.elems[k]), timeNum);
      r := AddElemMassStep(r, jac, m, ws, k, w);
    }
    assert Assembled(r, jac, m, ws, |m.elems|);
  }

  /**
   * SetResidual_DualTime's element loop as intended: each element's mass
   * matrix times TimeJac, into the Jacobian and into the time matrix alike.
   */
  method DualMassPass(jac: Matrix, time: Matrix, m: FemMesh, timeJac: real) returns (rj: Matrix, rt: Matrix)
    requires ValidMesh(m)
    ensures forall a: nat, b: nat :: Get(rj, a, b) == Get(jac, a, b) + MassAfter(m, DualWeights(m, timeJac), |m.elems|, a, b)
    ensures forall a: nat, b: nat :: Get(rt, a, b) == Get(time, a, b) + MassAfter(m, DualWeights(m, timeJac), |m.elems|, a, b)
  {
    ghost var ws := DualWeights(m, timeJac);
    rj, rt := jac, time;
    for k := 0 to |m.elems|
      invariant Assembled(rj, jac, m, ws, k)
      invariant Assembled(rt, time, m, ws, k)
    {
      var w := DualWeight(Measure(m, m.elems[k]), timeJac);
      rj := AddElemMassStep(rj, jac, m, ws, k, w);
      rt := AddElemMassStep(rt, time, m, ws, k, w);
    }
    assert Assembled(rj, jac, m, ws, |m.elems|);
    assert Assembled(rt, time, m, ws, |m.elems|);
  }

  /** r is base plus the as-written time blocks of the first k elements. */
  ghost predicate TimeAssembled(r: Matrix, base: Matrix, m: FemMesh, ws: seq<real>, k: nat)
    requires ValidMesh(m) && k <= |m.elems| && |ws| == |m.elems|
  {
    forall a: nat, b: nat :: Get(r, a, b) == Get(base, a, b) + TimeAfterAsWritten(m, ws, k, a, b)
  }

  /** Adding element k's as-written time blocks extends the time assembly by one element. */
  method AddElemTimeStep(r: Matrix, ghost base: Matrix, m: FemMesh, ghost ws: seq<real>, k: nat, w: real) returns (r': Matrix)
    requires ValidMesh(m) && k < |m.elems| && |ws| == |m.elems| && w == ws[k]
    requires TimeAssembled(r, base, m, ws, k)
    ensures TimeAssembled(r', base, m, ws, k + 1)
  {
    r' := AddElemTimeAsWritten(r, m.elems[k], ElemDiag(m.nDim, w), ElemOff(m.nDim, w));
  }

  /** Element k's Jacobian blocks and its as-written time blocks. */
  method DualTimeStep(rj: Matrix, rt: Matrix, ghost jac: Matrix, ghost time: Matrix, m: FemMesh, ghost ws: seq<real>, k: nat, w: real)
    returns (rj': Matrix, rt': Matrix)
    requires ValidMesh(m) && k < |m.elems| && |ws| == |m.elems| && w == ws[k]
    requires Assembled(rj, jac, m, ws, k) && TimeAssembled(rt, time, m, ws, k)
    ensures Assembled(rj', jac, m, ws, k + 1) && TimeAssembled(rt', time, m, ws, k + 1)
  {
    rj' := AddElemMassStep(rj, jac, m, ws, k, w);
    rt' := AddElemTimeStep(rt, time, m, ws, k, w);
  }

  /**
   * SetResidual_DualTime's element loop as written: the mass matrix times
   * TimeJac into the Jacobian, and the same blocks into the time matrix
   * except that a tetrahedron's fourth diagonal block lands on Point_2.
   */
  method DualTimePass(jac: Matrix, time: Matrix, m: FemMesh, timeJac: real) returns (rj: Matrix, rt: Matrix)
    requires ValidMesh(m)
    ensures forall a: nat, b: nat :: Get(rj, a, b) == Get(jac, a, b) + MassAfter(m, DualWeights(m, timeJac), |m.elems|, a, b)
    ensures forall a: nat, b: nat :: Get(rt, a, b) == Get(time, a, b) + TimeAfterAsWritten(m, DualWeights(m, timeJac), |m.elems|, a, b)
  {
    ghost var ws := DualWeights(m, timeJac);
    rj, rt := jac, time;
    for k := 0 to |m.elems|
      invariant Assembled(rj, jac, m, ws, k)
      invariant TimeAssembled(rt, time, m, ws, k)
    {
      var w := DualWeight(Measure(m, m.elems[k]), timeJac);
      rj, rt := DualTimeStep(rj, rt, jac, time, m, ws, k, w);
    }
    assert Assembled(rj, jac, m, ws, |m.elems|);
    assert TimeAssembled(rt, time, m, ws, |m.elems|);
  }

  /** v with the entries of the points in w replaced by x. */
  function Pinned(v: seq<real>, w: seq<nat>, x: real): (r: seq<real>)
    ensures |r| == |v| && forall p :: 0 <= p < |v| ==> r[p] == (if p in w then x else v[p])
  {
    seq(|v|, p requires 0 <= p < |v| => if p in w then x else v[p])
  }

  lemma PinnedStep(v: seq<real>, w: seq<nat>, p: nat, x: real)
    requires p < |v|
    ensures Pinned(v, w + [p], x) == SetBlock(Pinned(v, w, x), p, x)
  {
  }

  /** DeleteValsRowi applied to the rows of w in turn. */
  function DeleteRows(m: Matrix, w: seq<nat>): (r: Matrix)
    ensures forall a: nat, b: nat :: Get(r, a, b) == (if a in w then (if a == b then 1.0 else 0.0) else Get(m, a, b))
  {
    if |w| == 0 then m
    else
      assert forall a :: a in w <==> a in w[..|w| - 1] || a == w[|w| - 1];
      DeleteValsRowi(DeleteRows(m, w[..|w| - 1]), w[|w| - 1])
  }

  /** CHeatSolver: the per-point solution levels and the linear system it assembles. */
  /** The loop setting LinSysSol to the time difference of the solution at every point. */
  method DualDeltaPass(s: DualScheme, sol: seq<real>, timeN: seq<real>, timeN1: seq<real>, x0: Vector) returns (x: Vector)
    requires |timeN| == |sol| && |timeN1| == |sol| && |x0| == |sol|
    ensures x == DualDeltas(s, sol, timeN, timeN1)
  {
    x := x0;
    for p := 0 to |sol|
      invariant |x| == |sol|
      invariant forall q :: 0 <= q < p ==> x[q] == DualDelta(s, sol[q], timeN[q], timeN1[q])
    {
      x := x[p := DualDelta(s, sol[p], timeN[p], timeN1[p])];
    }
  }

  /** The loop subtracting LinSysAux from LinSysRes block by block. */
  method SubtractPass(res0: Vector, aux: Vector) returns (res: Vector)
    requires |aux| == |res0|
    ensures |res| == |res0| && forall p :: 0 <= p < |res0| ==> res[p] == res0[p] - aux[p]
  {
    res := res0;
    for p := 0 to |res0|
      invariant |res| == |res0|
      invariant forall q :: 0 <= q < p ==> res[q] == res0[q] - aux[q]
      invariant forall q :: p <= q < |res0| ==> res[q] == res0[q]
    {
      res := SubtractBlock(res, p, aux[p]);
    }
  }

  class HeatSolverFEM {
    var nPoint: nat
    var solution: seq<real>
    var solutionOld: seq<real>
    var solutionTimeN: seq<real>
    var solutionTimeN1: seq<real>
    var linSysRes: Vector
    var linSysSol: Vector
    var linSysAux: Vector
    var jacobian: Matrix
    var stiffMatrixTime: Matrix

    predicate Valid()
      reads this
    {
      && |solution| == nPoint && |solutionOld| == nPoint
      && |solutionTimeN| == nPoint && |solutionTimeN1| == nPoint
      && |linSysRes| == nPoint && |linSysSol| == nPoint && |linSysAux| == nPoint
    }

    predicate OnMesh(m: FemMesh)
      reads this
    {
      ValidMesh(m) && |m.coord| == nPoint
    }

    /**
     * Source_Residual: when unsteady, every element's mass matrix divided
     * by Time_Num (the physical step when time stepping, otherwise 1e30)
     * is added to the Jacobian; a steady run adds nothing.
     */
    method SourceResidual(m: FemMesh, unsteady: Unsteady, deltaUnstTimeND: real)
      requires Valid() && OnMesh(m)
      requires unsteady == TimeStepping ==> deltaUnstTimeND != 0.0
      modifies this`jacobian
      ensures Valid()
      ensures unsteady == Steady ==> jacobian == old(jacobian)
      ensures unsteady != Steady ==> forall a: nat, b: nat ::
        Get(jacobian, a, b) == Get(old(jacobian), a, b) + MassAfter(m, SourceWeights(m, SourceTimeNum(unsteady, deltaUnstTimeND)), |m.elems|, a, b)
    {
      if unsteady != Steady {
        var timeNum := SourceTimeNum(unsteady, deltaUnstTimeND);
        jacobian := SourceMassPass(jacobian, m, timeNum);
      }
    }

    /**
     * SetResidual_DualTime: the element mass matrices times TimeJac go
     * into the Jacobian, and the same blocks as written (a tetrahedron's
     * fourth diagonal block on Point_2) into the time matrix; LinSysSol takes the time
     * difference of the solution at every point, and the time matrix
     * applied to it is subtracted from the residual.
     */
    method SetResidualDualTime(m: FemMesh, s: DualScheme, dt: real)
      requires Valid() && OnMesh(m) && dt != 0.0
      modifies this`jacobian, this`stiffMatrixTime, this`linSysSol, this`linSysAux, this`linSysRes
      ensures Valid()
      ensures forall a: nat, b: nat ::
        Get(jacobian, a, b) == Get(old(jacobian), a, b) + MassAfter(m, DualWeights(m, TimeJac(s, dt)), |m.elems|, a, b)
      ensures forall a: nat, b: nat ::
        Get(stiffMatrixTime, a, b) == Get(old(stiffMatrixTime), a, b) + TimeAfterAsWritten(m, DualWeights(m, TimeJac(s, dt)), |m.elems|, a, b)
      ensures linSysSol == DualDeltas(s, solution, solutionTimeN, solutionTimeN1)
      ensures linSysAux == MatVec(stiffMatrixTime, linSysSol)
      ensures forall p :: 0 <= p < nPoint ==> linSysRes[p] == old(linSysRes)[p] - linSysAux[p]
    {
      var timeJac := TimeJac(s, dt);
      jacobian, stiffMatrixTime := DualTimePass(jacobian, stiffMatrixTime, m, timeJac);
      linSysSol := DualDeltaPass(s, solution, solutionTimeN, solutionTimeN1, linSysSol);
      linSysAux := MatVec(stiffMatrixTime, linSysSol);
      linSysRes := SubtractPass(linSysRes, linSysAux);
    }

    /**
     * BC_Isothermal_Wall: every vertex of the marker gets the wall
     * temperature as solution and old solution, the residual and the
     * initial guess of its row become the wall residual (0 when
     * unsteady), and its Jacobian row becomes the identity row.
     */
    method BCIsothermalWall(wall: seq<nat>, twall: real, unsteady: Unsteady, residualBuffer: real)
      requires Valid() && forall k :: 0 <= k < |wall| ==> wall[k] < nPoint
      modifies this`solution, this`solutionOld, this`linSysRes, this`linSysSol, this`jacobian
      ensures Valid()
      ensures forall p :: 0 <= p < nPoint ==> solution[p] == (if p in wall then twall else old(solution)[p])
      ensures forall p :: 0 <= p < nPoint ==> solutionOld[p] == (if p in wall then twall else old(solutionOld)[p])
      ensures forall p :: 0 <= p < nPoint ==>
        linSysRes[p] == (if p in wall then WallResidual(unsteady, residualBuffer) else old(linSysRes)[p])
      ensures forall p :: 0 <= p < nPoint ==>
        linSysSol[p] == (if p in wall then WallResidual(unsteady, residualBuffer) else old(linSysSol)[p])
      ensures forall a: nat, b: nat ::
        Get(jacobian, a, b) == (if a in wall then (if a == b then 1.0 else 0.0) else Get(old(jacobian), a, b))
    {
      var r := WallResidual(unsteady, residualBuffer);
      for k := 0 to |wall|
        invariant solution == Pinned(old(solution), wall[..k], twall)
        invariant solutionOld == Pinned(old(solutionOld), wall[..k], twall)
        invariant linSysRes == Pinned(old(linSysRes), wall[..k], r)
        invariant linSysSol == Pinned(old(linSysSol), wall[..k], r)
        invariant jacobian == DeleteRows(old(jacobian), wall[..k])
      {
        var p := wall[k];
        assert wall[..k + 1] == wall[..k] + [p];
        PinnedStep(old(solution), wall[..k], p, twall);
        PinnedStep(old(solutionOld), wall[..k], p, twall);
        PinnedStep(old(linSysRes), wall[..k], p, r);
        PinnedStep(old(linSysSol), wall[..k], p, r);
        solution := SetBlock(solution, p, twall);
        solutionOld := SetBlock(solutionOld, p, twall);
        linSysRes := SetBlock(linSysRes, p, r);
        linSysSol := SetBlock(linSysSol, p, r);
        jacobian := DeleteValsRowi(jacobian, p);
      }
      assert wall[..|wall|] == wall;
    }
  }

  /** After the wall condition, the row of every wall point reads x_p = b_p. */
  lemma WallRowsFixIncrement(jac: Matrix, wall: seq<nat>, p: nat, x: Vector)
    requires p in wall && p < |x|
    requires forall b: nat :: Get(jac, p, b) == (if b == p then 1.0 else 0.0)
    ensures RowDot(jac, p, x, |x|) == x[p]
  {
    IdentityRowDot(jac, p, x, |x|);
  }
}
