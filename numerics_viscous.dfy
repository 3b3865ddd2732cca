/**
 * Pieces shared by the two average-gradient viscous operators of the
 * incompressible solver (CAvgGradInc_Flow and CAvgGradCorrectedInc_Flow):
 * mean primitive state, mean transport properties, mean gradient, edge
 * geometry and the implicit Jacobian pair.
 */
module IncViscousCommon {
  import opened IncNumericsBase

  /**
   * One edge as the viscous operators see it: the two primitive states,
   * their (nDim+2)-by-nDim primitive gradients, the two point coordinates,
   * the face normal and the two turbulent kinetic energies.
   */
  datatype ViscousEdge = ViscousEdge(Vi: Vec, Vj: Vec, gradI: Mat, gradJ: Mat,
                                     coordI: Vec, coordJ: Vec, normal: Vec, keI: real, keJ: real)

  /** Shapes the operators index, and the face area they divide by. */
  predicate Shaped(o: Oracle, nDim: nat, p: ViscousEdge) {
    IsPrim(p.Vi, nDim) && IsPrim(p.Vj, nDim)
    && IsMat(p.gradI, nDim + 2, nDim) && IsMat(p.gradJ, nDim + 2, nDim)
    && |p.coordI| == nDim && |p.coordJ| == nDim && |p.normal| == nDim
    && FaceArea(o, p.normal) != 0.0
  }

  // ---------------------------------------------------------------------
  // Specification
  // ---------------------------------------------------------------------

  /** Normal/Area, without any floor. */
  function PlainUnitNormal(normal: Vec, area: real): (u: Vec)
    requires area != 0.0
    ensures |u| == |normal| && forall d :: 0 <= d < |normal| ==> u[d] == normal[d] / area
  { seq(|normal|, d requires 0 <= d < |normal| => normal[d] / area) }

  function MeanMu(nDim: nat, p: ViscousEdge): real requires IsPrim(p.Vi, nDim) && IsPrim(p.Vj, nDim)
  { Mean(LaminarViscosity(p.Vi, nDim), LaminarViscosity(p.Vj, nDim)) }

  function MeanMuTurb(nDim: nat, p: ViscousEdge): real requires IsPrim(p.Vi, nDim) && IsPrim(p.Vj, nDim)
  { Mean(EddyViscosity(p.Vi, nDim), EddyViscosity(p.Vj, nDim)) }

  function MeanConductivity(nDim: nat, p: ViscousEdge): real requires IsPrim(p.Vi, nDim) && IsPrim(p.Vj, nDim)
  { Mean(ThermalConductivity(p.Vi, nDim), ThermalConductivity(p.Vj, nDim)) }

  /** The plain mean gradient, 0.5 (grad_i + grad_j), entry by entry. */
  function MeanGradient(gi: Mat, gj: Mat, n: nat, nDim: nat): (g: Mat)
    requires IsMat(gi, n, nDim) && IsMat(gj, n, nDim)
    ensures IsMat(g, n, nDim)
    ensures forall r, d :: 0 <= r < n && 0 <= d < nDim ==> g[r][d] == Mean(gi[r][d], gj[r][d])
  {
    seq(n, r requires 0 <= r < n => seq(nDim, d requires 0 <= d < nDim => Mean(gi[r][d], gj[r][d])))
  }

  /** The projected viscous flux of the mean primitive state with a given mean gradient. */
  function ViscousFlux(o: Oracle, nDim: nat, p: ViscousEdge, grad: Mat): Vec
    requires IsPrim(p.Vi, nDim) && IsPrim(p.Vj, nDim)
  {
    o.viscFlux(MeanVec(p.Vi, p.Vj), grad, p.normal, MeanMu(nDim, p), MeanMuTurb(nDim, p), Mean(p.keI, p.keJ),
               MeanConductivity(nDim, p))
  }

  /** The vector from point i to point j. */
  function EdgeVector(ci: Vec, cj: Vec): (e: Vec)
    requires |ci| == |cj|
    ensures |e| == |ci| && forall d :: 0 <= d < |ci| ==> e[d] == cj[d] - ci[d]
  { seq(|ci|, d requires 0 <= d < |ci| => cj[d] - ci[d]) }

  /** |x_j - x_i|^2 */
  function Dist2(p: ViscousEdge): real requires |p.coordI| == |p.coordJ|
  { SumSq(EdgeVector(p.coordI, p.coordJ)) }

  /** (x_j - x_i) . Normal */
  function EdgeProj(p: ViscousEdge): real requires |p.coordI| == |p.coordJ| == |p.normal|
  { Dot(EdgeVector(p.coordI, p.coordJ), p.normal) }

  /**
   * proj_vector_ij = (x_j - x_i).Normal / |x_j - x_i|^2. The operators divide
   * before testing for a zero distance and then never use the quotient; the
   * model divides only when the distance is non-zero.
   */
  function ProjOverDist(proj: real, dist2: real): real
  { if dist2 != 0.0 then proj / dist2 else 0.0 }

  /** GetViscousIncProjJacs of the mean viscosities, its Jacobian_i output. */
  function HelperJacobianI(o: Oracle, nDim: nat, p: ViscousEdge, dist: real): (h: Mat)
    requires Sound(o) && Shaped(o, nDim, p)
    ensures IsMat(h, nDim + 2, nDim + 2)
  {
    var area := FaceArea(o, p.normal);
    o.viscJacI(MeanMu(nDim, p), MeanMuTurb(nDim, p), dist, PlainUnitNormal(p.normal, area), area)
  }

  /** GetViscousIncProjJacs of the mean viscosities, its Jacobian_j output. */
  function HelperJacobianJ(o: Oracle, nDim: nat, p: ViscousEdge, dist: real): (h: Mat)
    requires Sound(o) && Shaped(o, nDim, p)
    ensures IsMat(h, nDim + 2, nDim + 2)
  {
    var area := FaceArea(o, p.normal);
    o.viscJacJ(MeanMu(nDim, p), MeanMuTurb(nDim, p), dist, PlainUnitNormal(p.normal, area), area)
  }

  /** k proj, the conductive coupling of the two temperatures across the edge. */
  function Coupling(nDim: nat, p: ViscousEdge, proj: real): real requires IsPrim(p.Vi, nDim) && IsPrim(p.Vj, nDim)
  { MeanConductivity(nDim, p) * proj }

  /**
   * The implicit Jacobian of point i: zero on a degenerate edge; otherwise the
   * viscous helper's Jacobian_i with the temperature-equation diagonal entry
   * set to -k proj.
   */
  function ViscousJacobianI(o: Oracle, nDim: nat, p: ViscousEdge, dist: real, degenerate: bool, proj: real): (m: Mat)
    requires Sound(o) && Shaped(o, nDim, p)
    ensures IsMat(m, nDim + 2, nDim + 2)
  {
    if degenerate then ZeroMat(nDim + 2)
    else SetEntry(HelperJacobianI(o, nDim, p, dist), nDim + 1, nDim + 1, -Coupling(nDim, p, proj))
  }

  /** The implicit Jacobian of point j: as for point i, with the entry set to +k proj. */
  function ViscousJacobianJ(o: Oracle, nDim: nat, p: ViscousEdge, dist: real, degenerate: bool, proj: real): (m: Mat)
    requires Sound(o) && Shaped(o, nDim, p)
    ensures IsMat(m, nDim + 2, nDim + 2)
  {
    if degenerate then ZeroMat(nDim + 2)
    else SetEntry(HelperJacobianJ(o, nDim, p, dist), nDim + 1, nDim + 1, Coupling(nDim, p, proj))
  }

  // ---------------------------------------------------------------------
  // Properties
  // ---------------------------------------------------------------------

  /** The squared edge length is zero exactly when the two points coincide. */
  lemma Dist2ZeroIffSamePoint(p: ViscousEdge)
    requires |p.coordI| == |p.coordJ|
    ensures Dist2(p) >= 0.0
    ensures Dist2(p) == 0.0 <==> p.coordI == p.coordJ
  {
    var e := EdgeVector(p.coordI, p.coordJ);
    SumSqToNonNeg(e, |e|);
    if Dist2(p) == 0.0 {
      assert forall d :: 0 <= d < |e| ==> p.coordI[d] == p.coordJ[d] by {
        forall d | 0 <= d < |e| ensures p.coordI[d] == p.coordJ[d] { assert e[d] == 0.0; }
      }
    }
  }

  /** The distance sqrt(|x_j - x_i|^2) is zero exactly when its square is. */
  lemma DistZeroIffDist2Zero(o: Oracle, p: ViscousEdge)
    requires Sound(o) && |p.coordI| == |p.coordJ|
    ensures o.sqrt(Dist2(p)) == 0.0 <==> Dist2(p) == 0.0
  {
    Dist2ZeroIffSamePoint(p);
  }

  /**
   * Whatever the edge, the temperature-equation diagonal entries of the two
   * Jacobians are opposite.
   */
  lemma TemperatureEntriesOpposite(o: Oracle, nDim: nat, p: ViscousEdge, dist: real, degenerate: bool, proj: real)
    requires Sound(o) && Shaped(o, nDim, p)
    ensures ViscousJacobianI(o, nDim, p, dist, degenerate, proj)[nDim + 1][nDim + 1]
         == -ViscousJacobianJ(o, nDim, p, dist, degenerate, proj)[nDim + 1][nDim + 1]
  {}

  // ---------------------------------------------------------------------
  // Shared loops
  // ---------------------------------------------------------------------

  /** UnitNormal[d] = Normal[d]/Area. */
  method ComputePlainUnitNormal(normal: Vec, area: real) returns (u: Vec)
    requires area != 0.0
    ensures u == PlainUnitNormal(normal, area)
  {
    var a := new real[|normal|];
    for d := 0 to |normal|
      invariant forall e :: 0 <= e < d ==> a[e] == normal[e] / area
    {
      a[d] := normal[d] / area;
    }
    u := a[..];
  }

  /** Mean_PrimVar[k] = 0.5 (V_i[k] + V_j[k]) over all nDim+9 entries. */
  method ComputeMeanPrimitive(Vi: Vec, Vj: Vec, nDim: nat) returns (m: Vec)
    requires IsPrim(Vi, nDim) && IsPrim(Vj, nDim)
    ensures m == MeanVec(Vi, Vj)
  {
    var a := new real[nDim + 9];
    for k := 0 to nDim + 9
      invariant forall l :: 0 <= l < k ==> a[l] == Mean(Vi[l], Vj[l])
    {
      a[k] := 0.5 * (Vi[k] + Vj[k]);
    }
    m := a[..];
  }

  /** Mean_GradPrimVar[r][d] = 0.5 (grad_i[r][d] + grad_j[r][d]). */
  method ComputeMeanGradient(gi: Mat, gj: Mat, n: nat, nDim: nat) returns (g: Mat)
    requires IsMat(gi, n, nDim) && IsMat(gj, n, nDim)
    ensures g == MeanGradient(gi, gj, n, nDim)
  {
    var G := new real[n, nDim];
    for r := 0 to n
      invariant forall i, d :: 0 <= i < r && 0 <= d < nDim ==> G[i, d] == Mean(gi[i][d], gj[i][d])
    {
      for d := 0 to nDim
        invariant forall i, e :: 0 <= i < r && 0 <= e < nDim ==> G[i, e] == Mean(gi[i][e], gj[i][e])
        invariant forall e :: 0 <= e < d ==> G[r, e] == Mean(gi[r][e], gj[r][e])
      {
        G[r, d] := 0.5 * (gi[r][d] + gj[r][d]);
      }
    }
    g := ToMat(G);
    MatExt(g, MeanGradient(gi, gj, n, nDim), n, nDim);
  }

  /**
   * Writes the implicit Jacobian pair: zero on a degenerate edge, otherwise
   * the helper's pair with the temperature diagonal entries overwritten.
   */
  method StoreViscousJacobians(o: Oracle, nDim: nat, p: ViscousEdge, dist: real, degenerate: bool, proj: real,
                               unitNormal: Vec, area: real, Ji: array2<real>, Jj: array2<real>)
    requires Sound(o) && Shaped(o, nDim, p)
    requires area == FaceArea(o, p.normal) && unitNormal == PlainUnitNormal(p.normal, area)
    requires Ji.Length0 == nDim + 2 && Ji.Length1 == nDim + 2
    requires Jj.Length0 == nDim + 2 && Jj.Length1 == nDim + 2
    requires Ji != Jj
    modifies Ji, Jj
    ensures ToMat(Ji) == ViscousJacobianI(o, nDim, p, dist, degenerate, proj)
    ensures ToMat(Jj) == ViscousJacobianJ(o, nDim, p, dist, degenerate, proj)
  {
    var n := nDim + 2;
    if degenerate {
      StoreMat(Ji, ZeroMat(n), n);
      StoreMat(Jj, ZeroMat(n), n);
    } else {
      var t := Coupling(nDim, p, proj);
      var jacI := HelperJacobianI(o, nDim, p, dist);
      var jacJ := HelperJacobianJ(o, nDim, p, dist);
      StoreHelperPair(Ji, Jj, jacI, jacJ, n, -t, t);
    }
  }

  /**
   * GetViscousProjFlux of the mean primitive state, the mean laminar and eddy
   * viscosities, the mean turbulent kinetic energy and the mean conductivity,
   * copied into the residual.
   */
  method StoreViscousFlux(o: Oracle, nDim: nat, p: ViscousEdge, grad: Mat, res: array<real>)
    requires Sound(o) && Shaped(o, nDim, p) && IsMat(grad, nDim + 2, nDim)
    requires res.Length == nDim + 2
    modifies res
    ensures res[..] == ViscousFlux(o, nDim, p, grad)
  {
    var meanPrim := ComputeMeanPrimitive(p.Vi, p.Vj, nDim);
    var flux := o.viscFlux(meanPrim, grad, p.normal, MeanMu(nDim, p), MeanMuTurb(nDim, p), Mean(p.keI, p.keJ),
                           MeanConductivity(nDim, p));
    StoreVec(res, flux);
  }

  /** The helper's pair written to the two blocks, then entry (n-1, n-1) of each overwritten. */
  method StoreHelperPair(Ji: array2<real>, Jj: array2<real>, a: Mat, b: Mat, n: nat, xi: real, xj: real)
    requires n > 0 && IsMat(a, n, n) && IsMat(b, n, n)
    requires Ji.Length0 == n && Ji.Length1 == n && Jj.Length0 == n && Jj.Length1 == n && Ji != Jj
    modifies Ji, Jj
    ensures ToMat(Ji) == SetEntry(a, n - 1, n - 1, xi) && ToMat(Jj) == SetEntry(b, n - 1, n - 1, xj)
  {
    StoreMat(Ji, a, n);
    StoreMat(Jj, b, n);
    Ji[n - 1, n - 1] := xi;
    Jj[n - 1, n - 1] := xj;
    MatExt(ToMat(Ji), SetEntry(a, n - 1, n - 1, xi), n, n);
    MatExt(ToMat(Jj), SetEntry(b, n - 1, n - 1, xj), n, n);
  }
}

/**
 * Average-gradient viscous operator (CAvgGradInc_Flow::ComputeResidual): the
 * viscous flux of the mean state with the plain mean gradient.
 */
module IncAvgGrad {
  import opened IncNumericsBase
  import opened IncViscousCommon

  function Residual(o: Oracle, f: Flags, nDim: nat, p: ViscousEdge): (r: Vec)
    requires Sound(o) && Shaped(o, nDim, p)
    ensures |r| == nDim + 2
  {
    EnergyResidual(f, nDim, ViscousFlux(o, nDim, p, MeanGradient(p.gradI, p.gradJ, nDim + 2, nDim)))
  }

  /** Implicit Jacobian of point i; the zero test is on dist_ij = sqrt(|x_j - x_i|^2). */
  function JacobianI(o: Oracle, f: Flags, nDim: nat, p: ViscousEdge): (m: Mat)
    requires Sound(o) && Shaped(o, nDim, p)
    ensures IsMat(m, nDim + 2, nDim + 2)
  {
    var dist := o.sqrt(Dist2(p));
    EnergyJacobian(f, nDim, ViscousJacobianI(o, nDim, p, dist, dist == 0.0, ProjOverDist(EdgeProj(p), Dist2(p))))
  }

  /** Implicit Jacobian of point j, with the same zero test. */
  function JacobianJ(o: Oracle, f: Flags, nDim: nat, p: ViscousEdge): (m: Mat)
    requires Sound(o) && Shaped(o, nDim, p)
    ensures IsMat(m, nDim + 2, nDim + 2)
  {
    var dist := o.sqrt(Dist2(p));
    EnergyJacobian(f, nDim, ViscousJacobianJ(o, nDim, p, dist, dist == 0.0, ProjOverDist(EdgeProj(p), Dist2(p))))
  }

  /** When the two points coincide both Jacobians are zero. */
  lemma DegenerateEdgeZeroJacobians(o: Oracle, f: Flags, nDim: nat, p: ViscousEdge)
    requires Sound(o) && Shaped(o, nDim, p) && p.coordI == p.coordJ
    ensures JacobianI(o, f, nDim, p) == ZeroMat(nDim + 2) && JacobianJ(o, f, nDim, p) == ZeroMat(nDim + 2)
  {
    Dist2ZeroIffSamePoint(p);
    if !f.energy {
      var z := ZeroMat(nDim + 2);
      MatExt(ZeroRowCol(z, nDim + 1, nDim + 2), z, nDim + 2, nDim + 2);
    }
  }

  /** sum_d (x_j - x_i)[d]^2 and sum_d (x_j - x_i)[d] Normal[d], in one loop. */
  method EdgeDistanceAndProjection(p: ViscousEdge) returns (dist2: real, proj: real)
    requires |p.coordI| == |p.coordJ| == |p.normal|
    ensures dist2 == Dist2(p) && proj == EdgeProj(p)
  {
    ghost var e := EdgeVector(p.coordI, p.coordJ);
    dist2, proj := 0.0, 0.0;
    for d := 0 to |p.normal|
      invariant dist2 == SumSqTo(e, d) && proj == DotTo(e, p.normal, d)
    {
      dist2 := dist2 + (p.coordJ[d] - p.coordI[d]) * (p.coordJ[d] - p.coordI[d]);
      proj := proj + (p.coordJ[d] - p.coordI[d]) * p.normal[d];
    }
  }

  /** CAvgGradInc_Flow::ComputeResidual. */
  method ComputeResidual(o: Oracle, f: Flags, nDim: nat, p: ViscousEdge,
                         res: array<real>, Ji: array2<real>, Jj: array2<real>)
    requires Sound(o) && Shaped(o, nDim, p)
    requires res.Length == nDim + 2
    requires Ji.Length0 == nDim + 2 && Ji.Length1 == nDim + 2
    requires Jj.Length0 == nDim + 2 && Jj.Length1 == nDim + 2
    requires Ji != Jj
    modifies res, Ji, Jj
    ensures res[..] == Residual(o, f, nDim, p)
    ensures f.implicit ==> ToMat(Ji) == JacobianI(o, f, nDim, p)
    ensures f.implicit ==> ToMat(Jj) == JacobianJ(o, f, nDim, p)
    ensures !f.implicit ==> ToMat(Ji) == old(ToMat(Ji)) && ToMat(Jj) == old(ToMat(Jj))
  {
    var n := nDim + 2;
    var area := ComputeFaceArea(o, p.normal);
    var unitNormal := ComputePlainUnitNormal(p.normal, area);
    var grad := ComputeMeanGradient(p.gradI, p.gradJ, n, nDim);

    StoreViscousFlux(o, nDim, p, grad, res);

    if f.implicit {
      var dist2, proj := EdgeDistanceAndProjection(p);
      if dist2 != 0.0 {
        proj := proj / dist2;
      }
      var dist := o.sqrt(dist2);
      StoreViscousJacobians(o, nDim, p, dist, dist == 0.0, proj, unitNormal, area, Ji, Jj);
    }
    if !f.energy {
      RemoveEnergy(res, Ji, Jj, nDim, f.implicit);
    }
  }
}

/**
 * Edge-corrected average-gradient viscous operator
 * (CAvgGradCorrectedInc_Flow::ComputeResidual): the mean gradient of each
 * variable is corrected along the edge so that its projection on the edge
 * reproduces the finite difference of that variable.
 */
module IncAvgGradCorrected {
  import opened IncNumericsBase
  import opened IncViscousCommon
  import IncAvgGrad

  /**
   * One row of the corrected gradient: g - (g.e - jump) e / |e|^2, or g itself
   * when the edge is degenerate.
   */
  function CorrectedRow(g: Vec, e: Vec, jump: real, dist2: real): (c: Vec)
    requires |g| == |e|
    ensures |c| == |g|
  {
    if dist2 != 0.0 then seq(|g|, d requires 0 <= d < |g| => g[d] - (Dot(g, e) - jump) * e[d] / dist2)
    else g
  }

  /** The corrected mean gradient of all nDim+2 variables, jump = V_j - V_i. */
  function CorrectedGradient(nDim: nat, p: ViscousEdge): (g: Mat)
    requires IsPrim(p.Vi, nDim) && IsPrim(p.Vj, nDim)
    requires IsMat(p.gradI, nDim + 2, nDim) && IsMat(p.gradJ, nDim + 2, nDim) && |p.coordI| == |p.coordJ| == nDim
    ensures IsMat(g, nDim + 2, nDim)
  {
    var m := MeanGradient(p.gradI, p.gradJ, nDim + 2, nDim);
    seq(nDim + 2, r requires 0 <= r < nDim + 2 =>
      CorrectedRow(m[r], EdgeVector(p.coordI, p.coordJ), p.Vj[r] - p.Vi[r], Dist2(p)))
  }

  function Residual(o: Oracle, f: Flags, nDim: nat, p: ViscousEdge): (r: Vec)
    requires Sound(o) && Shaped(o, nDim, p)
    ensures |r| == nDim + 2
  {
    EnergyResidual(f, nDim, ViscousFlux(o, nDim, p, CorrectedGradient(nDim, p)))
  }

  /** Implicit Jacobian of point i; the zero test is on |x_j - x_i|^2 itself. */
  function JacobianI(o: Oracle, f: Flags, nDim: nat, p: ViscousEdge): (m: Mat)
    requires Sound(o) && Shaped(o, nDim, p)
    ensures IsMat(m, nDim + 2, nDim + 2)
  {
    EnergyJacobian(f, nDim, ViscousJacobianI(o, nDim, p, o.sqrt(Dist2(p)), Dist2(p) == 0.0, ProjOverDist(EdgeProj(p), Dist2(p))))
  }

  /** Implicit Jacobian of point j, with the same zero test. */
  function JacobianJ(o: Oracle, f: Flags, nDim: nat, p: ViscousEdge): (m: Mat)
    requires Sound(o) && Shaped(o, nDim, p)
    ensures IsMat(m, nDim + 2, nDim + 2)
  {
    EnergyJacobian(f, nDim, ViscousJacobianJ(o, nDim, p, o.sqrt(Dist2(p)), Dist2(p) == 0.0, ProjOverDist(EdgeProj(p), Dist2(p))))
  }

  // ---------------------------------------------------------------------
  // Properties
  // ---------------------------------------------------------------------

  lemma {:induction false} DotToCorrection(g: Vec, c: Vec, e: Vec, s: real, k: nat)
    requires k <= |g| && k <= |c| && k <= |e|
    requires forall d :: 0 <= d < k ==> c[d] == g[d] - s * e[d]
    ensures DotTo(c, e, k) == DotTo(g, e, k) - s * SumSqTo(e, k)
  {
    if k > 0 {
      DotToCorrection(g, c, e, s, k - 1);
      assert c[k - 1] * e[k - 1] == g[k - 1] * e[k - 1] - s * Sq(e[k - 1]);
    }
  }

  /**
   * On a non-degenerate edge the corrected gradient of every variable,
   * projected on the edge vector, is exactly that variable's jump.
   */
  lemma CorrectedGradientReproducesJump(g: Vec, e: Vec, jump: real)
    requires |g| == |e| && SumSq(e) != 0.0
    ensures Dot(CorrectedRow(g, e, jump, SumSq(e)), e) == jump
  {
    var dist2 := SumSq(e);
    var c := CorrectedRow(g, e, jump, dist2);
    var s := (Dot(g, e) - jump) / dist2;
    forall d | 0 <= d < |g| ensures c[d] == g[d] - s * e[d] {
      assert (Dot(g, e) - jump) * e[d] / dist2 == s * e[d];
    }
    DotToCorrection(g, c, e, s, |g|);
    assert s * dist2 == Dot(g, e) - jump;
  }

  /** The same property for every row of the corrected mean gradient. */
  lemma CorrectedGradientMatchesEdgeDifferences(nDim: nat, p: ViscousEdge)
    requires IsPrim(p.Vi, nDim) && IsPrim(p.Vj, nDim)
    requires IsMat(p.gradI, nDim + 2, nDim) && IsMat(p.gradJ, nDim + 2, nDim) && |p.coordI| == |p.coordJ| == nDim
    requires Dist2(p) != 0.0
    ensures forall r :: 0 <= r < nDim + 2 ==>
      Dot(CorrectedGradient(nDim, p)[r], EdgeVector(p.coordI, p.coordJ)) == p.Vj[r] - p.Vi[r]
  {
    var m := MeanGradient(p.gradI, p.gradJ, nDim + 2, nDim);
    forall r | 0 <= r < nDim + 2
      ensures Dot(CorrectedGradient(nDim, p)[r], EdgeVector(p.coordI, p.coordJ)) == p.Vj[r] - p.Vi[r]
    {
      CorrectedGradientReproducesJump(m[r], EdgeVector(p.coordI, p.coordJ), p.Vj[r] - p.Vi[r]);
    }
  }

  /** On a degenerate edge the correction is skipped and the residual is the plain operator's. */
  lemma DegenerateEdgeUsesPlainGradient(o: Oracle, f: Flags, nDim: nat, p: ViscousEdge)
    requires Sound(o) && Shaped(o, nDim, p) && p.coordI == p.coordJ
    ensures CorrectedGradient(nDim, p) == MeanGradient(p.gradI, p.gradJ, nDim + 2, nDim)
    ensures Residual(o, f, nDim, p) == IncAvgGrad.Residual(o, f, nDim, p)
  {
    Dist2ZeroIffSamePoint(p);
    var m := MeanGradient(p.gradI, p.gradJ, nDim + 2, nDim);
    assert forall r :: 0 <= r < nDim + 2 ==> CorrectedGradient(nDim, p)[r] == m[r];
  }

  /**
   * Testing sqrt(|e|^2) (plain operator) or |e|^2 (corrected operator) for
   * zero selects the same branch: the two operators build the same Jacobians.
   */
  lemma SameJacobiansAsPlain(o: Oracle, f: Flags, nDim: nat, p: ViscousEdge)
    requires Sound(o) && Shaped(o, nDim, p)
    ensures JacobianI(o, f, nDim, p) == IncAvgGrad.JacobianI(o, f, nDim, p)
    ensures JacobianJ(o, f, nDim, p) == IncAvgGrad.JacobianJ(o, f, nDim, p)
  {
    DistZeroIffDist2Zero(o, p);
  }

  /** When the two points coincide both Jacobians are zero. */
  lemma DegenerateEdgeZeroJacobians(o: Oracle, f: Flags, nDim: nat, p: ViscousEdge)
    requires Sound(o) && Shaped(o, nDim, p) && p.coordI == p.coordJ
    ensures JacobianI(o, f, nDim, p) == ZeroMat(nDim + 2) && JacobianJ(o, f, nDim, p) == ZeroMat(nDim + 2)
  {
    SameJacobiansAsPlain(o, f, nDim, p);
    IncAvgGrad.DegenerateEdgeZeroJacobians(o, f, nDim, p);
  }

  // ---------------------------------------------------------------------
  // The operator
  // ---------------------------------------------------------------------

  /** Edge_Vector = x_j - x_i and its squared length, in one loop. */
  method EdgeVectorAndLength(p: ViscousEdge) returns (e: Vec, dist2: real)
    requires |p.coordI| == |p.coordJ|
    ensures e == EdgeVector(p.coordI, p.coordJ) && dist2 == Dist2(p)
  {
    ghost var edge := EdgeVector(p.coordI, p.coordJ);
    var a := new real[|p.coordI|];
    dist2 := 0.0;
    for d := 0 to |p.coordI|
      invariant forall l :: 0 <= l < d ==> a[l] == edge[l]
      invariant dist2 == SumSqTo(edge, d)
    {
      a[d] := p.coordJ[d] - p.coordI[d];
      dist2 := dist2 + a[d] * a[d];
    }
    e := a[..];
  }

  /** (x_j - x_i) . Normal, the loop of the implicit part. */
  method EdgeProjection(p: ViscousEdge) returns (proj: real)
    requires |p.coordI| == |p.coordJ| == |p.normal|
    ensures proj == EdgeProj(p)
  {
    ghost var e := EdgeVector(p.coordI, p.coordJ);
    proj := 0.0;
    for d := 0 to |p.normal|
      invariant proj == DotTo(e, p.normal, d)
    {
      proj := proj + (p.coordJ[d] - p.coordI[d]) * p.normal[d];
    }
  }

  /**
   * One iVar of the gradient loop: the mean gradient row, its projection on
   * the edge, and (on a non-degenerate edge) the correction that makes the
   * projection equal V_j[iVar] - V_i[iVar].
   */
  method CorrectGradientRow(G: array2<real>, nDim: nat, p: ViscousEdge, e: Vec, dist2: real, r: nat)
    requires IsPrim(p.Vi, nDim) && IsPrim(p.Vj, nDim)
    requires IsMat(p.gradI, nDim + 2, nDim) && IsMat(p.gradJ, nDim + 2, nDim)
    requires |e| == nDim && r < nDim + 2 && G.Length0 == nDim + 2 && G.Length1 == nDim
    modifies G
    ensures forall i, d :: 0 <= i < nDim + 2 && 0 <= d < nDim && i != r ==> G[i, d] == old(G[i, d])
    ensures forall d :: 0 <= d < nDim ==>
      G[r, d] == CorrectedRow(MeanGradient(p.gradI, p.gradJ, nDim + 2, nDim)[r], e, p.Vj[r] - p.Vi[r], dist2)[d]
  {
    ghost var m := MeanGradient(p.gradI, p.gradJ, nDim + 2, nDim)[r];
    var proj := 0.0;
    for d := 0 to nDim
      invariant forall i, l :: 0 <= i < nDim + 2 && 0 <= l < nDim && i != r ==> G[i, l] == old(G[i, l])
      invariant forall l :: 0 <= l < d ==> G[r, l] == m[l]
      invariant proj == DotTo(m, e, d)
    {
      G[r, d] := 0.5 * (p.gradI[r][d] + p.gradJ[r][d]);
      proj := proj + G[r, d] * e[d];
    }
    assert |m| == nDim && proj == Dot(m, e);
    if dist2 != 0.0 {
      for d := 0 to nDim
        invariant forall i, l :: 0 <= i < nDim + 2 && 0 <= l < nDim && i != r ==> G[i, l] == old(G[i, l])
        invariant forall l :: 0 <= l < d ==> G[r, l] == CorrectedRow(m, e, p.Vj[r] - p.Vi[r], dist2)[l]
        invariant forall l :: d <= l < nDim ==> G[r, l] == m[l]
      {
        G[r, d] := G[r, d] - (proj - (p.Vj[r] - p.Vi[r])) * e[d] / dist2;
      }
    }
  }

  /** The whole gradient loop over iVar, giving the corrected mean gradient. */
  method ComputeCorrectedGradient(nDim: nat, p: ViscousEdge, e: Vec, dist2: real) returns (g: Mat)
    requires IsPrim(p.Vi, nDim) && IsPrim(p.Vj, nDim)
    requires IsMat(p.gradI, nDim + 2, nDim) && IsMat(p.gradJ, nDim + 2, nDim) && |p.coordI| == |p.coordJ| == nDim
    requires e == EdgeVector(p.coordI, p.coordJ) && dist2 == Dist2(p)
    ensures g == CorrectedGradient(nDim, p)
  {
    ghost var target := CorrectedGradient(nDim, p);
    var G := new real[nDim + 2, nDim];
    for r := 0 to nDim + 2
      invariant forall i, d :: 0 <= i < r && 0 <= d < nDim ==> G[i, d] == target[i][d]
    {
      CorrectGradientRow(G, nDim, p, e, dist2, r);
    }
    g := ToMat(G);
    MatExt(g, target, nDim + 2, nDim);
  }

  /** CAvgGradCorrectedInc_Flow::ComputeResidual. */
  method ComputeResidual(o: Oracle, f: Flags, nDim: nat, p: ViscousEdge,
                         res: array<real>, Ji: array2<real>, Jj: array2<real>)
    requires Sound(o) && Shaped(o, nDim, p)
    requires res.Length == nDim + 2
    requires Ji.Length0 == nDim + 2 && Ji.Length1 == nDim + 2
    requires Jj.Length0 == nDim + 2 && Jj.Length1 == nDim + 2
    requires Ji != Jj
    modifies res, Ji, Jj
    ensures res[..] == Residual(o, f, nDim, p)
    ensures f.implicit ==> ToMat(Ji) == JacobianI(o, f, nDim, p)
    ensures f.implicit ==> ToMat(Jj) == JacobianJ(o, f, nDim, p)
    ensures !f.implicit ==> ToMat(Ji) == old(ToMat(Ji)) && ToMat(Jj) == old(ToMat(Jj))
  {
    var area := ComputeFaceArea(o, p.normal);
    var unitNormal := ComputePlainUnitNormal(p.normal, area);

    var e, dist2 := EdgeVectorAndLength(p);
    var grad := ComputeCorrectedGradient(nDim, p, e, dist2);

    StoreViscousFlux(o, nDim, p, grad, res);

    if f.implicit {
      var proj := EdgeProjection(p);
      if dist2 != 0.0 {
        proj := proj / dist2;
      }
      StoreViscousJacobians(o, nDim, p, o.sqrt(dist2), dist2 == 0.0, proj, unitNormal, area, Ji, Jj);
    }
    if !f.energy {
      RemoveEnergy(res, Ji, Jj, nDim, f.implicit);
    }
  }
}
