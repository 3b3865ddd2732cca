/**
 * Pieces shared by the two centred operators of the incompressible solver
 * (CCentJSTInc_Flow and CCentLaxInc_Flow): the mean-state flux, Jacobian and
 * preconditioner, the spectral radius and stretching factor, and the loop
 * that adds Precon-weighted artificial dissipation to the residual and to
 * the two Jacobians.
 */
module IncCentredCommon {
  import opened IncNumericsBase

  /** Parameter of the stretching factor, Param_p. */
  const ParamP: real := 0.3

  /**
   * One edge as the centred operators see it: the two primitive states, the
   * face normal, the stored spectral radii of the two points (the members
   * Lambda_i and Lambda_j) and their neighbour counts.
   */
  datatype Edge = Edge(Vi: Vec, Vj: Vec, normal: Vec, lambdaI: real, lambdaJ: real, neighborI: nat, neighborJ: nat)

  // ---------------------------------------------------------------------
  // Specification
  // ---------------------------------------------------------------------

  predicate Shaped(f: Flags, nDim: nat, e: Edge) {
    IsPrim(e.Vi, nDim) && IsPrim(e.Vj, nDim) && |e.normal| == nDim
    && (f.variableDensity ==> Mean(Temperature(e.Vi, nDim), Temperature(e.Vj, nDim)) != 0.0)
  }

  function MeanVelocity(e: Edge, nDim: nat): (v: Vec)
    requires Shaped(Flags(false, false, false), nDim, e)
    ensures |v| == nDim
  { MeanVec(Velocity(e.Vi, nDim), Velocity(e.Vj, nDim)) }

  /** The projected inviscid flux of the mean state, with mean enthalpy 0.5*(cp_i T_i + cp_j T_j). */
  function MeanFlux(o: Oracle, f: Flags, nDim: nat, e: Edge): Vec
    requires Shaped(f, nDim, e)
  {
    var Vi, Vj := e.Vi, e.Vj;
    o.invFlux(Mean(DensityInc(Vi, nDim), DensityInc(Vj, nDim)), MeanVelocity(e, nDim),
              Mean(Pressure(Vi), Pressure(Vj)), Mean(BetaInc2(Vi, nDim), BetaInc2(Vj, nDim)),
              Mean(Enthalpy(Vi, nDim), Enthalpy(Vj, nDim)), e.normal)
  }

  /** The inviscid Jacobian of the mean state, scaled by 0.5: the part both blocks share. */
  function MeanJacobian(o: Oracle, f: Flags, nDim: nat, e: Edge): Mat
    requires Shaped(f, nDim, e)
  {
    var Vi, Vj := e.Vi, e.Vj;
    o.invJac(Mean(DensityInc(Vi, nDim), DensityInc(Vj, nDim)), MeanVelocity(e, nDim),
             Mean(BetaInc2(Vi, nDim), BetaInc2(Vj, nDim)), Mean(Cp(Vi, nDim), Cp(Vj, nDim)),
             Mean(Temperature(Vi, nDim), Temperature(Vj, nDim)), MeanDRhoDT(f, Vi, Vj, nDim), e.normal, 0.5)
  }

  /** The preconditioning matrix of the mean state. */
  function MeanPrecon(o: Oracle, f: Flags, nDim: nat, e: Edge): Mat
    requires Shaped(f, nDim, e)
  {
    var Vi, Vj := e.Vi, e.Vj;
    o.precon(Mean(DensityInc(Vi, nDim), DensityInc(Vj, nDim)), MeanVelocity(e, nDim),
             Mean(BetaInc2(Vi, nDim), BetaInc2(Vj, nDim)), Mean(Cp(Vi, nDim), Cp(Vj, nDim)),
             Mean(Temperature(Vi, nDim), Temperature(Vj, nDim)), MeanDRhoDT(f, Vi, Vj, nDim))
  }

  /** |v . normal| + sqrt(beta^2 Area^2): the spectral radius at one end of the face. */
  function LocalLambda(o: Oracle, V: Vec, normal: Vec, nDim: nat): real
    requires IsPrim(V, nDim) && |normal| == nDim
  {
    Abs(Dot(Velocity(V, nDim), normal)) + SoundSpeed(o, BetaInc2(V, nDim), FaceArea(o, normal))
  }

  function MeanLambda(o: Oracle, nDim: nat, e: Edge): real
    requires Shaped(Flags(false, false, false), nDim, e)
  {
    Mean(LocalLambda(o, e.Vi, e.normal, nDim), LocalLambda(o, e.Vj, e.normal, nDim))
  }

  /** (lambda / (4 MeanLambda))^p, lambda being a stored point radius. */
  function Phi(o: Oracle, lambda: real, meanLambda: real): real
    requires meanLambda != 0.0
  { o.pow(lambda / (4.0 * meanLambda), ParamP) }

  function PhiI(o: Oracle, nDim: nat, e: Edge): real
    requires Shaped(Flags(false, false, false), nDim, e) && MeanLambda(o, nDim, e) != 0.0
  { Phi(o, e.lambdaI, MeanLambda(o, nDim, e)) }

  function PhiJ(o: Oracle, nDim: nat, e: Edge): real
    requires Shaped(Flags(false, false, false), nDim, e) && MeanLambda(o, nDim, e) != 0.0
  { Phi(o, e.lambdaJ, MeanLambda(o, nDim, e)) }

  function StretchingFactor(phiI: real, phiJ: real): real
    requires phiI + phiJ != 0.0
  { 4.0 * phiI * phiJ / (phiI + phiJ) }

  /** 3 (N_i + N_j) / (N_i N_j), the neighbour-count scaling (sc2 of JST, sc0 of Lax). */
  function NeighborScale(ni: nat, nj: nat): real
    requires ni > 0 && nj > 0
  { 3.0 * ((ni as real) + (nj as real)) / ((ni as real) * (nj as real)) }

  /**
   * What the operators divide by: a non-zero mean temperature for a
   * variable-density gas, a non-zero mean spectral radius, Phi_i + Phi_j
   * non-zero and both neighbour counts positive.
   */
  predicate Admissible(o: Oracle, f: Flags, nDim: nat, e: Edge) {
    Shaped(f, nDim, e)
    && MeanLambda(o, nDim, e) != 0.0
    && PhiI(o, nDim, e) + PhiJ(o, nDim, e) != 0.0
    && e.neighborI > 0 && e.neighborJ > 0
  }

  function EdgeStretching(o: Oracle, f: Flags, nDim: nat, e: Edge): real
    requires Admissible(o, f, nDim, e)
  { StretchingFactor(PhiI(o, nDim, e), PhiJ(o, nDim, e)) }

  /** One term p * w * sf * ml of the dissipation loop. */
  function Term(p: real, w: real, sf: real, ml: real): real { p * w * sf * ml }

  /** row[0]*w[0]*sf*ml + ... + row[k-1]*w[k-1]*sf*ml */
  function DissTo(row: Vec, w: Vec, sf: real, ml: real, k: nat): real
    requires k <= |row| && k <= |w|
  {
    if k == 0 then 0.0 else DissTo(row, w, sf, ml, k - 1) + Term(row[k - 1], w[k - 1], sf, ml)
  }

  /** v[i] + sum_j precon[i][j] w[j] sf ml, for every row i. */
  function AddDissipation(v: Vec, precon: Mat, w: Vec, sf: real, ml: real, n: nat): (r: Vec)
    requires |v| == n && |w| == n && IsMat(precon, n, n)
    ensures |r| == n
  { seq(n, i requires 0 <= i < n => v[i] + DissTo(precon[i], w, sf, ml, n)) }

  /** j0 + sign * precon * c * sf * ml, entry by entry. */
  function ShiftJacobian(j0: Mat, precon: Mat, c: real, sf: real, ml: real, sign: real, n: nat): (m: Mat)
    requires IsMat(j0, n, n) && IsMat(precon, n, n)
    ensures IsMat(m, n, n)
    ensures forall r, k :: 0 <= r < n && 0 <= k < n ==> m[r][k] == j0[r][k] + sign * Term(precon[r][k], c, sf, ml)
  {
    seq(n, r requires 0 <= r < n => seq(n, k requires 0 <= k < n => j0[r][k] + sign * Term(precon[r][k], c, sf, ml)))
  }

  // ---------------------------------------------------------------------
  // Properties
  // ---------------------------------------------------------------------

  /** With no jump to dissipate the dissipation sum is zero. */
  lemma {:induction false} DissZeroWeights(row: Vec, w: Vec, sf: real, ml: real, k: nat)
    requires k <= |row| && k <= |w|
    requires forall l :: 0 <= l < k ==> w[l] == 0.0
    ensures DissTo(row, w, sf, ml, k) == 0.0
  {
    if k > 0 { DissZeroWeights(row, w, sf, ml, k - 1); }
  }

  lemma AddZeroDissipation(v: Vec, precon: Mat, w: Vec, sf: real, ml: real, n: nat)
    requires |v| == n && |w| == n && IsMat(precon, n, n)
    requires forall l :: 0 <= l < n ==> w[l] == 0.0
    ensures AddDissipation(v, precon, w, sf, ml, n) == v
  {
    forall i | 0 <= i < n ensures AddDissipation(v, precon, w, sf, ml, n)[i] == v[i] {
      DissZeroWeights(precon[i], w, sf, ml, n);
    }
  }

  /** The neighbour scaling of two points that have neighbours is positive. */
  lemma NeighborScalePositive(ni: nat, nj: nat)
    requires ni > 0 && nj > 0
    ensures NeighborScale(ni, nj) > 0.0
  {
    var a, b := ni as real, nj as real;
    MulPositive(a, b);
    assert 3.0 * (a + b) > 0.0;
    assert 3.0 * (a + b) / (a * b) > 0.0;
  }

  // ---------------------------------------------------------------------
  // Shared loops
  // ---------------------------------------------------------------------

  /**
   * The single velocity loop of both operators: the mean velocity, the
   * velocity of each point projected on the normal, and the face area.
   */
  method CentredKinematics(o: Oracle, nDim: nat, e: Edge) returns (meanVel: Vec, projI: real, projJ: real, area: real)
    requires Shaped(Flags(false, false, false), nDim, e)
    ensures meanVel == MeanVelocity(e, nDim)
    ensures projI == Dot(Velocity(e.Vi, nDim), e.normal) && projJ == Dot(Velocity(e.Vj, nDim), e.normal)
    ensures area == FaceArea(o, e.normal)
  {
    var Vi, Vj, normal := e.Vi, e.Vj, e.normal;
    var velI, velJ := Velocity(Vi, nDim), Velocity(Vj, nDim);
    var a := new real[nDim];
    projI, projJ := 0.0, 0.0;
    var sum := 0.0;
    for d := 0 to nDim
      invariant forall k :: 0 <= k < d ==> a[k] == Mean(velI[k], velJ[k])
      invariant projI == DotTo(velI, normal, d) && projJ == DotTo(velJ, normal, d)
      invariant sum == SumSqTo(normal, d)
    {
      a[d] := 0.5 * (Vi[d + 1] + Vj[d + 1]);
      projI := projI + Vi[d + 1] * normal[d];
      projJ := projJ + Vj[d + 1] * normal[d];
      sum := sum + normal[d] * normal[d];
    }
    area := o.sqrt(sum);
    meanVel := a[..];
  }

  /** Diff_V = V_i - V_j and Diff_Lapl = Und_Lapl_i - Und_Lapl_j over the nVar entries. */
  method ComputeJumps(Vi: Vec, Vj: Vec, lapI: Vec, lapJ: Vec, n: nat) returns (dv: Vec, dl: Vec)
    requires n <= |Vi| && n <= |Vj| && n <= |lapI| && n <= |lapJ|
    ensures dv == Jump(Vi, Vj, n) && dl == Jump(lapI, lapJ, n)
  {
    var a := new real[n];
    var b := new real[n];
    for k := 0 to n
      invariant forall l :: 0 <= l < k ==> a[l] == Vi[l] - Vj[l] && b[l] == lapI[l] - lapJ[l]
    {
      b[k] := lapI[k] - lapJ[k];
      a[k] := Vi[k] - Vj[k];
    }
    dv, dl := a[..], b[..];
  }

  /** Diff_V = V_i - V_j over the nVar entries. */
  method ComputeJump(Vi: Vec, Vj: Vec, n: nat) returns (dv: Vec)
    requires n <= |Vi| && n <= |Vj|
    ensures dv == Jump(Vi, Vj, n)
  {
    var a := new real[n];
    for k := 0 to n
      invariant forall l :: 0 <= l < k ==> a[l] == Vi[l] - Vj[l]
    {
      a[k] := Vi[k] - Vj[k];
    }
    dv := a[..];
  }

  /** val_Jacobian_j = val_Jacobian_i, entry by entry. */
  method CopyJacobian(src: array2<real>, dst: array2<real>, n: nat)
    requires src.Length0 == n && src.Length1 == n && dst.Length0 == n && dst.Length1 == n && src != dst
    modifies dst
    ensures ToMat(dst) == ToMat(src) && ToMat(src) == old(ToMat(src))
  {
    var i := 0;
    while i < n
      invariant 0 <= i <= n
      invariant forall r, c :: 0 <= r < i && 0 <= c < n ==> dst[r, c] == src[r, c]
    {
      var j := 0;
      while j < n
        invariant 0 <= j <= n
        invariant forall r, c :: 0 <= r < i && 0 <= c < n ==> dst[r, c] == src[r, c]
        invariant forall c :: 0 <= c < j ==> dst[i, c] == src[i, c]
      {
        dst[i, j] := src[i, j];
        j := j + 1;
      }
      i := i + 1;
    }
    MatExt(ToMat(dst), ToMat(src), n, n);
    MatExt(ToMat(src), old(ToMat(src)), n, n);
  }

  /**
   * The first half of both operators: the mean state, the residual set to
   * its projected flux, and (when implicit) Jacobian_i set to the mean
   * inviscid Jacobian and copied into Jacobian_j; returns the mean-state
   * preconditioner and the kinematic quantities the spectral radius needs.
   */
  method StoreMeanFluxAndJacobian(o: Oracle, f: Flags, nDim: nat, e: Edge, res: array<real>, Ji: array2<real>, Jj: array2<real>)
    returns (precon: Mat, projI: real, projJ: real, area: real)
    requires Sound(o) && Shaped(f, nDim, e)
    requires res.Length == nDim + 2
    requires Ji.Length0 == nDim + 2 && Ji.Length1 == nDim + 2
    requires Jj.Length0 == nDim + 2 && Jj.Length1 == nDim + 2
    requires Ji != Jj
    modifies res, Ji, Jj
    ensures res[..] == MeanFlux(o, f, nDim, e)
    ensures f.implicit ==> ToMat(Ji) == MeanJacobian(o, f, nDim, e) && ToMat(Jj) == MeanJacobian(o, f, nDim, e)
    ensures !f.implicit ==> ToMat(Ji) == old(ToMat(Ji)) && ToMat(Jj) == old(ToMat(Jj))
    ensures precon == MeanPrecon(o, f, nDim, e)
    ensures projI == Dot(Velocity(e.Vi, nDim), e.normal) && projJ == Dot(Velocity(e.Vj, nDim), e.normal)
    ensures area == FaceArea(o, e.normal)
  {
    var n := nDim + 2;
    var Vi, Vj := e.Vi, e.Vj;
    var meanVel;
    meanVel, projI, projJ, area := CentredKinematics(o, nDim, e);

    var meanRho := 0.5 * (DensityInc(Vi, nDim) + DensityInc(Vj, nDim));
    var meanP := 0.5 * (Pressure(Vi) + Pressure(Vj));
    var meanBeta := 0.5 * (BetaInc2(Vi, nDim) + BetaInc2(Vj, nDim));
    var meanH := 0.5 * (Enthalpy(Vi, nDim) + Enthalpy(Vj, nDim));
    var meanCp := 0.5 * (Cp(Vi, nDim) + Cp(Vj, nDim));
    var meanT := 0.5 * (Temperature(Vi, nDim) + Temperature(Vj, nDim));
    var dRhoDT := 0.0;
    if f.variableDensity {
      dRhoDT := -meanRho / meanT;
    }
    assert dRhoDT == MeanDRhoDT(f, Vi, Vj, nDim);

    StoreVec(res, o.invFlux(meanRho, meanVel, meanP, meanBeta, meanH, e.normal));
    var jac := o.invJac(meanRho, meanVel, meanBeta, meanCp, meanT, dRhoDT, e.normal, 0.5);
    assert jac == MeanJacobian(o, f, nDim, e);
    StoreSharedJacobian(Ji, Jj, f.implicit, jac, n);
    precon := o.precon(meanRho, meanVel, meanBeta, meanCp, meanT, dRhoDT);
  }

  /** Jacobian_i and Jacobian_j both receive jac in an implicit computation, and keep their contents otherwise. */
  method StoreSharedJacobian(Ji: array2<real>, Jj: array2<real>, implicit: bool, jac: Mat, n: nat)
    requires Ji.Length0 == n && Ji.Length1 == n && Jj.Length0 == n && Jj.Length1 == n && Ji != Jj
    requires IsMat(jac, n, n)
    modifies Ji, Jj
    ensures implicit ==> ToMat(Ji) == jac && ToMat(Jj) == jac
    ensures !implicit ==> ToMat(Ji) == old(ToMat(Ji)) && ToMat(Jj) == old(ToMat(Jj))
  {
    if implicit {
      StoreMat(Ji, jac, n);
      CopyJacobian(Ji, Jj, n);
    } else {
      MatExt(ToMat(Ji), old(ToMat(Ji)), n, n);
      MatExt(ToMat(Jj), old(ToMat(Jj)), n, n);
    }
  }

  /**
   * The spectral radius of the preconditioned system at each end, their
   * mean, and the stretching factor built from the stored radii Lambda_i and
   * Lambda_j (not from the local radii just computed).
   */
  method ComputeStretching(o: Oracle, f: Flags, nDim: nat, e: Edge, projI: real, projJ: real, area: real)
    returns (meanLambda: real, sf: real)
    requires Admissible(o, f, nDim, e)
    requires projI == Dot(Velocity(e.Vi, nDim), e.normal) && projJ == Dot(Velocity(e.Vj, nDim), e.normal)
    requires area == FaceArea(o, e.normal)
    ensures meanLambda == MeanLambda(o, nDim, e) && sf == EdgeStretching(o, f, nDim, e)
  {
    var localI := Abs(projI) + SoundSpeed(o, BetaInc2(e.Vi, nDim), area);
    var localJ := Abs(projJ) + SoundSpeed(o, BetaInc2(e.Vj, nDim), area);
    meanLambda := 0.5 * (localI + localJ);
    var phiI := Phi(o, e.lambdaI, meanLambda);
    var phiJ := Phi(o, e.lambdaJ, meanLambda);
    sf := StretchingFactor(phiI, phiJ);
  }

  /** Row i of the dissipation loop (the loop over jVar for one iVar). */
  method DissipationRow(res: array<real>, Ji: array2<real>, Jj: array2<real>, implicit: bool,
                        precon: Mat, w: Vec, cI: real, cJ: real, sf: real, ml: real, n: nat, i: nat)
    requires i < n && res.Length == n && |w| == n && IsMat(precon, n, n)
    requires Ji.Length0 == n && Ji.Length1 == n && Jj.Length0 == n && Jj.Length1 == n && Ji != Jj
    modifies res, Ji, Jj
    ensures forall r :: 0 <= r < n && r != i ==> res[r] == old(res[r])
    ensures res[i] == old(res[i]) + DissTo(precon[i], w, sf, ml, n)
    ensures forall r, c :: 0 <= r < n && 0 <= c < n ==>
      Ji[r, c] == (if implicit && r == i then old(Ji[r, c]) + 1.0 * Term(precon[r][c], cI, sf, ml) else old(Ji[r, c]))
    ensures forall r, c :: 0 <= r < n && 0 <= c < n ==>
      Jj[r, c] == (if implicit && r == i then old(Jj[r, c]) + -1.0 * Term(precon[r][c], cJ, sf, ml) else old(Jj[r, c]))
  {
    var j := 0;
    while j < n
      invariant 0 <= j <= n
      invariant forall r :: 0 <= r < n && r != i ==> res[r] == old(res[r])
      invariant res[i] == old(res[i]) + DissTo(precon[i], w, sf, ml, j)
      invariant forall r, c :: 0 <= r < n && 0 <= c < n ==>
        Ji[r, c] == (if implicit && r == i && c < j then old(Ji[r, c]) + 1.0 * Term(precon[r][c], cI, sf, ml) else old(Ji[r, c]))
      invariant forall r, c :: 0 <= r < n && 0 <= c < n ==>
        Jj[r, c] == (if implicit && r == i && c < j then old(Jj[r, c]) + -1.0 * Term(precon[r][c], cJ, sf, ml) else old(Jj[r, c]))
    {
      res[i] := res[i] + Term(precon[i][j], w[j], sf, ml);
      if implicit {
        Ji[i, j] := Ji[i, j] + Term(precon[i][j], cI, sf, ml);
        Jj[i, j] := Jj[i, j] - Term(precon[i][j], cJ, sf, ml);
      }
      j := j + 1;
    }
  }

  /**
   * The artificial-dissipation loop: val_residual[i] += sum_j Precon[i][j] w[j] SF ML;
   * when implicit, Jacobian_i += Precon cI SF ML and Jacobian_j -= Precon cJ SF ML.
   */
  method AddDissipationLoop(res: array<real>, Ji: array2<real>, Jj: array2<real>, implicit: bool,
                            precon: Mat, w: Vec, cI: real, cJ: real, sf: real, ml: real, n: nat)
    requires res.Length == n && |w| == n && IsMat(precon, n, n)
    requires Ji.Length0 == n && Ji.Length1 == n && Jj.Length0 == n && Jj.Length1 == n && Ji != Jj
    modifies res, Ji, Jj
    ensures res[..] == AddDissipation(old(res[..]), precon, w, sf, ml, n)
    ensures implicit ==> ToMat(Ji) == ShiftJacobian(old(ToMat(Ji)), precon, cI, sf, ml, 1.0, n)
    ensures implicit ==> ToMat(Jj) == ShiftJacobian(old(ToMat(Jj)), precon, cJ, sf, ml, -1.0, n)
    ensures !implicit ==> ToMat(Ji) == old(ToMat(Ji)) && ToMat(Jj) == old(ToMat(Jj))
  {
    ghost var target := AddDissipation(old(res[..]), precon, w, sf, ml, n);
    var i := 0;
    while i < n
      invariant 0 <= i <= n
      invariant forall r :: 0 <= r < i ==> res[r] == target[r]
      invariant forall r :: i <= r < n ==> res[r] == old(res[r])
      invariant forall r, c :: 0 <= r < n && 0 <= c < n ==>
        Ji[r, c] == (if implicit && r < i then old(Ji[r, c]) + 1.0 * Term(precon[r][c], cI, sf, ml) else old(Ji[r, c]))
      invariant forall r, c :: 0 <= r < n && 0 <= c < n ==>
        Jj[r, c] == (if implicit && r < i then old(Jj[r, c]) + -1.0 * Term(precon[r][c], cJ, sf, ml) else old(Jj[r, c]))
    {
      DissipationRow(res, Ji, Jj, implicit, precon, w, cI, cJ, sf, ml, n, i);
      i := i + 1;
    }
    assert res[..] == target;
    if implicit {
      MatExt(ToMat(Ji), ShiftJacobian(old(ToMat(Ji)), precon, cI, sf, ml, 1.0, n), n, n);
      MatExt(ToMat(Jj), ShiftJacobian(old(ToMat(Jj)), precon, cJ, sf, ml, -1.0, n), n, n);
    } else {
      MatExt(ToMat(Ji), old(ToMat(Ji)), n, n);
      MatExt(ToMat(Jj), old(ToMat(Jj)), n, n);
    }
  }
}

/**
 * Centred JST operator (CCentJSTInc_Flow::ComputeResidual): the flux of the
 * mean state plus second- and fourth-difference artificial dissipation,
 * preconditioned and scaled by the stretching factor and the mean spectral
 * radius.
 */
module IncCentJST {
  import opened IncNumericsBase
  import opened IncCentredCommon

  /** The JST-specific inputs: undivided Laplacians, pressure sensors and the two coefficients. */
  datatype Dissipation = Dissipation(lapI: Vec, lapJ: Vec, sensorI: real, sensorJ: real, kappa2: real, kappa4: real)

  predicate JstAdmissible(o: Oracle, f: Flags, nDim: nat, e: Edge, d: Dissipation) {
    Admissible(o, f, nDim, e) && |d.lapI| == nDim + 2 && |d.lapJ| == nDim + 2
  }

  function Sc4(sc2: real): real { sc2 * sc2 / 4.0 }

  /** Epsilon_2 = kappa2 * 0.5 (sensor_i + sensor_j) * sc2 */
  function Epsilon2(d: Dissipation, sc2: real): real { d.kappa2 * 0.5 * (d.sensorI + d.sensorJ) * sc2 }

  /** Epsilon_4 = max(0, kappa4 - Epsilon_2) * sc4 */
  function Epsilon4(d: Dissipation, sc2: real): real { Max(0.0, d.kappa4 - Epsilon2(d, sc2)) * Sc4(sc2) }

  /** eps2 * Diff_V[k] - eps4 * Diff_Lapl[k] for every k. */
  function Weights(dv: Vec, dl: Vec, eps2: real, eps4: real): (w: Vec)
    requires |dv| == |dl|
    ensures |w| == |dv| && forall k :: 0 <= k < |dv| ==> w[k] == eps2 * dv[k] - eps4 * dl[k]
  { seq(|dv|, k requires 0 <= k < |dv| => eps2 * dv[k] - eps4 * dl[k]) }

  function Sc2(e: Edge): real requires e.neighborI > 0 && e.neighborJ > 0
  { NeighborScale(e.neighborI, e.neighborJ) }

  function Residual(o: Oracle, f: Flags, nDim: nat, e: Edge, d: Dissipation): (r: Vec)
    requires Sound(o) && JstAdmissible(o, f, nDim, e, d)
    ensures |r| == nDim + 2
  {
    var n := nDim + 2;
    var sc2 := Sc2(e);
    var w := Weights(Jump(e.Vi, e.Vj, n), Jump(d.lapI, d.lapJ, n), Epsilon2(d, sc2), Epsilon4(d, sc2));
    EnergyResidual(f, nDim, AddDissipation(MeanFlux(o, f, nDim, e), MeanPrecon(o, f, nDim, e), w,
                                           EdgeStretching(o, f, nDim, e), MeanLambda(o, nDim, e), n))
  }

  /** Epsilon_2 + Epsilon_4 (N + 1), the Jacobian dissipation coefficient of a point with N neighbours. */
  function JacobianCoefficient(d: Dissipation, sc2: real, neighbors: nat): real
  { Epsilon2(d, sc2) + Epsilon4(d, sc2) * ((neighbors + 1) as real) }

  function JacobianI(o: Oracle, f: Flags, nDim: nat, e: Edge, d: Dissipation): (m: Mat)
    requires Sound(o) && JstAdmissible(o, f, nDim, e, d)
    ensures IsMat(m, nDim + 2, nDim + 2)
  {
    EnergyJacobian(f, nDim, ShiftJacobian(MeanJacobian(o, f, nDim, e), MeanPrecon(o, f, nDim, e),
      JacobianCoefficient(d, Sc2(e), e.neighborI), EdgeStretching(o, f, nDim, e), MeanLambda(o, nDim, e), 1.0, nDim + 2))
  }

  function JacobianJ(o: Oracle, f: Flags, nDim: nat, e: Edge, d: Dissipation): (m: Mat)
    requires Sound(o) && JstAdmissible(o, f, nDim, e, d)
    ensures IsMat(m, nDim + 2, nDim + 2)
  {
    EnergyJacobian(f, nDim, ShiftJacobian(MeanJacobian(o, f, nDim, e), MeanPrecon(o, f, nDim, e),
      JacobianCoefficient(d, Sc2(e), e.neighborJ), EdgeStretching(o, f, nDim, e), MeanLambda(o, nDim, e), -1.0, nDim + 2))
  }

  // ---------------------------------------------------------------------
  // Properties
  // ---------------------------------------------------------------------

  /** The fourth-difference coefficient is never negative, whatever the sensors and kappas. */
  lemma Epsilon4NonNegative(d: Dissipation, sc2: real)
    ensures Epsilon4(d, sc2) >= 0.0
  {
    SquareNonNeg(sc2);
    assert Sc4(sc2) == Sq(sc2) / 4.0;
    var a, b := Max(0.0, d.kappa4 - Epsilon2(d, sc2)), Sc4(sc2);
    assert a * b >= 0.0 by {
      if a > 0.0 && b > 0.0 { MulPositive(a, b); }
    }
  }

  /**
   * With the same state and the same undivided Laplacian on both sides, the
   * dissipation vanishes and the residual is the flux of that state.
   */
  lemma IdenticalStatesGiveMeanFlux(o: Oracle, f: Flags, nDim: nat, e: Edge, d: Dissipation)
    requires Sound(o) && JstAdmissible(o, f, nDim, e, d)
    requires e.Vi == e.Vj && d.lapI == d.lapJ
    ensures Residual(o, f, nDim, e, d) == EnergyResidual(f, nDim, MeanFlux(o, f, nDim, e))
  {
    var n := nDim + 2;
    var sc2 := Sc2(e);
    var w := Weights(Jump(e.Vi, e.Vj, n), Jump(d.lapI, d.lapJ, n), Epsilon2(d, sc2), Epsilon4(d, sc2));
    AddZeroDissipation(MeanFlux(o, f, nDim, e), MeanPrecon(o, f, nDim, e), w, EdgeStretching(o, f, nDim, e), MeanLambda(o, nDim, e), n);
  }

  /**
   * Both Jacobians start as the same mean inviscid Jacobian: Jacobian_i less
   * its dissipation equals Jacobian_j plus its dissipation, and the two
   * dissipation coefficients differ only through the neighbour counts.
   * Without the energy equation an entry in row or column nDim+1 is cleared,
   * dissipation and all.
   */
  lemma JacobiansShareInviscidPart(o: Oracle, f: Flags, nDim: nat, e: Edge, d: Dissipation, r: nat, c: nat)
    requires Sound(o) && JstAdmissible(o, f, nDim, e, d) && r < nDim + 2 && c < nDim + 2
    ensures var p := MeanPrecon(o, f, nDim, e)[r][c];
            var sf, ml := EdgeStretching(o, f, nDim, e), MeanLambda(o, nDim, e);
            var kept := f.energy || (r != nDim + 1 && c != nDim + 1);
            JacobianI(o, f, nDim, e, d)[r][c] - (if kept then Term(p, JacobianCoefficient(d, Sc2(e), e.neighborI), sf, ml) else 0.0)
            == JacobianJ(o, f, nDim, e, d)[r][c] + (if kept then Term(p, JacobianCoefficient(d, Sc2(e), e.neighborJ), sf, ml) else 0.0)
            == EnergyJacobian(f, nDim, MeanJacobian(o, f, nDim, e))[r][c]
  {}

  // ---------------------------------------------------------------------
  // The operator
  // ---------------------------------------------------------------------

  /** CCentJSTInc_Flow::ComputeResidual. */
  method ComputeResidual(o: Oracle, f: Flags, nDim: nat, e: Edge, d: Dissipation,
                         res: array<real>, Ji: array2<real>, Jj: array2<real>)
    requires Sound(o) && JstAdmissible(o, f, nDim, e, d)
    requires res.Length == nDim + 2
    requires Ji.Length0 == nDim + 2 && Ji.Length1 == nDim + 2
    requires Jj.Length0 == nDim + 2 && Jj.Length1 == nDim + 2
    requires Ji != Jj
    modifies res, Ji, Jj
    ensures res[..] == Residual(o, f, nDim, e, d)
    ensures f.implicit ==> ToMat(Ji) == JacobianI(o, f, nDim, e, d)
    ensures f.implicit ==> ToMat(Jj) == JacobianJ(o, f, nDim, e, d)
    ensures !f.implicit ==> ToMat(Ji) == old(ToMat(Ji)) && ToMat(Jj) == old(ToMat(Jj))
  {
    var n := nDim + 2;
    var precon, projI, projJ, area := StoreMeanFluxAndJacobian(o, f, nDim, e, res, Ji, Jj);
    var dv, dl := ComputeJumps(e.Vi, e.Vj, d.lapI, d.lapJ, n);
    var meanLambda, sf := ComputeStretching(o, f, nDim, e, projI, projJ, area);

    var sc2 := NeighborScale(e.neighborI, e.neighborJ);
    var eps2 := Epsilon2(d, sc2);
    var eps4 := Epsilon4(d, sc2);

    assert sc2 == Sc2(e);
    AddDissipationLoop(res, Ji, Jj, f.implicit, precon, Weights(dv, dl, eps2, eps4),
                       JacobianCoefficient(d, sc2, e.neighborI), JacobianCoefficient(d, sc2, e.neighborJ), sf, meanLambda, n);
    if !f.energy {
      RemoveEnergy(res, Ji, Jj, nDim, f.implicit);
    }
  }
}

/**
 * Centred Lax-Friedrichs operator (CCentLaxInc_Flow::ComputeResidual): the
 * flux of the mean state plus first-order preconditioned dissipation.
 */
module IncCentLax {
  import opened IncNumericsBase
  import opened IncCentredCommon

  /** Epsilon_0 = kappa0 * sc0 * nDim / 3 */
  function Epsilon0(kappa0: real, sc0: real, nDim: nat): real { kappa0 * sc0 * (nDim as real) / 3.0 }

  function Sc0(e: Edge): real requires e.neighborI > 0 && e.neighborJ > 0
  { NeighborScale(e.neighborI, e.neighborJ) }

  /** eps0 * Diff_V[k] for every k. */
  function Weights(dv: Vec, eps0: real): (w: Vec)
    ensures |w| == |dv| && forall k :: 0 <= k < |dv| ==> w[k] == eps0 * dv[k]
  { seq(|dv|, k requires 0 <= k < |dv| => eps0 * dv[k]) }

  function Residual(o: Oracle, f: Flags, nDim: nat, e: Edge, kappa0: real): (r: Vec)
    requires Sound(o) && Admissible(o, f, nDim, e)
    ensures |r| == nDim + 2
  {
    var n := nDim + 2;
    var w := Weights(Jump(e.Vi, e.Vj, n), Epsilon0(kappa0, Sc0(e), nDim));
    EnergyResidual(f, nDim, AddDissipation(MeanFlux(o, f, nDim, e), MeanPrecon(o, f, nDim, e), w,
                                           EdgeStretching(o, f, nDim, e), MeanLambda(o, nDim, e), n))
  }

  function JacobianI(o: Oracle, f: Flags, nDim: nat, e: Edge, kappa0: real): (m: Mat)
    requires Sound(o) && Admissible(o, f, nDim, e)
    ensures IsMat(m, nDim + 2, nDim + 2)
  {
    EnergyJacobian(f, nDim, ShiftJacobian(MeanJacobian(o, f, nDim, e), MeanPrecon(o, f, nDim, e),
      Epsilon0(kappa0, Sc0(e), nDim), EdgeStretching(o, f, nDim, e), MeanLambda(o, nDim, e), 1.0, nDim + 2))
  }

  function JacobianJ(o: Oracle, f: Flags, nDim: nat, e: Edge, kappa0: real): (m: Mat)
    requires Sound(o) && Admissible(o, f, nDim, e)
    ensures IsMat(m, nDim + 2, nDim + 2)
  {
    EnergyJacobian(f, nDim, ShiftJacobian(MeanJacobian(o, f, nDim, e), MeanPrecon(o, f, nDim, e),
      Epsilon0(kappa0, Sc0(e), nDim), EdgeStretching(o, f, nDim, e), MeanLambda(o, nDim, e), -1.0, nDim + 2))
  }

  // ---------------------------------------------------------------------
  // Properties
  // ---------------------------------------------------------------------

  /** A non-negative kappa0 gives a non-negative first-order coefficient. */
  lemma Epsilon0NonNegative(kappa0: real, e: Edge, nDim: nat)
    requires e.neighborI > 0 && e.neighborJ > 0 && kappa0 >= 0.0
    ensures Epsilon0(kappa0, Sc0(e), nDim) >= 0.0
  {
    NeighborScalePositive(e.neighborI, e.neighborJ);
    var s := Sc0(e);
    if kappa0 > 0.0 && nDim > 0 {
      MulPositive(kappa0, s);
      MulPositive(kappa0 * s, nDim as real);
      assert kappa0 * s * (nDim as real) / 3.0 > 0.0;
    }
  }

  /**
   * The dissipation is equal and opposite in the two blocks: they sum to
   * twice the shared mean inviscid Jacobian (with the energy row and column
   * cleared when the energy equation is off).
   */
  lemma DissipationEqualAndOpposite(o: Oracle, f: Flags, nDim: nat, e: Edge, kappa0: real)
    requires Sound(o) && Admissible(o, f, nDim, e)
    ensures forall r, c :: 0 <= r < nDim + 2 && 0 <= c < nDim + 2 ==>
      JacobianI(o, f, nDim, e, kappa0)[r][c] + JacobianJ(o, f, nDim, e, kappa0)[r][c]
      == 2.0 * EnergyJacobian(f, nDim, MeanJacobian(o, f, nDim, e))[r][c]
  {
    var n := nDim + 2;
    var j0 := MeanJacobian(o, f, nDim, e);
    var p := MeanPrecon(o, f, nDim, e);
    var c0, sf, ml := Epsilon0(kappa0, Sc0(e), nDim), EdgeStretching(o, f, nDim, e), MeanLambda(o, nDim, e);
    var si := ShiftJacobian(j0, p, c0, sf, ml, 1.0, n);
    var sj := ShiftJacobian(j0, p, c0, sf, ml, -1.0, n);
    forall r, c | 0 <= r < n && 0 <= c < n
      ensures EnergyJacobian(f, nDim, si)[r][c] + EnergyJacobian(f, nDim, sj)[r][c] == 2.0 * EnergyJacobian(f, nDim, j0)[r][c]
    {
      assert si[r][c] + sj[r][c] == 2.0 * j0[r][c];
    }
  }

  /** With the same state on both sides the residual is the flux of that state. */
  lemma IdenticalStatesGiveMeanFlux(o: Oracle, f: Flags, nDim: nat, e: Edge, kappa0: real)
    requires Sound(o) && Admissible(o, f, nDim, e) && e.Vi == e.Vj
    ensures Residual(o, f, nDim, e, kappa0) == EnergyResidual(f, nDim, MeanFlux(o, f, nDim, e))
  {
    var n := nDim + 2;
    var w := Weights(Jump(e.Vi, e.Vj, n), Epsilon0(kappa0, Sc0(e), nDim));
    AddZeroDissipation(MeanFlux(o, f, nDim, e), MeanPrecon(o, f, nDim, e), w, EdgeStretching(o, f, nDim, e), MeanLambda(o, nDim, e), n);
  }

  // ---------------------------------------------------------------------
  // The operator
  // ---------------------------------------------------------------------

  /** CCentLaxInc_Flow::ComputeResidual. */
  method ComputeResidual(o: Oracle, f: Flags, nDim: nat, e: Edge, kappa0: real,
                         res: array<real>, Ji: array2<real>, Jj: array2<real>)
    requires Sound(o) && Admissible(o, f, nDim, e)
    requires res.Length == nDim + 2
    requires Ji.Length0 == nDim + 2 && Ji.Length1 == nDim + 2
    requires Jj.Length0 == nDim + 2 && Jj.Length1 == nDim + 2
    requires Ji != Jj
    modifies res, Ji, Jj
    ensures res[..] == Residual(o, f, nDim, e, kappa0)
    ensures f.implicit ==> ToMat(Ji) == JacobianI(o, f, nDim, e, kappa0)
    ensures f.implicit ==> ToMat(Jj) == JacobianJ(o, f, nDim, e, kappa0)
    ensures !f.implicit ==> ToMat(Ji) == old(ToMat(Ji)) && ToMat(Jj) == old(ToMat(Jj))
  {
    var n := nDim + 2;
    var precon, projI, projJ, area := StoreMeanFluxAndJacobian(o, f, nDim, e, res, Ji, Jj);
    var dv := ComputeJump(e.Vi, e.Vj, n);
    var meanLambda, sf := ComputeStretching(o, f, nDim, e, projI, projJ, area);

    var sc0 := NeighborScale(e.neighborI, e.neighborJ);
    var eps0 := Epsilon0(kappa0, sc0, nDim);

    assert eps0 == Epsilon0(kappa0, Sc0(e), nDim);
    AddDissipationLoop(res, Ji, Jj, f.implicit, precon, Weights(dv, eps0), eps0, eps0, sf, meanLambda, n);
    assert res[..] == AddDissipation(MeanFlux(o, f, nDim, e), precon, Weights(dv, eps0), sf, meanLambda, n);
    if !f.energy {
      RemoveEnergy(res, Ji, Jj, nDim, f.implicit);
    }
  }
}
