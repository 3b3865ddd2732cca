/**
 * Flux-difference-splitting upwind operator of the incompressible solver
 * (CUpwFDSInc_Flow::ComputeResidual): the mean of the two one-sided projected
 * fluxes minus half of Precon x |A_precon| applied to the jump in (P, v, T).
 */
module IncUpwindFDS {
  import opened IncNumericsBase

  // ---------------------------------------------------------------------
  // Specification
  // ---------------------------------------------------------------------

  /** Normal/Area, each component of magnitude below EPS replaced by +EPS. */
  function UnitNormal(normal: Vec, area: real): (u: Vec)
    requires area != 0.0
    ensures |u| == |normal|
  {
    seq(|normal|, d requires 0 <= d < |normal| =>
      if Abs(normal[d] / area) < EPS then EPS else normal[d] / area)
  }

  /** Eigenvalues of the preconditioned system before the absolute value is taken. */
  function SignedEigenvalues(un: real, c: real, nDim: nat): (l: Vec)
    requires nDim == 2 || nDim == 3
    ensures |l| == nDim + 2
  {
    if nDim == 2 then [un, un, un - c, un + c]
    else [un, un, un, un - c, un + c]
  }

  function AbsVec(v: Vec): (r: Vec)
    ensures |r| == |v| && forall k :: 0 <= k < |v| ==> r[k] == Abs(v[k])
  { seq(|v|, k requires 0 <= k < |v| => Abs(v[k])) }

  /** Mean velocity projected on the (non-unit) face normal. */
  function ProjMeanVelocity(Vi: Vec, Vj: Vec, normal: Vec, nDim: nat): real
    requires IsPrim(Vi, nDim) && IsPrim(Vj, nDim) && |normal| == nDim
  { Dot(MeanVec(Velocity(Vi, nDim), Velocity(Vj, nDim)), normal) }

  /** sqrt(mean beta^2 * Area * Area), the artificial sound speed. */
  function MeanSoundSpeed(o: Oracle, Vi: Vec, Vj: Vec, normal: Vec, nDim: nat): real
    requires IsPrim(Vi, nDim) && IsPrim(Vj, nDim)
  {
    SoundSpeed(o, Mean(BetaInc2(Vi, nDim), BetaInc2(Vj, nDim)), FaceArea(o, normal))
  }

  function Eigenvalues(o: Oracle, Vi: Vec, Vj: Vec, normal: Vec, nDim: nat): (l: Vec)
    requires nDim == 2 || nDim == 3
    requires IsPrim(Vi, nDim) && IsPrim(Vj, nDim) && |normal| == nDim
    ensures |l| == nDim + 2
  {
    AbsVec(SignedEigenvalues(ProjMeanVelocity(Vi, Vj, normal, nDim), MeanSoundSpeed(o, Vi, Vj, normal, nDim), nDim))
  }

  /**
   * d(rho)/dT at one end point. The density used is the separately stored
   * point density (Density_i), not the incompressible density of V.
   */
  function PointDRhoDT(f: Flags, density: real, V: Vec, nDim: nat): real
    requires IsPrim(V, nDim)
    requires f.variableDensity ==> Temperature(V, nDim) != 0.0
  {
    if f.variableDensity then -density / Temperature(V, nDim) else 0.0
  }

  /** Jump (P_j - P_i, v_j - v_i, T_j - T_i): the first nDim+2 entries of V_j - V_i. */
  function DiffV(Vi: Vec, Vj: Vec, nDim: nat): (dv: Vec)
    requires IsPrim(Vi, nDim) && IsPrim(Vj, nDim)
    ensures |dv| == nDim + 2
  { seq(nDim + 2, k requires 0 <= k < nDim + 2 => Vj[k] - Vi[k]) }

  predicate Admissible(o: Oracle, f: Flags, nDim: nat, Vi: Vec, Vj: Vec, normal: Vec)
  {
    (nDim == 2 || nDim == 3)
    && IsPrim(Vi, nDim) && IsPrim(Vj, nDim) && |normal| == nDim
    && FaceArea(o, normal) != 0.0
    && (f.variableDensity ==>
          Temperature(Vi, nDim) != 0.0 && Temperature(Vj, nDim) != 0.0
          && Mean(Temperature(Vi, nDim), Temperature(Vj, nDim)) != 0.0)
  }

  /** Precon x |A_precon|, both built from the mean state. */
  function DissipationMatrix(o: Oracle, f: Flags, nDim: nat, Vi: Vec, Vj: Vec, normal: Vec): (m: Mat)
    requires Sound(o) && Admissible(o, f, nDim, Vi, Vj, normal)
    ensures IsMat(m, nDim + 2, nDim + 2)
  {
    var meanVel := MeanVec(Velocity(Vi, nDim), Velocity(Vj, nDim));
    var meanRho := Mean(DensityInc(Vi, nDim), DensityInc(Vj, nDim));
    var meanBeta := Mean(BetaInc2(Vi, nDim), BetaInc2(Vj, nDim));
    var p := o.precon(meanRho, meanVel, meanBeta, Mean(Cp(Vi, nDim), Cp(Vj, nDim)),
                      Mean(Temperature(Vi, nDim), Temperature(Vj, nDim)), MeanDRhoDT(f, Vi, Vj, nDim));
    var a := o.preconProjJac(meanRho, Eigenvalues(o, Vi, Vj, normal, nDim), meanBeta,
                             UnitNormal(normal, FaceArea(o, normal)));
    MatMul(p, a, nDim + 2)
  }

  function ProjFlux(o: Oracle, V: Vec, normal: Vec, nDim: nat): Vec
    requires IsPrim(V, nDim)
  {
    o.invFlux(DensityInc(V, nDim), Velocity(V, nDim), Pressure(V), BetaInc2(V, nDim), Enthalpy(V, nDim), normal)
  }

  function PointJacobian(o: Oracle, f: Flags, density: real, V: Vec, normal: Vec, nDim: nat): Mat
    requires IsPrim(V, nDim)
    requires f.variableDensity ==> Temperature(V, nDim) != 0.0
  {
    o.invJac(DensityInc(V, nDim), Velocity(V, nDim), BetaInc2(V, nDim), Cp(V, nDim), Temperature(V, nDim),
             PointDRhoDT(f, density, V, nDim), normal, 0.5)
  }

  /** 0.5*row[0]*dv[0] + ... + 0.5*row[k-1]*dv[k-1] */
  function HalfDissTo(row: Vec, dv: Vec, k: nat): real
    requires k <= |row| && k <= |dv|
  {
    if k == 0 then 0.0 else HalfDissTo(row, dv, k - 1) + 0.5 * row[k - 1] * dv[k - 1]
  }

  /** 0.5*(F_i + F_j) - 0.5 * M * dV, before the energy equation is removed. */
  function RawResidual(fi: Vec, fj: Vec, m: Mat, dv: Vec, n: nat): (r: Vec)
    requires |fi| == n && |fj| == n && IsMat(m, n, n) && |dv| == n
    ensures |r| == n
  {
    seq(n, i requires 0 <= i < n => Mean(fi[i], fj[i]) - HalfDissTo(m[i], dv, n))
  }

  /** What the operator writes to val_residual. */
  function Residual(o: Oracle, f: Flags, nDim: nat, Vi: Vec, Vj: Vec, normal: Vec): (r: Vec)
    requires Sound(o) && Admissible(o, f, nDim, Vi, Vj, normal)
    ensures |r| == nDim + 2
  {
    var raw := RawResidual(ProjFlux(o, Vi, normal, nDim), ProjFlux(o, Vj, normal, nDim),
                           DissipationMatrix(o, f, nDim, Vi, Vj, normal), DiffV(Vi, Vj, nDim), nDim + 2);
    if f.energy then raw else ZeroEntry(raw, nDim + 1)
  }

  /** What the implicit operator writes to val_Jacobian_i. */
  function JacobianI(o: Oracle, f: Flags, nDim: nat, Vi: Vec, Vj: Vec, densityI: real, normal: Vec): (m: Mat)
    requires Sound(o) && Admissible(o, f, nDim, Vi, Vj, normal)
    ensures IsMat(m, nDim + 2, nDim + 2)
  {
    var j := AddScaled(PointJacobian(o, f, densityI, Vi, normal, nDim), DissipationMatrix(o, f, nDim, Vi, Vj, normal), 0.5, nDim + 2);
    if f.energy then j else ZeroRowCol(j, nDim + 1, nDim + 2)
  }

  /** What the implicit operator writes to val_Jacobian_j. */
  function JacobianJ(o: Oracle, f: Flags, nDim: nat, Vi: Vec, Vj: Vec, densityJ: real, normal: Vec): (m: Mat)
    requires Sound(o) && Admissible(o, f, nDim, Vi, Vj, normal)
    ensures IsMat(m, nDim + 2, nDim + 2)
  {
    var j := AddScaled(PointJacobian(o, f, densityJ, Vj, normal, nDim), DissipationMatrix(o, f, nDim, Vi, Vj, normal), -0.5, nDim + 2);
    if f.energy then j else ZeroRowCol(j, nDim + 1, nDim + 2)
  }

  // ---------------------------------------------------------------------
  // Properties
  // ---------------------------------------------------------------------

  lemma {:induction false} HalfDissZeroJump(row: Vec, dv: Vec, k: nat)
    requires k <= |row| && k <= |dv|
    requires forall l :: 0 <= l < k ==> dv[l] == 0.0
    ensures HalfDissTo(row, dv, k) == 0.0
  {
    if k > 0 { HalfDissZeroJump(row, dv, k - 1); }
  }

  /**
   * With the same state on both sides there is no jump to dissipate: the
   * residual is exactly the one-sided projected flux (with its energy entry
   * cleared when the energy equation is off).
   */
  lemma IdenticalStatesGiveOneSidedFlux(o: Oracle, f: Flags, nDim: nat, V: Vec, normal: Vec)
    requires Sound(o) && Admissible(o, f, nDim, V, V, normal)
    ensures var flux := ProjFlux(o, V, normal, nDim);
      Residual(o, f, nDim, V, V, normal) == (if f.energy then flux else ZeroEntry(flux, nDim + 1))
  {
    var n := nDim + 2;
    var flux := ProjFlux(o, V, normal, nDim);
    var m := DissipationMatrix(o, f, nDim, V, V, normal);
    var dv := DiffV(V, V, nDim);
    var raw := RawResidual(flux, flux, m, dv, n);
    forall i | 0 <= i < n ensures raw[i] == flux[i] {
      HalfDissZeroJump(m[i], dv, n);
    }
    assert raw == flux;
  }

  /**
   * The dissipation added to Jacobian_i is exactly the one removed from
   * Jacobian_j, measured against each side's point Jacobian with the energy
   * row and column cleared as the operator clears them.
   */
  lemma DissipationEqualAndOpposite(o: Oracle, f: Flags, nDim: nat, Vi: Vec, Vj: Vec, di: real, dj: real, normal: Vec, r: nat, c: nat)
    requires Sound(o) && Admissible(o, f, nDim, Vi, Vj, normal)
    requires r < nDim + 2 && c < nDim + 2
    ensures JacobianI(o, f, nDim, Vi, Vj, di, normal)[r][c] - EnergyJacobian(f, nDim, PointJacobian(o, f, di, Vi, normal, nDim))[r][c]
         == EnergyJacobian(f, nDim, PointJacobian(o, f, dj, Vj, normal, nDim))[r][c] - JacobianJ(o, f, nDim, Vi, Vj, dj, normal)[r][c]
  {}

  // ---------------------------------------------------------------------
  // The operator
  // ---------------------------------------------------------------------

  /**
   * The unit normal with the EPS floor: every component ends up of magnitude
   * at least EPS; a component already that large is Normal/Area, any other
   * becomes +EPS whatever its sign.
   */
  method ComputeUnitNormal(normal: Vec, area: real) returns (u: Vec)
    requires area != 0.0
    ensures u == UnitNormal(normal, area)
    ensures forall d :: 0 <= d < |normal| ==> Abs(u[d]) >= EPS
    ensures forall d :: 0 <= d < |normal| ==>
      (Abs(normal[d] / area) >= EPS ==> u[d] == normal[d] / area)
      && (Abs(normal[d] / area) < EPS ==> u[d] == EPS)
  {
    var a := new real[|normal|];
    for d := 0 to |normal|
      invariant forall e :: 0 <= e < d ==> a[e] == UnitNormal(normal, area)[e]
    {
      a[d] := normal[d] / area;
      if Abs(a[d]) < EPS { a[d] := EPS; }
    }
    u := a[..];
  }

  /**
   * The eigenvalue array after the absolute-value pass: every entry is
   * non-negative, the first nDim equal |u_n| and the last two |u_n - c| and
   * |u_n + c|.
   */
  method ComputeEigenvalues(un: real, c: real, nDim: nat) returns (lambda: Vec)
    requires nDim == 2 || nDim == 3
    ensures lambda == AbsVec(SignedEigenvalues(un, c, nDim))
    ensures |lambda| == nDim + 2
    ensures forall k :: 0 <= k < |lambda| ==> lambda[k] >= 0.0
    ensures forall k :: 0 <= k < nDim ==> lambda[k] == Abs(un)
    ensures lambda[nDim] == Abs(un - c) && lambda[nDim + 1] == Abs(un + c)
  {
    var l := new real[nDim + 2];
    if nDim == 2 {
      l[0], l[1], l[2], l[3] := un, un, un - c, un + c;
    }
    if nDim == 3 {
      l[0], l[1], l[2], l[3], l[4] := un, un, un, un - c, un + c;
    }
    ghost var signed := l[..];
    assert signed == SignedEigenvalues(un, c, nDim);
    for k := 0 to nDim + 2
      invariant forall e :: 0 <= e < k ==> l[e] == Abs(signed[e])
      invariant forall e :: k <= e < nDim + 2 ==> l[e] == signed[e]
    {
      l[k] := Abs(l[k]);
    }
    lambda := l[..];
  }

  /** Mean velocity of the two states and its projection on the face normal. */
  method ComputeMeanVelocity(Vi: Vec, Vj: Vec, normal: Vec, nDim: nat) returns (meanVel: Vec, projVel: real)
    requires IsPrim(Vi, nDim) && IsPrim(Vj, nDim) && |normal| == nDim
    ensures meanVel == MeanVec(Velocity(Vi, nDim), Velocity(Vj, nDim))
    ensures projVel == ProjMeanVelocity(Vi, Vj, normal, nDim)
  {
    var a := new real[nDim];
    projVel := 0.0;
    for d := 0 to nDim
      invariant forall e :: 0 <= e < d ==> a[e] == Mean(Vi[e + 1], Vj[e + 1])
      invariant projVel == DotTo(a[..d], normal, d)
    {
      a[d] := 0.5 * (Vi[d + 1] + Vj[d + 1]);
      assert a[..d + 1][..d] == a[..d];
      DotToPrefix(a[..d], a[..d + 1], normal, d);
      projVel := projVel + a[d] * normal[d];
    }
    meanVel := a[..];
    assert a[..nDim] == meanVel;
  }

  /** The jump in pressure, velocity and temperature from point i to point j. */
  method ComputeDiffV(Vi: Vec, Vj: Vec, nDim: nat) returns (dv: Vec)
    requires IsPrim(Vi, nDim) && IsPrim(Vj, nDim)
    ensures dv == DiffV(Vi, Vj, nDim)
    ensures dv[0] == Pressure(Vj) - Pressure(Vi)
    ensures forall d :: 0 <= d < nDim ==> dv[d + 1] == Velocity(Vj, nDim)[d] - Velocity(Vi, nDim)[d]
    ensures dv[nDim + 1] == Temperature(Vj, nDim) - Temperature(Vi, nDim)
  {
    var a := new real[nDim + 2];
    a[0] := Pressure(Vj) - Pressure(Vi);
    for d := 0 to nDim
      invariant a[0] == Vj[0] - Vi[0]
      invariant forall e :: 1 <= e <= d ==> a[e] == Vj[e] - Vi[e]
    {
      a[d + 1] := Vj[d + 1] - Vi[d + 1];
    }
    a[nDim + 1] := Temperature(Vj, nDim) - Temperature(Vi, nDim);
    dv := a[..];
  }

  /** Entry (i, j) of Precon x invPrecon_A, summed over k. */
  method ModJacEntry(precon: Mat, invPreconA: Mat, i: nat, j: nat, n: nat) returns (x: real)
    requires IsMat(precon, n, n) && IsMat(invPreconA, n, n) && i < n && j < n
    ensures x == MatMul(precon, invPreconA, n)[i][j]
  {
    x := 0.0;
    for k := 0 to n
      invariant x == DotTo(precon[i], Column(invPreconA, j, n), k)
    {
      x := x + precon[i][k] * invPreconA[k][j];
    }
  }

  /** Jacobian_i[i][j] += 0.5 x and Jacobian_j[i][j] -= 0.5 x; nothing else changes. */
  method AddHalfEntry(Ji: array2<real>, Jj: array2<real>, i: nat, j: nat, x: real, n: nat)
    requires i < n && j < n && Ji.Length0 == n && Ji.Length1 == n && Jj.Length0 == n && Jj.Length1 == n && Ji != Jj
    modifies Ji, Jj
    ensures forall r, c :: 0 <= r < n && 0 <= c < n ==>
      Ji[r, c] == (if r == i && c == j then old(Ji[r, c]) + 0.5 * x else old(Ji[r, c]))
    ensures forall r, c :: 0 <= r < n && 0 <= c < n ==>
      Jj[r, c] == (if r == i && c == j then old(Jj[r, c]) + -0.5 * x else old(Jj[r, c]))
  {
    Ji[i, j] := Ji[i, j] + 0.5 * x;
    Jj[i, j] := Jj[i, j] - 0.5 * x;
  }

  /** Row i of the dissipation loop (the loop over jVar for one iVar). */
  method AccumulateRow(res: array<real>, Ji: array2<real>, Jj: array2<real>, implicit: bool,
                       fluxI: Vec, fluxJ: Vec, precon: Mat, invPreconA: Mat, dv: Vec, n: nat, i: nat)
    requires i < n && res.Length == n && |fluxI| == n && |fluxJ| == n && |dv| == n
    requires IsMat(precon, n, n) && IsMat(invPreconA, n, n)
    requires Ji.Length0 == n && Ji.Length1 == n && Jj.Length0 == n && Jj.Length1 == n && Ji != Jj
    modifies res, Ji, Jj
    ensures forall r :: 0 <= r < n && r != i ==> res[r] == old(res[r])
    ensures res[i] == RawResidual(fluxI, fluxJ, MatMul(precon, invPreconA, n), dv, n)[i]
    ensures forall r, c :: 0 <= r < n && 0 <= c < n ==>
      Ji[r, c] == (if implicit && r == i then old(Ji[r, c]) + 0.5 * MatMul(precon, invPreconA, n)[r][c] else old(Ji[r, c]))
    ensures forall r, c :: 0 <= r < n && 0 <= c < n ==>
      Jj[r, c] == (if implicit && r == i then old(Jj[r, c]) + -0.5 * MatMul(precon, invPreconA, n)[r][c] else old(Jj[r, c]))
  {
    ghost var m := MatMul(precon, invPreconA, n);
    res[i] := 0.5 * (fluxI[i] + fluxJ[i]);
    var j := 0;
    while j < n
      invariant 0 <= j <= n
      invariant forall r :: 0 <= r < n && r != i ==> res[r] == old(res[r])
      invariant res[i] == Mean(fluxI[i], fluxJ[i]) - HalfDissTo(m[i], dv, j)
      invariant forall r, c :: 0 <= r < n && 0 <= c < n ==>
        Ji[r, c] == (if implicit && r == i && c < j then old(Ji[r, c]) + 0.5 * m[r][c] else old(Ji[r, c]))
      invariant forall r, c :: 0 <= r < n && 0 <= c < n ==>
        Jj[r, c] == (if implicit && r == i && c < j then old(Jj[r, c]) + -0.5 * m[r][c] else old(Jj[r, c]))
    {
      var projModJac := ModJacEntry(precon, invPreconA, i, j, n);
      assert HalfDissTo(m[i], dv, j + 1) == HalfDissTo(m[i], dv, j) + 0.5 * projModJac * dv[j];
      res[i] := res[i] - 0.5 * projModJac * dv[j];
      if implicit {
        AddHalfEntry(Ji, Jj, i, j, projModJac, n);
      }
      j := j + 1;
    }
  }

  /**
   * The dissipation loop: val_residual[i] = 0.5(F_i + F_j)[i] - sum_j 0.5 M[i][j] dV[j]
   * and, when implicit, Jacobian_i += 0.5 M and Jacobian_j -= 0.5 M, with
   * M = Precon x invPrecon_A.
   */
  method AccumulateDissipation(res: array<real>, Ji: array2<real>, Jj: array2<real>, implicit: bool,
                               fluxI: Vec, fluxJ: Vec, precon: Mat, invPreconA: Mat, dv: Vec, n: nat)
    requires res.Length == n && |fluxI| == n && |fluxJ| == n && |dv| == n
    requires IsMat(precon, n, n) && IsMat(invPreconA, n, n)
    requires Ji.Length0 == n && Ji.Length1 == n && Jj.Length0 == n && Jj.Length1 == n && Ji != Jj
    modifies res, Ji, Jj
    ensures res[..] == RawResidual(fluxI, fluxJ, MatMul(precon, invPreconA, n), dv, n)
    ensures implicit ==> ToMat(Ji) == AddScaled(old(ToMat(Ji)), MatMul(precon, invPreconA, n), 0.5, n)
    ensures implicit ==> ToMat(Jj) == AddScaled(old(ToMat(Jj)), MatMul(precon, invPreconA, n), -0.5, n)
    ensures !implicit ==> ToMat(Ji) == old(ToMat(Ji)) && ToMat(Jj) == old(ToMat(Jj))
  {
    ghost var m := MatMul(precon, invPreconA, n);
    ghost var raw := RawResidual(fluxI, fluxJ, m, dv, n);
    var i := 0;
    while i < n
      invariant 0 <= i <= n
      invariant forall r :: 0 <= r < i ==> res[r] == raw[r]
      invariant forall r, c :: 0 <= r < n && 0 <= c < n ==>
        Ji[r, c] == (if implicit && r < i then old(Ji[r, c]) + 0.5 * m[r][c] else old(Ji[r, c]))
      invariant forall r, c :: 0 <= r < n && 0 <= c < n ==>
        Jj[r, c] == (if implicit && r < i then old(Jj[r, c]) + -0.5 * m[r][c] else old(Jj[r, c]))
    {
      AccumulateRow(res, Ji, Jj, implicit, fluxI, fluxJ, precon, invPreconA, dv, n, i);
      i := i + 1;
    }
    assert res[..] == raw;
    if implicit {
      MatExt(ToMat(Ji), AddScaled(old(ToMat(Ji)), m, 0.5, n), n, n);
      MatExt(ToMat(Jj), AddScaled(old(ToMat(Jj)), m, -0.5, n), n, n);
    } else {
      MatExt(ToMat(Ji), old(ToMat(Ji)), n, n);
      MatExt(ToMat(Jj), old(ToMat(Jj)), n, n);
    }
  }

  /**
   * CUpwFDSInc_Flow::ComputeResidual. densityI and densityJ are the stored
   * point densities (Density_i, Density_j) used only in d(rho)/dT.
   */
  method ComputeResidual(o: Oracle, f: Flags, nDim: nat, Vi: Vec, Vj: Vec, densityI: real, densityJ: real,
                         normal: Vec, res: array<real>, Ji: array2<real>, Jj: array2<real>)
    requires Sound(o) && Admissible(o, f, nDim, Vi, Vj, normal)
    requires res.Length == nDim + 2
    requires Ji.Length0 == nDim + 2 && Ji.Length1 == nDim + 2
    requires Jj.Length0 == nDim + 2 && Jj.Length1 == nDim + 2
    requires Ji != Jj
    modifies res, Ji, Jj
    ensures res[..] == Residual(o, f, nDim, Vi, Vj, normal)
    ensures f.implicit ==> ToMat(Ji) == JacobianI(o, f, nDim, Vi, Vj, densityI, normal)
    ensures f.implicit ==> ToMat(Jj) == JacobianJ(o, f, nDim, Vi, Vj, densityJ, normal)
    ensures !f.implicit ==> ToMat(Ji) == old(ToMat(Ji)) && ToMat(Jj) == old(ToMat(Jj))
  {
    var n := nDim + 2;
    var area := ComputeFaceArea(o, normal);
    var unitNormal := ComputeUnitNormal(normal, area);
    var meanVel, projVel := ComputeMeanVelocity(Vi, Vj, normal, nDim);

    var meanRho := Mean(DensityInc(Vi, nDim), DensityInc(Vj, nDim));
    var meanBeta := Mean(BetaInc2(Vi, nDim), BetaInc2(Vj, nDim));
    var soundSpeed := SoundSpeed(o, meanBeta, area);

    var fluxI := ProjFlux(o, Vi, normal, nDim);
    var fluxJ := ProjFlux(o, Vj, normal, nDim);
    var lambda := ComputeEigenvalues(projVel, soundSpeed, nDim);
    var precon := o.precon(meanRho, meanVel, meanBeta, Mean(Cp(Vi, nDim), Cp(Vj, nDim)),
                           Mean(Temperature(Vi, nDim), Temperature(Vj, nDim)), MeanDRhoDT(f, Vi, Vj, nDim));
    var invPreconA := o.preconProjJac(meanRho, lambda, meanBeta, unitNormal);
    var dv := ComputeDiffV(Vi, Vj, nDim);
    assert lambda == Eigenvalues(o, Vi, Vj, normal, nDim);

    if f.implicit {
      StoreMat(Ji, PointJacobian(o, f, densityI, Vi, normal, nDim), n);
      StoreMat(Jj, PointJacobian(o, f, densityJ, Vj, normal, nDim), n);
    }
    AccumulateDissipation(res, Ji, Jj, f.implicit, fluxI, fluxJ, precon, invPreconA, dv, n);
    assert MatMul(precon, invPreconA, n) == DissipationMatrix(o, f, nDim, Vi, Vj, normal);

    if !f.energy {
      RemoveEnergy(res, Ji, Jj, nDim, f.implicit);
    }
  }

  lemma DotToPrefix(a: Vec, b: Vec, c: Vec, k: nat)
    requires k <= |a| && k <= |b| && k <= |c|
    requires a[..k] == b[..k]
    ensures DotTo(a, c, k) == DotTo(b, c, k)
  {
    if k > 0 {
      assert a[..k - 1] == a[..k][..k - 1];
      assert b[..k - 1] == b[..k][..k - 1];
      DotToPrefix(a, b, c, k - 1);
      assert a[k - 1] == a[..k][k - 1];
    }
  }
}
