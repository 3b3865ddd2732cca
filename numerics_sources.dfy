/**
 * Body-force source of the incompressible solver
 * (CSourceIncBodyForce::ComputeResidual): a constant force per unit mass
 * acting on the density deviation from the operating density.
 */
module IncBodyForce {
  import opened IncNumericsBase

  /** The point values and configuration the operator reads. */
  datatype Source = Source(volume: real, density: real, freeStreamDensity: real, force: Vec, forceRef: real)

  predicate Shaped(nDim: nat, s: Source) { |s.force| == nDim && s.forceRef != 0.0 }

  /**
   * DensityInc_0: with a variable density the free-stream density is
   * subtracted, so that the hydrostatic part is removed; otherwise nothing is.
   */
  function OperatingDensity(f: Flags, s: Source): real {
    if f.variableDensity then s.freeStreamDensity else 0.0
  }

  /** -Volume (rho - rho_0) F_d / Force_Ref */
  function Momentum(f: Flags, s: Source, d: nat): real
    requires d < |s.force| && s.forceRef != 0.0
  {
    -s.volume * (s.density - OperatingDensity(f, s)) * s.force[d] / s.forceRef
  }

  /** The residual: zero continuity and energy rows, the force in the momentum rows. */
  function Residual(f: Flags, nDim: nat, s: Source): (r: Vec)
    requires Shaped(nDim, s)
    ensures |r| == nDim + 2
    ensures r[0] == 0.0 && r[nDim + 1] == 0.0
  {
    seq(nDim + 2, k requires 0 <= k < nDim + 2 => if 1 <= k <= nDim then Momentum(f, s, k - 1) else 0.0)
  }

  /**
   * A fluid at the operating density feels no net force: with a variable
   * density and rho = rho_0 the whole residual vanishes.
   */
  lemma HydrostaticBalance(f: Flags, nDim: nat, s: Source)
    requires Shaped(nDim, s) && f.variableDensity && s.density == s.freeStreamDensity
    ensures Residual(f, nDim, s) == Zeros(nDim + 2)
  {
    var r := Residual(f, nDim, s);
    forall k | 0 <= k < nDim + 2 ensures r[k] == 0.0 {
      if 1 <= k <= nDim {
        assert s.density - OperatingDensity(f, s) == 0.0;
        assert -s.volume * 0.0 * s.force[k - 1] / s.forceRef == 0.0;
      }
    }
  }

  /**
   * The momentum source is parallel to the body force: any two momentum rows
   * stand in the ratio of the two force components.
   */
  lemma AlongTheForce(f: Flags, nDim: nat, s: Source, d: nat, e: nat)
    requires Shaped(nDim, s) && d < nDim && e < nDim
    ensures Residual(f, nDim, s)[d + 1] * s.force[e] == Residual(f, nDim, s)[e + 1] * s.force[d]
  {
    var c := -s.volume * (s.density - OperatingDensity(f, s)) / s.forceRef;
    ScaledByForce(-s.volume * (s.density - OperatingDensity(f, s)), s.force[d], s.forceRef);
    ScaledByForce(-s.volume * (s.density - OperatingDensity(f, s)), s.force[e], s.forceRef);
    assert Residual(f, nDim, s)[d + 1] == c * s.force[d];
    assert Residual(f, nDim, s)[e + 1] == c * s.force[e];
  }

  lemma ScaledByForce(a: real, x: real, fr: real)
    requires fr != 0.0
    ensures a * x / fr == (a / fr) * x
  {}

  /**
   * A fluid denser than the operating density is pushed against the force
   * direction in the residual (the residual carries the source with a minus
   * sign), a lighter one along it.
   */
  lemma DenserFluidOpposesForce(f: Flags, nDim: nat, s: Source, d: nat)
    requires Shaped(nDim, s) && d < nDim && s.volume > 0.0 && s.forceRef > 0.0 && s.force[d] > 0.0
    ensures s.density > OperatingDensity(f, s) ==> Residual(f, nDim, s)[d + 1] < 0.0
    ensures s.density < OperatingDensity(f, s) ==> Residual(f, nDim, s)[d + 1] > 0.0
  {
    var dr := s.density - OperatingDensity(f, s);
    ScaledByForce(-s.volume * dr, s.force[d], s.forceRef);
    var q := s.force[d] / s.forceRef;
    assert q > 0.0;
    assert Residual(f, nDim, s)[d + 1] == -(s.volume * q) * dr by {
      ScaledByForce(-s.volume * dr, s.force[d], s.forceRef);
      assert (-s.volume * dr / s.forceRef) * s.force[d] == -(s.volume * q) * dr;
    }
    MulPositive(s.volume, q);
    if dr > 0.0 { MulPositive(s.volume * q, dr); }
    if dr < 0.0 { MulPositive(s.volume * q, -dr); }
  }

  /** val_residual filled row by row. */
  method ComputeResidual(f: Flags, nDim: nat, s: Source, res: array<real>)
    requires Shaped(nDim, s) && res.Length == nDim + 2
    modifies res
    ensures res[..] == Residual(f, nDim, s)
  {
    var density0 := 0.0;
    if f.variableDensity {
      density0 := s.freeStreamDensity;
    }
    res[0] := 0.0;
    for d := 0 to nDim
      invariant res[0] == 0.0
      invariant forall k :: 1 <= k <= d ==> res[k] == Momentum(f, s, k - 1)
    {
      res[d + 1] := -s.volume * (s.density - density0) * s.force[d] / s.forceRef;
    }
    res[nDim + 1] := 0.0;
    assert res[..] == Residual(f, nDim, s);
  }
}

/**
 * Boussinesq buoyancy source (CSourceBoussinesq): gravity acting on the
 * density change caused by the temperature deviation from T0.
 */
module IncBoussinesq {
  import opened IncNumericsBase

  /** Standard gravity in m/s^2 (SU2's STANDARD_GRAVITY). */
  const STANDARD_GRAVITY: real := 9.80665

  /** Gravity points down the last axis: y in 2-D, z in 3-D. */
  function Gravity(nDim: nat): (g: Vec)
    requires nDim > 0
    ensures |g| == nDim && g[nDim - 1] == -STANDARD_GRAVITY
    ensures forall d :: 0 <= d < nDim - 1 ==> g[d] == 0.0
  {
    seq(nDim, d requires 0 <= d < nDim => if d == nDim - 1 then -STANDARD_GRAVITY else 0.0)
  }

  /** The point values and configuration the operator reads. */
  datatype Source = Source(volume: real, density: real, U: Vec, beta: real, T0: real, forceRef: real)

  predicate Shaped(nDim: nat, s: Source) { nDim > 0 && |s.U| == nDim + 2 && s.forceRef != 0.0 }

  /** Temperature of the solution vector, U_i[nDim+1]. */
  function SolutionTemperature(nDim: nat, s: Source): real requires Shaped(nDim, s) { s.U[nDim + 1] }

  /** Volume rho_i (beta (T - T0)) g_d / Force_Ref */
  function Momentum(nDim: nat, s: Source, d: nat): real
    requires Shaped(nDim, s) && d < nDim
  {
    s.volume * s.density * (s.beta * (SolutionTemperature(nDim, s) - s.T0)) * Gravity(nDim)[d] / s.forceRef
  }

  function Residual(nDim: nat, s: Source): (r: Vec)
    requires Shaped(nDim, s)
    ensures |r| == nDim + 2
    ensures r[0] == 0.0 && r[nDim + 1] == 0.0
  {
    seq(nDim + 2, k requires 0 <= k < nDim + 2 => if 1 <= k <= nDim then Momentum(nDim, s, k - 1) else 0.0)
  }

  /** Only the vertical momentum row is non-zero. */
  lemma OnlyVerticalMomentum(nDim: nat, s: Source)
    requires Shaped(nDim, s)
    ensures forall k :: 0 <= k < nDim + 2 && k != nDim ==> Residual(nDim, s)[k] == 0.0
  {
    var r := Residual(nDim, s);
    forall k | 0 <= k < nDim + 2 && k != nDim ensures r[k] == 0.0 {
      if 1 <= k < nDim {
        assert Gravity(nDim)[k - 1] == 0.0;
        assert s.volume * s.density * (s.beta * (SolutionTemperature(nDim, s) - s.T0)) * 0.0 / s.forceRef == 0.0;
      }
    }
  }

  /** At the reference temperature there is no buoyancy at all. */
  lemma NoBuoyancyAtReferenceTemperature(nDim: nat, s: Source)
    requires Shaped(nDim, s) && SolutionTemperature(nDim, s) == s.T0
    ensures Residual(nDim, s) == Zeros(nDim + 2)
  {
    var r := Residual(nDim, s);
    forall k | 0 <= k < nDim + 2 ensures r[k] == 0.0 {
      if 1 <= k <= nDim {
        assert s.beta * (SolutionTemperature(nDim, s) - s.T0) == 0.0;
        MomentumZeroTemperature(s.volume * s.density, Gravity(nDim)[k - 1], s.forceRef);
      }
    }
  }

  lemma MomentumZeroTemperature(a: real, g: real, fr: real)
    requires fr != 0.0
    ensures a * 0.0 * g / fr == 0.0
  {}

  /**
   * With positive volume, density, expansion coefficient and reference force,
   * fluid warmer than T0 gets a negative vertical-momentum residual (buoyancy
   * lifts it, against gravity) and colder fluid a positive one.
   */
  lemma WarmFluidRises(nDim: nat, s: Source)
    requires Shaped(nDim, s) && s.volume > 0.0 && s.density > 0.0 && s.beta > 0.0 && s.forceRef > 0.0
    ensures SolutionTemperature(nDim, s) > s.T0 ==> Residual(nDim, s)[nDim] < 0.0
    ensures SolutionTemperature(nDim, s) < s.T0 ==> Residual(nDim, s)[nDim] > 0.0
  {
    var dt := SolutionTemperature(nDim, s) - s.T0;
    var c := s.volume * s.density * s.beta * STANDARD_GRAVITY / s.forceRef;
    MulPositive(s.volume, s.density);
    MulPositive(s.volume * s.density, s.beta);
    MulPositive(s.volume * s.density * s.beta, STANDARD_GRAVITY);
    assert c > 0.0;
    assert Residual(nDim, s)[nDim] == -c * dt by {
      assert Gravity(nDim)[nDim - 1] == -STANDARD_GRAVITY;
      assert s.volume * s.density * (s.beta * dt) * -STANDARD_GRAVITY / s.forceRef
          == -(s.volume * s.density * s.beta * STANDARD_GRAVITY / s.forceRef) * dt;
    }
    if dt > 0.0 { MulPositive(c, dt); }
    if dt < 0.0 { MulPositive(c, -dt); }
  }

  /** The constructor's Gravity_Vector: zeros, then -g in the last entry. */
  method BuildGravity(nDim: nat) returns (g: Vec)
    requires nDim > 0
    ensures g == Gravity(nDim)
  {
    var a := new real[nDim];
    for d := 0 to nDim
      invariant forall e :: 0 <= e < d ==> a[e] == 0.0
    {
      a[d] := 0.0;
    }
    a[nDim - 1] := -STANDARD_GRAVITY;
    g := a[..];
  }

  method ComputeResidual(nDim: nat, s: Source, res: array<real>)
    requires Shaped(nDim, s) && res.Length == nDim + 2
    modifies res
    ensures res[..] == Residual(nDim, s)
  {
    var gravity := BuildGravity(nDim);
    res[0] := 0.0;
    for d := 0 to nDim
      invariant res[0] == 0.0
      invariant forall k :: 1 <= k <= d ==> res[k] == Momentum(nDim, s, k - 1)
    {
      res[d + 1] := s.volume * s.density * (s.beta * (s.U[nDim + 1] - s.T0)) * gravity[d] / s.forceRef;
    }
    res[nDim + 1] := 0.0;
    assert res[..] == Residual(nDim, s);
  }
}

/**
 * Axisymmetric source of the incompressible solver
 * (CSourceIncAxisymmetric_Flow::ComputeResidual). The operator is written for
 * the 2-D axisymmetric setting, y being the radius: four unknowns (p, u, v, T),
 * 1/y-weighted inviscid terms with their exact Jacobian, optional viscous
 * corrections, and an all-zero contribution on or next to the axis.
 */
module IncAxisymmetric {
  import opened IncNumericsBase

  /** The axisymmetric operator exists only in two dimensions. */
  const NDIM: nat := 2
  const NVAR: nat := 4

  /** 2/3 (SU2's TWO3). */
  const TWO3: real := 2.0 / 3.0

  /**
   * The point data the operator reads: primitive state, coordinates, control
   * volume, primitive gradient (rows p, u, v, T; columns x, y) and the
   * auxiliary-variable gradient.
   */
  datatype Point = Point(V: Vec, coord: Vec, volume: real, primGrad: Mat, auxGrad: Vec)

  predicate Shaped(p: Point) {
    IsPrim(p.V, NDIM) && |p.coord| == NDIM && IsMat(p.primGrad, NVAR, NDIM) && |p.auxGrad| == NDIM
  }

  /** Off the axis: y > EPS. */
  predicate OffAxis(p: Point) requires Shaped(p) { p.coord[1] > EPS }

  // ---------------------------------------------------------------------
  // Inviscid part
  // ---------------------------------------------------------------------

  /** yinv Volume rho, the factor of every inviscid term. */
  function Factor(yinv: real, volume: real, density: real): real { yinv * volume * density }

  /**
   * The inviscid source as a function of the velocity (u, v) and the
   * temperature T, with enthalpy Cp T.
   */
  function InviscidSource(fac: real, cp: real, u: real, v: real, t: real): (r: Vec)
    ensures |r| == NVAR
  {
    [fac * v, fac * u * v, fac * v * v, fac * (cp * t) * v]
  }

  /** The entries the operator writes before scaling, with enthalpy h. */
  function JacobianPattern(cp: real, u: real, v: real, h: real): (m: Mat)
    ensures IsMat(m, NVAR, NVAR)
  {
    [[0.0, 0.0, 1.0, 0.0],
     [0.0, v, u, 0.0],
     [0.0, 0.0, 2.0 * v, 0.0],
     [0.0, 0.0, h, cp * v]]
  }

  /** m with every entry multiplied by s. */
  function Scaled(m: Mat, s: real, n: nat): (r: Mat)
    requires IsMat(m, n, n)
    ensures IsMat(r, n, n) && forall i, j :: 0 <= i < n && 0 <= j < n ==> r[i][j] == m[i][j] * s
  {
    seq(n, i requires 0 <= i < n => seq(n, j requires 0 <= j < n => m[i][j] * s))
  }

  function InviscidJacobian(fac: real, cp: real, u: real, v: real, t: real): (m: Mat)
    ensures IsMat(m, NVAR, NVAR)
  {
    Scaled(JacobianPattern(cp, u, v, cp * t), fac, NVAR)
  }

  /**
   * What the linearisation leaves over for an increment d of (p, u, v, T):
   * the products of two increments.
   */
  function SecondOrder(fac: real, cp: real, d: Vec): (r: Vec)
    requires |d| == NVAR
    ensures |r| == NVAR
  {
    [0.0, fac * d[1] * d[2], fac * d[2] * d[2], fac * cp * d[3] * d[2]]
  }

  // ---------------------------------------------------------------------
  // Viscous part
  // ---------------------------------------------------------------------

  /** Kronecker delta. */
  function Delta(i: nat, j: nat): real { if i == j then 1.0 else 0.0 }

  /** div(v) = sum over d of dv_d/dx_d, accumulated over the first k dimensions. */
  function DivergenceTo(g: Mat, k: nat): real
    requires k <= NDIM && IsMat(g, NVAR, NDIM)
  {
    if k == 0 then 0.0 else DivergenceTo(g, k - 1) + g[k][k - 1]
  }

  /** tau_ij = mu (dv_j/dx_i + dv_i/dx_j) - 2/3 mu div(v) delta_ij */
  function Stress(g: Mat, mu: real, div: real, i: nat, j: nat): real
    requires IsMat(g, NVAR, NDIM) && i < NDIM && j < NDIM
  {
    mu * (g[j + 1][i] + g[i + 1][j]) - TWO3 * mu * div * Delta(i, j)
  }

  function StressTensor(g: Mat, mu: real): (t: Mat)
    requires IsMat(g, NVAR, NDIM)
    ensures IsMat(t, NDIM, NDIM)
    ensures forall i, j :: 0 <= i < NDIM && 0 <= j < NDIM ==> t[i][j] == Stress(g, mu, DivergenceTo(g, NDIM), i, j)
  {
    seq(NDIM, i requires 0 <= i < NDIM => seq(NDIM, j requires 0 <= j < NDIM => Stress(g, mu, DivergenceTo(g, NDIM), i, j)))
  }

  /** mu + mu_t */
  function TotalViscosity(p: Point): real requires Shaped(p) {
    LaminarViscosity(p.V, NDIM) + EddyViscosity(p.V, NDIM)
  }

  /** The viscous terms the operator subtracts from the inviscid residual, given the stress tensor. */
  function ViscousTermsWith(p: Point, yinv: real, tau: Mat): (r: Vec)
    requires Shaped(p) && IsMat(tau, NDIM, NDIM)
    ensures |r| == NVAR && r[0] == 0.0
  {
    var mu := TotalViscosity(p);
    var g := p.primGrad;
    [0.0,
     p.volume * (yinv * tau[0][1] - TWO3 * p.auxGrad[0]),
     p.volume * (yinv * 2.0 * mu * g[2][1] - yinv * yinv * 2.0 * mu * p.V[2] - TWO3 * p.auxGrad[1]),
     p.volume * yinv * ThermalConductivity(p.V, NDIM) * g[NDIM + 1][1]]
  }

  function ViscousTerms(p: Point, yinv: real): (r: Vec)
    requires Shaped(p)
    ensures |r| == NVAR && r[0] == 0.0
  {
    ViscousTermsWith(p, yinv, StressTensor(p.primGrad, TotalViscosity(p)))
  }

  function Sub(a: Vec, b: Vec): (r: Vec)
    requires |a| == |b|
    ensures |r| == |a| && forall k :: 0 <= k < |a| ==> r[k] == a[k] - b[k]
  {
    seq(|a|, k requires 0 <= k < |a| => a[k] - b[k])
  }

  // ---------------------------------------------------------------------
  // The operator
  // ---------------------------------------------------------------------

  function PointFactor(p: Point): real requires Shaped(p) && OffAxis(p) {
    Factor(1.0 / p.coord[1], p.volume, DensityInc(p.V, NDIM))
  }

  function PointInviscid(p: Point): (r: Vec) requires Shaped(p) && OffAxis(p) ensures |r| == NVAR {
    InviscidSource(PointFactor(p), Cp(p.V, NDIM), p.V[1], p.V[2], Temperature(p.V, NDIM))
  }

  /** The residual before the energy equation is removed. */
  function RawResidual(p: Point, viscous: bool): (r: Vec)
    requires Shaped(p)
    ensures |r| == NVAR
  {
    if !OffAxis(p) then Zeros(NVAR)
    else if viscous then Sub(PointInviscid(p), ViscousTerms(p, 1.0 / p.coord[1]))
    else PointInviscid(p)
  }

  function Residual(f: Flags, viscous: bool, p: Point): (r: Vec)
    requires Shaped(p)
    ensures |r| == NVAR
  {
    EnergyResidual(f, NDIM, RawResidual(p, viscous))
  }

  /** The implicit Jacobian before the energy equation is removed: the inviscid one off the axis, zero on it. */
  function RawJacobian(p: Point): (m: Mat)
    requires Shaped(p)
    ensures IsMat(m, NVAR, NVAR)
  {
    if OffAxis(p)
    then InviscidJacobian(PointFactor(p), Cp(p.V, NDIM), p.V[1], p.V[2], Temperature(p.V, NDIM))
    else ZeroMat(NVAR)
  }

  /** The viscous terms contribute nothing to the Jacobian. */
  function Jacobian(f: Flags, p: Point): (m: Mat)
    requires Shaped(p)
    ensures IsMat(m, NVAR, NVAR)
  {
    EnergyJacobian(f, NDIM, RawJacobian(p))
  }

  // ---------------------------------------------------------------------
  // Properties
  // ---------------------------------------------------------------------

  /**
   * The Jacobian is the exact derivative of the inviscid source with respect
   * to (p, u, v, T): for any increment d, the source at the moved state is the
   * source plus the Jacobian times d, up to the products of two increments.
   */
  lemma JacobianIsExactLinearisation(fac: real, cp: real, u: real, v: real, t: real, d: Vec)
    requires |d| == NVAR
    ensures forall k :: 0 <= k < NVAR ==>
      InviscidSource(fac, cp, u + d[1], v + d[2], t + d[3])[k]
      == InviscidSource(fac, cp, u, v, t)[k] + DotTo(InviscidJacobian(fac, cp, u, v, t)[k], d, NVAR)
         + SecondOrder(fac, cp, d)[k]
  {
    forall k | 0 <= k < NVAR
      ensures InviscidSource(fac, cp, u + d[1], v + d[2], t + d[3])[k]
        == InviscidSource(fac, cp, u, v, t)[k] + DotTo(InviscidJacobian(fac, cp, u, v, t)[k], d, NVAR)
           + SecondOrder(fac, cp, d)[k]
    {
      LinearisationRow(fac, cp, u, v, t, d, k);
    }
  }

  /** One row of the linearisation. */
  lemma LinearisationRow(fac: real, cp: real, u: real, v: real, t: real, d: Vec, k: nat)
    requires |d| == NVAR && k < NVAR
    ensures InviscidSource(fac, cp, u + d[1], v + d[2], t + d[3])[k]
      == InviscidSource(fac, cp, u, v, t)[k] + DotTo(InviscidJacobian(fac, cp, u, v, t)[k], d, NVAR)
         + SecondOrder(fac, cp, d)[k]
  {
    if k == 0 { LinearisationRow0(fac, cp, u, v, t, d); }
    else if k == 1 { LinearisationRow1(fac, cp, u, v, t, d); }
    else if k == 2 { LinearisationRow2(fac, cp, u, v, t, d); }
    else { LinearisationRow3(fac, cp, u, v, t, d); }
  }

  lemma LinearisationRow0(fac: real, cp: real, u: real, v: real, t: real, d: Vec)
    requires |d| == NVAR
    ensures InviscidSource(fac, cp, u + d[1], v + d[2], t + d[3])[0]
      == InviscidSource(fac, cp, u, v, t)[0] + DotTo(InviscidJacobian(fac, cp, u, v, t)[0], d, NVAR)
         + SecondOrder(fac, cp, d)[0]
  {
    Continuity(fac, cp, u + d[1], v + d[2], t + d[3]);
    Continuity(fac, cp, u, v, t);
    ContinuityJacobian(fac, cp, u, v, t, d);
    assert fac * (v + d[2]) == fac * v + fac * d[2];
  }

  lemma Continuity(fac: real, cp: real, u: real, v: real, t: real)
    ensures InviscidSource(fac, cp, u, v, t)[0] == fac * v
  {}

  lemma ContinuityJacobian(fac: real, cp: real, u: real, v: real, t: real, d: Vec)
    requires |d| == NVAR
    ensures DotTo(InviscidJacobian(fac, cp, u, v, t)[0], d, NVAR) == fac * d[2]
  {
    JacobianRow0(fac, cp, u, v, t);
    RowValue(InviscidJacobian(fac, cp, u, v, t)[0], d, 0.0, 0.0, fac, 0.0);
  }

  lemma JacobianRow0(fac: real, cp: real, u: real, v: real, t: real)
    ensures InviscidJacobian(fac, cp, u, v, t)[0] == [0.0, 0.0, fac, 0.0]
  {
    var row := InviscidJacobian(fac, cp, u, v, t)[0];
    assert row[0] == 0.0 * fac && row[1] == 0.0 * fac && row[2] == 1.0 * fac && row[3] == 0.0 * fac;
  }

  lemma LinearisationRow1(fac: real, cp: real, u: real, v: real, t: real, d: Vec)
    requires |d| == NVAR
    ensures InviscidSource(fac, cp, u + d[1], v + d[2], t + d[3])[1]
      == InviscidSource(fac, cp, u, v, t)[1] + DotTo(InviscidJacobian(fac, cp, u, v, t)[1], d, NVAR)
         + SecondOrder(fac, cp, d)[1]
  {
    RowValue(InviscidJacobian(fac, cp, u, v, t)[1], d, 0.0 * fac, v * fac, u * fac, 0.0 * fac);
    Row1Arith(fac, u, v, d[0], d[1], d[2], d[3], 0.0 * fac, v * fac, u * fac, 0.0 * fac);
  }

  lemma LinearisationRow2(fac: real, cp: real, u: real, v: real, t: real, d: Vec)
    requires |d| == NVAR
    ensures InviscidSource(fac, cp, u + d[1], v + d[2], t + d[3])[2]
      == InviscidSource(fac, cp, u, v, t)[2] + DotTo(InviscidJacobian(fac, cp, u, v, t)[2], d, NVAR)
         + SecondOrder(fac, cp, d)[2]
  {
    RowValue(InviscidJacobian(fac, cp, u, v, t)[2], d, 0.0 * fac, 0.0 * fac, (2.0 * v) * fac, 0.0 * fac);
    Row2Arith(fac, v, d[0], d[1], d[2], d[3], 0.0 * fac, 0.0 * fac, (2.0 * v) * fac, 0.0 * fac);
  }

  lemma LinearisationRow3(fac: real, cp: real, u: real, v: real, t: real, d: Vec)
    requires |d| == NVAR
    ensures InviscidSource(fac, cp, u + d[1], v + d[2], t + d[3])[3]
      == InviscidSource(fac, cp, u, v, t)[3] + DotTo(InviscidJacobian(fac, cp, u, v, t)[3], d, NVAR)
         + SecondOrder(fac, cp, d)[3]
  {
    RowValue(InviscidJacobian(fac, cp, u, v, t)[3], d, 0.0 * fac, 0.0 * fac, (cp * t) * fac, (cp * v) * fac);
    Row3Arith(fac, cp, t, v, d[0], d[1], d[2], d[3], 0.0 * fac, 0.0 * fac, (cp * t) * fac, (cp * v) * fac);
  }

  lemma Row1Arith(fac: real, u: real, v: real, d0: real, d1: real, d2: real, d3: real,
                  r0: real, r1: real, r2: real, r3: real)
    requires r0 == 0.0 * fac && r1 == v * fac && r2 == u * fac && r3 == 0.0 * fac
    ensures fac * (u + d1) * (v + d2) == fac * u * v + (r0 * d0 + r1 * d1 + r2 * d2 + r3 * d3) + fac * d1 * d2
  {}

  lemma Row2Arith(fac: real, v: real, d0: real, d1: real, d2: real, d3: real, r0: real, r1: real, r2: real, r3: real)
    requires r0 == 0.0 * fac && r1 == 0.0 * fac && r2 == (2.0 * v) * fac && r3 == 0.0 * fac
    ensures fac * (v + d2) * (v + d2) == fac * v * v + (r0 * d0 + r1 * d1 + r2 * d2 + r3 * d3) + fac * d2 * d2
  {}

  lemma Row3Arith(fac: real, cp: real, t: real, v: real, d0: real, d1: real, d2: real, d3: real,
                  r0: real, r1: real, r2: real, r3: real)
    requires r0 == 0.0 * fac && r1 == 0.0 * fac && r2 == (cp * t) * fac && r3 == (cp * v) * fac
    ensures fac * (cp * (t + d3)) * (v + d2)
         == fac * (cp * t) * v + (r0 * d0 + r1 * d1 + r2 * d2 + r3 * d3) + fac * cp * d3 * d2
  {}

  lemma RowValue(row: Vec, d: Vec, c0: real, c1: real, c2: real, c3: real)
    requires |row| == NVAR && |d| == NVAR
    requires row[0] == c0 && row[1] == c1 && row[2] == c2 && row[3] == c3
    ensures DotTo(row, d, NVAR) == c0 * d[0] + c1 * d[1] + c2 * d[2] + c3 * d[3]
  {
    DotRow(row, d);
  }

  lemma DotRow(a: Vec, b: Vec)
    requires |a| == NVAR && |b| == NVAR
    ensures DotTo(a, b, NVAR) == a[0] * b[0] + a[1] * b[1] + a[2] * b[2] + a[3] * b[3]
  {
    assert DotTo(a, b, 1) == a[0] * b[0];
    assert DotTo(a, b, 2) == DotTo(a, b, 1) + a[1] * b[1];
    assert DotTo(a, b, 3) == DotTo(a, b, 2) + a[2] * b[2];
  }

  /** On or next to the axis (y <= EPS) residual and Jacobian are all zero, whatever the state. */
  lemma AxisGivesZero(f: Flags, viscous: bool, p: Point)
    requires Shaped(p) && !OffAxis(p)
    ensures Residual(f, viscous, p) == Zeros(NVAR)
    ensures Jacobian(f, p) == ZeroMat(NVAR)
  {
    var r := Residual(f, viscous, p);
    assert forall k :: 0 <= k < NVAR ==> r[k] == 0.0;
    var m := Jacobian(f, p);
    MatExt(m, ZeroMat(NVAR), NVAR, NVAR);
  }

  /** Without radial velocity there is no inviscid source. */
  lemma NoRadialVelocityNoInviscidSource(fac: real, cp: real, u: real, t: real)
    ensures InviscidSource(fac, cp, u, 0.0, t) == Zeros(NVAR)
  {
    assert InviscidSource(fac, cp, u, 0.0, t)[1] == 0.0 by { assert fac * u * 0.0 == 0.0; }
    assert InviscidSource(fac, cp, u, 0.0, t)[3] == 0.0 by { assert fac * (cp * t) * 0.0 == 0.0; }
  }

  /** The stress tensor is symmetric. */
  lemma StressSymmetric(g: Mat, mu: real, i: nat, j: nat)
    requires IsMat(g, NVAR, NDIM) && i < NDIM && j < NDIM
    ensures StressTensor(g, mu)[i][j] == StressTensor(g, mu)[j][i]
  {
    assert Delta(i, j) == Delta(j, i);
  }

  // ---------------------------------------------------------------------
  // Loops
  // ---------------------------------------------------------------------

  /** val_residual[0..3] of the inviscid part. */
  method StoreInviscid(p: Point, yinv: real, res: array<real>)
    requires Shaped(p) && OffAxis(p) && yinv == 1.0 / p.coord[1] && res.Length == NVAR
    modifies res
    ensures res[..] == PointInviscid(p)
  {
    var fac := Factor(yinv, p.volume, DensityInc(p.V, NDIM));
    var src := InviscidSource(fac, Cp(p.V, NDIM), p.V[1], p.V[2], Temperature(p.V, NDIM));
    StoreVec(res, src);
  }

  lemma InviscidJacobianDefinition(fac: real, cp: real, u: real, v: real, t: real)
    ensures InviscidJacobian(fac, cp, u, v, t) == Scaled(JacobianPattern(cp, u, v, cp * t), fac, NVAR)
  {}

  /** Jacobian_i *= yinv Volume rho, entry by entry. */
  method ScaleJacobian(J: array2<real>, s: real)
    requires J.Length0 == NVAR && J.Length1 == NVAR
    modifies J
    ensures ToMat(J) == Scaled(old(ToMat(J)), s, NVAR)
  {
    ghost var m := ToMat(J);
    for i := 0 to NVAR
      invariant forall r, c :: 0 <= r < NVAR && 0 <= c < NVAR ==> J[r, c] == if r < i then m[r][c] * s else m[r][c]
    {
      for j := 0 to NVAR
        invariant forall r, c :: 0 <= r < NVAR && 0 <= c < NVAR ==>
          J[r, c] == if r < i || (r == i && c < j) then m[r][c] * s else m[r][c]
      {
        J[i, j] := J[i, j] * s;
      }
    }
    MatExt(ToMat(J), Scaled(m, s, NVAR), NVAR, NVAR);
  }

  /** The sixteen entries, then the scaling. */
  method StoreInviscidJacobian(p: Point, yinv: real, J: array2<real>)
    requires Shaped(p) && OffAxis(p) && yinv == 1.0 / p.coord[1]
    requires J.Length0 == NVAR && J.Length1 == NVAR
    modifies J
    ensures ToMat(J) == InviscidJacobian(PointFactor(p), Cp(p.V, NDIM), p.V[1], p.V[2], Temperature(p.V, NDIM))
  {
    var cp := Cp(p.V, NDIM);
    var u := p.V[1];
    var v := p.V[2];
    var t := Temperature(p.V, NDIM);
    var fac := Factor(yinv, p.volume, DensityInc(p.V, NDIM));
    assert fac == PointFactor(p);
    var m := JacobianPattern(cp, u, v, cp * t);
    StoreMat(J, m, NVAR);
    ScaleJacobian(J, fac);
    assert ToMat(J) == Scaled(m, fac, NVAR);
    InviscidJacobianDefinition(fac, cp, u, v, t);
  }

  /** div_vel accumulated over the dimensions. */
  method ComputeDivergence(g: Mat) returns (div: real)
    requires IsMat(g, NVAR, NDIM)
    ensures div == DivergenceTo(g, NDIM)
  {
    div := 0.0;
    for d := 0 to NDIM
      invariant div == DivergenceTo(g, d)
    {
      div := div + g[d + 1][d];
    }
  }

  /** tau filled entry by entry. */
  method ComputeStress(g: Mat, mu: real) returns (tau: Mat)
    requires IsMat(g, NVAR, NDIM)
    ensures tau == StressTensor(g, mu)
  {
    var div := ComputeDivergence(g);
    var T := new real[NDIM, NDIM];
    for i := 0 to NDIM
      invariant forall r, c :: 0 <= r < i && 0 <= c < NDIM ==> T[r, c] == Stress(g, mu, div, r, c)
    {
      for j := 0 to NDIM
        invariant forall r, c :: 0 <= r < i && 0 <= c < NDIM ==> T[r, c] == Stress(g, mu, div, r, c)
        invariant forall c :: 0 <= c < j ==> T[i, c] == Stress(g, mu, div, i, c)
      {
        T[i, j] := mu * (g[j + 1][i] + g[i + 1][j]) - TWO3 * mu * div * Delta(i, j);
      }
    }
    tau := ToMat(T);
    MatExt(tau, StressTensor(g, mu), NDIM, NDIM);
  }

  /** val_residual[k] -= the viscous terms. */
  method SubtractViscous(p: Point, yinv: real, res: array<real>)
    requires Shaped(p) && res.Length == NVAR
    modifies res
    ensures res[..] == Sub(old(res[..]), ViscousTerms(p, yinv))
  {
    var mu := TotalViscosity(p);
    var tau := ComputeStress(p.primGrad, mu);
    var w := ViscousTermsWith(p, yinv, tau);
    ghost var r0 := res[..];
    res[0] := res[0] - w[0];
    res[1] := res[1] - w[1];
    res[2] := res[2] - w[2];
    res[3] := res[3] - w[3];
    assert res[..] == Sub(r0, ViscousTerms(p, yinv));
  }

  /** Everything before the energy block: the off-axis terms, or zeros on the axis. */
  method ComputeRaw(implicit: bool, viscous: bool, p: Point, res: array<real>, J: array2<real>)
    requires Shaped(p) && res.Length == NVAR && J.Length0 == NVAR && J.Length1 == NVAR
    modifies res, J
    ensures res[..] == RawResidual(p, viscous)
    ensures implicit ==> ToMat(J) == RawJacobian(p)
    ensures !implicit ==> ToMat(J) == old(ToMat(J))
  {
    if p.coord[1] > EPS {
      var yinv := 1.0 / p.coord[1];
      StoreInviscid(p, yinv, res);
      if implicit {
        StoreInviscidJacobian(p, yinv, J);
      }
      if viscous {
        SubtractViscous(p, yinv, res);
      }
    } else {
      for k := 0 to NVAR
        modifies res
        invariant forall l :: 0 <= l < k ==> res[l] == 0.0
      {
        res[k] := 0.0;
      }
      assert res[..] == Zeros(NVAR);
      if implicit {
        StoreMat(J, ZeroMat(NVAR), NVAR);
      }
    }
  }

  method ComputeResidual(f: Flags, viscous: bool, p: Point, res: array<real>, J: array2<real>)
    requires Shaped(p) && res.Length == NVAR && J.Length0 == NVAR && J.Length1 == NVAR
    modifies res, J
    ensures res[..] == Residual(f, viscous, p)
    ensures f.implicit ==> ToMat(J) == Jacobian(f, p)
    ensures !f.implicit ==> ToMat(J) == old(ToMat(J))
  {
    ComputeRaw(f.implicit, viscous, p, res, J);
    if !f.energy {
      RemoveEnergyOne(res, J, NDIM, f.implicit);
    }
  }
}
