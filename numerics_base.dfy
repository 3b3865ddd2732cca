/**
 * Shared vocabulary of the incompressible edge operators: the primitive
 * vector layout, finite sums written as the source's accumulation loops,
 * dense matrices, the arrays the operators fill, and the helper routines
 * whose formulas are not part of this model (square root, power and the
 * flux, preconditioner and Jacobian helpers of the numerics base class).
 */
module IncNumericsBase {

  /** Threshold used by the operators to recognise a vanishing quantity (SU2's EPS = 1e-16). */
  const EPS: real := 0.0000000000000001

  type Vec = seq<real>
  type Mat = seq<seq<real>>

  // ---------------------------------------------------------------------
  // Operator configuration
  // ---------------------------------------------------------------------

  /** The configuration switches every incompressible operator reads in its constructor. */
  datatype Flags = Flags(implicit: bool, variableDensity: bool, energy: bool)

  // ---------------------------------------------------------------------
  // Helpers whose formulas live outside this model
  // ---------------------------------------------------------------------

  /**
   * The routines the operators call but whose bodies are not modelled.
   * Each is a total function of exactly the arguments the operators pass.
   */
  datatype Oracle = Oracle(
    sqrt: real -> real,
    pow: (real, real) -> real,
    /** GetInviscidIncProjFlux(density, velocity, pressure, beta2, enthalpy, normal) */
    invFlux: (real, Vec, real, real, real, Vec) -> Vec,
    /** GetPreconditioner(density, velocity, beta2, cp, temperature, dRhodT) */
    precon: (real, Vec, real, real, real, real) -> Mat,
    /** GetPreconditionedProjJac(density, lambda, beta2, unitNormal) */
    preconProjJac: (real, Vec, real, Vec) -> Mat,
    /** GetInviscidIncProjJac(density, velocity, beta2, cp, temperature, dRhodT, normal, scale) */
    invJac: (real, Vec, real, real, real, real, Vec, real) -> Mat,
    /** GetViscousIncProjFlux(meanPrimVar, meanGradPrimVar, normal, mu, muTurb, turbKe, conductivity) */
    viscFlux: (Vec, Mat, Vec, real, real, real, real) -> Vec,
    /** GetViscousIncProjJacs(mu, muTurb, dist, unitNormal, area): its Jacobian_i output */
    viscJacI: (real, real, real, Vec, real) -> Mat,
    /** GetViscousIncProjJacs(mu, muTurb, dist, unitNormal, area): its Jacobian_j output */
    viscJacJ: (real, real, real, Vec, real) -> Mat
  )

  predicate IsMat(m: Mat, rows: nat, cols: nat) {
    |m| == rows && forall r :: 0 <= r < rows ==> |m[r]| == cols
  }

  /**
   * The only facts assumed of the helpers: a square root is non-negative,
   * zero at zero and positive at every positive argument, and each helper returns a vector of nVar = nDim+2
   * entries or an nVar-by-nVar matrix, nDim being the length of the normal
   * (or of the velocity) it is given.
   */
  ghost predicate Sound(o: Oracle) {
    (forall x :: o.sqrt(x) >= 0.0)
    && o.sqrt(0.0) == 0.0
    && (forall x :: x > 0.0 ==> o.sqrt(x) > 0.0)
    && (forall d, v, p, b, h, n :: |o.invFlux(d, v, p, b, h, n)| == |n| + 2)
    && (forall d, v, b, cp, t, r :: IsMat(o.precon(d, v, b, cp, t, r), |v| + 2, |v| + 2))
    && (forall d, l, b, n :: IsMat(o.preconProjJac(d, l, b, n), |n| + 2, |n| + 2))
    && (forall d, v, b, cp, t, r, n, s :: IsMat(o.invJac(d, v, b, cp, t, r, n, s), |n| + 2, |n| + 2))
    && (forall pv, g, n, mu, mut, ke, k :: |o.viscFlux(pv, g, n, mu, mut, ke, k)| == |n| + 2)
    && (forall mu, mut, d, un, a :: IsMat(o.viscJacI(mu, mut, d, un, a), |un| + 2, |un| + 2))
    && (forall mu, mut, d, un, a :: IsMat(o.viscJacJ(mu, mut, d, un, a), |un| + 2, |un| + 2))
  }

  // ---------------------------------------------------------------------
  // Primitive vector V = (P, v_1..v_nDim, T, rho, beta^2, mu, mu_t, k, cp, ...)
  // of nDim+9 entries
  // ---------------------------------------------------------------------

  predicate IsPrim(V: Vec, nDim: nat) { |V| == nDim + 9 }

  function Pressure(V: Vec): real requires |V| > 0 { V[0] }
  function Velocity(V: Vec, nDim: nat): (v: Vec)
    requires IsPrim(V, nDim)
    ensures |v| == nDim && forall d :: 0 <= d < nDim ==> v[d] == V[d + 1]
  { V[1..nDim + 1] }
  function Temperature(V: Vec, nDim: nat): real requires IsPrim(V, nDim) { V[nDim + 1] }
  function DensityInc(V: Vec, nDim: nat): real requires IsPrim(V, nDim) { V[nDim + 2] }
  function BetaInc2(V: Vec, nDim: nat): real requires IsPrim(V, nDim) { V[nDim + 3] }
  function LaminarViscosity(V: Vec, nDim: nat): real requires IsPrim(V, nDim) { V[nDim + 4] }
  function EddyViscosity(V: Vec, nDim: nat): real requires IsPrim(V, nDim) { V[nDim + 5] }
  function ThermalConductivity(V: Vec, nDim: nat): real requires IsPrim(V, nDim) { V[nDim + 6] }
  function Cp(V: Vec, nDim: nat): real requires IsPrim(V, nDim) { V[nDim + 7] }
  function Enthalpy(V: Vec, nDim: nat): real requires IsPrim(V, nDim) { Cp(V, nDim) * Temperature(V, nDim) }

  function Mean(a: real, b: real): real { 0.5 * (a + b) }

  function MeanVec(a: Vec, b: Vec): (m: Vec)
    requires |a| == |b|
    ensures |m| == |a| && forall k :: 0 <= k < |a| ==> m[k] == Mean(a[k], b[k])
  { seq(|a|, k requires 0 <= k < |a| => Mean(a[k], b[k])) }

  /** Area of the face: the norm of its (non-unit) normal. */
  function FaceArea(o: Oracle, normal: Vec): real { o.sqrt(SumSq(normal)) }

  /** d(rho)/dT of the mean state: -rho/T for a variable-density gas, 0 otherwise. */
  function MeanDRhoDT(f: Flags, Vi: Vec, Vj: Vec, nDim: nat): real
    requires IsPrim(Vi, nDim) && IsPrim(Vj, nDim)
    requires f.variableDensity ==> Mean(Temperature(Vi, nDim), Temperature(Vj, nDim)) != 0.0
  {
    if f.variableDensity
    then -Mean(DensityInc(Vi, nDim), DensityInc(Vj, nDim)) / Mean(Temperature(Vi, nDim), Temperature(Vj, nDim))
    else 0.0
  }

  /** sqrt(beta^2 * Area * Area), the artificial sound speed of the preconditioned system. */
  function SoundSpeed(o: Oracle, beta2: real, area: real): real { o.sqrt(beta2 * area * area) }

  function Abs(x: real): real { if x < 0.0 then -x else x }

  function Max(a: real, b: real): real { if a < b then b else a }

  /** a - b entry by entry over the first n entries (Diff_V = V_i - V_j, Diff_Lapl). */
  function Jump(a: Vec, b: Vec, n: nat): (d: Vec)
    requires n <= |a| && n <= |b|
    ensures |d| == n && forall k :: 0 <= k < n ==> d[k] == a[k] - b[k]
  { seq(n, k requires 0 <= k < n => a[k] - b[k]) }

  // ---------------------------------------------------------------------
  // Finite sums, accumulated from index 0 upwards as the loops do
  // ---------------------------------------------------------------------

  /** a[0]*b[0] + ... + a[k-1]*b[k-1] */
  function DotTo(a: Vec, b: Vec, k: nat): real
    requires k <= |a| && k <= |b|
  {
    if k == 0 then 0.0 else DotTo(a, b, k - 1) + a[k - 1] * b[k - 1]
  }

  function Dot(a: Vec, b: Vec): real requires |a| == |b| { DotTo(a, b, |a|) }

  function Sq(x: real): real { x * x }

  /** a[0]^2 + ... + a[k-1]^2 */
  function SumSqTo(a: Vec, k: nat): real
    requires k <= |a|
  {
    if k == 0 then 0.0 else SumSqTo(a, k - 1) + Sq(a[k - 1])
  }

  function SumSq(a: Vec): real { SumSqTo(a, |a|) }

  lemma SquareNonNeg(x: real)
    ensures Sq(x) >= 0.0 && (x != 0.0 ==> Sq(x) > 0.0)
  {
    if x > 0.0 {
      MulPositive(x, x);
      calc { Sq(x); == x * x; > 0.0; }
    } else if x < 0.0 {
      MulPositive(-x, -x);
      calc { Sq(x); == (-x) * (-x); > 0.0; }
    }
  }

  lemma MulPositive(a: real, b: real)
    requires a > 0.0 && b > 0.0
    ensures a * b > 0.0
  {}

  /** A sum of squares is non-negative, and zero exactly when every term is. */
  lemma {:induction false} SumSqToNonNeg(a: Vec, k: nat)
    requires k <= |a|
    ensures SumSqTo(a, k) >= 0.0
    ensures SumSqTo(a, k) == 0.0 <==> forall l :: 0 <= l < k ==> a[l] == 0.0
  {
    if k > 0 {
      SumSqToNonNeg(a, k - 1);
      SquareNonNeg(a[k - 1]);
      if a[k - 1] == 0.0 {
        assert (forall l :: 0 <= l < k ==> a[l] == 0.0) <==> (forall l :: 0 <= l < k - 1 ==> a[l] == 0.0);
      } else {
        assert !(forall l :: 0 <= l < k ==> a[l] == 0.0) by { assert a[k - 1] != 0.0; }
      }
    }
  }

  lemma {:induction false} DotToZeroRight(a: Vec, b: Vec, k: nat)
    requires k <= |a| && k <= |b|
    requires forall l :: 0 <= l < k ==> b[l] == 0.0
    ensures DotTo(a, b, k) == 0.0
  {
    if k > 0 { DotToZeroRight(a, b, k - 1); }
  }

  lemma {:induction false} DotToScaleRight(a: Vec, b: Vec, c: Vec, s: real, k: nat)
    requires k <= |a| && k <= |b| && k <= |c|
    requires forall l :: 0 <= l < k ==> c[l] == s * b[l]
    ensures DotTo(a, c, k) == s * DotTo(a, b, k)
  {
    if k > 0 {
      DotToScaleRight(a, b, c, s, k - 1);
      assert a[k - 1] * c[k - 1] == s * (a[k - 1] * b[k - 1]);
    }
  }

  lemma {:induction false} DotToSubRight(a: Vec, b: Vec, c: Vec, d: Vec, k: nat)
    requires k <= |a| && k <= |b| && k <= |c| && k <= |d|
    requires forall l :: 0 <= l < k ==> d[l] == b[l] - c[l]
    ensures DotTo(a, d, k) == DotTo(a, b, k) - DotTo(a, c, k)
  {
    if k > 0 { DotToSubRight(a, b, c, d, k - 1); }
  }

  // ---------------------------------------------------------------------
  // Dense matrices and the arrays the operators fill
  // ---------------------------------------------------------------------

  /** Column j of m as a vector. */
  function Column(m: Mat, j: nat, rows: nat): (c: Vec)
    requires |m| >= rows && forall r :: 0 <= r < rows ==> j < |m[r]|
    ensures |c| == rows && forall r :: 0 <= r < rows ==> c[r] == m[r][j]
  { seq(rows, r requires 0 <= r < rows => m[r][j]) }

  /** The matrix product p * a of two n-by-n matrices. */
  function MatMul(p: Mat, a: Mat, n: nat): (m: Mat)
    requires IsMat(p, n, n) && IsMat(a, n, n)
    ensures IsMat(m, n, n)
    ensures forall i, j :: 0 <= i < n && 0 <= j < n ==> m[i][j] == DotTo(p[i], Column(a, j, n), n)
  {
    seq(n, i requires 0 <= i < n => seq(n, j requires 0 <= j < n => DotTo(p[i], Column(a, j, n), n)))
  }

  /** The n-by-n matrix a + s*m. */
  function AddScaled(a: Mat, m: Mat, s: real, n: nat): (r: Mat)
    requires IsMat(a, n, n) && IsMat(m, n, n)
    ensures IsMat(r, n, n)
    ensures forall i, j :: 0 <= i < n && 0 <= j < n ==> r[i][j] == a[i][j] + s * m[i][j]
  {
    seq(n, i requires 0 <= i < n => seq(n, j requires 0 <= j < n => a[i][j] + s * m[i][j]))
  }

  function Zeros(n: nat): (v: Vec)
    ensures |v| == n && forall k :: 0 <= k < n ==> v[k] == 0.0
  { seq(n, k => 0.0) }

  function ZeroMat(n: nat): (m: Mat)
    ensures IsMat(m, n, n) && forall i, j :: 0 <= i < n && 0 <= j < n ==> m[i][j] == 0.0
  { seq(n, i => Zeros(n)) }

  /** The contents of a two-dimensional array, row by row. */
  function ToMat(J: array2<real>): (m: Mat)
    reads J
    ensures IsMat(m, J.Length0, J.Length1)
    ensures forall r, c :: 0 <= r < J.Length0 && 0 <= c < J.Length1 ==> m[r][c] == J[r, c]
  {
    seq(J.Length0, r requires 0 <= r < J.Length0 reads J =>
      seq(J.Length1, c requires 0 <= c < J.Length1 reads J => J[r, c]))
  }

  /** Two matrices of the same shape are equal when they agree entry by entry. */
  lemma MatExt(a: Mat, b: Mat, rows: nat, cols: nat)
    requires IsMat(a, rows, cols) && IsMat(b, rows, cols)
    requires forall r, c :: 0 <= r < rows && 0 <= c < cols ==> a[r][c] == b[r][c]
    ensures a == b
  {
    forall r | 0 <= r < rows ensures a[r] == b[r] {
      assert |a[r]| == cols == |b[r]|;
    }
  }

  /** m with entry (r, c) replaced by x. */
  function SetEntry(m: Mat, r: nat, c: nat, x: real): (s: Mat)
    requires r < |m| && c < |m[r]|
    ensures |s| == |m| && forall i :: 0 <= i < |m| ==> |s[i]| == |m[i]|
    ensures s[r][c] == x
    ensures forall i, j :: 0 <= i < |m| && 0 <= j < |m[i]| && (i, j) != (r, c) ==> s[i][j] == m[i][j]
  { m[r := m[r][c := x]] }

  // ---------------------------------------------------------------------
  // Removal of the energy equation
  // ---------------------------------------------------------------------

  /** The residual with entry e set to zero. */
  function ZeroEntry(v: Vec, e: nat): (r: Vec)
    requires e < |v|
    ensures |r| == |v| && r[e] == 0.0 && forall k :: 0 <= k < |v| && k != e ==> r[k] == v[k]
  { v[e := 0.0] }

  /** The matrix with row e and column e set to zero. */
  function ZeroRowCol(m: Mat, e: nat, n: nat): (r: Mat)
    requires IsMat(m, n, n) && e < n
    ensures IsMat(r, n, n)
    ensures forall i, j :: 0 <= i < n && 0 <= j < n ==>
      r[i][j] == (if i == e || j == e then 0.0 else m[i][j])
  {
    seq(n, i requires 0 <= i < n => seq(n, j requires 0 <= j < n => if i == e || j == e then 0.0 else m[i][j]))
  }

  /** The residual as emitted: entry nDim+1 cleared when the energy equation is off. */
  function EnergyResidual(f: Flags, nDim: nat, raw: Vec): (r: Vec)
    requires |raw| == nDim + 2
    ensures |r| == nDim + 2
  { if f.energy then raw else ZeroEntry(raw, nDim + 1) }

  /** A Jacobian as emitted: row and column nDim+1 cleared when the energy equation is off. */
  function EnergyJacobian(f: Flags, nDim: nat, m: Mat): (r: Mat)
    requires IsMat(m, nDim + 2, nDim + 2)
    ensures IsMat(r, nDim + 2, nDim + 2)
  { if f.energy then m else ZeroRowCol(m, nDim + 1, nDim + 2) }

  /**
   * The block every operator ends with: without the energy equation the
   * residual entry nDim+1 and, when implicit, row and column nDim+1 of each
   * Jacobian are cleared.
   */
  method RemoveEnergy(res: array<real>, Ji: array2<real>, Jj: array2<real>, nDim: nat, implicit: bool)
    requires res.Length == nDim + 2
    requires Ji.Length0 == nDim + 2 && Ji.Length1 == nDim + 2
    requires Jj.Length0 == nDim + 2 && Jj.Length1 == nDim + 2
    requires Ji != Jj
    modifies res, Ji, Jj
    ensures res[..] == ZeroEntry(old(res[..]), nDim + 1)
    ensures implicit ==> ToMat(Ji) == ZeroRowCol(old(ToMat(Ji)), nDim + 1, nDim + 2)
    ensures implicit ==> ToMat(Jj) == ZeroRowCol(old(ToMat(Jj)), nDim + 1, nDim + 2)
    ensures !implicit ==> ToMat(Ji) == old(ToMat(Ji)) && ToMat(Jj) == old(ToMat(Jj))
  {
    var n := nDim + 2;
    res[nDim + 1] := 0.0;
    if implicit {
      var iVar := 0;
      while iVar < n
        invariant 0 <= iVar <= n
        invariant res[..] == ZeroEntry(old(res[..]), nDim + 1)
        invariant forall r, c :: 0 <= r < n && 0 <= c < n ==>
          Ji[r, c] == (if (c == nDim + 1 && r < iVar) || (r == nDim + 1 && c < iVar) then 0.0 else old(Ji[r, c]))
        invariant forall r, c :: 0 <= r < n && 0 <= c < n ==>
          Jj[r, c] == (if (c == nDim + 1 && r < iVar) || (r == nDim + 1 && c < iVar) then 0.0 else old(Jj[r, c]))
      {
        Ji[iVar, nDim + 1] := 0.0;
        Jj[iVar, nDim + 1] := 0.0;
        Ji[nDim + 1, iVar] := 0.0;
        Jj[nDim + 1, iVar] := 0.0;
        iVar := iVar + 1;
      }
      MatExt(ToMat(Ji), ZeroRowCol(old(ToMat(Ji)), nDim + 1, n), n, n);
      MatExt(ToMat(Jj), ZeroRowCol(old(ToMat(Jj)), nDim + 1, n), n, n);
    }
  }

  /** Single-Jacobian form of the same block, for the point sources. */
  method RemoveEnergyOne(res: array<real>, J: array2<real>, nDim: nat, implicit: bool)
    requires res.Length == nDim + 2
    requires J.Length0 == nDim + 2 && J.Length1 == nDim + 2
    modifies res, J
    ensures res[..] == ZeroEntry(old(res[..]), nDim + 1)
    ensures implicit ==> ToMat(J) == ZeroRowCol(old(ToMat(J)), nDim + 1, nDim + 2)
    ensures !implicit ==> ToMat(J) == old(ToMat(J))
  {
    var n := nDim + 2;
    res[nDim + 1] := 0.0;
    if implicit {
      var iVar := 0;
      while iVar < n
        invariant 0 <= iVar <= n
        invariant res[..] == ZeroEntry(old(res[..]), nDim + 1)
        invariant forall r, c :: 0 <= r < n && 0 <= c < n ==>
          J[r, c] == (if (c == nDim + 1 && r < iVar) || (r == nDim + 1 && c < iVar) then 0.0 else old(J[r, c]))
      {
        J[iVar, nDim + 1] := 0.0;
        J[nDim + 1, iVar] := 0.0;
        iVar := iVar + 1;
      }
      MatExt(ToMat(J), ZeroRowCol(old(ToMat(J)), nDim + 1, n), n, n);
    }
  }

  /** Area = sqrt(sum of Normal[d]^2), accumulated over the dimensions. */
  method ComputeFaceArea(o: Oracle, normal: Vec) returns (area: real)
    requires Sound(o)
    ensures area == FaceArea(o, normal) && area >= 0.0
  {
    var sum := 0.0;
    for d := 0 to |normal|
      invariant sum == SumSqTo(normal, d)
    {
      sum := sum + normal[d] * normal[d];
    }
    area := o.sqrt(sum);
  }

  /** Writes a helper's n-by-n result into a Jacobian array. */
  method StoreMat(J: array2<real>, m: Mat, n: nat)
    requires J.Length0 == n && J.Length1 == n && IsMat(m, n, n)
    modifies J
    ensures ToMat(J) == m
  {
    var i := 0;
    while i < n
      invariant 0 <= i <= n
      invariant forall r, c :: 0 <= r < i && 0 <= c < n ==> J[r, c] == m[r][c]
    {
      var j := 0;
      while j < n
        invariant 0 <= j <= n
        invariant forall r, c :: 0 <= r < i && 0 <= c < n ==> J[r, c] == m[r][c]
        invariant forall c :: 0 <= c < j ==> J[i, c] == m[i][c]
      {
        J[i, j] := m[i][j];
        j := j + 1;
      }
      i := i + 1;
    }
    MatExt(ToMat(J), m, n, n);
  }

  /** Writes a helper's vector result into a residual array. */
  method StoreVec(res: array<real>, v: Vec)
    requires res.Length == |v|
    modifies res
    ensures res[..] == v
  {
    var i := 0;
    while i < |v|
      invariant 0 <= i <= |v|
      invariant forall k :: 0 <= k < i ==> res[k] == v[k]
    {
      res[i] := v[i];
      i := i + 1;
    }
  }
}
