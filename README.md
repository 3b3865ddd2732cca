# Incompressible edge operators and heat-solver residual assembly, in Dafny

This project models the core of SU2's incompressible flow and heat-transfer
machinery and proves properties of the model:

- the incompressible edge operators: the flux-difference-splitting upwind
  scheme, the JST and Lax-Friedrichs centred schemes, the average-gradient
  viscous fluxes (plain and corrected), and the point sources (body force,
  Boussinesq buoyancy, axisymmetric terms);
- the incompressible fluid models: constant density and the incompressible
  ideal gas;
- the finite-volume heat solver `CHeatSolverFVM`: the residual passes over
  edges, the boundary conditions, the heat-flux monitors, the local time
  step, the explicit and implicit Euler updates, dual time stepping,
  restriction and the time-level push-back. The finite-element heat solver
  `CHeatSolver` is modelled too: its source term, dual-time mass matrix and
  isothermal wall;
- the Inria mesh and solution output: file names, the solution-field
  layout, and the packing of boundary elements;
- the discrete adjoint solver's bookkeeping: the global-to-local point map,
  reading the adjoint restart, the surface sensitivity with the sharp-edge
  rule, and the residual norms;
- the Python driver of anisotropic mesh adaptation: the mesh and solution
  conversions in `interface.py`, and the option parsing and adaptation
  schedule in `mesh_adaptation_amg.py`.

Real arithmetic is modelled with Dafny's `real`. The helper routines these
files call but do not define (square root, power, the projected flux, the
preconditioner, the projected Jacobians, the viscous flux routines) are
fields of an `Oracle` datatype of total functions. The only thing assumed
about them is the predicate `Sound(o)`, which asserts three facts about the
square root and one about shape: the square root is non-negative, it is zero
at zero, and it is positive for positive arguments. Every routine returns a
result of the right shape. So each proof holds
for any implementation of those helpers.

Code that changes state step by step keeps that form. A residual is an
`array<real>`, a Jacobian block an `array2<real>`, and the heat solver is a
class (`HeatFVM.HeatSolverFVM`) whose fields the methods update. Each method
is proved against a specification function of the inputs or the old state.
The properties the source relies on are proved as lemmas about those
functions: conservation of the edge passes, the round trips of the
conversions, the bounds of the time step, and the fixed points of the
updates.

Files:

| file | module(s) | source |
|---|---|---|
| `fluid_model_inc.dfy` | `IncFluidModel` | `SU2_CFD/src/fluid_model_inc.cpp` |
| `numerics_base.dfy` | `IncNumericsBase` | shared state and the energy block of `SU2_CFD/src/numerics_direct_mean_inc.cpp` |
| `numerics_upwind.dfy` | `IncUpwindFDS` | `CUpwFDSInc_Flow` |
| `numerics_centred.dfy` | `IncCentredCommon`, `IncCentJST`, `IncCentLax` | `CCentJSTInc_Flow`, `CCentLaxInc_Flow` |
| `numerics_viscous.dfy` | `IncViscousCommon`, `IncAvgGrad`, `IncAvgGradCorrected` | `CAvgGradInc_Flow`, `CAvgGradCorrectedInc_Flow` |
| `numerics_sources.dfy` | `IncBodyForce`, `IncBoussinesq`, `IncAxisymmetric` | the three point sources |
| `heat_mesh.dfy`, `heat_state.dfy`, `heat_linsys.dfy` | `HeatMesh`, `HeatState`, `HeatLinearSystem` | the geometry, node state and block linear system the heat solver uses |
| `heat_fvm.dfy` | `HeatFVM` | `CHeatSolverFVM` in `SU2_CFD/src/solver_direct_heat.cpp` |
| `heat_boundary.dfy` | `HeatBoundary` | the boundary conditions and monitors of `CHeatSolverFVM` |
| `heat_time.dfy` | `HeatTimeIntegration` | time step, Euler updates, dual time, restriction |
| `heat_fem.dfy` | `HeatFEM` | `CHeatSolver` (finite elements) |
| `output_inria.dfy` | `InriaOutput` | `SU2_CFD/src/output_inria.cpp` |
| `adjoint_discrete.dfy` | `AdjointDiscrete` | `SU2_CFD/src/solver_adjoint_discrete.cpp` |
| `amg_interface.dfy` | `AmgInterface` | `SU2_PY/SU2/amginria/interface.py` |
| `mesh_adaptation.dfy` | `MeshAdaptation` | `SU2_PY/mesh_adaptation_amg.py` |

## Model

| member | source | states |
|---|---|---|
| IncFluidModel.IdealGasDensity | SU2_CFD/src/fluid_model_inc.cpp:98 | the density times T times R gives back the operating pressure: the ideal-gas law holds for the value computed |
| IncFluidModel.IdealGasAt | SU2_CFD/src/fluid_model_inc.cpp:93-100 | setting T changes exactly the temperature (to T) and the density (to the one satisfying the ideal-gas law); every other field is kept |
| IncFluidModel.IdealGasIdempotent | SU2_CFD/src/fluid_model_inc.cpp:93-100 | setting the same temperature twice leaves the same state as setting it once |
| IncFluidModel.IdealGasForgetsHistory | SU2_CFD/src/fluid_model_inc.cpp:93-100 | two states with the same parameters reach the same state for the same T, whatever temperature and density they held before |
| IncFluidModel.WarmerIsLighter | SU2_CFD/src/fluid_model_inc.cpp:98 | at positive operating pressure and gas constant the density strictly decreases as the temperature rises |
| IncFluidModel.ConstantDensity.Default | SU2_CFD/src/fluid_model_inc.cpp:40-44 | the default constant-density model stores zero density, Cp and Cv |
| IncFluidModel.ConstantDensity.constructor | SU2_CFD/src/fluid_model_inc.cpp:46-51 | the density and Cp are stored, and Cv equals Cp (gamma = 1) |
| IncFluidModel.ConstantDensity.SetTDStateT | SU2_CFD/src/fluid_model_inc.cpp:55-65 | only the temperature changes; the density, Cp and Cv are unchanged |
| IncFluidModel.IncIdealGas.Default | SU2_CFD/src/fluid_model_inc.cpp:67-73 | the default ideal-gas model stores zero pressure, gamma, gas constant, Cp and Cv |
| IncFluidModel.IncIdealGas.constructor | SU2_CFD/src/fluid_model_inc.cpp:75-89 | the gas constant and the operating pressure are stored, gamma is 1 and Cv equals Cp |
| IncFluidModel.IncIdealGas.SetTDStateT | SU2_CFD/src/fluid_model_inc.cpp:93-100 | the new state is IdealGasAt of the old one, so the ideal-gas law holds afterwards |
| IncNumericsBase.Velocity | SU2_CFD/src/numerics_direct_mean_inc.cpp:116-117 | the velocity is entries 1..nDim of the primitive vector |
| IncNumericsBase.MeanVec | SU2_CFD/src/numerics_direct_mean_inc.cpp:118 | each entry is the mean of the two states' entries |
| IncNumericsBase.Jump | SU2_CFD/src/numerics_direct_mean_inc.cpp:187-190 | each entry is the difference of the two states' entries |
| IncNumericsBase.SumSqToNonNeg | SU2_CFD/src/numerics_direct_mean_inc.cpp:93-96 | the sum of squared normal components is non-negative, and zero exactly when every component is zero |
| IncNumericsBase.MatMul | SU2_CFD/src/numerics_direct_mean_inc.cpp:205-207 | entry (i, j) is the dot product of row i of the first matrix with column j of the second |
| IncNumericsBase.AddScaled | SU2_CFD/src/numerics_direct_mean_inc.cpp:209-212 | each entry is the old entry plus the scale times the added matrix's entry |
| IncNumericsBase.ToMat | SU2_CFD/src/numerics_direct_mean_inc.cpp:86 | the matrix read off a Jacobian array has the array's shape and entries |
| IncNumericsBase.ZeroEntry | SU2_CFD/src/numerics_direct_mean_inc.cpp:217 | the residual with the energy entry cleared and every other entry kept |
| IncNumericsBase.ZeroRowCol | SU2_CFD/src/numerics_direct_mean_inc.cpp:218-226 | the Jacobian with row and column nDim+1 cleared and every other entry kept |
| IncNumericsBase.RemoveEnergy | SU2_CFD/src/numerics_direct_mean_inc.cpp:216-227 | without the energy equation the residual's entry nDim+1 is cleared and, when implicit, row and column nDim+1 of both Jacobians; nothing else changes |
| IncNumericsBase.RemoveEnergyOne | SU2_CFD/src/numerics_direct_mean_inc.cpp:1051-1059 | the same clearing for an operator with a single Jacobian |
| IncNumericsBase.ComputeFaceArea | SU2_CFD/src/numerics_direct_mean_inc.cpp:93-96 | the area is the square root of the accumulated sum of squares and is non-negative |
| IncUpwindFDS.AbsVec | SU2_CFD/src/numerics_direct_mean_inc.cpp:172-173 | each eigenvalue is replaced by its absolute value |
| IncUpwindFDS.HalfDissZeroJump | SU2_CFD/src/numerics_direct_mean_inc.cpp:208 | a zero jump contributes no dissipation to a residual row |
| IncUpwindFDS.IdenticalStatesGiveOneSidedFlux | SU2_CFD/src/numerics_direct_mean_inc.cpp:202-214 | with the same state on both sides the residual is exactly the one-sided projected flux, with the energy entry cleared when the energy equation is off |
| IncUpwindFDS.DissipationEqualAndOpposite | SU2_CFD/src/numerics_direct_mean_inc.cpp:209-227 | with or without the energy equation, the dissipation added to Jacobian_i is exactly the one taken from Jacobian_j, each measured against its side's point Jacobian with row and column nDim+1 cleared when the energy equation is off |
| IncUpwindFDS.ComputeUnitNormal | SU2_CFD/src/numerics_direct_mean_inc.cpp:100-103 | every unit-normal component has magnitude at least EPS; one that is already that large is Normal/Area, any other becomes +EPS whatever its sign |
| IncUpwindFDS.ComputeEigenvalues | SU2_CFD/src/numerics_direct_mean_inc.cpp:156-173 | all eigenvalues are non-negative; the first nDim are the absolute projected velocity and the last two are the absolute projected velocity minus and plus the sound speed |
| IncUpwindFDS.ComputeMeanVelocity | SU2_CFD/src/numerics_direct_mean_inc.cpp:114-120 | the mean velocity is the entrywise mean of the two velocities, and the projected velocity is its dot product with the normal |
| IncUpwindFDS.ComputeDiffV | SU2_CFD/src/numerics_direct_mean_inc.cpp:187-190 | the jump is j minus i in pressure, in each velocity component and in temperature |
| IncUpwindFDS.ModJacEntry | SU2_CFD/src/numerics_direct_mean_inc.cpp:205-207 | the accumulated entry equals entry (i, j) of Precon times invPrecon_A |
| IncUpwindFDS.AddHalfEntry | SU2_CFD/src/numerics_direct_mean_inc.cpp:209-212 | Jacobian_i gains half the entry and Jacobian_j loses it at (i, j); every other entry is unchanged |
| IncUpwindFDS.AccumulateRow | SU2_CFD/src/numerics_direct_mean_inc.cpp:202-214 | row i of the residual becomes the mean flux minus half the dissipation; when implicit, row i of the Jacobians gains and loses half the dissipation matrix; other rows are unchanged |
| IncUpwindFDS.AccumulateDissipation | SU2_CFD/src/numerics_direct_mean_inc.cpp:202-214 | the residual is the mean flux minus half the dissipation applied to the jump; when implicit Jacobian_i gains and Jacobian_j loses half the dissipation matrix, and otherwise they are unchanged |
| IncUpwindFDS.ComputeResidual | SU2_CFD/src/numerics_direct_mean_inc.cpp:86-231 | the residual and Jacobians written are those of the upwind specification (mean flux, dissipation, energy removal) for every input |
| IncCentredCommon.ShiftJacobian | SU2_CFD/src/numerics_direct_mean_inc.cpp:376-379 | each Jacobian entry is the old entry plus the sign times Precon times the coefficient, the stretching factor and the mean spectral radius |
| IncCentredCommon.DissZeroWeights | SU2_CFD/src/numerics_direct_mean_inc.cpp:373-375 | a zero weight vector adds no dissipation to a residual row |
| IncCentredCommon.AddZeroDissipation | SU2_CFD/src/numerics_direct_mean_inc.cpp:373-375 | adding zero-weight dissipation leaves the residual unchanged |
| IncCentredCommon.NeighborScalePositive | SU2_CFD/src/numerics_direct_mean_inc.cpp:365 | the neighbour scaling 3(N_i+N_j)/(N_i N_j) is positive when both points have neighbours |
| IncCentredCommon.CentredKinematics | SU2_CFD/src/numerics_direct_mean_inc.cpp:287-299 | the loop yields the mean velocity, each point's velocity projected on the normal, and the face area |
| IncCentredCommon.ComputeJumps | SU2_CFD/src/numerics_direct_mean_inc.cpp:340-343 | Diff_V is V_i minus V_j and Diff_Lapl is Laplacian_i minus Laplacian_j over the nVar entries |
| IncCentredCommon.ComputeJump | SU2_CFD/src/numerics_direct_mean_inc.cpp:506-507 | Diff_V is V_i minus V_j over the nVar entries |
| IncCentredCommon.CopyJacobian | SU2_CFD/src/numerics_direct_mean_inc.cpp:331-335 | Jacobian_j becomes a copy of Jacobian_i, which is unchanged |
| IncCentredCommon.StoreMeanFluxAndJacobian | SU2_CFD/src/numerics_direct_mean_inc.cpp:303-335 | the residual is the projected flux of the mean state; when implicit both Jacobians are the mean inviscid Jacobian, and otherwise unchanged; also returns the mean preconditioner |
| IncCentredCommon.StoreSharedJacobian | SU2_CFD/src/numerics_direct_mean_inc.cpp:329-336 | when implicit both Jacobians receive the same matrix; otherwise both keep their contents |
| IncCentredCommon.ComputeStretching | SU2_CFD/src/numerics_direct_mean_inc.cpp:352-363 | the mean of the local spectral radii, and the stretching factor built from the stored radii Lambda_i and Lambda_j |
| IncCentredCommon.DissipationRow | SU2_CFD/src/numerics_direct_mean_inc.cpp:374-380 | row i of the residual gains its dissipation sum; when implicit row i of Jacobian_i gains and row i of Jacobian_j loses its dissipation term; nothing else changes |
| IncCentredCommon.AddDissipationLoop | SU2_CFD/src/numerics_direct_mean_inc.cpp:373-381 | the residual gains the preconditioned dissipation; when implicit Jacobian_i and Jacobian_j are shifted up and down by their dissipation coefficients, and otherwise unchanged |
| IncCentJST.Weights | SU2_CFD/src/numerics_direct_mean_inc.cpp:375 | each weight is eps2 times the jump in V minus eps4 times the jump in the Laplacian |
| IncCentJST.Epsilon4NonNegative | SU2_CFD/src/numerics_direct_mean_inc.cpp:369 | the fourth-difference coefficient is never negative, whatever the sensors and kappas |
| IncCentJST.IdenticalStatesGiveMeanFlux | SU2_CFD/src/numerics_direct_mean_inc.cpp:321-381 | with the same state and the same Laplacian on both sides the dissipation vanishes and the residual is that state's flux (energy entry cleared when off) |
| IncCentJST.JacobiansShareInviscidPart | SU2_CFD/src/numerics_direct_mean_inc.cpp:329-396 | with or without the energy equation, Jacobian_i less its dissipation equals Jacobian_j plus its dissipation: both start as the same mean inviscid Jacobian; without the energy equation row and column nDim+1 are cleared, dissipation included |
| IncCentJST.ComputeResidual | SU2_CFD/src/numerics_direct_mean_inc.cpp:276-398 | the residual and Jacobians written are those of the JST specification for every input; without implicit the Jacobians are unchanged |
| IncCentLax.Weights | SU2_CFD/src/numerics_direct_mean_inc.cpp:536 | each weight is eps0 times the jump in V |
| IncCentLax.Epsilon0NonNegative | SU2_CFD/src/numerics_direct_mean_inc.cpp:529-530 | a non-negative kappa0 gives a non-negative first-order coefficient |
| IncCentLax.DissipationEqualAndOpposite | SU2_CFD/src/numerics_direct_mean_inc.cpp:534-541 | Jacobian_i plus Jacobian_j is twice the shared mean inviscid Jacobian: the dissipation parts cancel |
| IncCentLax.IdenticalStatesGiveMeanFlux | SU2_CFD/src/numerics_direct_mean_inc.cpp:489-541 | with the same state on both sides the residual is that state's flux |
| IncCentLax.ComputeResidual | SU2_CFD/src/numerics_direct_mean_inc.cpp:440-559 | the residual and Jacobians written are those of the Lax-Friedrichs specification for every input; without implicit the Jacobians are unchanged |
| IncViscousCommon.PlainUnitNormal | SU2_CFD/src/numerics_direct_mean_inc.cpp:604-605 | each unit-normal component is Normal/Area, with no floor |
| IncViscousCommon.MeanGradient | SU2_CFD/src/numerics_direct_mean_inc.cpp:628-630 | each mean-gradient entry is the mean of the two points' gradient entries |
| IncViscousCommon.EdgeVector | SU2_CFD/src/numerics_direct_mean_inc.cpp:769 | each component is x_j minus x_i |
| IncViscousCommon.Dist2ZeroIffSamePoint | SU2_CFD/src/numerics_direct_mean_inc.cpp:646-648 | the squared edge length is non-negative, and zero exactly when the two points coincide |
| IncViscousCommon.DistZeroIffDist2Zero | SU2_CFD/src/numerics_direct_mean_inc.cpp:652-654 | the edge length is zero exactly when its square is, so testing either selects the same branch |
| IncViscousCommon.TemperatureEntriesOpposite | SU2_CFD/src/numerics_direct_mean_inc.cpp:654-670 | on every edge the temperature diagonal entries of the two Jacobians are opposite (both zero on a degenerate edge) |
| IncViscousCommon.ComputePlainUnitNormal | SU2_CFD/src/numerics_direct_mean_inc.cpp:604-605 | the unit normal computed is Normal/Area component by component |
| IncViscousCommon.ComputeMeanPrimitive | SU2_CFD/src/numerics_direct_mean_inc.cpp:607-611 | the mean primitive state is the entrywise mean over all nDim+9 entries |
| IncViscousCommon.ComputeMeanGradient | SU2_CFD/src/numerics_direct_mean_inc.cpp:628-630 | the mean gradient computed is the entrywise mean of the two gradients |
| IncViscousCommon.StoreViscousJacobians | SU2_CFD/src/numerics_direct_mean_inc.cpp:654-670 | both Jacobians are zero on a degenerate edge; otherwise they are the helper's pair with the temperature diagonal set to -k proj and +k proj |
| IncViscousCommon.StoreViscousFlux | SU2_CFD/src/numerics_direct_mean_inc.cpp:634-640 | the residual is the viscous projected flux of the mean state, gradient and viscosities |
| IncAvgGrad.DegenerateEdgeZeroJacobians | SU2_CFD/src/numerics_direct_mean_inc.cpp:654-661 | when the two points coincide both Jacobians are zero |
| IncAvgGrad.EdgeDistanceAndProjection | SU2_CFD/src/numerics_direct_mean_inc.cpp:646-650 | one loop yields the squared edge length and the projection of the edge on the normal |
| IncAvgGrad.ComputeResidual | SU2_CFD/src/numerics_direct_mean_inc.cpp:595-687 | the residual and Jacobians written are those of the average-gradient specification for every input, including a degenerate edge; without implicit the Jacobians are unchanged |
| IncAvgGradCorrected.CorrectedGradientReproducesJump | SU2_CFD/src/numerics_direct_mean_inc.cpp:775-786 | on a non-degenerate edge the corrected gradient of a variable, projected on the edge vector, equals that variable's jump |
| IncAvgGradCorrected.CorrectedGradientMatchesEdgeDifferences | SU2_CFD/src/numerics_direct_mean_inc.cpp:775-786 | every row of the corrected mean gradient projects on the edge to V_j minus V_i |
| IncAvgGradCorrected.DegenerateEdgeUsesPlainGradient | SU2_CFD/src/numerics_direct_mean_inc.cpp:781 | on a degenerate edge the correction is skipped, and the residual equals the plain average-gradient residual |
| IncAvgGradCorrected.SameJacobiansAsPlain | SU2_CFD/src/numerics_direct_mean_inc.cpp:809-825 | testing the squared length or its square root selects the same branch, so the corrected and plain operators build the same Jacobians |
| IncAvgGradCorrected.DegenerateEdgeZeroJacobians | SU2_CFD/src/numerics_direct_mean_inc.cpp:809-816 | when the two points coincide both Jacobians are zero |
| IncAvgGradCorrected.EdgeVectorAndLength | SU2_CFD/src/numerics_direct_mean_inc.cpp:767-771 | one loop yields the edge vector and its squared length |
| IncAvgGradCorrected.EdgeProjection | SU2_CFD/src/numerics_direct_mean_inc.cpp:803-806 | the loop yields the edge's projection on the normal |
| IncAvgGradCorrected.CorrectGradientRow | SU2_CFD/src/numerics_direct_mean_inc.cpp:776-785 | row r of the gradient becomes the corrected mean gradient row; every other row is unchanged |
| IncAvgGradCorrected.ComputeCorrectedGradient | SU2_CFD/src/numerics_direct_mean_inc.cpp:775-787 | the gradient computed is the corrected mean gradient |
| IncAvgGradCorrected.ComputeResidual | SU2_CFD/src/numerics_direct_mean_inc.cpp:722-842 | the residual and Jacobians written are those of the corrected average-gradient specification for every input; without implicit the Jacobians are unchanged |
| IncBodyForce.Residual | SU2_CFD/src/numerics_direct_mean_inc.cpp:877-888 | the continuity and energy rows are zero; the momentum rows carry the body force |
| IncBodyForce.HydrostaticBalance | SU2_CFD/src/numerics_direct_mean_inc.cpp:873-884 | with variable density, a fluid at the operating density gets a zero residual: the hydrostatic part is removed |
| IncBodyForce.AlongTheForce | SU2_CFD/src/numerics_direct_mean_inc.cpp:883-884 | any two momentum rows stand in the ratio of the two force components: the source is parallel to the body force |
| IncBodyForce.DenserFluidOpposesForce | SU2_CFD/src/numerics_direct_mean_inc.cpp:883-884 | with positive volume and reference force, a fluid denser than the operating density gets a residual of opposite sign to the force component, a lighter one of the same sign |
| IncBodyForce.ComputeResidual | SU2_CFD/src/numerics_direct_mean_inc.cpp:863-888 | the residual written is the body-force specification |
| IncBoussinesq.Gravity | SU2_CFD/src/numerics_direct_mean_inc.cpp:896-902 | gravity is -g on the last axis and zero on the others |
| IncBoussinesq.Residual | SU2_CFD/src/numerics_direct_mean_inc.cpp:921-932 | the continuity and energy rows are zero |
| IncBoussinesq.OnlyVerticalMomentum | SU2_CFD/src/numerics_direct_mean_inc.cpp:927-928 | only the vertical momentum row can be non-zero |
| IncBoussinesq.NoBuoyancyAtReferenceTemperature | SU2_CFD/src/numerics_direct_mean_inc.cpp:927-928 | at the reference temperature the residual is zero |
| IncBoussinesq.WarmFluidRises | SU2_CFD/src/numerics_direct_mean_inc.cpp:927-928 | with positive volume, density, expansion coefficient and reference force, a fluid warmer than T0 gets a negative vertical residual and a colder one a positive residual |
| IncBoussinesq.BuildGravity | SU2_CFD/src/numerics_direct_mean_inc.cpp:896-902 | the constructor's loop builds exactly the gravity vector |
| IncBoussinesq.ComputeResidual | SU2_CFD/src/numerics_direct_mean_inc.cpp:912-932 | the residual written is the Boussinesq specification |
| IncAxisymmetric.StressTensor | SU2_CFD/src/numerics_direct_mean_inc.cpp:1016-1024 | each stress entry is mu (g_ij + g_ji) minus two thirds mu div(v) on the diagonal |
| IncAxisymmetric.JacobianIsExactLinearisation | SU2_CFD/src/numerics_direct_mean_inc.cpp:969-998 | the Jacobian is the exact derivative of the inviscid source in (p, u, v, T): for every increment the source moves by the Jacobian times the increment plus a term of second order in the increment |
| IncAxisymmetric.AxisGivesZero | SU2_CFD/src/numerics_direct_mean_inc.cpp:951-1048 | at y <= EPS the residual and the Jacobian are zero whatever the state |
| IncAxisymmetric.NoRadialVelocityNoInviscidSource | SU2_CFD/src/numerics_direct_mean_inc.cpp:969-972 | without radial velocity the inviscid source is zero |
| IncAxisymmetric.StressSymmetric | SU2_CFD/src/numerics_direct_mean_inc.cpp:1020-1024 | the stress tensor is symmetric |
| IncAxisymmetric.StoreInviscid | SU2_CFD/src/numerics_direct_mean_inc.cpp:969-972 | the four residual entries are the inviscid source of the point |
| IncAxisymmetric.ScaleJacobian | SU2_CFD/src/numerics_direct_mean_inc.cpp:996-998 | every Jacobian entry is multiplied by yinv Volume rho |
| IncAxisymmetric.StoreInviscidJacobian | SU2_CFD/src/numerics_direct_mean_inc.cpp:976-998 | the Jacobian written is the inviscid Jacobian of the point |
| IncAxisymmetric.ComputeDivergence | SU2_CFD/src/numerics_direct_mean_inc.cpp:1016-1018 | the divergence is the sum of the velocity gradient's diagonal |
| IncAxisymmetric.ComputeStress | SU2_CFD/src/numerics_direct_mean_inc.cpp:1020-1024 | the stress array is the stress tensor |
| IncAxisymmetric.SubtractViscous | SU2_CFD/src/numerics_direct_mean_inc.cpp:1028-1033 | each residual entry loses its viscous term |
| IncAxisymmetric.ComputeRaw | SU2_CFD/src/numerics_direct_mean_inc.cpp:951-1048 | off the axis the residual is the inviscid source less the viscous terms when viscous, on the axis zero; when implicit the Jacobian is the inviscid one off the axis and zero on it |
| IncAxisymmetric.ComputeResidual | SU2_CFD/src/numerics_direct_mean_inc.cpp:946-1060 | the residual and Jacobian written are those of the axisymmetric specification, with the energy block applied; without implicit the Jacobian is unchanged |
| HeatFVM.ConvectiveJacobianStepEntries | SU2_CFD/src/solver_direct_heat.cpp:1143-1146 | an edge moves exactly its four blocks: the i row gains the edge's Jacobians, the j row loses them, and every other block stays |
| HeatFVM.ConvectivePassConserves | SU2_CFD/src/solver_direct_heat.cpp:1138-1139 | whatever the edge fluxes, a convective pass leaves the sum of the residuals unchanged |
| HeatFVM.ConvectivePassConservesColumns | SU2_CFD/src/solver_direct_heat.cpp:1143-1146 | every Jacobian column keeps its sum through a convective pass |
| HeatFVM.ViscousResidualIsNegatedConvective | SU2_CFD/src/solver_direct_heat.cpp:1300-1301 | the viscous residual pass is the convective pass applied to the negated edge terms |
| HeatFVM.ViscousJacobianIsNegatedConvective | SU2_CFD/src/solver_direct_heat.cpp:1303-1306 | the viscous Jacobian pass is the convective pass applied to the negated edge terms |
| HeatFVM.ViscousPassConserves | SU2_CFD/src/solver_direct_heat.cpp:1300-1306 | the viscous pass also conserves the residual sum and every Jacobian column sum |
| HeatFVM.HalfEdge | SU2_CFD/src/solver_direct_heat.cpp:1184-1187 | each component is half of x_to minus x_from |
| HeatFVM.ReconstructPrimitive | SU2_CFD/src/solver_direct_heat.cpp:1195-1206 | each of the nVarFlow reconstructed variables is V plus the half edge dotted with its gradient |
| HeatFVM.MusclBufferOverrun | SU2_CFD/src/solver_direct_heat.cpp:1195-1205 | the reconstruction loop as written into a buffer of nDim+1 entries: the writes past the end are exactly the indices nDim+1 .. nVarFlow-1, and with the incompressible flow solver's nVarFlow = nDim+2 exactly one write, at index nDim+1, falls past the end; the writes inside hold the reconstructed values |
| HeatFVM.UpwindInput | SU2_CFD/src/solver_direct_heat.cpp:1174-1226 | without MUSCL the numerics see the stored primitive states and temperatures of the two points |
| HeatFVM.MusclExactForLinearField | SU2_CFD/src/solver_direct_heat.cpp:1208-1216 | for a temperature field linear along the edge the two reconstructions meet at the same face value |
| HeatFVM.LaplacianOnlyChangedKeeps | SU2_CFD/src/solver_direct_heat.cpp:970-1012 | changing only the Laplacians keeps the temperatures and the gradients |
| HeatFVM.UniformFieldHasNoLaplacian | SU2_CFD/src/solver_direct_heat.cpp:982-1012 | a uniform temperature field gets an undivided Laplacian of zero |
| HeatFVM.LaplacianIsNeighbourSum | SU2_CFD/src/solver_direct_heat.cpp:989-1000 | away from interior/boundary interfaces the undivided Laplacian at an owned point is the sum over its edges of neighbour minus own value |
| HeatFVM.IntegratedHeatFlux | SU2_CFD/src/solver_direct_heat.cpp:1457-1473 | with an integrated flux, q is divided by the area of every heat-flux marker whose tag matches |
| HeatFVM.WallFlux | SU2_CFD/src/solver_direct_heat.cpp:1455-1480 | the flux applied is the configured one, per unit area when integrated, then made non-dimensional by the flow or solid reference |
| HeatFVM.MarkerAreaInto | SU2_CFD/src/solver_direct_heat.cpp:1335-1355 | on matching tags the heat-flux area restarts at the marker's owned area, and a monitored marker adds the same area to the monitored total |
| HeatFVM.MarkerFluxes | SU2_CFD/src/solver_direct_heat.cpp:1808-1898 | a marker's heat flux and weighted temperature are those of the per-vertex specification, from zero |
| HeatFVM.MarkerFluxVertex | SU2_CFD/src/solver_direct_heat.cpp:1857-1896 | an owned vertex adds its k dT/dn T_ref Area to the flux, and on a heat-flux wall its T T_ref Area to the temperature sum; a halo vertex adds nothing |
| HeatFVM.AllMarkerFluxes | SU2_CFD/src/solver_direct_heat.cpp:1808-1905 | every marker's flux and average temperature follow the per-marker specification, and the running totals are their sums over the monitored markers |
| HeatFVM.VertexFluxTerms | SU2_CFD/src/solver_direct_heat.cpp:1822-1896 | at an owned wall vertex the flux is k dT/dn T_ref Area and the weighted temperature T_wall T_ref Area |
| HeatFVM.ResetRadiiPass | SU2_CFD/src/solver_direct_heat.cpp:1951-1954 | both spectral radii are zero at every owned point; halo points keep theirs |
| HeatFVM.EdgeRadiiPass | SU2_CFD/src/solver_direct_heat.cpp:1958-1992 | the radii after the interior-edge loop are those of the edge specification |
| HeatFVM.BoundaryRadiiPass | SU2_CFD/src/solver_direct_heat.cpp:1994-2030 | the radii after the boundary loop are those of the vertex specification |
| HeatFVM.PointTimeSteps | SU2_CFD/src/solver_direct_heat.cpp:2033-2073 | each owned point's time step, and the running minimum, maximum and global time step, follow the specification |
| HeatFVM.LocalTimeStep | SU2_CFD/src/solver_direct_heat.cpp:2037-2058 | at a point with volume, Local_Delta_Time is the inviscid or viscous step, their minimum, or the flow's step, as the time-step rule selects |
| HeatFVM.FinalTimeSteps | SU2_CFD/src/solver_direct_heat.cpp:2092-2128 | under time stepping every point takes the global step; for explicit dual time each step is capped at 2/3 of the physical step |
| HeatFVM.TimeStepPass | SU2_CFD/src/solver_direct_heat.cpp:1925-2128 | SetTime_Step on values: the radii, extremes, physical step and final steps all equal their specifications |
| HeatFVM.ExplicitPass | SU2_CFD/src/solver_direct_heat.cpp:2138-2170 | every owned point moves by -Res dt/Vol and the norms collect Res |
| HeatFVM.ImplicitBuildPass | SU2_CFD/src/solver_direct_heat.cpp:2187-2245 | the diagonal gains Vol/dt on owned points, the right-hand side is -Res, the guess is zero, halo rows are cleared, and the norms collect Res |
| HeatFVM.ImplicitOwnedRows | SU2_CFD/src/solver_direct_heat.cpp:2194-2236 | the owned rows of the implicit build, halo rows untouched |
| HeatFVM.ImplicitOwnedRow | SU2_CFD/src/solver_direct_heat.cpp:2198-2234 | one owned row takes the build one point further: Vol/dt on the diagonal or the identity row with a zeroed residual, the negated right-hand side, a zero guess and the norms |
| HeatFVM.CentredPass | SU2_CFD/src/solver_direct_heat.cpp:1116-1147 | the residual and Jacobian after the centred edge loop are the convective pass over the centred numerics' terms |
| HeatFVM.UpwindPass | SU2_CFD/src/solver_direct_heat.cpp:1167-1239 | the residual and Jacobian after the upwind edge loop are the convective pass over the upwind numerics' terms (reconstructed under MUSCL) |
| HeatFVM.ViscousPass | SU2_CFD/src/solver_direct_heat.cpp:1259-1307 | the residual and Jacobian after the viscous edge loop are the viscous pass over the viscous numerics' terms |
| HeatFVM.HeatSolverFVM.constructor | SU2_CFD/src/solver_direct_heat.cpp:669-765 | every point starts at the free-stream temperature, with zero residual, increment and Jacobian, and per-marker monitor arrays |
| HeatFVM.HeatSolverFVM.CenteredResidual | SU2_CFD/src/solver_direct_heat.cpp:1102-1149 | coupled to a flow solver the residual and Jacobian follow the centred pass; otherwise nothing changes |
| HeatFVM.HeatSolverFVM.UpwindResidual | SU2_CFD/src/solver_direct_heat.cpp:1151-1242 | coupled to a flow solver the residual and Jacobian follow the upwind pass; otherwise nothing changes |
| HeatFVM.HeatSolverFVM.ViscousResidual | SU2_CFD/src/solver_direct_heat.cpp:1244-1308 | for fluids and solids alike the residual and Jacobian follow the viscous pass with the matching diffusivity |
| HeatFVM.HeatSolverFVM.SetUndividedLaplacian | SU2_CFD/src/solver_direct_heat.cpp:970-1020 | only the Laplacians change: they are zeroed on owned points, then every edge applies the three boundary cases |
| HeatFVM.HeatSolverFVM.LaplacianEdge | SU2_CFD/src/solver_direct_heat.cpp:989-1010 | one edge: the difference is subtracted at i and added at j where the boundary rule and ownership allow |
| HeatFVM.HeatSolverFVM.BCIsothermalWall | SU2_CFD/src/solver_direct_heat.cpp:1377-1440 | every owned vertex subtracts the isothermal flux and Jacobian at T_wall = T_iso/T_ref; without implicit the stale member Jacobian_i is subtracted |
| HeatFVM.HeatSolverFVM.BCHeatFluxWall | SU2_CFD/src/solver_direct_heat.cpp:1442-1504 | every owned vertex subtracts q Area, with q the configured flux scaled as WallFlux states |
| HeatFVM.HeatFluxVertex | SU2_CFD/src/solver_direct_heat.cpp:1484-1501 | an owned vertex takes q Area off its residual row, a halo vertex changes nothing, so the wall pass advances one vertex |
| HeatFVM.HeatSolverFVM.BCInlet | SU2_CFD/src/solver_direct_heat.cpp:1506-1624 | every owned vertex applies the upwind inlet residual next to a flow and, when viscous, the isothermal formula at the free-stream temperature; the flow solver's CharacPrimVar entries of the marker are returned as the inlet overwrites them, velocity set to Vel_Mag times Flow_Dir at owned vertices next to a flow |
| HeatFVM.HeatSolverFVM.BCOutlet | SU2_CFD/src/solver_direct_heat.cpp:1626-1693 | every owned vertex adds the upwind outlet residual (and Jacobian_i when implicit) unless the solver is HEAT_EQUATION; no viscous part; the marker's CharacPrimVar entries are returned as the outlet overwrites them, velocity copied from the interior neighbour at those vertices |
| HeatFVM.HeatSolverFVM.OutletVertex | SU2_CFD/src/solver_direct_heat.cpp:1641-1687 | one outlet vertex changes the residual, the Jacobian and Jacobian_i exactly as the one-vertex specification does |
| HeatFVM.HeatSolverFVM.BCConjugateHeatInterface | SU2_CFD/src/solver_direct_heat.cpp:1695-1784 | next to a flow every CHT vertex imposes the conjugate temperature and clears its residual, truncation error and (implicit) Jacobian row; in a solid it subtracts the conductance flux |
| HeatFVM.HeatSolverFVM.SetHeatfluxAreas | SU2_CFD/src/solver_direct_heat.cpp:1312-1375 | the heat-flux areas and the monitored area are those the tally specification gives, and the total area is their sum |
| HeatFVM.HeatSolverFVM.HeatFluxes | SU2_CFD/src/solver_direct_heat.cpp:1786-1924 | the per-marker fluxes and averages, their monitored sums, and the average temperature (zero without monitored area) follow the specification |
| HeatFVM.HeatSolverFVM.SetTimeStep | SU2_CFD/src/solver_direct_heat.cpp:1925-2128 | the node radii and time steps and the physical step equal those of TimeStepPass |
| HeatFVM.HeatSolverFVM.ExplicitEulerIteration | SU2_CFD/src/solver_direct_heat.cpp:2130-2172 | the new nodes are the explicit update of the residual, and the norms are the sum of squares and the maximum, before SetResidual_RMS |
| HeatFVM.HeatSolverFVM.ImplicitEulerIteration | SU2_CFD/src/solver_direct_heat.cpp:2174-2266 | the system built is (J + Vol/dt) x = -Res, the solution is the solver's answer for it, the owned points add x, and the norms are the sum of squares and the maximum, before SetResidual_RMS |
| HeatFVM.HeatSolverFVM.SetResidualDualTime | SU2_CFD/src/solver_direct_heat.cpp:2601-2667 | on a static mesh each owned point gains the dual-time source and, when implicit, its slope on the diagonal; with grid movement nothing changes |
| HeatFVM.HeatSolverFVM.RestrictSolution | SU2_CFD/src/solver_direct_heat.cpp:2550-2563 | each coarse point's solution is the volume-weighted sum of its children's solutions over its own volume |
| HeatFVM.HeatSolverFVM.PushBackTimeLevels | SU2_CFD/src/solver_direct_heat.cpp:2571-2597 | time level n takes the solution at every point, and level n-1 takes level n when both are pushed |
| HeatBoundary.WallResidualAt | SU2_CFD/src/solver_direct_heat.cpp:1401-1437 | after a wall pass, point p has lost exactly the values of its own owned vertices; other points are untouched |
| HeatBoundary.WallDiagonalAt | SU2_CFD/src/solver_direct_heat.cpp:1437 | a wall pass changes only diagonal Jacobian blocks, and the block of p loses the values of its owned vertices |
| HeatBoundary.WallResidualTotal | SU2_CFD/src/solver_direct_heat.cpp:1401-1437 | the residual total drops by the sum of the values of the owned vertices |
| HeatBoundary.WallSumZero | SU2_CFD/src/solver_direct_heat.cpp:1401-1437 | a pass whose values are all zero leaves every point's residual unchanged |
| HeatBoundary.WallTotalScaled | SU2_CFD/src/solver_direct_heat.cpp:1482-1500 | scaling every owned vertex's value scales the pass's total |
| HeatBoundary.IsothermalFluxIsLinear | SU2_CFD/src/solver_direct_heat.cpp:1421-1433 | the wall residual is the Jacobian entry times (T_normal - T_wall); with positive diffusivity, distance and area it is positive exactly when the wall is hotter than the neighbour |
| HeatBoundary.IsothermalAtWallTemperature | SU2_CFD/src/solver_direct_heat.cpp:1421-1436 | when every owned vertex's neighbour is at the wall temperature the residual does not change |
| HeatBoundary.IsothermalExplicitJacobian | SU2_CFD/src/solver_direct_heat.cpp:1431-1437 | when not implicit the member Jacobian_i keeps its value and that stale value is what every owned vertex subtracts from its diagonal |
| HeatBoundary.AreaScaledFluxUnique | SU2_CFD/src/solver_direct_heat.cpp:1464-1472 | a tag carried by one heat-flux marker h divides q by that marker's area |
| HeatBoundary.AreaScaledFluxAbsent | SU2_CFD/src/solver_direct_heat.cpp:1464-1472 | a tag no heat-flux marker carries leaves q as it was |
| HeatBoundary.HeatFluxWallTotal | SU2_CFD/src/solver_direct_heat.cpp:1482-1500 | the heat-flux wall takes q times the owned wall area out of the residual total |
| HeatBoundary.InletAfter | SU2_CFD/src/solver_direct_heat.cpp:1535-1619 | the inlet pass keeps the residual's length |
| HeatBoundary.InletWithoutFlowIsIsothermal | SU2_CFD/src/solver_direct_heat.cpp:1544-1617 | without a flow solver the viscous inlet is the isothermal wall at the free-stream temperature with diffusivity mu/Pr_lam: same residual, same diagonal, same member Jacobian_i |
| HeatBoundary.InletStepWithoutFlow | SU2_CFD/src/solver_direct_heat.cpp:1587-1617 | one inlet vertex without a flow solver applies the isothermal formula at the free-stream temperature |
| HeatBoundary.InletInert | SU2_CFD/src/solver_direct_heat.cpp:1544-1587 | neither coupled to a flow nor viscous, the inlet changes nothing |
| HeatBoundary.OutletResidualAt | SU2_CFD/src/solver_direct_heat.cpp:1633-1683 | unless the solver is HEAT_EQUATION each point gains the residuals of its owned outlet vertices; for HEAT_EQUATION nothing changes |
| HeatBoundary.InletRerunOnWritten | SU2_CFD/src/solver_direct_heat.cpp:1559-1564 | run again on the CharacPrimVar it overwrote, the inlet writes the same entries and assembles the same residual, Jacobian and Jacobian_i |
| HeatBoundary.OutletRerunOnWritten | SU2_CFD/src/solver_direct_heat.cpp:1661-1665 | the same for the outlet: a second pass on the overwritten CharacPrimVar writes the same entries and assembles the same result |
| HeatBoundary.ChtMarkerClears | SU2_CFD/src/solver_direct_heat.cpp:1720-1741 | after a CHT marker next to a flow, the point of each of its owned vertices is cleared |
| HeatBoundary.ChtFlowClearsRows | SU2_CFD/src/solver_direct_heat.cpp:1716-1745 | next to a flow, after the interface pass every owned vertex of every CHT marker has zero residual and truncation error and, when implicit, an identity Jacobian row |
| HeatBoundary.ChtSolidMarkerEquilibrium | SU2_CFD/src/solver_direct_heat.cpp:1763-1777 | at interface equilibrium on one marker the solid side leaves the residual unchanged |
| HeatBoundary.ChtSolidEquilibrium | SU2_CFD/src/solver_direct_heat.cpp:1749-1781 | in a solid, when every owned interface point is at the temperature the other zone reports, the interface pass leaves the residual unchanged |
| HeatBoundary.AreaTallyMarkerEffect | SU2_CFD/src/solver_direct_heat.cpp:1330-1355 | one marker sets each matching heat-flux area to its owned area, and the monitor gains its area once per match when monitored |
| HeatBoundary.AreaOfUniqueTag | SU2_CFD/src/solver_direct_heat.cpp:1326-1356 | a heat-flux marker whose tag only marker m0 carries ends with m0's owned area once m0 is visited, and keeps its start value before |
| HeatBoundary.AreaOfUnusedTag | SU2_CFD/src/solver_direct_heat.cpp:1326-1356 | a heat-flux marker whose tag no marker carries keeps its start value |
| HeatBoundary.AreaTallyMonitor | SU2_CFD/src/solver_direct_heat.cpp:1351-1352 | the monitored area grows by each monitored marker's owned area times its number of matching tags |
| HeatBoundary.MonitorShareConsistent | SU2_CFD/src/solver_direct_heat.cpp:1326-1356 | with each heat-flux tag listed once, the monitored area is the sum of the owned areas of the monitored heat-flux walls |
| HeatBoundary.WallHeatFluxIsResidual | SU2_CFD/src/solver_direct_heat.cpp:1841-1851 | the reported flux is the isothermal residual formula with the dimensional conductivity k T_ref |
| HeatBoundary.HeatFluxVanishesInEquilibrium | SU2_CFD/src/solver_direct_heat.cpp:1818-1889 | a wall whose owned points are all at their neighbours' temperature reports no heat flux |
| HeatBoundary.UniformWallAverage | SU2_CFD/src/solver_direct_heat.cpp:1891-1893 | a heat-flux wall uniformly at temperature T reports T T_ref times its owned area |
| HeatBoundary.MonitoredSumScaled | SU2_CFD/src/solver_direct_heat.cpp:1900-1903 | scaling every marker's value scales the monitored sum |
| HeatBoundary.MonitoredAverageUniform | SU2_CFD/src/solver_direct_heat.cpp:1891-1903 | monitored heat-flux walls uniformly at T sum to T T_ref times their monitored area |
| HeatBoundary.AverageOfUniformWalls | SU2_CFD/src/solver_direct_heat.cpp:1786-1924 | with each heat-flux tag listed once and every monitored heat-flux wall at one temperature T, the reported average temperature is T T_ref when the monitored area is non-zero |
| HeatTimeIntegration.EdgeRadiiAfterNext | SU2_CFD/src/solver_direct_heat.cpp:1958-1992 | the radii after k+1 edges are edge k applied to the radii after k edges |
| HeatTimeIntegration.MarkerRadiiAfterNext | SU2_CFD/src/solver_direct_heat.cpp:1997-2028 | the radii after k+1 vertices of a marker are vertex k applied to those after k |
| HeatTimeIntegration.ResetRadii | SU2_CFD/src/solver_direct_heat.cpp:1951-1954 | resetting keeps the length of both radius lists |
| HeatTimeIntegration.PointDeltaTimeClamped | SU2_CFD/src/solver_direct_heat.cpp:2037-2071 | a point without volume gets 0; a point with volume gets at most CFL_Reduction times Max_DeltaTime, and exactly CFL_Reduction times its local step when that is within the limit |
| HeatTimeIntegration.ExtremesBound | SU2_CFD/src/solver_direct_heat.cpp:2062-2064 | Min_Delta_Time never rises above its start value and Max_Delta_Time never falls below its own |
| HeatTimeIntegration.ExplicitDualTimeCap | SU2_CFD/src/solver_direct_heat.cpp:2120-2126 | the step an owned point keeps: in an explicit dual-time run its local step cut to 2/3 of the physical step, never above either and equal to the local step when that is below the cap; the global minimum when time stepping; the local step otherwise |
| HeatTimeIntegration.EdgeRadiiStepGrows | SU2_CFD/src/solver_direct_heat.cpp:1976-1990 | one interior edge never lowers a radius |
| HeatTimeIntegration.EdgeRadiiGrow | SU2_CFD/src/solver_direct_heat.cpp:1958-1992 | with a non-negative square root and diffusivity both radii only grow along the interior-edge loop |
| HeatTimeIntegration.NormsZeroIffAllZero | SU2_CFD/src/solver_direct_heat.cpp:2156-2157 | the norms are non-negative, and Res_RMS is zero exactly when every value is zero |
| HeatTimeIntegration.NormsMaxBounds | SU2_CFD/src/solver_direct_heat.cpp:2157 | Res_Max bounds the magnitude of every value seen |
| HeatTimeIntegration.ExplicitFixedPoint | SU2_CFD/src/solver_direct_heat.cpp:2145-2158 | a point whose residual and truncation error cancel does not move in the explicit update |
| HeatTimeIntegration.ImplicitDiagonal | SU2_CFD/src/solver_direct_heat.cpp:2206-2219 | after the build an owned row's diagonal is Vol/dt larger than before, or 1 when the point has no time step; every other entry is unchanged |
| HeatTimeIntegration.ImplicitRhsIsExplicitResidual | SU2_CFD/src/solver_direct_heat.cpp:2228-2231 | where the time step is non-zero the implicit right-hand side is the explicit residual negated |
| HeatTimeIntegration.FrozenPointStaysPut | SU2_CFD/src/solver_direct_heat.cpp:2216-2222 | a point without a time step has a zero right-hand side and a unit diagonal, so its row reads 1 x = 0 |
| HeatTimeIntegration.DualTimeJacobianIsSlope | SU2_CFD/src/solver_direct_heat.cpp:2643-2661 | the Jacobian entry is the exact slope of the dual-time source in U^{n+1}, and the source is zero when the three time levels agree |
| HeatTimeIntegration.DualTimeResidualAt | SU2_CFD/src/solver_direct_heat.cpp:2625-2654 | each owned point gains exactly its own source term; halo points are untouched |
| HeatTimeIntegration.RestrictionOfUniform | SU2_CFD/src/solver_direct_heat.cpp:2554-2560 | children all at T give T times their volume share of the parent |
| HeatTimeIntegration.RestrictionOfUniformTiled | SU2_CFD/src/solver_direct_heat.cpp:2550-2562 | when the children tile the parent a uniform field restricts to itself |
| HeatTimeIntegration.PushBackStartsAtRest | SU2_CFD/src/solver_direct_heat.cpp:2576-2580 | after pushing both levels the three time levels agree, so the first dual-time source is zero |
| HeatTimeIntegration.FirstOrderPushBackAtRest | SU2_CFD/src/solver_direct_heat.cpp:2592-2595 | after pushing only level n, level n-1 is kept and the first-order source is still zero |
| HeatFEM.Measure | SU2_CFD/src/solver_direct_heat.cpp:221-240 | the area of a triangle or volume of a tetrahedron computed from the edge vectors is non-negative |
| HeatFEM.DegenerateElementHasNoMeasure | SU2_CFD/src/solver_direct_heat.cpp:221-240 | an element with two coincident corners has no area or volume |
| HeatFEM.ElemEntrySymmetric | SU2_CFD/src/solver_direct_heat.cpp:244-267 | the element mass matrix is symmetric |
| HeatFEM.ElemRowSum | SU2_CFD/src/solver_direct_heat.cpp:244-267 | every row of an element's mass matrix sums to w/3 on a triangle and w/4 on a tetrahedron: the element's weight is shared equally by its nodes |
| HeatFEM.MassAfterSymmetric | SU2_CFD/src/solver_direct_heat.cpp:211-269 | the assembled mass matrix is symmetric |
| HeatFEM.MassAfterOutside | SU2_CFD/src/solver_direct_heat.cpp:211-269 | a point that belongs to no element receives nothing |
| HeatFEM.DualWeightsNonNegative | SU2_CFD/src/solver_direct_heat.cpp:442-446 | a non-negative time factor gives non-negative element weights |
| HeatFEM.DualDeltas | SU2_CFD/src/solver_direct_heat.cpp:478-495 | LinSysSol at each point is the first- or second-order time difference of its solution |
| HeatFEM.DualDeltaMatchesFiniteVolume | SU2_CFD/src/solver_direct_heat.cpp:442-493 | lumped onto one point of volume V, the finite-element term TimeJac V LinSysSol equals the finite-volume dual-time residual |
| HeatFEM.DualTimeAtRest | SU2_CFD/src/solver_direct_heat.cpp:478-505 | at rest LinSysSol is zero, so the time matrix adds nothing to any residual |
| HeatFEM.TimeRowsAsWritten | SU2_CFD/src/solver_direct_heat.cpp:451 | in the time matrix as written, the fourth node's diagonal entry is 0 where the consistent mass matrix has w/10 |
| HeatFEM.UnitTetrahedronTimeMatrix | SU2_CFD/src/solver_direct_heat.cpp:445-451 | on the unit tetrahedron with TimeJac = 1 the Jacobian gets 1/60 at (3, 3) but the assembled time matrix as written gets 0 there and 1/30 at (2, 2) |
| HeatFEM.AddElemDiagonal | SU2_CFD/src/solver_direct_heat.cpp:246-249 | the element's diagonal blocks each gain d; nothing else changes |
| HeatFEM.AddTriangleOffDiagonal | SU2_CFD/src/solver_direct_heat.cpp:254-259 | each off-diagonal block among the first three nodes gains o; nothing else changes |
| HeatFEM.AddFourthNodeOffDiagonal | SU2_CFD/src/solver_direct_heat.cpp:260-267 | each block between the fourth node and the other three gains o; nothing else changes |
| HeatFEM.AddElemOffDiagonal | SU2_CFD/src/solver_direct_heat.cpp:254-267 | every off-diagonal block of the element gains o |
| HeatFEM.AddElemMass | SU2_CFD/src/solver_direct_heat.cpp:244-267 | the element's whole mass matrix is added |
| HeatFEM.AddElemTimeAsWritten | SU2_CFD/src/solver_direct_heat.cpp:448-468 | the time-matrix blocks of one element as the source adds them, with the fourth diagonal block at (Point_2, Point_2) |
| HeatFEM.SourceMassPass | SU2_CFD/src/solver_direct_heat.cpp:211-269 | every element's mass matrix over Time_Num is added to the Jacobian |
| HeatFEM.DualMassPass | SU2_CFD/src/solver_direct_heat.cpp:411-471 | the intended element loop: every element's mass matrix times TimeJac is added to the Jacobian and to the time matrix alike |
| HeatFEM.DualTimePass | SU2_CFD/src/solver_direct_heat.cpp:411-471 | the element loop as written: the Jacobian gains every element's mass matrix times TimeJac, the time matrix gains the as-written blocks, with each tetrahedron's fourth diagonal share on Point_2 |
| HeatFEM.TimeEntryShift | SU2_CFD/src/solver_direct_heat.cpp:448-451 | one element's as-written time block equals its mass-matrix entry, plus d at a tetrahedron's (Point_2, Point_2) and minus d at its (Point_3, Point_3) |
| HeatFEM.TimeAsWrittenIsMassPlusShift | SU2_CFD/src/solver_direct_heat.cpp:411-471 | the assembled time matrix as written is the Jacobian's mass matrix plus the moved diagonal shares of every tetrahedron |
| HeatFEM.ShiftAfterVanishes | SU2_CFD/src/solver_direct_heat.cpp:448-451 | the moved shares sit on the diagonal only, and a triangle mesh has none |
| HeatFEM.TimeMatricesAgreeOffTheDiagonal | SU2_CFD/src/solver_direct_heat.cpp:411-471 | the as-written and the intended time matrices agree at every off-diagonal entry, and everywhere on a 2-D mesh |
| HeatFEM.DeleteRows | SU2_CFD/src/solver_direct_heat.cpp:387-388 | every listed row is cleared with a unit diagonal; other rows are unchanged |
| HeatFEM.HeatSolverFEM.SourceResidual | SU2_CFD/src/solver_direct_heat.cpp:190-273 | when unsteady the Jacobian gains every element's mass matrix over Time_Num; a steady run changes nothing |
| HeatFEM.HeatSolverFEM.SetResidualDualTime | SU2_CFD/src/solver_direct_heat.cpp:395-507 | the Jacobian gains the mass matrix times TimeJac and the time matrix the as-written blocks (the fourth diagonal share of a tetrahedron on Point_2), LinSysSol takes the time differences, and the time matrix applied to them is subtracted from the residual |
| HeatFEM.HeatSolverFEM.BCIsothermalWall | SU2_CFD/src/solver_direct_heat.cpp:358-392 | every wall point takes the wall temperature as solution and old solution, its residual and guess become the wall residual (0 when unsteady), and its Jacobian row the identity |
| HeatFEM.WallRowsFixIncrement | SU2_CFD/src/solver_direct_heat.cpp:384-388 | after the wall condition the row of every wall point reads x_p = b_p |
| InriaOutput.CString | SU2_CFD/src/output_inria.cpp:39-46 | the C string in a char buffer is the prefix before the first NUL, and holds no NUL |
| InriaOutput.CStringUpTo | SU2_CFD/src/output_inria.cpp:41-45 | writing a NUL at position n leaves the C string s[..n] |
| InriaOutput.FindFrom | SU2_CFD/src/output_inria.cpp:40-43 | the first occurrence of the pattern at or after i, with no earlier one |
| InriaOutput.StrStr | SU2_CFD/src/output_inria.cpp:40-43 | strstr finds an index exactly when the pattern occurs, and it is the first occurrence |
| InriaOutput.PrefixKeepsAbsence | SU2_CFD/src/output_inria.cpp:40-45 | a prefix of a string free of the pattern is free of it too |
| InriaOutput.TruncateRemoves | SU2_CFD/src/output_inria.cpp:40-45 | after the NUL is written at the first occurrence, the pattern no longer occurs |
| InriaOutput.SolbBaseIsClean | SU2_CFD/src/output_inria.cpp:39-46 | the base name contains neither ".dat" nor ".solb", and OutNam is that base followed by ".solb" |
| InriaOutput.NoDatStraddles | SU2_CFD/src/output_inria.cpp:46 | no ".dat" starts in the last three characters of a clean base or in the appended ".solb" |
| InriaOutput.NoDatAcross | SU2_CFD/src/output_inria.cpp:46 | a clean base followed by ".solb" contains no ".dat" |
| InriaOutput.NoSolbStraddles | SU2_CFD/src/output_inria.cpp:46 | no ".solb" starts in the last four characters of a clean base |
| InriaOutput.FirstSolbIsAppended | SU2_CFD/src/output_inria.cpp:46 | in a clean base followed by ".solb", the first ".solb" is the appended one |
| InriaOutput.SolbNameEndsInSolb | SU2_CFD/src/output_inria.cpp:46 | OutNam always ends in ".solb" |
| InriaOutput.SolbNameIdempotent | SU2_CFD/src/output_inria.cpp:39-46 | deriving OutNam from an OutNam gives it back unchanged |
| InriaOutput.CutAt | SU2_CFD/src/output_inria.cpp:40-45 | a NUL written at the first occurrence of the pattern cuts the buffer's C string there, and nothing changes when there is none |
| InriaOutput.SolbOutputName | SU2_CFD/src/output_inria.cpp:39-46 | the buffer operations leave OutNam equal to the base name followed by ".solb" |
| InriaOutput.InriaRestartNames | SU2_CFD/src/output_inria.cpp:37-67 | the file opened is named from the configured restart name alone; the zone and iteration suffixes do not reach it |
| InriaOutput.TagBcLayout | SU2_CFD/src/output_inria.cpp:146-170 | in low-memory mode no tag is set; otherwise density takes the first column after the conserved, limiter and residual blocks for a free surface, and pressure, temperature and Mach sit at offsets 0, 1 and 3 of the next four for Euler, Navier-Stokes and RANS |
| InriaOutput.Column | SU2_CFD/src/output_inria.cpp:228-258 | column c of Data for the first npoin points |
| InriaOutput.MachLoopNeverEnds | SU2_CFD/src/output_inria.cpp:228-235 | when Mach is not the last column, the loop that resets iVar to TagBc[bcMach] never ends, whatever the fuel |
| InriaOutput.MachLoopOnceWhenLast | SU2_CFD/src/output_inria.cpp:228-235 | when Mach is the last column, the loop writes one line and stops |
| InriaOutput.WriteInriaOutputs | SU2_CFD/src/output_inria.cpp:189-259 | mach.solb receives the Mach column with no keyword; pres.solb receives the SolAtVertices keyword twice and the pressure column |
| InriaOutput.SurfacePoints | SU2_CFD/src/output_inria.cpp:413-420 | the listed surface points are boundary points below n |
| InriaOutput.SurfacePointsExact | SU2_CFD/src/output_inria.cpp:413-420 | the surface list is strictly increasing and holds exactly the boundary points |
| InriaOutput.PackSurfacePoints | SU2_CFD/src/output_inria.cpp:413-420 | the boundary points are packed in order at the front of an nPoint array, and nPointSurface counts them |
| InriaOutput.EmitInCount | SU2_CFD/src/output_inria.cpp:440-460 | one marker emits as many records of a type as it has elements of that type |
| InriaOutput.EmitAllCount | SU2_CFD/src/output_inria.cpp:440-465 | all markers emit as many records as were counted, so the consistency exit is never taken |
| InriaOutput.QuadrilateralsUnderTriangles | SU2_CFD/src/output_inria.cpp:519 | every quadrilateral is written with four nodes and its marker under the Triangles keyword |
| InriaOutput.CountBoundElems | SU2_CFD/src/output_inria.cpp:424-436 | nLin, nTri and nQua are the numbers of line, triangle and quadrilateral elements over all markers |
| InriaOutput.EmitBound | SU2_CFD/src/output_inria.cpp:444-526 | one emission loop records the elements of one type in marker order and counts them |
| InriaOutput.EmitSection | SU2_CFD/src/output_inria.cpp:440-466 | a section is empty when its count is zero, else the keyword with the count followed by the emitted records, and its consistency exit is never taken |
| InriaOutput.InriaBoundary | SU2_CFD/src/output_inria.cpp:410-526 | the boundary output is the edge, triangle and quadrilateral sections in turn, each present only when its count is positive, and no consistency exit is taken |
| InriaOutput.PackedSurface | SU2_CFD/src/output_inria.cpp:413-420 | the PointSurface array is as long as the point list |
| AdjointDiscrete.LocalOf | SU2_CFD/src/solver_adjoint_discrete.cpp:150-159 | Global2Local of a global point is -1 or the last local point carrying that global index |
| AdjointDiscrete.Global2LocalInverts | SU2_CFD/src/solver_adjoint_discrete.cpp:150-159 | with distinct global indices, Global2Local inverts the local-to-global numbering, and holds -1 exactly at the indices no local point carries |
| AdjointDiscrete.BuildGlobal2Local | SU2_CFD/src/solver_adjoint_discrete.cpp:150-159 | the two loops leave every entry equal to LocalOf of its global index |
| AdjointDiscrete.SkipVars | SU2_CFD/src/solver_adjoint_discrete.cpp:165-170 | a turbulence adjoint skips 2 nDim + 2 columns after the index, any other adjoint nDim |
| AdjointDiscrete.RowSolution | SU2_CFD/src/solver_adjoint_discrete.cpp:184-186 | the adjoint variables of a row are the nVar columns after the index and the skipped ones |
| AdjointDiscrete.NodeFromOwnRow | SU2_CFD/src/solver_adjoint_discrete.cpp:175-190 | a local point receives the row at its own global index when that row has been read, and no node before |
| AdjointDiscrete.ReadAdjointRestart | SU2_CFD/src/solver_adjoint_discrete.cpp:161-197 | after the header, every local point's node is built from its own row and every halo node from the last Solution read |
| AdjointDiscrete.StoredSensitivity | SU2_CFD/src/solver_adjoint_discrete.cpp:571-577 | the stored sensitivity is zero closer to a sharp edge than the threshold, the derivative elsewhere |
| AdjointDiscrete.SharpEdgeOnlyRemoves | SU2_CFD/src/solver_adjoint_discrete.cpp:571-575 | the sharp-edge rule never enlarges a sensitivity: it keeps it or zeroes it |
| AdjointDiscrete.PointSensitivities | SU2_CFD/src/solver_adjoint_discrete.cpp:558-579 | every point holds nDim sensitivities, each the derivative through the sharp-edge rule |
| AdjointDiscrete.SurfaceSensitivity | SU2_CFD/src/solver_adjoint_discrete.cpp:618-623 | CSensitivity has the size of the projection, minus it on an ordinary point and plus it on a flipped one |
| AdjointDiscrete.SensGeoNonNegative | SU2_CFD/src/solver_adjoint_discrete.cpp:625-627 | Sens_Geo is never negative, and is zero when every domain vertex projects to zero |
| AdjointDiscrete.TangentialSensitivityVanishes | SU2_CFD/src/solver_adjoint_discrete.cpp:601-621 | a sensitivity orthogonal to the wall normal gives CSensitivity zero |
| AdjointDiscrete.WallSurfaceSensitivity | SU2_CFD/src/solver_adjoint_discrete.cpp:598-628 | one CSensitivity per vertex of the wall |
| AdjointDiscrete.WallSensitivity | SU2_CFD/src/solver_adjoint_discrete.cpp:598-628 | the vertex loop stores each vertex's CSensitivity and sums the squared projections of the domain vertices into Sens_Geo |
| AdjointDiscrete.TotalSensGeoNonNegative | SU2_CFD/src/solver_adjoint_discrete.cpp:587-637 | Total_Sens_Geo is never negative and is zero when no marker is a wall |
| AdjointDiscrete.AdjointResidualZeroIffSteady | SU2_CFD/src/solver_adjoint_discrete.cpp:490-497 | the RMS residual is non-negative, and the RMS and maximum residuals of a variable are zero exactly when no domain point's value changed |
| AdjointDiscrete.DiscAdjSolver.constructor | SU2_CFD/src/solver_adjoint_discrete.cpp:42-211 | every node holds its initial solution at every time level, sensitivities, CSensitivity and Sens_Geo are zero, and Res_RMS and Res_Max are one |
| AdjointDiscrete.DiscAdjSolver.SetSurfaceSensitivity | SU2_CFD/src/solver_adjoint_discrete.cpp:583-638 | wall markers take their vertices' CSensitivity and Sens_Geo, other markers keep CSensitivity with Sens_Geo zero, and Total_Sens_Geo sums the square roots |
| AdjointDiscrete.DiscAdjSolver.SetSensitivity | SU2_CFD/src/solver_adjoint_discrete.cpp:552-581 | the point sensitivities are the derivatives through the sharp-edge rule, and the surface sensitivities follow from them |
| AdjointDiscrete.DiscAdjSolver.ExtractAdjointSolution | SU2_CFD/src/solver_adjoint_discrete.cpp:430-500 | the old solution is the previous one, the solution and the needed time levels are the direct solver's adjoints, and the residuals are the sum of squares and the maximum of the increments, before SetResidual_RMS |
| AdjointDiscrete.MarkerCSensitivity | SU2_CFD/src/solver_adjoint_discrete.cpp:590-631 | a wall marker's CSensitivity is recomputed and any other marker's is kept |
| AdjointDiscrete.SurfaceSensitivityPass | SU2_CFD/src/solver_adjoint_discrete.cpp:590-631 | the marker loop leaves every marker's Sens_Geo as its wall sum, or zero |
| AdjointDiscrete.SharpEdgePass | SU2_CFD/src/solver_adjoint_discrete.cpp:558-579 | the point loop stores the sensitivities PointSensitivities defines |
| AdjointDiscrete.ResidualPass | SU2_CFD/src/solver_adjoint_discrete.cpp:443-497 | from zero, the residual loop accumulates each variable's norms over the increments at the domain points |
| AmgInterface.Rows | SU2_PY/SU2/amginria/interface.py:56-69 | np.reshape of a flat list of n*w entries gives n rows of width w |
| AmgInterface.FlattenRows | SU2_PY/SU2/amginria/interface.py:56-125 | flattening what was reshaped gives back the flat list |
| AmgInterface.RowsFlatten | SU2_PY/SU2/amginria/interface.py:118-125 | reshaping what was flattened gives back rows of a uniform width |
| AmgInterface.FlattenChecked | SU2_PY/SU2/amginria/interface.py:118-125 | the reshape to one row succeeds exactly when every row has the expected width, and then yields the rows in order |
| AmgInterface.XyOf | SU2_PY/SU2/amginria/interface.py:80-81 | the 2-D coordinates are the first two columns of each vertex row |
| AmgInterface.TagIndex | SU2_PY/SU2/amginria/interface.py:92-94 | id_solution_tag holds exactly the tags read, each at a position carrying it with no later duplicate |
| AmgInterface.TagIndexOfDistinct | SU2_PY/SU2/amginria/interface.py:92-94 | with no duplicate tag, each tag maps to its own position |
| AmgInterface.IdSolutionTag | SU2_PY/SU2/amginria/interface.py:92-94 | the loop builds the map TagIndex defines |
| AmgInterface.ReadMeshSucceeds | SU2_PY/SU2/amginria/interface.py:56-72 | read_mesh succeeds exactly when the lists have lengths divisible by 5, 4, 3 and 3, there is a vertex, the solution divides by the vertex count, and a marker gives the dimension |
| AmgInterface.ReadMesh | SU2_PY/SU2/amginria/interface.py:43-98 | read_mesh fails with the reshape, division, or index error the source would raise, and otherwise returns the mesh dictionary |
| AmgInterface.PadZ | SU2_PY/SU2/amginria/interface.py:114-116 | 2-D coordinates are padded with a zero z column |
| AmgInterface.PadZOfXy | SU2_PY/SU2/amginria/interface.py:80-116 | a 2-D vertex is written back with its x, y and z = 0, so a mesh with z = 0 comes back unchanged |
| AmgInterface.ReadThenWrite | SU2_PY/SU2/amginria/interface.py:43-129 | writing a mesh just read hands the library the lists it was read from: the elements and markers unchanged, the vertices with z = 0 in 2-D, the solution when there is more than one vertex |
| AmgInterface.WriteSolutionSpec | SU2_PY/SU2/amginria/interface.py:132-156 | write_solution stops with "No solution" when there is at most one solution row; otherwise it passes the vertex count and every solution value |
| AmgInterface.SolColumn | SU2_PY/SU2/amginria/interface.py:179-195 | one value per vertex, from the given column |
| AmgInterface.CreateSensor | SU2_PY/SU2/amginria/interface.py:159-214 | vertex rows that do not reshape to three values each (xy rows padded with a zero) raise the reshape error first; otherwise MACH, PRES and MACH_PRES succeed exactly when their columns exist, keep the mesh's coordinates, dimension and vertex count; any other sensor stops the script; a missing tag fails with KeyError, a solution table too small for the column with IndexError |
| AmgInterface.ReadMeshGivesReshapableCoords | SU2_PY/SU2/amginria/interface.py:161-171 | every mesh read_mesh returns passes create_sensor's vertex reshape, and MACH then succeeds exactly when the Mach column exists |
| AmgInterface.MachPresJoinsMachAndPres | SU2_PY/SU2/amginria/interface.py:176-197 | the MACH_PRES row of each vertex is its MACH row followed by its PRES row |
| AmgInterface.OptionalFlag | SU2_PY/SU2/amginria/interface.py:15-19 | an option adds " -flag value " exactly when its value is non-empty |
| AmgInterface.AmgCall | SU2_PY/SU2/amginria/interface.py:5-22 | the amg command is the base command, then -source and -back when set, then the redirection to the log |
| MeshAdaptation.StripLeftSuffix | SU2_PY/mesh_adaptation_amg.py:158-169 | lstrip keeps a suffix and drops only leading characters of the set |
| MeshAdaptation.StripRightPrefix | SU2_PY/mesh_adaptation_amg.py:158-169 | rstrip keeps a prefix and drops only trailing characters of the set |
| MeshAdaptation.StripKeepsMiddle | SU2_PY/mesh_adaptation_amg.py:158-169 | strip keeps a contiguous middle whose ends are not in the set |
| MeshAdaptation.StripIdempotent | SU2_PY/mesh_adaptation_amg.py:158-169 | stripping twice strips no more |
| MeshAdaptation.Split | SU2_PY/mesh_adaptation_amg.py:159-170 | a split always yields at least one piece |
| MeshAdaptation.SplitPiecesHaveNoSeparator | SU2_PY/mesh_adaptation_amg.py:159-170 | no piece of a split holds the separator |
| MeshAdaptation.JoinSplit | SU2_PY/mesh_adaptation_amg.py:159-170 | joining the pieces with the separator gives back the string |
| MeshAdaptation.SplitCount | SU2_PY/mesh_adaptation_amg.py:159-161 | a split yields one more piece than there are separators |
| MeshAdaptation.ParseIntSignAndBlanks | SU2_PY/mesh_adaptation_amg.py:178-179 | Python 2's int() accepts blanks between the sign and the digits ("- 3" is -3) and rejects a lone sign and an empty entry |
| MeshAdaptation.ParseIntOfNat | SU2_PY/mesh_adaptation_amg.py:178-179 | int() reads back the decimal digits of a non-negative integer |
| MeshAdaptation.ParseAllEntries | SU2_PY/mesh_adaptation_amg.py:177-180 | a list that is accepted holds int() of each entry |
| MeshAdaptation.ParseAllRejects | SU2_PY/mesh_adaptation_amg.py:177-180 | one entry int() rejects makes the whole list rejected |
| MeshAdaptation.AdapBack | SU2_PY/mesh_adaptation_amg.py:190-207 | ADAP_BACK is 1 exactly when the option is "YES" and a back-mesh name is given, and 0 otherwise |
| MeshAdaptation.ParsedLists | SU2_PY/mesh_adaptation_amg.py:158-180 | a successful parse had both list keys, at least one iteration, lists of equal length NbrIte, and NbrIteGlo the sum of the sub-iteration counts |
| MeshAdaptation.OptionsKeepLists | SU2_PY/mesh_adaptation_amg.py:182-227 | the path, back-mesh and size options leave the lists as they were read |
| MeshAdaptation.ParseAdapOk | SU2_PY/mesh_adaptation_amg.py:153-227 | a parse that succeeds read its lists first and the other options after |
| MeshAdaptation.ParsedOptions | SU2_PY/mesh_adaptation_amg.py:153-227 | a successful parse keeps the lists ParsedLists describes |
| MeshAdaptation.ListsNeverNoIteration | SU2_PY/mesh_adaptation_amg.py:161-165 | the list part never takes the invalid-iterations exit |
| MeshAdaptation.OptionsNeverNoIteration | SU2_PY/mesh_adaptation_amg.py:182-227 | the rest of the parse never produces that exit either |
| MeshAdaptation.NoIterationUnreachable | SU2_PY/mesh_adaptation_amg.py:158-165 | the "Invalid number of iterations" exit is never taken, because a split yields at least one entry |
| MeshAdaptation.SizeDefaults | SU2_PY/mesh_adaptation_amg.py:214-227 | HMIN defaults to 0, HMAX to 1e300 and HGRAD to 3.0; HMIN is float() of ADAP_HMIN but only when the key ADAP_HIN is present |
| MeshAdaptation.ConvertEntries | SU2_PY/mesh_adaptation_amg.py:176-180 | the conversion loop yields int() of every entry and NbrIteGlo as their sum, or fails exactly when an entry is rejected |
| MeshAdaptation.ParseLists | SU2_PY/mesh_adaptation_amg.py:158-180 | the list part step by step gives what ParseListsSpec defines |
| MeshAdaptation.SetOptions | SU2_PY/mesh_adaptation_amg.py:182-227 | the remaining options, assigned in turn, give what OptionsSpec defines |
| MeshAdaptation.ParseAdapOptions | SU2_PY/mesh_adaptation_amg.py:153-227 | Parse_Adap_Options gives what ParseAdapSpec defines |
| MeshAdaptation.Schedule | SU2_PY/mesh_adaptation_amg.py:432-486 | the passes are numbered 1, 2, … in order, each at a complexity and a sub-iteration that range() visits |
| MeshAdaptation.ScheduleLength | SU2_PY/mesh_adaptation_amg.py:433-445 | there is one pass per sub-iteration, and with no negative count that is NbrIteGlo |
| MeshAdaptation.AdaptationLoop | SU2_PY/mesh_adaptation_amg.py:432-486 | the loop visits every pass of the schedule, and ite_glo ends one past the number of passes |
| MeshAdaptation.FinalIterationNumber | SU2_PY/mesh_adaptation_amg.py:432-486 | the final ite_glo is 1 + NbrIteGlo when no sub-iteration count is negative |

## Kept as written

These behaviours look surprising but are reproduced as the code has them:

- The JST and Lax-Friedrichs schemes compute the stretching factors Phi from the members Lambda_i and Lambda_j, not from the local spectral radii just computed (`SU2_CFD/src/numerics_direct_mean_inc.cpp:360-361`, `:524-525`).
- The upwind scheme's dRhodT_i and dRhodT_j use the stored Density_i and Density_j, not the primitive densities (`SU2_CFD/src/numerics_direct_mean_inc.cpp:142-143`).
- The viscous operators divide proj_vector_ij by the squared edge length before they test for a zero distance, and use the quotient only when the distance is non-zero; the model divides only in that case, which gives the same results (`SU2_CFD/src/numerics_direct_mean_inc.cpp:651`, `:807`).
- `CHeatSolverFVM::SetTime_Step` starts the minimum from Global_Delta_Time, which it never initialises (`SU2_CFD/src/solver_direct_heat.cpp:1931`, `:2062`); the model takes that start value as the parameter `globalStart`.
- `CHeatSolver::SetResidual_DualTime` adds the fourth diagonal block of a tetrahedron's time matrix at (Point_2, Point_2) (`SU2_CFD/src/solver_direct_heat.cpp:451`); the solver class does the same, and the intended assembly is kept beside it (see Findings).
- The conjugate-heat interface condition runs over every CHT marker whatever marker it is called for (`SU2_CFD/src/solver_direct_heat.cpp:1716`).
- BC_Outlet treats every solver other than the heat equation as a flow case and has no viscous contribution (`SU2_CFD/src/solver_direct_heat.cpp:1633`, `:1686`).
- Inria output: the Mach file's SolAtVertices keyword is set on the pressure file (`SU2_CFD/src/output_inria.cpp:220`); quadrilaterals are written under the Triangles keyword (`:519`); triangles index PointSurface by point number (`:490`), so entries past the surface points hold whatever the allocation held, a parameter `stale` in the model.
- mesh_adaptation_amg.py reads ADAP_HMIN only when the key ADAP_HIN is present (`SU2_PY/mesh_adaptation_amg.py:214-215`): HMIN stays 0 when only ADAP_HMIN is set, and a KeyError stops the script when only ADAP_HIN is. The list-length mismatch message formats a list with %d (`:173`), so that exit is a TypeError; the model records both as failures.

## Left out

- IEEE floating point: all arithmetic is on `real`, so rounding, overflow and NaN are not modelled.
- The helper routines whose bodies are outside these files (square root, power, projected fluxes and Jacobians, the preconditioner, the viscous flux routines, CSysMatrix and CSysVector operations) are parameters. Only their shapes and three facts about the square root are assumed: it is non-negative, sqrt(0) = 0, and sqrt(x) > 0 for x > 0. The zero-distance branch of the viscous operators (IncViscousCommon.DistZeroIffDist2Zero) rests on the last two.
- MPI: the Allreduce calls of the time step, the heat-flux monitors and Total_Sens_Geo are the identity, as on one rank; send and receive of halo data is not modelled.
- SetResidual_RMS is a CSolver routine whose body is not part of this model. It turns the summed squares into the root mean square over the points and reduces the norms across MPI ranks. The fourth call, at `SU2_CFD/src/solver_direct_heat.cpp:578`, lies in the finite-element ImplicitEuler_Iteration, which is not part of this model. The three modelled callers stop at the sums it is given:
- AdjointDiscrete.DiscAdjSolver.ExtractAdjointSolution: Res_RMS is the sum of the squared increments, as before the call to SetResidual_RMS (`SU2_CFD/src/solver_adjoint_discrete.cpp:499`).
- HeatFVM.HeatSolverFVM.ExplicitEulerIteration: Res_RMS is the sum of the squared residuals, as before the call to SetResidual_RMS (`SU2_CFD/src/solver_direct_heat.cpp:2169`).
- HeatFVM.HeatSolverFVM.ImplicitEulerIteration: Res_RMS is the sum of the squared residuals, as before the call to SetResidual_RMS (`SU2_CFD/src/solver_direct_heat.cpp:2264`).
- The linear solver of the implicit Euler iteration is the parameter `solve`; HeatFVM.HeatSolverFVM.ImplicitEulerIteration states the update for whatever increment it returns.
- Set_Solution_time_n and Set_Solution_time_n1 of the node variables are taken to copy the solution down one time level; their class is not part of this model.
- HeatFEM.HeatSolverFEM.BCIsothermalWall: in a steady run the residual written is the solver's Residual buffer, which this routine does not set; the model takes its value as the parameter `residualBuffer`.
- File and console I/O: opening, reading and closing restart, mesh and solution files, the libMeshb (Gmf) and amgio library calls, os.system, os.environ, shutil and print are left out; the model states the names, records and commands that would be written.
- AmgInterface.AmgCall: the size, hgrad, hmin and hmax entries are taken as strings already formatted; the %f, %.2f and %le conversions of `SU2_PY/SU2/amginria/interface.py:8-13`, which fix their digits, are not modelled.
- InriaOutput.WriteInriaOutputs: requires the Mach and pressure columns to be known. TagBc (`SU2_CFD/src/output_inria.cpp:143-166`) is set only for the Euler, Navier-Stokes and RANS solvers; for other solvers the source reads unset entries at lines 231 and 254, which is not modelled.
- InriaOutput.SolbOutputName: requires the file name to be shorter than 1024 characters; a longer name overflows BasNam in the strcpy at `SU2_CFD/src/output_inria.cpp:39`, which is not modelled.
- AdjointDiscrete.ReadAdjointRestart: requires the file to hold no more data rows than there are global points and each row to hold enough numbers; the source reads past Global2Local or parses short rows as stream failures in those cases, which is not modelled. The missing-file exit is not modelled either.
- Algorithmic differentiation (recording, registering inputs and outputs, preaccumulation, GetDerivative) is left out; the derivatives are inputs of SetSensitivity.
- amg_call_python, Call_AMG and Call_SU2 only assemble options and run external programs; they are left out with the rest of the process plumbing.
- MeshAdaptation.ParseAdapOptions: float() is the parameter `toFloat`. int() is modelled as Python 2 applies it to a byte string: blanks, an optional sign, blanks, ASCII decimal digits, blanks. Values past the machine integer range, which Python 2 silently turns into a long, are simply integers here.
- AmgInterface.ReadMesh, AmgInterface.CreateSensor: Python 2 integer division, dictionary lookups and numpy reshape and indexing errors are modelled as the `Fail` results ReshapeError, DivisionByZero, KeyError and IndexError, not as exception types.

## Findings

| source | as written | input that shows it | evidently intended | confidence | as-written member | corrected member |
|---|---|---|---|---|---|---|
| SU2_CFD/src/solver_direct_heat.cpp:451 | in 3-D the fourth node's diagonal block of StiffMatrixTime is added at (Point_2, Point_2) | the unit tetrahedron with TimeJac = 1: the Jacobian gets 1/60 at (3, 3), the time matrix 0, and (2, 2) gets twice its share | the block goes to (Point_3, Point_3), as in the Jacobian assembled beside it | high, not executed | HeatFEM.AddElemTimeAsWritten, HeatFEM.DualTimePass, HeatFEM.HeatSolverFEM.SetResidualDualTime, HeatFEM.UnitTetrahedronTimeMatrix | HeatFEM.DualMassPass, HeatFEM.TimeMatricesAgreeOffTheDiagonal |
| SU2_CFD/src/output_inria.cpp:228-235 | the per-point loop sets iVar to TagBc[bcMach] inside a loop over iVar up to nVar_Total | any layout whose Mach column is not the last one: iVar returns to the Mach column on every pass and the loop never ends | one Mach value written per point | high, not executed | InriaOutput.MachLoopNeverEnds, InriaOutput.MachLoopOnceWhenLast | InriaOutput.WriteInriaOutputs |
| SU2_CFD/src/solver_direct_heat.cpp:654 | the MUSCL buffers Primitive_Flow_i and Primitive_Flow_j hold nDim+1 values, but the reconstruction loop at lines 1195-1205 writes nVarFlow of them | coupled to the incompressible flow solver, nVarFlow is its GetnVar() (lines 1114, 1165), which is nDim+2: pressure, nDim velocities and temperature, the energy entry being index nDim+1 in `SU2_CFD/src/numerics_direct_mean_inc.cpp:217`; the last write lands one past the buffer | buffers of nVarFlow values | medium, not executed | HeatFVM.MusclBufferOverrun | HeatFVM.ReconstructPrimitive, HeatFVM.UpwindPass |
