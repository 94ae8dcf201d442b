# Finite-difference WENO solver for the 2D Euler equations

This project models the core of `fdweno.c`. That program solves the
compressible Euler equations on a rectangular grid. The grid is split into
tiles, one per MPI process, and PETSc's time stepper advances the state.
The model covers:

- **Weno**: the fifth-order WENO reconstruction `weno5` (smoothness
  indicators, nonlinear weights, three third-order candidates).
- **Euler**: the pointwise physics. This is the conserved/primitive
  transforms, the wave speeds `compute_lambda`, the local stable step
  `dt_local`, and the Lax-Friedrichs splitting `split_fluxes`.
- **Boundary**: the wall ghost-cell fill on the four sides at the start of
  `RHSFunction`, and its "Not implemented" error for farfield sides.
- **Residual**: zeroing the residual and scattering the x-face and y-face
  fluxes into it. Each face adds its flux to one cell and takes it from
  the next. The result is then scaled by `-1/(dx*dy)`.
- **Rhs**: `RHSFunction` end to end on one tile. It runs the boundary fill,
  the maximum wave speeds reduced over all processes, the split fluxes on
  the owned cells and their halo, and the residual assembly.
- **TimeStep**: the start of `main` and `Monitor`.
  - `main` sets the initial condition at the cell centres, takes the
    minimum local stable step, and picks the first step from `-cfl` or
    `-dt`.
  - `Monitor` decides when a snapshot is saved and recomputes the step
    from the CFL number, clamped so as not to pass the final time.
- **Collective**: `PetscMax`, `PetscMin`, and the `MPI_Allreduce`
  reductions. A reduction is a fold over the other processes' values.

The code's own form is kept:

- Array-updating loops are methods on `array2<Vec4>` with loop invariants.
  These are the ghost fill, the flux splitting, the residual scatter and
  scaling, the initial-condition loop, and the minimum-step loops.
- Each method is specified by a pure function, such as `Filled`,
  `CellResidual`, `InitialGrid`, `DtGrid` or `GridMin`.
- Pointwise formulas are functions.

A tile is indexed locally: owned cell `(jbeg + k, ibeg + m)` is
`u[Sw + k, Sw + m]`, with a halo of `Sw = 3` cells on every side.

## Model

| member | source | states |
|---|---|---|
| Weno.Beta1 | petsc/euler2d/fdweno.c:39-40 | the smoothness indicator of the left candidate is never negative |
| Weno.Beta2 | petsc/euler2d/fdweno.c:41-42 | the smoothness indicator of the central candidate is never negative |
| Weno.Beta3 | petsc/euler2d/fdweno.c:43-44 | the smoothness indicator of the right candidate is never negative |
| Weno.Weight | petsc/euler2d/fdweno.c:46-48 | every nonlinear weight `gamma_k/(eps+beta_k)^2` is strictly positive |
| Weno.Candidate1 | petsc/euler2d/fdweno.c:50 | from the averages of any quadratic over cells `-2, -1, 0`, `u1` is the quadratic's value at the right face of cell 0 |
| Weno.Candidate2 | petsc/euler2d/fdweno.c:51 | the same for `u2` on cells `-1, 0, 1` |
| Weno.Candidate3 | petsc/euler2d/fdweno.c:52 | the same for `u3` on cells `0, 1, 2` |
| Weno.Blend | petsc/euler2d/fdweno.c:54 | the normalised weighted sum lies between the smallest and largest candidate |
| Weno.Weno5 | petsc/euler2d/fdweno.c:31-55 | the reconstruction is bounded by its three candidate values (no new extremum) |
| Weno.ConvexCombination | petsc/euler2d/fdweno.c:54 | any positive weights make the normalised combination a convex combination of the candidates |
| Weno.AgreeingCandidates | petsc/euler2d/fdweno.c:50-54 | when the three candidates agree, the weights cancel and the reconstruction is their common value |
| Weno.ConstantExact | petsc/euler2d/fdweno.c:31-55 | a constant stencil is reproduced exactly |
| Weno.AffineExact | petsc/euler2d/fdweno.c:31-55 | samples of an affine profile give its exact value at the right face |
| Weno.QuadraticExact | petsc/euler2d/fdweno.c:31-55 | cell averages of any quadratic give its exact point value at the right face, whatever the weights |
| Weno.ShiftInvariant | petsc/euler2d/fdweno.c:31-55 | adding a constant to all five inputs adds it to the result (the indicators ignore the shift) |
| Weno.BlendShift | petsc/euler2d/fdweno.c:54 | with fixed positive weights, shifting the candidates shifts the blend |
| Euler.Con2Prim | petsc/euler2d/fdweno.c:58-64 | keeps the density, and density times velocity gives back the momenta |
| Euler.Prim2Con | petsc/euler2d/fdweno.c:67-73 | keeps the density, and the pressure is recovered from energy minus kinetic energy times `gamma-1` |
| Euler.ConservedRoundTrip | petsc/euler2d/fdweno.c:58-73 | `prim2con(con2prim(U)) == U` for every state with nonzero density |
| Euler.PrimitiveRoundTrip | petsc/euler2d/fdweno.c:58-73 | `con2prim(prim2con(P)) == P` for every state with nonzero density |
| Euler.SoundArgAgrees | petsc/euler2d/fdweno.c:76-92 | `compute_lambda` and `dt_local` take the square root of the same quantity `gamma*p/rho` |
| Euler.ComputeLambda | petsc/euler2d/fdweno.c:76-85 | when the square root is non-negative, each speed is at least the magnitude of the flow velocity along its axis |
| Euler.PrimSpeeds | petsc/euler2d/fdweno.c:92-94 | when the square root is non-negative, `sx` and `sy` are at least the magnitudes of the primitive velocities |
| Euler.DtLocal | petsc/euler2d/fdweno.c:88-96 | the local step is positive, its x and y Courant numbers with the `compute_lambda` speeds add up to one, and neither exceeds one |
| Euler.StepFromSpeeds | petsc/euler2d/fdweno.c:95 | `1/(sx/dx+sy/dy)` is a positive step whose Courant numbers add up to one |
| Euler.SpeedsAgree | petsc/euler2d/fdweno.c:76-94 | the speeds `dt_local` forms from primitives equal those of `compute_lambda` |
| Euler.DtLocalFromLambda | petsc/euler2d/fdweno.c:76-96 | the local step is the CFL step of the `compute_lambda` speeds |
| Euler.DtProperties | petsc/euler2d/fdweno.c:95 | for positive speeds and spacings the step formula is positive and splits the Courant number |
| Euler.DtLocalScales | petsc/euler2d/fdweno.c:88-96 | refining or coarsening both spacings by `k` scales the local step by `k` |
| Euler.StepScales | petsc/euler2d/fdweno.c:95 | the step formula is homogeneous of degree one in `(dx, dy)` |
| Euler.PhysicalFlux | petsc/euler2d/fdweno.c:102-107 | the flux `split_fluxes` assembles is the Euler flux `(rho vn, p nx + rho vx vn, p ny + rho vy vn, (E+p) vn)` of the state |
| Euler.FluxOf | petsc/euler2d/fdweno.c:104-107 | given any primitive state whose density times velocity gives the momenta, lines 104-107 form its Euler flux |
| Euler.FluxForm | petsc/euler2d/fdweno.c:104-107 | the same fact as a step a caller invokes once it knows the momenta agree |
| Euler.SplitFluxes | petsc/euler2d/fdweno.c:99-114 | `f+ + f-` is the physical flux, `f+ - f-` is `lambda*U`, and the mass parts add up to the normal momentum |
| Euler.SplitMassUpwind | petsc/euler2d/fdweno.c:99-114 | with `lambda` at least the normal speed and positive density, the mass flux of `f+` is non-negative and that of `f-` non-positive |
| Boundary.SideAction | petsc/euler2d/fdweno.c:342-450 | a side mirrors iff the tile lies along it and it is a wall; it fails iff it is a farfield and, on the left only, the tile lies along it |
| Boundary.FirstFailure | petsc/euler2d/fdweno.c:340-451 | the fill succeeds iff no side is a failing farfield, and otherwise names the first failing side in the order left, right, bottom, top |
| Boundary.Filled | petsc/euler2d/fdweno.c:340-451 | the tile after the first `n` sides are done: every halo cell is its side's mirror or unchanged |
| Boundary.Mirrored | petsc/euler2d/fdweno.c:342-447 | one side's wall fill on a tile: ghost cells of that side take the reflected mirror cell, the others are unchanged |
| Boundary.FillLeft | petsc/euler2d/fdweno.c:342-363 | the three left ghosts of every owned row take the reflected owned cells (x-momentum negated); nothing else changes |
| Boundary.FillRight | petsc/euler2d/fdweno.c:370-391 | the same for the three right ghosts |
| Boundary.FillBottom | petsc/euler2d/fdweno.c:398-419 | the three bottom ghosts of every owned column take the reflected owned cells (y-momentum negated); nothing else changes |
| Boundary.FillTop | petsc/euler2d/fdweno.c:426-447 | the same for the three top ghosts |
| Boundary.ApplyBoundaryConditions | petsc/euler2d/fdweno.c:340-451 | returns `FirstFailure`, and leaves the tile filled by exactly the sides treated before the first failure |
| Boundary.FilledNone | petsc/euler2d/fdweno.c:340-451 | before any side is treated the tile is unchanged |
| Boundary.StepSide | petsc/euler2d/fdweno.c:340-451 | treating side `s` after the sides before it gives the fill of the first `s+1` sides |
| Boundary.WallGhostsMirror | petsc/euler2d/fdweno.c:342-447 | at a wall, ghost `k` away from the boundary holds the reflection of owned cell `k` away on the other side |
| Boundary.FillFrame | petsc/euler2d/fdweno.c:340-451 | owned cells, corner ghosts and the ghosts of sides that do not mirror keep their values |
| Boundary.FillIdempotent | petsc/euler2d/fdweno.c:340-451 | filling an already filled tile changes nothing |
| Boundary.FillKeepsNonVacuum | petsc/euler2d/fdweno.c:340-451 | after the fill every owned cell and strip ghost has nonzero density iff before it every such cell the fill does not overwrite had |
| Boundary.FillKeepsRest | petsc/euler2d/fdweno.c:340-451 | a uniform state at rest is left uniform by the fill, since reflecting zero momentum changes nothing |
| Residual.Telescopes | petsc/euler2d/fdweno.c:479-511 | the scatter is conservative: the cells of a line together gain only what crosses its two end faces |
| Residual.UniformFacesCancel | petsc/euler2d/fdweno.c:479-511 | faces that all carry the same flux leave every cell between them unchanged |
| Residual.ZeroResidual | petsc/euler2d/fdweno.c:333-338 | every owned cell's residual is zero |
| Residual.ScatterX | petsc/euler2d/fdweno.c:479-511 | each cell gains `dy` times the flux through its right x-face minus `dy` times the flux through its left one |
| Residual.ScatterY | petsc/euler2d/fdweno.c:513-541 | each cell gains `dx` times the flux through its top y-face minus `dx` times the flux through its bottom one |
| Residual.ScaleResidual | petsc/euler2d/fdweno.c:543-547 | every residual is multiplied by `-1/(dx*dy)` |
| Residual.CellResidual | petsc/euler2d/fdweno.c:479-547 | the assembled residual of a cell is minus the x-flux difference over `dx` minus the y-flux difference over `dy` |
| Residual.UniformFluxesGiveZero | petsc/euler2d/fdweno.c:479-547 | uniform face fluxes give a zero residual in every cell |
| Rhs.WenoVec | petsc/euler2d/fdweno.c:488-492 | component-wise reconstruction of five equal vectors returns that vector |
| Rhs.XFaceFlux | petsc/euler2d/fdweno.c:488-492 | where both `f+` and `f-` stencils of an x-face are flat, `UL + UR` is the sum of the split fluxes they hold |
| Rhs.YFaceFlux | petsc/euler2d/fdweno.c:518-522 | the same for a y-face, along the column |
| Rhs.XFaceFluxes | petsc/euler2d/fdweno.c:479-493 | one flux per x-face of each owned row: `UL` from `f+` left to right plus `UR` from `f-` right to left |
| Rhs.YFaceFluxes | petsc/euler2d/fdweno.c:513-523 | one flux per y-face of each owned column, formed in the same way along y |
| Rhs.Uniform | petsc/euler2d/fdweno.c:315 | the face-flux grid in which every face carries the same never-assigned `flux` |
| Rhs.MaxWaveSpeeds | petsc/euler2d/fdweno.c:453-460 | the result bounds the start value and every owned cell's `compute_lambda` speeds, and equals one of them, per axis |
| Rhs.SplitFluxesX | petsc/euler2d/fdweno.c:465-470 | every cell of every owned row, halo included, holds its x-split fluxes; other rows unchanged |
| Rhs.SplitFluxesY | petsc/euler2d/fdweno.c:472-477 | every cell of every owned column, halo included, holds its y-split fluxes; other columns unchanged |
| Rhs.ReducedIsGreatest | petsc/euler2d/fdweno.c:458-463 | reducing a running maximum of the start and the owned cells' speeds over the other processes gives the greatest of all of them |
| Rhs.GlobalSpeeds | petsc/euler2d/fdweno.c:453-463 | per axis, the reduced speed bounds the start, every other process's maximum and every owned cell's speed, and equals one of them |
| Rhs.FluxPhase | petsc/euler2d/fdweno.c:453-477 | the reduced speeds are the greatest of the start, the other processes' maxima and the owned cells' speeds, and the split fluxes are formed with them |
| Rhs.SplitPhase | petsc/euler2d/fdweno.c:333-477 | zeroed residual, boundary fill with its status, and on success a filled tile with nonzero density, the greatest speeds and the split fluxes of that tile |
| Rhs.Assemble | petsc/euler2d/fdweno.c:479-547 | from a zero residual, every cell ends with its finite-volume residual of the given face fluxes |
| Rhs.RhsFunction | petsc/euler2d/fdweno.c:303-560 | as written: the fill's status and state, and a zero residual in every owned cell whatever the state |
| Rhs.RhsFunctionCorrected | petsc/euler2d/fdweno.c:303-560 | with `UL + UR` as the face flux: the fill's status and state; on success the greatest speeds, the split fluxes of the filled tile, each residual the finite-volume divergence of the fluxes reconstructed from them, and a zero residual when the filled tile is uniform |
| Rhs.FreeStreamPreserved | petsc/euler2d/fdweno.c:479-547 | for the corrected scheme, a uniform state with its split fluxes gives a zero residual in every owned cell |
| Rhs.UniformXFaces | petsc/euler2d/fdweno.c:465-493 | on a uniform state every x-face carries the physical x-flux of that state |
| Rhs.UniformYFaces | petsc/euler2d/fdweno.c:472-522 | on a uniform state every y-face carries the physical y-flux of that state |
| TimeStep.MinUpToBounds | petsc/euler2d/fdweno.c:249 | the running minimum is at most the start and every visited step, and equals one of them |
| TimeStep.GridMin | petsc/euler2d/fdweno.c:241-250 | the minimum over the tile's steps is a lower bound of all of them and of the start, and is attained |
| TimeStep.InitialGrid | petsc/euler2d/fdweno.c:241-249 | every owned cell holds `prim2con` of the initial condition at its centre |
| TimeStep.InitialGridHoldsInit | petsc/euler2d/fdweno.c:241-249 | converting an initial cell back gives exactly the primitive state `initcond` produced |
| TimeStep.InitialCell | petsc/euler2d/fdweno.c:244-249 | one cell gets the initial grid's state for that cell and that state's `dt_local` |
| TimeStep.InitialRow | petsc/euler2d/fdweno.c:242-249 | one row of the tile is initialised, other rows are unchanged, and the running minimum covers the row |
| TimeStep.InitialAllRows | petsc/euler2d/fdweno.c:241-250 | the row loop: every owned cell holds the initial grid's state, and `dtlocal` is the minimum of the start and all local steps |
| TimeStep.InitialCondition | petsc/euler2d/fdweno.c:241-250 | the whole tile holds the initial grid, and `dtlocal` is the minimum of the start and all its local steps |
| TimeStep.SelectDt | petsc/euler2d/fdweno.c:253-267 | a step exists iff `cfl > 0` or `dt > 0`; then it is `cfl*dtglobal`, or otherwise the positive user `dt` |
| TimeStep.GlobalMin | petsc/euler2d/fdweno.c:252 | the reduced minimum bounds the start, every local step, and every other process's minimum, and equals one of them |
| TimeStep.Startup | petsc/euler2d/fdweno.c:241-267 | as written: the initial grid, and the first step selected from a minimum started at 1.0e-20 |
| TimeStep.StartupCorrected | petsc/euler2d/fdweno.c:241-267 | the initial grid, and the first step selected from a minimum started at 1.0e20 as `Monitor` does |
| TimeStep.MainStartTooSmall | petsc/euler2d/fdweno.c:174 | as written, with `cfl > 0` the first step is at most `cfl * 1.0e-20` whatever the state |
| TimeStep.MainStartCounterexample | petsc/euler2d/fdweno.c:174 | one cell with local step 1 and `cfl = 0.5`: the as-written start gives 0.5e-20, the intended one 0.5 |
| TimeStep.CorrectedStartIsCflMin | petsc/euler2d/fdweno.c:592 | with the corrected start, the first step is `cfl` times the true global minimum of the local steps |
| TimeStep.CflStepMonotone | petsc/euler2d/fdweno.c:255 | a positive CFL number preserves the order of steps |
| TimeStep.NextDt | petsc/euler2d/fdweno.c:599-602 | the new step is at most `cfl` times the global minimum and never passes the final time; it is that product when it fits and otherwise lands on the final time |
| TimeStep.Clamp | petsc/euler2d/fdweno.c:602 | the clamped step never passes the final time, never grows, is unchanged when it fits, and otherwise lands on the final time |
| TimeStep.CellDt | petsc/euler2d/fdweno.c:596 | the step computed for a cell is its `dt_local` |
| TimeStep.RowMinDt | petsc/euler2d/fdweno.c:593-596 | the running minimum extended over one more row |
| TimeStep.LocalMinDt | petsc/euler2d/fdweno.c:592-597 | `dtlocal` is the minimum of the start and all local steps of the tile |
| TimeStep.Monitor | petsc/euler2d/fdweno.c:572-606 | saves iff the step is real and either a multiple of `si` or at the final time; sets a step iff not at the final time and `cfl > 0`, and that step is the clamped `cfl` times the global minimum |
| TimeStep.CflBound | petsc/euler2d/fdweno.c:88-96 | a step no longer than `cfl` times a cell's local step has Courant number at most `cfl` there |
| TimeStep.MonitorStepRespectsCfl | petsc/euler2d/fdweno.c:592-602 | the step `Monitor` sets has Courant number at most `cfl` in every cell of the tile |
| TimeStep.ClampBelow | petsc/euler2d/fdweno.c:600-602 | the step `Monitor` sets is at most `cfl` times any bound on the global minimum |
| Collective.Max | petsc/euler2d/fdweno.c:458 | `PetscMax` is an upper bound of both arguments and equals one of them |
| Collective.Min | petsc/euler2d/fdweno.c:596 | `PetscMin` is a lower bound of both arguments and equals one of them |
| Collective.ReduceMax | petsc/euler2d/fdweno.c:462-463 | the `MPI_MAX` reduction bounds every process's value and is one of them |
| Collective.ReduceMin | petsc/euler2d/fdweno.c:252 | the `MPI_MIN` reduction is a lower bound of every process's value and is one of them |
| Collective.ReduceMinSymmetric | petsc/euler2d/fdweno.c:252 | every process gets the same minimum, whichever contribution is its own |
| Collective.ReduceMaxSymmetric | petsc/euler2d/fdweno.c:462-463 | every process gets the same maximum, whichever contribution is its own |

## Left out

- PETSc plumbing is not modelled. This covers `DMDA` creation, global-to-local scatters, vector get/restore, `TSSetTimeStep` and error codes. The tile's arrays and the `DMDAGetCorners` values are parameters.
- Periodic boundaries are not modelled. The halo exchange that fills them is part of PETSc, not of this file. A periodic side is `Skip` in `Boundary.SideAction`.
- MPI is not modelled. Each reduction takes the other processes' values as a sequence.
- `savesol`, the file output and all `PetscPrintf` output are left out. `Monitor` returns only whether a snapshot would be saved.
- The main time-stepping loop (`TSSolve` and the TS set-up in `main`) is PETSc's and is left out. Only the step selection before it is modelled.
- Floating point is modelled as real arithmetic. There is no rounding, overflow, NaN or infinity. `pow(x, 2)` is `x*x`.
- `sqrt` is the uninterpreted parameter `root`. Properties that need a non-negative root say so in their hypotheses.
- The gas constant, `initcond`, `xmin`/`ymin` and the `BC_*` choices come from `isentropic.h`, which is not part of this model. They are parameters.
- The rest of the repository is not part of this model.
- Euler.Con2Prim, Euler.ComputeLambda, Euler.SplitFluxes: these require nonzero density. The C code divides by `Con[0]` without a check.
- Euler.Prim2Con: requires `gamma != 1`, because the C code divides by `gas_gamma - 1`.
- Rhs.MaxWaveSpeeds: the C loop starts from the uninitialised `lambdax`/`lambday` (line 315). The model takes that start as the parameter `start`, so the result is stated relative to it.
- Rhs.RhsFunction: the reconstructed `UL`/`UR` (lines 488-492, 518-522) are dropped, as in the code. The never-assigned `flux` (line 315) is the parameter `flux`.
- Rhs.SplitPhase, Rhs.RhsFunction, Rhs.RhsFunctionCorrected: when the fill succeeds, these require nonzero density in the owned cells and in the ghost strips the fill does not overwrite, because `split_fluxes` divides by it there. Ghosts a wall overwrites and the corner ghosts are unconstrained.
- Tiles narrower or lower than `Sw` cells are not modelled. On the tiles that are, a mirror reads only owned cells.
- TimeStep.Monitor: requires `si != 0`, since `step % si` with `si == 0` is undefined in C. Only whether `step % si` is zero is used, and C's `%` and Dafny's `%` agree on that for either sign.
- TimeStep.InitialCondition, TimeStep.LocalMinDt: these require every cell to have a defined, positive `dt_local` (`Physical`). The C code does not check this.

## Findings

| source | as written | input that shows it | evidently intended | confidence | as-written member | corrected member |
|---|---|---|---|---|---|---|
| petsc/euler2d/fdweno.c:315 | `flux[nvar]` is declared and scattered into the residual at every face, but never assigned. `UL` and `UR` are computed and dropped, so every cell's residual is zero whatever the state. | any tile with a non-uniform state, e.g. a density jump between two owned cells: the residual is still zero in every owned cell | each face scatters the reconstructed flux `UL + UR` | not executed | Rhs.RhsFunction | Rhs.RhsFunctionCorrected |
| petsc/euler2d/fdweno.c:174 | `dtlocal` in `main` starts at `1.0e-20`, so the minimum over the cells is never above `1.0e-20`. With `-cfl` the first step is at most `cfl*1.0e-20`. | one owned cell with `dt_local = 1`, `cfl = 0.5`, one process: first step `0.5e-20` | start the minimum at `1.0e20` as `Monitor` does (line 592), so the first step is `cfl` times the smallest local step | not executed | TimeStep.MainStartCounterexample | TimeStep.CorrectedStartIsCflMin |
