# GPS front end of TinyEKF, modelled in Dafny

This project models the fixed-size indexing and arithmetic layer that the
TinyEKF GPS example (`extras/c/gps_ekf_fn.c`) wraps around the generic
Extended Kalman Filter. It covers four parts:

- `blkfill` writes one 2x2 process-noise block onto the diagonal of the
  8x8 matrix Q.
- `init` sets the local filter values: the three spatial noise blocks
  Qxyz and the clock block Qb, P0 = 10 on the diagonal of P, R0 = 36 on
  the diagonal of R, and the state priors with zero velocities.
- `model` is the process and measurement model. It computes:
  - the constant-velocity prediction fx;
  - the transition Jacobian F: the identity plus T on the four
    position-to-velocity cells;
  - the predicted pseudoranges hx: geometric range plus clock bias;
  - the observation Jacobian H.
- The driver reads the receiver position from the even state slots
  0, 2 and 4.

The part of the filter structure `ekf_t` that this file reads and
writes is an immutable datatype `Ekf`. It has eight fields: x, P, Q, R,
fx, F, hx and H. Each C function that mutates the structure becomes a
function that returns the updated value. Each C loop becomes a recursive function over its loop bound, and
the contract of that function states which cells have been written so far
and with what value. Every contract also states that all other fields and
cells keep their value. Doubles are Dafny `real`s. The square root
`pow(s, 0.5)` is a function parameter `sqrt`, and the model requires only
that it returns the non-negative root of every non-negative real. Roots
are unique, so no result depends on which such function is supplied.

Modules:

- `Matrices`: vectors, matrices, single-cell writes, diagonal fills, and
  the dot product.
- `RealRoots`: squares, roots, and root uniqueness.
- `EkfState`: the `Ekf` datatype, its sizes, and position extraction.
- `GpsInit`: `blkfill` and `init`.
- `GpsModel`: `model`, split into `Predict` and `Measure`.
- `GpsModelFacts`: properties that relate these parts to each other.

Two features of the code shape the contracts:

- Line 127 divides each line-of-sight offset by `hx[i]`, which is the
  range plus the clock bias. The partial derivative of the range with
  respect to position divides by the range alone, so the rows of H differ
  from that derivative by the factor range / hx[i]. The model keeps the
  division by `hx[i]`. The squared length of a row times hx[i]^2 is the
  squared range (`GpsModelFacts.LineOfSightLength`). A row is a unit vector
  exactly when the predicted bias is zero or is -2 times the range
  (`GpsModelFacts.MeasureUnitRows`). The division needs every hx[i] to be
  non-zero, so the measurement model requires that
  (`GpsModel.Linearizable`).
- The file writes only the cells of Q, F and H listed above. Zeroing the
  rest is left to `ekf_init`, which is not part of this model. The
  contracts therefore say that those entries are unchanged.

## Model

| member | source | states |
|---|---|---|
| Matrices.SetEntry | extras/c/gps_ekf_fn.c:47-50 | A single-cell write `m[i][j] = v` changes cell (i, j) to v and leaves the shape and every other cell unchanged |
| Matrices.FillDiagonal | extras/c/gps_ekf_fn.c:74-78 | The loop `m[i][i] = v` over i < n sets the first n diagonal cells to v, leaves every other cell as it was, and keeps a symmetric matrix symmetric |
| RealRoots.RootUnique | extras/c/gps_ekf_fn.c:122 | Two non-negative roots of the same number are equal, so `pow(s, 0.5)` is determined by its defining property |
| EkfState.PositionPrefix | extras/c/gps_ekf_fn.c:302-303 | After k iterations of the extraction loop, position slot k' holds state slot 2k' for every k' < k |
| EkfState.Position | extras/c/gps_ekf_fn.c:301-303 | The reported position has three coordinates, and coordinate k is state slot 2k: x, y and z from slots 0, 2 and 4 |
| EkfState.PositionIgnoresVelocityAndClock | extras/c/gps_ekf_fn.c:301-303 | Two states report the same position exactly when they agree on slots 0, 2 and 4; velocities, clock bias and drift are ignored |
| GpsInit.BlkFill | extras/c/gps_ekf_fn.c:43-51 | Block `off` of Q becomes [a0, a1, a2, a3] row by row. Every Q cell outside that block keeps its value, the other three blocks read back unchanged, and x, P, R, fx, F, hx and H are untouched |
| GpsInit.BlkFillCommutes | extras/c/gps_ekf_fn.c:63-66 | Filling two different blocks gives the same filter in either order |
| GpsInit.BlkFillIdempotent | extras/c/gps_ekf_fn.c:43-51 | Filling a block twice with the same entries is the same as filling it once |
| GpsInit.BlkFillKeepsSymmetry | extras/c/gps_ekf_fn.c:43-51 | A block with a1 == a2, written into a symmetric Q, leaves Q symmetric |
| GpsInit.InitNoise | extras/c/gps_ekf_fn.c:56-66 | Blocks 0-2 of Q read back as Qxyz and block 3 as Qb. Only Q changes, and no Q cell outside the four diagonal blocks changes |
| GpsInit.Init | extras/c/gps_ekf_fn.c:54-95 | Initialisation sets the noise blocks Qxyz and Qb, and each block is symmetric. It sets P[i][i] = P0 for i < 8 and R[i][i] = R0 for i < 4 and writes no other cell of P, Q or R. It sets x to the priors with zero velocities and leaves fx, F, hx and H untouched |
| GpsInit.NoiseBlocksAtUnitInterval | extras/c/gps_ekf_fn.c:57-61 | With T = 1 the blocks are Qxyz = [25/3, 12.5, 12.5, 25] and Qb = [36 + 0.01/3, 0.005, 0.005, 0.01] |
| GpsInit.InitNoiseKeepsSymmetry | extras/c/gps_ekf_fn.c:60-66 | The four noise blocks keep a symmetric Q symmetric |
| GpsInit.InitKeepsSymmetry | extras/c/gps_ekf_fn.c:54-95 | Initialisation keeps P, Q and R symmetric |
| GpsInit.InitQBlockDiagonal | extras/c/gps_ekf_fn.c:63-66 | If Q is zero outside the diagonal blocks beforehand, every non-zero Q cell afterwards lies in a diagonal block |
| GpsInit.InitIdempotent | extras/c/gps_ekf_fn.c:54-95 | Running the initialisation twice gives the same filter as running it once |
| GpsModel.PredictPairs | extras/c/gps_ekf_fn.c:102-105 | After n pairs, each position slot 2k (k < n) holds x[2k] + T x[2k+1], each velocity slot holds x[2k+1], and later slots keep their value |
| GpsModel.Couple | extras/c/gps_ekf_fn.c:110-111 | After n iterations, F[2k][2k+1] = T for k < n and every other cell keeps its value |
| GpsModel.Predict | extras/c/gps_ekf_fn.c:102-111 | Only fx and F change. fx is the constant-velocity prediction of x. F is 1 on the diagonal, T on each position-to-velocity cell, and unchanged elsewhere |
| GpsModel.RangeSum | extras/c/gps_ekf_fn.c:116-121 | The accumulated sum of squared offsets is never negative |
| GpsModel.RangeSumIsDistance | extras/c/gps_ekf_fn.c:116-121 | The sum over the three axes is the squared distance from the reported position of fx to the satellite |
| GpsModel.Pseudorange | extras/c/gps_ekf_fn.c:115-123 | hx - fx[6] is the non-negative square root of the squared distance from the predicted position to the satellite, so hx >= fx[6] |
| GpsModel.Pseudoranges | extras/c/gps_ekf_fn.c:115-123 | After n satellites, hx[i] is the pseudorange of satellite i for i < n, and later entries keep their value |
| GpsModel.LineOfSight | extras/c/gps_ekf_fn.c:126-127 | After m axes, cell 2j (j < m) of the row holds (fx[2j] - SV[i][j]) / h and every other cell keeps its value |
| GpsModel.ObservationRow | extras/c/gps_ekf_fn.c:126-128 | A written row has the offsets over h in cells 0, 2 and 4, 1 in cell 6, and every other cell as it was |
| GpsModel.ObservationRows | extras/c/gps_ekf_fn.c:125-129 | After n satellites, row i (i < n) of H is the observation row for satellite i over hx[i], and later rows are unchanged |
| GpsModel.Measure | extras/c/gps_ekf_fn.c:113-129 | Only hx and H change. Each hx[i] is non-zero, and hx[i] minus the bias fx[6] is the geometric range to satellite i. Each row of H is the observation row of satellite i over hx[i] |
| GpsModel.Model | extras/c/gps_ekf_fn.c:97-130 | x, P, Q and R are not modified. fx is the constant-velocity prediction of x. Each hx[i] is the geometric range from the predicted position plus the predicted bias. Each row of H is the observation row at the predicted state |
| GpsModel.ModelTransitionJacobian | extras/c/gps_ekf_fn.c:107-111 | After `model`, F is 1 on the diagonal and T at (2k, 2k+1), and every other cell of F is as it was |
| GpsModelFacts.ProcessModelExample | extras/c/gps_ekf_fn.c:102-105 | With T = 1 and x = [0,1,0,2,0,3,0,0], fx = [1,1,2,2,3,3,0,0] |
| GpsModelFacts.TransitionJacobianExample | extras/c/gps_ekf_fn.c:107-111 | Starting from a zero F, F becomes the identity plus 1 at (0,1), (2,3), (4,5) and (6,7) |
| GpsModelFacts.TransitionJacobianGivesPrediction | extras/c/gps_ekf_fn.c:102-111 | If F has no stray entries, F times x is exactly fx, so F is the Jacobian of the linear prediction |
| GpsModelFacts.PredictionDeterminesState | extras/c/gps_ekf_fn.c:102-105 | Two states have the same prediction exactly when they are equal, so the prediction is invertible |
| GpsModelFacts.PseudorangeIndependentOfSqrt | extras/c/gps_ekf_fn.c:122 | Any two square-root functions give the same pseudorange |
| GpsModelFacts.LineOfSightLength | extras/c/gps_ekf_fn.c:125-127 | The squared length of the line-of-sight cells, times h^2, is the squared geometric range |
| GpsModelFacts.UnitLineOfSight | extras/c/gps_ekf_fn.c:125-127 | The line-of-sight cells divided by h form a unit vector exactly when h^2 is the squared range |
| GpsModelFacts.MeasureUnitRows | extras/c/gps_ekf_fn.c:113-129 | Row i of H left by the measurement model is a unit line-of-sight vector exactly when the predicted clock bias is zero or is -2 times the range to satellite i |
| GpsModelFacts.BiasedUnitRowExample | extras/c/gps_ekf_fn.c:115-128 | A receiver at (3, 4, 0) with bias -10 and a satellite at the origin give pseudorange -5 and the unit row (-0.6, -0.8, 0), so a unit row does not imply zero bias |
| GpsModelFacts.MeasurementExample | extras/c/gps_ekf_fn.c:115-129 | An offset of (3, 4, 0) with zero bias gives hx[i] = 5, and row i of H is 0.6, 0.8, 0 in the position cells and 1 in the bias cell |
| GpsModelFacts.PredictIdempotent | extras/c/gps_ekf_fn.c:102-111 | Running the prediction twice gives the same result as running it once |
| GpsModelFacts.ObservationRowIdempotent | extras/c/gps_ekf_fn.c:126-128 | Writing an observation row twice gives the same row as writing it once |
| GpsModelFacts.MeasureIdempotent | extras/c/gps_ekf_fn.c:113-129 | Running the measurement model twice gives the same result as running it once, because the cells it writes depend only on fx and the satellites |

## Left out

- `ekf_step` and `ekf_init`: the generic filter in `tiny_ekf.h` is not part of this model. That includes the covariance propagation, the gain and the update.
- Zero initialisation of F, Q, P and H: `ekf_init` does it, so the contracts state only that cells this file does not write are unchanged.
- IEEE-754 rounding, and `pow` as a library routine: numbers are reals, and the root is a parameter characterised by its defining property.
- GpsModel.Measure: requires every pseudorange computed from fx to be non-zero, through `GpsModel.Linearizable`. The source divides without a guard and would produce an infinity or NaN. Reals have no such value.
- GpsModel.Model: requires every pseudorange computed from the predicted state to be non-zero, through `GpsModel.Linearizable` applied to the prediction. The reason is the same as for `GpsModel.Measure`.
- `dx`, the 4x3 scratch array of offsets: it is not returned, so the offsets are recomputed in place where H uses them.
- The binary `read`/`write` of the filter struct and the arrays in `main`, and the `assert`s on their lengths: they are process-level I/O.
- CSV input (`readline`, `readdata`, `skipline`) and the alternative debug `main`, with its mean-centering and printing: these are library I/O.
- `get_time`, `print_time` and `error`: timing and diagnostics outside the filter.
- The state that `main` reads the position from: it comes out of `ekf_step`, which is not modelled, so `EkfState.Position` takes the state as a parameter. All three slots of the output buffer are overwritten, so its earlier content is not modelled.
