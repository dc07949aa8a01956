/** Local filter set-up of the GPS example: the process-noise blocks of Q,
    the diagonals of P and R, and the state priors.

    Q holds one 2x2 block per position/velocity pair and one for the clock
    bias/drift pair; block b occupies rows and columns 2b and 2b+1, so a
    cell (i, j) lies in block b exactly when i / 2 == j / 2 == b. Off-block
    cells are never written here (the generic filter set-up, which is not
    part of this model, is what zeroes them).
 */
module GpsInit {
  import opened Matrices
  import opened EkfState

  /** Tuning constants of the noise model. */
  const Sf: real := 36.0
  const Sg: real := 0.01
  const Sigma: real := 5.0     // state transition variance

  /** Clock block and spatial block, each listed as [b00, b01, b10, b11]. */
  const Qb: seq<real> := [Sf * T + Sg * T * T * T / 3.0, Sg * T * T / 2.0, Sg * T * T / 2.0, Sg * T]
  const Qxyz: seq<real> := [Sigma * Sigma * T * T * T / 3.0, Sigma * Sigma * T * T / 2.0,
                            Sigma * Sigma * T * T / 2.0, Sigma * Sigma * T]

  /** Initial state covariance and measurement noise, per diagonal cell. */
  const P0: real := 10.0
  const R0: real := 36.0

  /** Prior position, clock bias and clock drift (velocities start at 0). */
  const PriorX: real := -2168816.181271560
  const PriorY: real := 4386648.549091666
  const PriorZ: real := 4077161.596428751
  const PriorBias: real := 3575261.153706439
  const PriorDrift: real := 45.49246345845814

  /** The 2x2 block b of an 8x8 matrix, read back as [b00, b01, b10, b11]. */
  function Block(m: Matrix, b: nat): (blk: seq<real>)
    requires IsMatrix(m, StateSize, StateSize) && b < 4
    ensures |blk| == 4
  {
    [m[2 * b][2 * b], m[2 * b][2 * b + 1], m[2 * b + 1][2 * b], m[2 * b + 1][2 * b + 1]]
  }

  /** Writes the four entries of a into block `off` of Q, row by row. Every
      other cell of Q and every other field are left as they were, and the
      block reads back as a. */
  function BlkFill(e: Ekf, a: seq<real>, off: nat): (r: Ekf)
    requires WellFormed(e) && |a| == 4 && off < 4
    ensures WellFormed(r)
    ensures r == e.(Q := r.Q)
    ensures forall i, j {:trigger r.Q[i][j]} :: 0 <= i < StateSize && 0 <= j < StateSize ==>
      r.Q[i][j] == (if i / 2 == off && j / 2 == off then a[2 * (i % 2) + j % 2] else e.Q[i][j])
    ensures forall b :: 0 <= b < 4 ==> Block(r.Q, b) == (if b == off then a else Block(e.Q, b))
  {
    var o := 2 * off;
    var q1 := SetEntry(e.Q, o, o, a[0]);
    var q2 := SetEntry(q1, o, o + 1, a[1]);
    var q3 := SetEntry(q2, o + 1, o, a[2]);
    var q4 := SetEntry(q3, o + 1, o + 1, a[3]);
    e.(Q := q4)
  }

  /** Filling two different blocks gives the same result in either order. */
  lemma BlkFillCommutes(e: Ekf, a: seq<real>, off: nat, b: seq<real>, off': nat)
    requires WellFormed(e) && |a| == 4 && |b| == 4 && off < 4 && off' < 4 && off != off'
    ensures BlkFill(BlkFill(e, a, off), b, off') == BlkFill(BlkFill(e, b, off'), a, off)
  {
  }

  /** Filling the same block twice with the same entries is filling it once. */
  lemma BlkFillIdempotent(e: Ekf, a: seq<real>, off: nat)
    requires WellFormed(e) && |a| == 4 && off < 4
    ensures BlkFill(BlkFill(e, a, off), a, off) == BlkFill(e, a, off)
  {
    var r1 := BlkFill(BlkFill(e, a, off), a, off);
    var r2 := BlkFill(e, a, off);
    MatrixExtensionality(r1.Q, r2.Q, StateSize, StateSize);
  }

  /** A symmetric block (b01 == b10) written into a symmetric Q keeps Q
      symmetric. */
  lemma BlkFillKeepsSymmetry(e: Ekf, a: seq<real>, off: nat)
    requires WellFormed(e) && |a| == 4 && off < 4 && a[1] == a[2]
    requires Symmetric(e.Q)
    ensures Symmetric(BlkFill(e, a, off).Q)
  {
  }

  /** The four noise blocks of the local initialisation: Qxyz for the three
      spatial pairs, Qb for the clock pair; only Q is written, and only
      inside those blocks. */
  function InitNoise(e: Ekf): (r: Ekf)
    requires WellFormed(e)
    ensures WellFormed(r)
    ensures r == e.(Q := r.Q)
    ensures forall b :: 0 <= b < 3 ==> Block(r.Q, b) == Qxyz
    ensures Block(r.Q, 3) == Qb
    ensures forall i, j {:trigger r.Q[i][j]} :: 0 <= i < StateSize && 0 <= j < StateSize && i / 2 != j / 2 ==>
      r.Q[i][j] == e.Q[i][j]
  {
    var e1 := BlkFill(e, Qxyz, 0);
    var e2 := BlkFill(e1, Qxyz, 1);
    var e3 := BlkFill(e2, Qxyz, 2);
    BlkFill(e3, Qb, 3)
  }

  /** The local initialisation: three spatial noise blocks Qxyz and the
      clock block Qb on the diagonal of Q (each symmetric), P0 on the
      diagonal of P, R0 on the diagonal of R, and the state priors in x
      with zero velocities. No Q cell outside the four blocks, no
      off-diagonal cell of P or R, and none of fx, F, hx, H is written. */
  function Init(e: Ekf): (r: Ekf)
    requires WellFormed(e)
    ensures WellFormed(r)
    ensures r == e.(x := r.x, P := r.P, Q := r.Q, R := r.R)
    ensures forall b :: 0 <= b < 3 ==> Block(r.Q, b) == Qxyz
    ensures Block(r.Q, 3) == Qb
    ensures forall b :: 0 <= b < 4 ==> Block(r.Q, b)[1] == Block(r.Q, b)[2]
    ensures forall i, j {:trigger r.Q[i][j]} :: 0 <= i < StateSize && 0 <= j < StateSize && i / 2 != j / 2 ==>
      r.Q[i][j] == e.Q[i][j]
    ensures forall i, j {:trigger r.P[i][j]} :: 0 <= i < StateSize && 0 <= j < StateSize ==>
      r.P[i][j] == (if i == j then P0 else e.P[i][j])
    ensures forall i, j {:trigger r.R[i][j]} :: 0 <= i < ObsCount && 0 <= j < ObsCount ==>
      r.R[i][j] == (if i == j then R0 else e.R[i][j])
    ensures r.x == [PriorX, 0.0, PriorY, 0.0, PriorZ, 0.0, PriorBias, PriorDrift]
  {
    var e4 := InitNoise(e);
    var e5 := e4.(P := FillDiagonal(e4.P, StateSize, P0));
    var e6 := e5.(R := FillDiagonal(e5.R, ObsCount, R0));
    e6.(x := e6.x[0 := PriorX][2 := PriorY][4 := PriorZ]
                 [1 := 0.0][3 := 0.0][5 := 0.0]
                 [6 := PriorBias][7 := PriorDrift])
  }

  /** With T = 1 the noise blocks take these values. */
  lemma NoiseBlocksAtUnitInterval()
    ensures Qxyz == [25.0 / 3.0, 12.5, 12.5, 25.0]
    ensures Qb == [36.0 + 0.01 / 3.0, 0.005, 0.005, 0.01]
  {
  }

  /** The noise blocks keep Q symmetric when it was symmetric. */
  lemma InitNoiseKeepsSymmetry(e: Ekf)
    requires WellFormed(e) && Symmetric(e.Q)
    ensures Symmetric(InitNoise(e).Q)
  {
  }

  /** Initialisation keeps P, Q and R symmetric when they were symmetric. */
  lemma InitKeepsSymmetry(e: Ekf)
    requires WellFormed(e) && Symmetric(e.P) && Symmetric(e.Q) && Symmetric(e.R)
    ensures Symmetric(Init(e).P) && Symmetric(Init(e).Q) && Symmetric(Init(e).R)
  {
  }

  /** When Q is zero outside the diagonal blocks, as the generic filter
      set-up leaves it, Q is block-diagonal after initialisation. */
  lemma InitQBlockDiagonal(e: Ekf)
    requires WellFormed(e)
    requires forall i, j :: 0 <= i < StateSize && 0 <= j < StateSize && i / 2 != j / 2 ==> e.Q[i][j] == 0.0
    ensures forall i, j :: 0 <= i < StateSize && 0 <= j < StateSize && Init(e).Q[i][j] != 0.0 ==> i / 2 == j / 2
  {
  }

  /** Initialising twice is the same as initialising once: every value
      written is a constant. */
  lemma InitIdempotent(e: Ekf)
    requires WellFormed(e)
    ensures Init(Init(e)) == Init(e)
  {
    var r1, r2 := Init(Init(e)), Init(e);
    forall i, j | 0 <= i < StateSize && 0 <= j < StateSize
      ensures r1.Q[i][j] == r2.Q[i][j]
    {
      if i / 2 == j / 2 {
        var b := i / 2;
        assert Block(r1.Q, b) == Block(r2.Q, b);
        assert i == 2 * b || i == 2 * b + 1;
        assert j == 2 * b || j == 2 * b + 1;
      }
    }
    MatrixExtensionality(r1.Q, r2.Q, StateSize, StateSize);
    MatrixExtensionality(r1.P, r2.P, StateSize, StateSize);
    MatrixExtensionality(r1.R, r2.R, ObsCount, ObsCount);
  }
}
