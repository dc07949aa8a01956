/** The part of the filter structure `ekf_t` that the GPS front end reads
    and writes, and the layout of its 8-element state vector.

    State x = [posX, velX, posY, velY, posZ, velZ, clockBias, clockDrift]:
    even slots 0, 2, 4 hold the receiver position, slot 6 the clock bias.
    Every operation of the model takes an `Ekf` value and returns the
    updated one; fields an operation does not write are carried over.
 */
module EkfState {
  import opened Matrices
  import opened RealRoots

  /** Number of state entries (Nsta) and of satellite observations (Mobs). */
  const StateSize: nat := 8
  const ObsCount: nat := 4

  /** The positioning interval, a fixed constant of the source. */
  const T: real := 1.0

  /** x: state; P: state covariance; Q: process noise; R: measurement noise;
      fx, F: predicted state and its Jacobian; hx, H: predicted pseudoranges
      and their Jacobian. */
  datatype Ekf = Ekf(
    x: Vector, P: Matrix, Q: Matrix, R: Matrix,
    fx: Vector, F: Matrix, hx: Vector, H: Matrix)

  /** Every field has the compile-time size the source declares. */
  predicate WellFormed(e: Ekf)
  {
    && |e.x| == StateSize
    && IsMatrix(e.P, StateSize, StateSize)
    && IsMatrix(e.Q, StateSize, StateSize)
    && IsMatrix(e.R, ObsCount, ObsCount)
    && |e.fx| == StateSize
    && IsMatrix(e.F, StateSize, StateSize)
    && |e.hx| == ObsCount
    && IsMatrix(e.H, ObsCount, StateSize)
  }

  /** Satellite positions: ObsCount satellites of three coordinates each. */
  predicate SatelliteGeometry(sv: Matrix)
  {
    IsMatrix(sv, ObsCount, 3)
  }

  /** The loop `for (k = 0; k < n; ++k) pos[k] = x[2*k];` of the driver:
      the first n position coordinates, read from the even state slots. */
  function PositionPrefix(x: Vector, n: nat): (pos: Vector)
    requires |x| == StateSize && n <= 3
    ensures |pos| == n
    ensures forall k :: 0 <= k < n ==> pos[k] == x[2 * k]
  {
    if n == 0 then [] else PositionPrefix(x, n - 1) + [x[2 * (n - 1)]]
  }

  /** The receiver position reported for state x. All three output slots
      are overwritten, so the buffer's earlier content plays no part. */
  function Position(x: Vector): (pos: Vector)
    requires |x| == StateSize
    ensures |pos| == 3
    ensures forall k :: 0 <= k < 3 ==> pos[k] == x[2 * k]
  {
    PositionPrefix(x, 3)
  }

  /** The reported position depends on the position slots and on nothing
      else: two states give the same position exactly when they agree on
      slots 0, 2 and 4, whatever their velocities and clock terms. */
  lemma PositionIgnoresVelocityAndClock(x: Vector, y: Vector)
    requires |x| == StateSize && |y| == StateSize
    ensures Position(x) == Position(y) <==> x[0] == y[0] && x[2] == y[2] && x[4] == y[4]
  {
    var px, py := Position(x), Position(y);
    assert px[0] == x[0] && px[1] == x[2] && px[2] == x[4];
    assert py[0] == y[0] && py[1] == y[2] && py[2] == y[4];
    if x[0] == y[0] && x[2] == y[2] && x[4] == y[4] {
      assert forall k :: 0 <= k < 3 ==> px[k] == py[k];
    }
  }

  /** Squared Euclidean distance between two points of 3-space. */
  function Distance2(p: Vector, q: Vector): (d: real)
    requires |p| == 3 && |q| == 3
  {
    Sq(p[0] - q[0]) + Sq(p[1] - q[1]) + Sq(p[2] - q[2])
  }
}
