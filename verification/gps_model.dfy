/** Process and measurement model of the GPS filter (function `model`).

    Process model: constant velocity over one interval T for each of the
    three spatial position/velocity pairs and for the clock bias/drift
    pair, with its Jacobian F (identity plus T linking each position slot
    to its velocity slot). Measurement model: the predicted pseudorange of
    satellite i is the geometric range from the predicted position to the
    satellite plus the predicted clock bias, with Jacobian H.

    As in the source, each spatial entry of H is the receiver-to-satellite
    offset divided by the predicted pseudorange hx[i] (range plus clock
    bias), not by the bare geometric range, so every hx[i] must be
    non-zero.
 */
module GpsModel {
  import opened Matrices
  import opened RealRoots
  import opened EkfState

  /** The prediction loop run over its first n position/velocity pairs:
      each position advances by T times its velocity, each velocity is
      carried over, and slots beyond the first n pairs keep their value. */
  function PredictPairs(x: Vector, fx: Vector, n: nat): (r: Vector)
    requires |x| == StateSize && |fx| == StateSize && n <= 4
    ensures |r| == StateSize
    ensures forall j {:trigger r[j]} :: 0 <= j < 2 * n && j % 2 == 0 ==> r[j] == x[j] + T * x[j + 1]
    ensures forall j {:trigger r[j]} :: 0 <= j < 2 * n && j % 2 == 1 ==> r[j] == x[j]
    ensures forall j {:trigger r[j]} :: 2 * n <= j < StateSize ==> r[j] == fx[j]
  {
    if n == 0 then fx
    else
      var prev := PredictPairs(x, fx, n - 1);
      var j := 2 * (n - 1);
      assert j % 2 == 0 && (j + 1) % 2 == 1;
      prev[j := x[j] + T * x[j + 1]][j + 1 := x[j + 1]]
  }

  /** The loop writing T into F[2k][2k+1] for the first n pairs. */
  function Couple(F: Matrix, n: nat): (r: Matrix)
    requires IsMatrix(F, StateSize, StateSize) && n <= 4
    ensures IsMatrix(r, StateSize, StateSize)
    ensures forall i, j {:trigger r[i][j]} :: 0 <= i < StateSize && 0 <= j < StateSize ==>
      r[i][j] == (if i < 2 * n && i % 2 == 0 && j == i + 1 then T else F[i][j])
  {
    if n == 0 then F else SetEntry(Couple(F, n - 1), 2 * (n - 1), 2 * (n - 1) + 1, T)
  }

  /** A cell of F that the process model writes: the diagonal, or a
      position row's link to its own velocity column. */
  predicate TransitionCell(i: nat, j: nat)
  {
    i == j || (i % 2 == 0 && j == i + 1)
  }

  /** The prediction half of `model`: the predicted state fx and the
      transition Jacobian F. Nothing but fx and F changes; F is 1 on the diagonal, T
      on each position-to-velocity cell, and unchanged elsewhere. */
  function Predict(e: Ekf): (r: Ekf)
    requires WellFormed(e)
    ensures WellFormed(r)
    ensures r == e.(fx := r.fx, F := r.F)
    ensures forall j {:trigger r.fx[j]} :: 0 <= j < StateSize && j % 2 == 0 ==> r.fx[j] == e.x[j] + T * e.x[j + 1]
    ensures forall j {:trigger r.fx[j]} :: 0 <= j < StateSize && j % 2 == 1 ==> r.fx[j] == e.x[j]
    ensures forall i, j {:trigger r.F[i][j]} :: 0 <= i < StateSize && 0 <= j < StateSize ==>
      r.F[i][j] == (if TransitionCell(i, j) then (if i == j then 1.0 else T) else e.F[i][j])
  {
    e.(fx := PredictPairs(e.x, e.fx, 4),
       F := Couple(FillDiagonal(e.F, StateSize, 1.0), 4))
  }

  /** The running sum of squared offsets between the predicted position
      coordinates fx[0], fx[2], ... and the satellite coordinates, over the
      first n axes. */
  function RangeSum(fx: Vector, sv: Vector, n: nat): (s: real)
    requires |fx| == StateSize && |sv| == 3 && n <= 3
    ensures 0.0 <= s
  {
    if n == 0 then 0.0
    else
      RangeSum(fx, sv, n - 1) + Sq(fx[2 * (n - 1)] - sv[n - 1])
  }

  /** The sum over all three axes is the squared distance from the reported
      position of fx to the satellite. */
  lemma RangeSumIsDistance(fx: Vector, sv: Vector)
    requires |fx| == StateSize && |sv| == 3
    ensures RangeSum(fx, sv, 3) == Distance2(Position(fx), sv)
  {
    var p := Position(fx);
    assert p[0] == fx[0] && p[1] == fx[2] && p[2] == fx[4];
    assert RangeSum(fx, sv, 1) == Sq(fx[0] - sv[0]);
    assert RangeSum(fx, sv, 2) == RangeSum(fx, sv, 1) + Sq(fx[2] - sv[1]);
  }

  /** The predicted pseudorange of one satellite: the bias-free part
      hx - fx[6] is the non-negative square root of the squared distance,
      that is the geometric range, so hx is never below the clock bias. */
  function Pseudorange(fx: Vector, sv: Vector, sqrt: real -> real): (h: real)
    requires IsSqrt(sqrt) && |fx| == StateSize && |sv| == 3
    ensures IsRoot(h - fx[6], Distance2(Position(fx), sv))
    ensures fx[6] <= h
  {
    RangeSumIsDistance(fx, sv);
    sqrt(RangeSum(fx, sv, 3)) + fx[6]
  }

  /** The loop over the first n satellites writing hx[i]. */
  function Pseudoranges(hx: Vector, fx: Vector, sv: Matrix, sqrt: real -> real, n: nat): (r: Vector)
    requires IsSqrt(sqrt) && |hx| == ObsCount && |fx| == StateSize && SatelliteGeometry(sv)
    requires n <= ObsCount
    ensures |r| == ObsCount
    ensures forall i {:trigger r[i]} :: 0 <= i < ObsCount ==>
      r[i] == (if i < n then Pseudorange(fx, sv[i], sqrt) else hx[i])
  {
    if n == 0 then hx
    else Pseudoranges(hx, fx, sv, sqrt, n - 1)[n - 1 := Pseudorange(fx, sv[n - 1], sqrt)]
  }

  /** The inner loop for one satellite over its first m axes: the position
      cell 2j of the row becomes the offset fx[2j] - sv[j] divided by h;
      every other cell keeps its value. */
  function LineOfSight(row: Vector, fx: Vector, sv: Vector, h: real, m: nat): (r: Vector)
    requires |row| == StateSize && |fx| == StateSize && |sv| == 3 && h != 0.0 && m <= 3
    ensures |r| == StateSize
    ensures forall k {:trigger r[k]} :: 0 <= k < StateSize ==>
      r[k] == (if k < 2 * m && k % 2 == 0 then (fx[k] - sv[k / 2]) / h else row[k])
  {
    if m == 0 then row
    else
      var j := m - 1;
      LineOfSight(row, fx, sv, h, m - 1)[2 * j := (fx[2 * j] - sv[j]) / h]
  }

  /** Row i of H as the source writes it for one satellite: the three
      line-of-sight cells, offset over h, and a 1 in the clock-bias column;
      the velocity and drift cells keep their value. */
  function ObservationRow(row: Vector, fx: Vector, sv: Vector, h: real): (r: Vector)
    requires |row| == StateSize && |fx| == StateSize && |sv| == 3 && h != 0.0
    ensures |r| == StateSize
    ensures forall k {:trigger r[k]} :: 0 <= k < StateSize ==>
      r[k] == (if k == 6 then 1.0 else if k < 6 && k % 2 == 0 then (fx[k] - sv[k / 2]) / h else row[k])
  {
    LineOfSight(row, fx, sv, h, 3)[6 := 1.0]
  }

  /** The loop over the first n satellites, each writing its row of H;
      rows of later satellites keep their value. */
  function ObservationRows(H: Matrix, fx: Vector, sv: Matrix, hx: Vector, n: nat): (r: Matrix)
    requires IsMatrix(H, ObsCount, StateSize) && |fx| == StateSize && SatelliteGeometry(sv)
    requires |hx| == ObsCount && n <= ObsCount
    requires forall i :: 0 <= i < n ==> hx[i] != 0.0
    ensures IsMatrix(r, ObsCount, StateSize)
    ensures forall i {:trigger r[i]} :: 0 <= i < ObsCount ==>
      r[i] == (if i < n then ObservationRow(H[i], fx, sv[i], hx[i]) else H[i])
  {
    if n == 0 then H
    else
      var i := n - 1;
      var prev := ObservationRows(H, fx, sv, hx, n - 1);
      prev[i := ObservationRow(prev[i], fx, sv[i], hx[i])]
  }

  /** Every satellite's predicted pseudorange from fx is non-zero, so the
      division in the observation Jacobian is defined. */
  ghost predicate Linearizable(fx: Vector, sv: Matrix, sqrt: real -> real)
  {
    && IsSqrt(sqrt) && |fx| == StateSize && SatelliteGeometry(sv)
    && forall i :: 0 <= i < ObsCount ==> Pseudorange(fx, sv[i], sqrt) != 0.0
  }

  /** The measurement half of `model`: predicted pseudoranges hx and
      observation Jacobian H from the predicted state fx. Nothing but hx and H changes. */
  function Measure(e: Ekf, sv: Matrix, sqrt: real -> real): (r: Ekf)
    requires WellFormed(e) && SatelliteGeometry(sv) && IsSqrt(sqrt)
    requires Linearizable(e.fx, sv, sqrt)
    ensures WellFormed(r)
    ensures r == e.(hx := r.hx, H := r.H)
    ensures forall i {:trigger r.hx[i]} :: 0 <= i < ObsCount ==>
      IsRoot(r.hx[i] - e.fx[6], Distance2(Position(e.fx), sv[i])) && r.hx[i] != 0.0
    ensures forall i {:trigger r.H[i]} :: 0 <= i < ObsCount ==>
      r.H[i] == ObservationRow(e.H[i], e.fx, sv[i], r.hx[i])
  {
    var hx := Pseudoranges(e.hx, e.fx, sv, sqrt, ObsCount);
    e.(hx := hx, H := ObservationRows(e.H, e.fx, sv, hx, ObsCount))
  }

  /** The whole of `model`: prediction, then measurement model at the
      predicted state. x, P, Q and R are not modified; fx is the
      constant-velocity prediction of x, and each hx[i] is the geometric
      range from the predicted position to satellite i plus the predicted
      clock bias; row i of H is the observation row of satellite i at the
      predicted state. F is stated by `ModelTransitionJacobian`. */
  function Model(e: Ekf, sv: Matrix, sqrt: real -> real): (r: Ekf)
    requires WellFormed(e) && SatelliteGeometry(sv) && IsSqrt(sqrt)
    requires Linearizable(Predict(e).fx, sv, sqrt)
    ensures WellFormed(r)
    ensures r.x == e.x && r.P == e.P && r.Q == e.Q && r.R == e.R
    ensures forall j {:trigger r.fx[j]} :: 0 <= j < StateSize && j % 2 == 0 ==> r.fx[j] == e.x[j] + T * e.x[j + 1]
    ensures forall j {:trigger r.fx[j]} :: 0 <= j < StateSize && j % 2 == 1 ==> r.fx[j] == e.x[j]
    ensures forall i {:trigger r.hx[i]} :: 0 <= i < ObsCount ==>
      IsRoot(r.hx[i] - r.fx[6], Distance2(Position(r.fx), sv[i])) && r.hx[i] != 0.0
    ensures forall i {:trigger r.H[i]} :: 0 <= i < ObsCount ==>
      r.H[i] == ObservationRow(e.H[i], r.fx, sv[i], r.hx[i])
  {
    Measure(Predict(e), sv, sqrt)
  }

  /** The transition Jacobian left by `model`: 1 on the diagonal, T on
      each position-to-velocity cell, and every other cell of F as it was. */
  lemma ModelTransitionJacobian(e: Ekf, sv: Matrix, sqrt: real -> real)
    requires WellFormed(e) && SatelliteGeometry(sv) && IsSqrt(sqrt)
    requires Linearizable(Predict(e).fx, sv, sqrt)
    ensures var r := Model(e, sv, sqrt);
      forall i, j {:trigger r.F[i][j]} :: 0 <= i < StateSize && 0 <= j < StateSize ==>
        r.F[i][j] == (if TransitionCell(i, j) then (if i == j then 1.0 else T) else e.F[i][j])
  {
  }
}
