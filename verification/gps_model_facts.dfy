/** Properties relating the parts of the GPS process and measurement model:
    worked examples, the Jacobian F as the linear map of the prediction,
    invertibility of the prediction, independence of the chosen square
    root, the geometry of the observation rows, and idempotence.
 */
module GpsModelFacts {
  import opened Matrices
  import opened RealRoots
  import opened EkfState
  import opened GpsModel

  /** With T = 1 and x = [0,1,0,2,0,3,0,0] the prediction is
      fx = [1,1,2,2,3,3,0,0]. */
  lemma ProcessModelExample(e: Ekf)
    requires WellFormed(e) && e.x == [0.0, 1.0, 0.0, 2.0, 0.0, 3.0, 0.0, 0.0]
    ensures Predict(e).fx == [1.0, 1.0, 2.0, 2.0, 3.0, 3.0, 0.0, 0.0]
  {
  }

  /** The transition Jacobian for T = 1 when F starts at zero: the 8x8
      identity plus 1 at (0,1), (2,3), (4,5) and (6,7). */
  const TransitionExample: Matrix := [
    [1.0, 1.0, 0.0, 0.0, 0.0, 0.0, 0.0, 0.0],
    [0.0, 1.0, 0.0, 0.0, 0.0, 0.0, 0.0, 0.0],
    [0.0, 0.0, 1.0, 1.0, 0.0, 0.0, 0.0, 0.0],
    [0.0, 0.0, 0.0, 1.0, 0.0, 0.0, 0.0, 0.0],
    [0.0, 0.0, 0.0, 0.0, 1.0, 1.0, 0.0, 0.0],
    [0.0, 0.0, 0.0, 0.0, 0.0, 1.0, 0.0, 0.0],
    [0.0, 0.0, 0.0, 0.0, 0.0, 0.0, 1.0, 1.0],
    [0.0, 0.0, 0.0, 0.0, 0.0, 0.0, 0.0, 1.0]]

  /** Starting from a zero F, the transition Jacobian is the 8x8 identity
      plus T (= 1) at (0,1), (2,3), (4,5) and (6,7). */
  lemma TransitionJacobianExample(e: Ekf)
    requires WellFormed(e)
    requires forall i, j :: 0 <= i < StateSize && 0 <= j < StateSize ==> e.F[i][j] == 0.0
    ensures Predict(e).F == TransitionExample
  {
    var F := Predict(e).F;
    forall i, j | 0 <= i < StateSize && 0 <= j < StateSize
      ensures F[i][j] == TransitionExample[i][j]
    {
      assert TransitionExample[i][j] == (if i == j || (i % 2 == 0 && j == i + 1) then 1.0 else 0.0);
    }
    MatrixExtensionality(F, TransitionExample, StateSize, StateSize);
  }

  /** F is the Jacobian of the constant-velocity prediction, and the
      prediction is linear: when F holds no stray values outside the cells
      the process model writes, F times x is exactly the predicted state. */
  lemma TransitionJacobianGivesPrediction(e: Ekf)
    requires WellFormed(e)
    requires forall i, j :: 0 <= i < StateSize && 0 <= j < StateSize && !TransitionCell(i, j) ==>
      e.F[i][j] == 0.0
    ensures MatVec(Predict(e).F, e.x) == Predict(e).fx
  {
    var r := Predict(e);
    var fx' := MatVec(r.F, e.x);
    forall i | 0 <= i < StateSize
      ensures fx'[i] == r.fx[i]
    {
      if i % 2 == 0 {
        DotOfTwoEntries(r.F[i], e.x, i, i + 1);
      } else {
        DotOfTwoEntries(r.F[i], e.x, i, i - 1);
      }
    }
  }

  /** The prediction loses nothing: the state is recovered from fx as
      x[j+1] = fx[j+1] and x[j] = fx[j] - T * fx[j+1] for each even j, so
      two states with the same prediction are equal. */
  lemma PredictionDeterminesState(e1: Ekf, e2: Ekf)
    requires WellFormed(e1) && WellFormed(e2)
    ensures Predict(e1).fx == Predict(e2).fx <==> e1.x == e2.x
  {
    var f1, f2 := Predict(e1).fx, Predict(e2).fx;
    if f1 == f2 {
      forall j | 0 <= j < StateSize
        ensures e1.x[j] == e2.x[j]
      {
        if j % 2 == 0 {
          assert (j + 1) % 2 == 1;
          assert e1.x[j + 1] == f1[j + 1] == f2[j + 1] == e2.x[j + 1];
          assert e1.x[j] == f1[j] - T * f1[j + 1];
          assert e2.x[j] == f2[j] - T * f2[j + 1];
        } else {
          assert e1.x[j] == f1[j] && e2.x[j] == f2[j];
        }
      }
    }
    if e1.x == e2.x {
      forall j | 0 <= j < StateSize
        ensures f1[j] == f2[j]
      {
        if j % 2 == 0 {
          assert f1[j] == e1.x[j] + T * e1.x[j + 1];
          assert f2[j] == e2.x[j] + T * e2.x[j + 1];
        } else {
          assert f1[j] == e1.x[j] && f2[j] == e2.x[j];
        }
      }
    }
  }

  /** The pseudorange does not depend on which square-root function is
      used: any two agree, since non-negative roots are unique. */
  lemma PseudorangeIndependentOfSqrt(fx: Vector, sv: Vector, s1: real -> real, s2: real -> real)
    requires IsSqrt(s1) && IsSqrt(s2) && |fx| == StateSize && |sv| == 3
    ensures Pseudorange(fx, sv, s1) == Pseudorange(fx, sv, s2)
  {
    var d := Distance2(Position(fx), sv);
    RootUnique(Pseudorange(fx, sv, s1) - fx[6], Pseudorange(fx, sv, s2) - fx[6], d);
  }

  /** The position cells written by the line-of-sight loop are the
      receiver-to-satellite offset scaled by 1 / h: their squared length
      times h^2 is the squared geometric range. */
  lemma LineOfSightLength(row: Vector, fx: Vector, sv: Vector, h: real)
    requires |row| == StateSize && |fx| == StateSize && |sv| == 3 && h != 0.0
    ensures var r := ObservationRow(row, fx, sv, h);
      (Sq(r[0]) + Sq(r[2]) + Sq(r[4])) * Sq(h) == Distance2(Position(fx), sv)
  {
  }

  /** If n * h^2 equals D for a non-zero h, then n is 1 exactly when h^2
      is D. */
  lemma ScaleIsOne(n: real, h: real, D: real)
    requires h != 0.0 && n * Sq(h) == D
    ensures n == 1.0 <==> Sq(h) == D
  {
    if Sq(h) == D {
      assert (n - 1.0) * h * h == 0.0;
      assert (n - 1.0) * h == 0.0;
    }
  }

  /** If h - b is the non-negative root of D, then h^2 is D exactly when
      the bias b is zero or h is the negated root, that is b == -2 (h - b). */
  lemma SquareMatchesRoot(h: real, b: real, D: real)
    requires IsRoot(h - b, D)
    ensures Sq(h) == D <==> b == 0.0 || b == -2.0 * (h - b)
  {
    var rho := h - b;
    assert Sq(h) - D == (h - rho) * (h + rho);
    if Sq(h) == D {
      if h - rho != 0.0 {
        assert h + rho == (h - rho) * (h + rho) / (h - rho) == 0.0;
      }
    }
  }

  /** The line-of-sight cells divided by h form a unit vector exactly when
      h^2 is the squared geometric range. */
  lemma UnitLineOfSight(row: Vector, fx: Vector, sv: Vector, h: real)
    requires |row| == StateSize && |fx| == StateSize && |sv| == 3 && h != 0.0
    ensures var r := ObservationRow(row, fx, sv, h);
      Sq(r[0]) + Sq(r[2]) + Sq(r[4]) == 1.0 <==> Sq(h) == Distance2(Position(fx), sv)
  {
    var r := ObservationRow(row, fx, sv, h);
    LineOfSightLength(row, fx, sv, h);
    ScaleIsOne(Sq(r[0]) + Sq(r[2]) + Sq(r[4]), h, Distance2(Position(fx), sv));
  }

  /** Because `model` divides by hx[i] rather than by the range, row i
      of H carries a unit line-of-sight vector exactly when the predicted
      clock bias fx[6] is zero or equals -2 times the range hx[i] - fx[6].
      In every other case the vector is scaled by range / hx[i]
      (`LineOfSightLength`). */
  lemma MeasureUnitRows(e: Ekf, sv: Matrix, sqrt: real -> real, i: nat)
    requires WellFormed(e) && SatelliteGeometry(sv) && IsSqrt(sqrt)
    requires Linearizable(e.fx, sv, sqrt) && i < ObsCount
    ensures var r := Measure(e, sv, sqrt);
      (Sq(r.H[i][0]) + Sq(r.H[i][2]) + Sq(r.H[i][4]) == 1.0 <==>
       e.fx[6] == 0.0 || e.fx[6] == -2.0 * (r.hx[i] - e.fx[6]))
  {
    var r := Measure(e, sv, sqrt);
    assert r.H[i] == ObservationRow(e.H[i], e.fx, sv[i], r.hx[i]);
    UnitLineOfSight(e.H[i], e.fx, sv[i], r.hx[i]);
    SquareMatchesRoot(r.hx[i], e.fx[6], Distance2(Position(e.fx), sv[i]));
  }

  /** A unit row with a non-zero bias: a receiver at (3, 4, 0) with clock
      bias -10, seen from a satellite at the origin, has range 5 and
      pseudorange -5, and its row holds (-0.6, -0.8, 0). */
  lemma BiasedUnitRowExample(row: Vector)
    requires |row| == StateSize
    ensures var fx := [3.0, 0.0, 4.0, 0.0, 0.0, 0.0, -10.0, 0.0];
      var r := ObservationRow(row, fx, [0.0, 0.0, 0.0], -5.0);
      && IsRoot(-5.0 - fx[6], Distance2(Position(fx), [0.0, 0.0, 0.0]))
      && r[0] == -0.6 && r[2] == -0.8 && r[4] == 0.0
      && Sq(r[0]) + Sq(r[2]) + Sq(r[4]) == 1.0
  {
  }

  /** A receiver predicted at offset (3, 4, 0) from satellite i with zero
      clock bias sees pseudorange 5 and the line-of-sight row
      (0.6, 0.8, 0) in the position cells, 1 in the clock-bias cell. */
  lemma MeasurementExample(e: Ekf, sv: Matrix, sqrt: real -> real, i: nat)
    requires WellFormed(e) && SatelliteGeometry(sv) && IsSqrt(sqrt)
    requires Linearizable(e.fx, sv, sqrt) && i < ObsCount
    requires e.fx[0] - sv[i][0] == 3.0 && e.fx[2] - sv[i][1] == 4.0 && e.fx[4] == sv[i][2]
    requires e.fx[6] == 0.0
    ensures Measure(e, sv, sqrt).hx[i] == 5.0
    ensures Measure(e, sv, sqrt).H[i][0] == 0.6 && Measure(e, sv, sqrt).H[i][2] == 0.8
    ensures Measure(e, sv, sqrt).H[i][4] == 0.0 && Measure(e, sv, sqrt).H[i][6] == 1.0
  {
    var r := Measure(e, sv, sqrt);
    assert Distance2(Position(e.fx), sv[i]) == 25.0;
    RootUnique(r.hx[i] - e.fx[6], 5.0, 25.0);
    var row := ObservationRow(e.H[i], e.fx, sv[i], 5.0);
    assert r.H[i] == row;
    assert row[0] == 3.0 / 5.0 && row[2] == 4.0 / 5.0 && row[4] == 0.0 / 5.0 && row[6] == 1.0;
  }

  /** Running the prediction twice is running it once. */
  lemma PredictIdempotent(e: Ekf)
    requires WellFormed(e)
    ensures Predict(Predict(e)) == Predict(e)
  {
    var r1, r2 := Predict(Predict(e)), Predict(e);
    forall j | 0 <= j < StateSize
      ensures r1.fx[j] == r2.fx[j]
    {
      assert Predict(e).x == e.x;
      if j % 2 == 0 {
        assert r1.fx[j] == e.x[j] + T * e.x[j + 1];
        assert r2.fx[j] == e.x[j] + T * e.x[j + 1];
      } else {
        assert r1.fx[j] == e.x[j] && r2.fx[j] == e.x[j];
      }
    }
    MatrixExtensionality(r1.F, r2.F, StateSize, StateSize);
  }

  /** Writing an observation row twice is writing it once. */
  lemma ObservationRowIdempotent(row: Vector, fx: Vector, sv: Vector, h: real)
    requires |row| == StateSize && |fx| == StateSize && |sv| == 3 && h != 0.0
    ensures ObservationRow(ObservationRow(row, fx, sv, h), fx, sv, h) == ObservationRow(row, fx, sv, h)
  {
  }

  /** Running the measurement model twice is running it once: hx and H
      depend only on fx and the satellites, which it does not change. */
  lemma MeasureIdempotent(e: Ekf, sv: Matrix, sqrt: real -> real)
    requires WellFormed(e) && SatelliteGeometry(sv) && IsSqrt(sqrt)
    requires Linearizable(e.fx, sv, sqrt)
    ensures Measure(Measure(e, sv, sqrt), sv, sqrt) == Measure(e, sv, sqrt)
  {
    var r1, r2 := Measure(Measure(e, sv, sqrt), sv, sqrt), Measure(e, sv, sqrt);
    forall i | 0 <= i < ObsCount
      ensures r1.hx[i] == r2.hx[i]
    {
      RootUnique(r1.hx[i] - e.fx[6], r2.hx[i] - e.fx[6], Distance2(Position(e.fx), sv[i]));
    }
    assert r1.hx == r2.hx;
    forall i | 0 <= i < ObsCount
      ensures r1.H[i] == r2.H[i]
    {
      ObservationRowIdempotent(e.H[i], e.fx, sv[i], r2.hx[i]);
    }
  }
}
