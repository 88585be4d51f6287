/**
  Broadcast-ephemeris clock model of a GPS satellite (navy/space/ephemeris.py).

  Covers the week-crossover correction `timeCheck`, the clock-correction and
  time-shift steps of `computePosition`, and its bounded Kepler iteration.
  Arithmetic is exact over `real`; the trigonometric and square-root routines
  of the numeric library are passed in as total functions (`Numerics`), so the
  statements here are about how the pieces fit together, not about accuracy.
*/
module Ephemeris {

  // ---------------------------------------------------------------------------
  // Constants (IS-GPS-200 values)
  // ---------------------------------------------------------------------------

  /** Half of a GPS week, in seconds. */
  const HalfWeek: real := 302400.0

  /** One GPS week, in seconds (the source writes it as twice the half week). */
  const Week: real := 2.0 * HalfWeek

  /** The value of pi used by GPS orbit computations. */
  const Pi: real := 3.1415926535898

  const TwoPi: real := 2.0 * Pi

  /** Earth's gravitational constant (m^3/s^2). */
  const EarthGM: real := 398600500000000.0

  /** Relativistic clock-correction constant F (s/sqrt(m)). */
  const RelativisticF: real := -0.0000000004442807633

  /** The Kepler loop stops once a step is below this many radians. */
  const KeplerTolerance: real := 0.000000000001

  /** The Kepler loop runs at most this many steps. */
  const KeplerMaxSteps: nat := 10

  function Abs(x: real): real
  {
    if x < 0.0 then -x else x
  }

  // ---------------------------------------------------------------------------
  // Week crossover
  // ---------------------------------------------------------------------------

  /**
    `timeCheck`: brings a time difference back across a week boundary.
    At most one week is added or removed, the result is never farther from
    zero than the input, and within three half weeks of zero it lands in
    [-HalfWeek, HalfWeek].
  */
  function TimeCheck(t: real): (r: real)
    ensures r == t || r == t - Week || r == t + Week
    ensures Abs(r) <= Abs(t)
    ensures -3.0 * HalfWeek <= t <= 3.0 * HalfWeek ==> -HalfWeek <= r <= HalfWeek
  {
    if t > HalfWeek then t - 2.0 * HalfWeek
    else if t < -HalfWeek then t + 2.0 * HalfWeek
    else t
  }

  /** Which of the three corrections `TimeCheck` applies, in both directions. */
  lemma TimeCheckCases(t: real)
    ensures TimeCheck(t) == t - Week <==> t > HalfWeek
    ensures TimeCheck(t) == t + Week <==> t < -HalfWeek
    ensures TimeCheck(t) == t <==> -HalfWeek <= t <= HalfWeek
  {
  }

  /** Correcting an already corrected difference changes nothing. */
  lemma TimeCheckIdempotent(t: real)
    requires -3.0 * HalfWeek <= t <= 3.0 * HalfWeek
    ensures TimeCheck(TimeCheck(t)) == TimeCheck(t)
  {
  }

  /**
    Of the three candidates t - Week, t, t + Week, `TimeCheck` picks one
    nearest to zero; on a tie (t == +-HalfWeek) it keeps t.
  */
  lemma TimeCheckNearest(t: real, k: int)
    requires -1 <= k <= 1
    ensures Abs(TimeCheck(t)) <= Abs(t + k as real * Week)
  {
  }

  /** True elapsed time from (weekB, towB) to (weekA, towA). */
  function Elapsed(weekA: int, towA: real, weekB: int, towB: real): real
  {
    (weekA - weekB) as real * Week + (towA - towB)
  }

  /**
    The point of the correction: the difference of two times of week, taken
    without their week numbers, is corrected to the true elapsed time
    whenever that is less than half a week in magnitude, whichever side of a
    week boundary either time lies on.
  */
  lemma WeekCrossover(weekA: int, towA: real, weekB: int, towB: real)
    requires 0.0 <= towA < Week && 0.0 <= towB < Week
    requires -HalfWeek < Elapsed(weekA, towA, weekB, towB) < HalfWeek
    ensures TimeCheck(towA - towB) == Elapsed(weekA, towA, weekB, towB)
  {
    var k := weekA - weekB;
    var d := towA - towB;
    assert Week == 604800.0;
    if k >= 2 {
      ScaleOrder(Week, 2.0, k as real);
      assert false;
    } else if k <= -2 {
      ScaleOrder(Week, k as real, -2.0);
      assert false;
    }
    assert k == -1 || k == 0 || k == 1;
  }

  // ---------------------------------------------------------------------------
  // Angle reduction
  // ---------------------------------------------------------------------------

  /** Multiplying by a positive factor keeps the order of two reals. */
  lemma ScaleOrder(c: real, a: real, b: real)
    requires c > 0.0
    ensures a <= b ==> c * a <= c * b
    ensures a < b ==> c * a < c * b
  {
  }

  /** The floor of q is the integer f with f <= q < f + 1. */
  lemma FloorUnique(q: real, f: int)
    requires f as real <= q < f as real + 1.0
    ensures q.Floor == f
  {
  }

  /** m * floor(x / m) is the largest multiple of m not above x. */
  lemma FloorScaled(x: real, m: real)
    requires m > 0.0
    ensures m * (x / m).Floor as real <= x < m * (x / m).Floor as real + m
  {
    var q := x / m;
    assert m * q == x;
    ScaleBetween(x, m, q, q.Floor as real);
  }

  /**
    If x == m * q with m > 0, and f lies within one unit below q, then m * f
    lies within m below x.
  */
  lemma ScaleBetween(x: real, m: real, q: real, f: real)
    requires m > 0.0 && m * q == x
    requires f <= q < f + 1.0
    ensures m * f <= x < m * f + m
  {
    var d := q - f;
    assert 0.0 <= d < 1.0;
    ScaleOrder(m, 0.0, d);
    ScaleOrder(m, d, 1.0);
    assert 0.0 <= m * d < m;
    assert m * d == x - m * f;
  }

  /** `np.remainder(x, m)`: the floored remainder, taking the sign of m. */
  function Remainder(x: real, m: real): (r: real)
    requires m > 0.0
    ensures 0.0 <= r < m
  {
    FloorScaled(x, m);
    x - m * (x / m).Floor as real
  }

  /** A value already in [0, m) is its own remainder. */
  lemma RemainderOfReduced(x: real, m: real)
    requires m > 0.0 && 0.0 <= x < m
    ensures Remainder(x, m) == x
  {
    var q := x / m;
    assert m * q == x;
    if q < 0.0 {
      ScaleOrder(m, q, 0.0);
      assert false;
    }
    if q >= 1.0 {
      ScaleOrder(m, 1.0, q);
      assert false;
    }
    FloorUnique(q, 0);
  }

  /** Adding one period does not change the remainder. */
  lemma RemainderShift(x: real, m: real)
    requires m > 0.0
    ensures Remainder(x + m, m) == Remainder(x, m)
  {
    var q := x / m;
    var q' := (x + m) / m;
    assert m * q == x;
    assert m * q' == x + m;
    assert m * (q + 1.0) == x + m;
    ScaleCancel(m, q', q + 1.0);
    FloorUnique(q', q.Floor + 1);
  }

  /** A positive factor can be cancelled. */
  lemma ScaleCancel(c: real, a: real, b: real)
    requires c > 0.0 && c * a == c * b
    ensures a == b
  {
  }

  /** `np.remainder(x + 2*PI, 2*PI)`, the source's reduction of an angle to [0, 2*PI). */
  function WrapAngle(x: real): real
  {
    Remainder(x + TwoPi, TwoPi)
  }

  /** Wrapping lands in [0, 2*PI) and leaves a reduced angle unchanged. */
  lemma WrapAngleReduced(x: real)
    ensures 0.0 <= WrapAngle(x) < TwoPi
    ensures 0.0 <= x < TwoPi ==> WrapAngle(x) == x
  {
    RemainderShift(x, TwoPi);
    if 0.0 <= x < TwoPi {
      RemainderOfReduced(x, TwoPi);
    }
  }

  /**
    The Kepler loop's break test `abs(np.remainder(E - E_old, 2*PI)) < 1e-12`.
    The remainder is never negative and repeats every 2*PI, so for a step in
    [1e-12 - 2*PI, 2*PI) the test passes only when the step lies in [0, 1e-12):
    a tiny negative step does not stop the loop, while a step within 1e-12
    above a nonzero multiple of 2*PI does.
  */
  predicate SmallStep(step: real)
  {
    Abs(Remainder(step, TwoPi)) < KeplerTolerance
  }

  lemma SmallStepOneSided(step: real)
    requires KeplerTolerance - TwoPi <= step < TwoPi
    ensures SmallStep(step) <==> 0.0 <= step < KeplerTolerance
  {
    if step < 0.0 {
      RemainderShift(step, TwoPi);
      RemainderOfReduced(step + TwoPi, TwoPi);
    } else {
      RemainderOfReduced(step, TwoPi);
    }
  }

  /** The break test cannot tell a step from the same step plus a full turn. */
  lemma SmallStepPeriodic(step: real)
    ensures SmallStep(step + TwoPi) == SmallStep(step)
  {
    RemainderShift(step, TwoPi);
  }

  // ---------------------------------------------------------------------------
  // Kepler's equation E = M + ecc * sin(E), by bounded fixed-point iteration
  // ---------------------------------------------------------------------------

  /** The value of E after k steps of the loop, starting from E = M. */
  function KeplerIterate(meanAnomaly: real, ecc: real, sin: real -> real, k: nat): real
  {
    if k == 0 then meanAnomaly
    else meanAnomaly + ecc * sin(KeplerIterate(meanAnomaly, ecc, sin, k - 1))
  }

  /** Step k (counted from 1) passes the loop's break test. */
  predicate StepConverged(meanAnomaly: real, ecc: real, sin: real -> real, k: nat)
    requires k >= 1
  {
    SmallStep(KeplerIterate(meanAnomaly, ecc, sin, k) - KeplerIterate(meanAnomaly, ecc, sin, k - 1))
  }

  /** The first step at or after `from` that converges, or the last step. */
  function FirstConvergedStep(meanAnomaly: real, ecc: real, sin: real -> real, from: nat): (n: nat)
    requires 1 <= from <= KeplerMaxSteps
    ensures from <= n <= KeplerMaxSteps
    ensures n < KeplerMaxSteps ==> StepConverged(meanAnomaly, ecc, sin, n)
    ensures forall j :: from <= j < n ==> !StepConverged(meanAnomaly, ecc, sin, j)
    decreases KeplerMaxSteps - from
  {
    if from == KeplerMaxSteps || StepConverged(meanAnomaly, ecc, sin, from) then from
    else FirstConvergedStep(meanAnomaly, ecc, sin, from + 1)
  }

  /**
    The number of steps the loop runs: the first step that passes the break
    test, or all ten when none of the first nine does.
  */
  function KeplerSteps(meanAnomaly: real, ecc: real, sin: real -> real): (n: nat)
    ensures 1 <= n <= KeplerMaxSteps
    ensures n < KeplerMaxSteps ==> StepConverged(meanAnomaly, ecc, sin, n)
    ensures forall j :: 1 <= j < n ==> !StepConverged(meanAnomaly, ecc, sin, j)
  {
    FirstConvergedStep(meanAnomaly, ecc, sin, 1)
  }

  /** The eccentric anomaly the loop produces, reduced to [0, 2*PI). */
  function EccentricAnomaly(meanAnomaly: real, ecc: real, sin: real -> real): real
  {
    WrapAngle(KeplerIterate(meanAnomaly, ecc, sin, KeplerSteps(meanAnomaly, ecc, sin)))
  }

  /**
    With zero eccentricity every step returns M itself: one unfolding gives
    M + 0 * sin(..) == M, whatever the earlier iterate was.
  */
  lemma CircularIterate(meanAnomaly: real, sin: real -> real, k: nat)
    ensures KeplerIterate(meanAnomaly, 0.0, sin, k) == meanAnomaly
  {
  }

  /**
    For a circular orbit the loop stops after its first step and, for a mean
    anomaly already reduced to [0, 2*PI), yields E == M exactly.
  */
  lemma CircularOrbit(meanAnomaly: real, sin: real -> real)
    requires 0.0 <= meanAnomaly < TwoPi
    ensures KeplerSteps(meanAnomaly, 0.0, sin) == 1
    ensures EccentricAnomaly(meanAnomaly, 0.0, sin) == meanAnomaly
  {
    CircularIterate(meanAnomaly, sin, 0);
    CircularIterate(meanAnomaly, sin, 1);
    RemainderOfReduced(0.0, TwoPi);
    assert StepConverged(meanAnomaly, 0.0, sin, 1);
    WrapAngleReduced(meanAnomaly);
  }

  /**
    The Kepler loop of `computePosition`: at most ten steps of
    E := M + ecc * sin(E), leaving early on the first small step, then the
    result is reduced to [0, 2*PI).
  */
  method SolveKepler(meanAnomaly: real, ecc: real, sin: real -> real) returns (e: real)
    ensures e == EccentricAnomaly(meanAnomaly, ecc, sin)
    ensures 0.0 <= e < TwoPi
  {
    e := meanAnomaly;
    var steps: nat := 0;
    while steps < KeplerMaxSteps
      invariant steps <= KeplerMaxSteps
      invariant e == KeplerIterate(meanAnomaly, ecc, sin, steps)
      invariant forall j :: 1 <= j <= steps ==> !StepConverged(meanAnomaly, ecc, sin, j)
    {
      var eOld := e;
      e := meanAnomaly + ecc * sin(e);
      var dE := Remainder(e - eOld, TwoPi);
      steps := steps + 1;
      assert e == KeplerIterate(meanAnomaly, ecc, sin, steps);
      assert Abs(dE) < KeplerTolerance <==> StepConverged(meanAnomaly, ecc, sin, steps);
      if Abs(dE) < KeplerTolerance {
        break;
      }
    }
    assert steps == KeplerSteps(meanAnomaly, ecc, sin);
    WrapAngleReduced(e);
    e := WrapAngle(e);
  }

  // ---------------------------------------------------------------------------
  // Satellite clock correction
  // ---------------------------------------------------------------------------

  /** The fields of a broadcast ephemeris record that the clock model reads. */
  datatype BrdcEphemeris = BrdcEphemeris(
    toe: real,      // ephemeris reference time (seconds of week)
    toc: real,      // clock reference time (seconds of week)
    af0: real,      // clock bias (s)
    af1: real,      // clock drift (s/s)
    af2: real,      // clock drift rate (s/s^2)
    ecc: real,      // eccentricity
    sqrtA: real,    // square root of the semi-major axis
    deltan: real,   // mean-motion difference (rad/s)
    m0: real        // mean anomaly at reference time (rad)
  )

  /** The numeric routines `computePosition` calls, supplied by the caller. */
  datatype Numerics = Numerics(sin: real -> real, sqrt: real -> real)

  /** The clock polynomial, evaluated in Horner form as the source does. */
  function ClockPolynomial(eph: BrdcEphemeris, dt: real): (c: real)
    ensures dt == 0.0 ==> c == eph.af0
  {
    (eph.af2 * dt + eph.af1) * dt + eph.af0
  }

  /** The Horner form is the polynomial af0 + af1*dt + af2*dt^2 of IS-GPS-200. */
  lemma ClockPolynomialExpanded(eph: BrdcEphemeris, dt: real)
    ensures ClockPolynomial(eph, dt) == eph.af2 * dt * dt + eph.af1 * dt + eph.af0
  {
  }

  /** The relativistic term dtr; it vanishes for a circular orbit. */
  function Relativistic(eph: BrdcEphemeris, sinE: real): (dtr: real)
    ensures eph.ecc == 0.0 || sinE == 0.0 ==> dtr == 0.0
  {
    RelativisticF * eph.ecc * eph.sqrtA * sinE
  }

  /** Semi-major axis a = sqrtA^2. */
  function SemiMajorAxis(eph: BrdcEphemeris): real
  {
    eph.sqrtA * eph.sqrtA
  }

  lemma CubeNonZero(a: real)
    requires a != 0.0
    ensures a * a * a != 0.0
  {
  }

  /** Computed mean motion n = sqrt(GM / a^3) + deltan. */
  function MeanMotion(eph: BrdcEphemeris, num: Numerics): real
    requires SemiMajorAxis(eph) != 0.0
  {
    CubeNonZero(SemiMajorAxis(eph));
    num.sqrt(EarthGM / (SemiMajorAxis(eph) * SemiMajorAxis(eph) * SemiMajorAxis(eph))) + eph.deltan
  }

  /** Mean anomaly M = m0 + n*tk at tk seconds from toe, reduced to [0, 2*PI). */
  function MeanAnomaly(eph: BrdcEphemeris, num: Numerics, tk: real): (m: real)
    requires SemiMajorAxis(eph) != 0.0
    ensures 0.0 <= m < TwoPi
  {
    WrapAngleReduced(eph.m0 + MeanMotion(eph, num) * tk);
    WrapAngle(eph.m0 + MeanMotion(eph, num) * tk)
  }

  /** The intermediate and final clock quantities of one `computePosition` call. */
  datatype ClockState = ClockState(
    dt: real,               // time since toc, corrected for week crossover
    satClkCorr: real,       // clock polynomial at dt
    tk: real,               // time since toe of the clock-corrected time
    meanAnomaly: real,      // M, reduced to [0, 2*PI)
    eccentricAnomaly: real, // E, reduced to [0, 2*PI)
    dtr: real,              // relativistic term
    clockCorrection: real   // the correction returned to the caller
  )

  /** A zero semi-major axis makes GM / a^3 divide by zero (Python's ZeroDivisionError). */
  datatype ClockResult = Computed(state: ClockState) | ZeroDivision

  /**
    The clock path of `computePosition` at the time of interest `time`:
    dt from toc with week crossover, the clock polynomial, the time shifted
    by that correction, tk from toe, the mean anomaly, the Kepler loop, and
    the returned correction (polynomial minus the relativistic term).
  */
  method ComputeClock(eph: BrdcEphemeris, time: real, num: Numerics) returns (r: ClockResult)
    ensures r.ZeroDivision? <==> SemiMajorAxis(eph) == 0.0
    ensures r.Computed? ==>
      var s := r.state;
      && s.dt == TimeCheck(time - eph.toc)
      && s.satClkCorr == ClockPolynomial(eph, s.dt)
      && s.tk == TimeCheck((time - s.satClkCorr) - eph.toe)
      && SemiMajorAxis(eph) != 0.0
      && s.meanAnomaly == MeanAnomaly(eph, num, s.tk)
      && s.eccentricAnomaly == EccentricAnomaly(s.meanAnomaly, eph.ecc, num.sin)
      && s.dtr == Relativistic(eph, num.sin(s.eccentricAnomaly))
      && s.clockCorrection == s.satClkCorr - s.dtr
    ensures r.Computed? ==> 0.0 <= r.state.meanAnomaly < TwoPi && 0.0 <= r.state.eccentricAnomaly < TwoPi
    ensures r.Computed? && eph.ecc == 0.0 ==>
      r.state.eccentricAnomaly == r.state.meanAnomaly && r.state.clockCorrection == r.state.satClkCorr
  {
    var dt := TimeCheck(time - eph.toc);
    var satClkCorr := ClockPolynomial(eph, dt);
    var t := time - satClkCorr;
    var tk := TimeCheck(t - eph.toe);
    var a := SemiMajorAxis(eph);
    if a == 0.0 {
      return ZeroDivision;
    }
    var m := MeanAnomaly(eph, num, tk);
    var e := SolveKepler(m, eph.ecc, num.sin);
    if eph.ecc == 0.0 {
      CircularOrbit(m, num.sin);
    }
    var dtr := Relativistic(eph, num.sin(e));
    var clockCorrection := ClockPolynomial(eph, dt) - dtr;
    r := Computed(ClockState(dt, satClkCorr, tk, m, e, dtr, clockCorrection));
  }
}
