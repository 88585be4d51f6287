# NAVy broadcast-ephemeris clock and RINEX selection, in Dafny

NAVy computes GNSS receiver positions from RINEX observation and navigation
files. This project models the parts of it that carry exact, statable logic:

- **GPS week crossover** (`Ephemeris.TimeCheck`, the source's `timeCheck`): a
  time difference above half a week (302400 s) loses one week (604800 s), one
  below minus half a week gains one, anything else is unchanged. The model
  proves the case split in both directions, the bounds, idempotence, that the
  result is the candidate nearest to zero, and that it recovers the true
  elapsed time between two (week, time-of-week) instants whenever that is
  under half a week (the week-crossover rule of IS-GPS-200 section
  20.3.3.3.3.1).
- **Satellite clock correction in `computePosition`**
  (`Ephemeris.ComputeClock`): `dt` from the clock reference time `toc` with
  week crossover, the clock polynomial `(af2*dt + af1)*dt + af0`, the time of
  interest shifted by that correction, `tk` from `toe`, the mean anomaly, the
  bounded Kepler loop, the relativistic term `dtr = F*ecc*sqrtA*sin(E)`, and
  the returned correction (polynomial minus `dtr`).
- **The Kepler loop** (`Ephemeris.SolveKepler`): at most ten fixed-point steps
  `E := M + ecc*sin(E)` from `E = M`, leaving at the first step whose
  `np.remainder(E - E_old, 2*PI)` is below 1e-12, then reducing `E` to
  [0, 2*PI). The model proves the number of steps is the first converging
  step or ten, that a circular orbit stops after one step with `E == M`, and
  that a step in [1e-12 - 2*PI, 2*PI) passes the break test only when it lies
  in [0, 1e-12) (the remainder is never negative, so a tiny negative step
  keeps the loop going). Outside that range the test repeats every 2*PI: a
  step within 1e-12 above a nonzero multiple of 2*PI, such as -2*PI, also
  passes it.
- **Observation codes and systems from the configuration**
  (`Rinex.GetSignals`, `Rinex.Systems`): the `signals` value is split on
  commas exactly as Python's `str.split(",")` does (no trimming, empty pieces
  kept, `""` gives `[""]`), and every entry expands to its C, L, D and S
  observation codes in that order; the `systems` value becomes the set of its
  comma-separated entries.

Arithmetic is over `real`, exactly. `np.sin` and `np.sqrt` are passed in as
total functions (`Ephemeris.Numerics`), so every statement about them is a
statement about how the computation is put together, whatever the functions
return. `np.remainder(x, m)` is modelled as the floored remainder
`x - m*floor(x/m)`, which is Python's sign convention (the result takes the
sign of the divisor). The time of interest, which the source reads from an
undefined name, is a parameter, and `timeCheck`, which the source declares
without `self` but calls as a method, is a standalone function.

`navy/misc/constants.py` is not part of this model; the constants take their
IS-GPS-200 values (pi = 3.1415926535898, GM = 3.986005e14 m^3/s^2,
F = -4.442807633e-10 s/sqrt(m)). No statement proved here depends on them
beyond 2*pi being positive.

`RINEXObs._getSytems` (navy/io/rinex.py:64-68) and `RINEXNav._getSytems`
(navy/io/rinex.py:111-115) have the same body, so both are modelled by the one
function `Rinex.Systems`: they compute the same function of the same
configuration value by construction.

The broadcast-orbit algorithm normally marks a satellite invalid when the
Kepler iteration does not converge within its bound; this code does not (it
stops after ten steps and keeps the last value), and the model follows the
code.

## Model

| member | source | states |
|---|---|---|
| `Ephemeris.TimeCheck` | navy/space/ephemeris.py:135-154 | the result differs from the input by exactly 0, +604800 or -604800, is never farther from zero than the input, and lies in [-302400, 302400] whenever the input lies in [-907200, 907200] |
| `Ephemeris.TimeCheckCases` | navy/space/ephemeris.py:146-154 | a week is subtracted exactly when t > 302400, added exactly when t < -302400, and t is returned unchanged exactly when -302400 <= t <= 302400 (the boundaries themselves are not shifted) |
| `Ephemeris.TimeCheckIdempotent` | navy/space/ephemeris.py:146-154 | on [-907200, 907200] correcting a corrected time changes nothing |
| `Ephemeris.TimeCheckNearest` | navy/space/ephemeris.py:146-154 | among t - 604800, t and t + 604800 the result is one nearest to zero |
| `Ephemeris.WeekCrossover` | navy/space/ephemeris.py:135-154 | for two times of week in [0, 604800) whose true elapsed time (week numbers included) is below half a week in magnitude, correcting their plain difference yields that true elapsed time, across any week boundary |
| `Ephemeris.Remainder` | navy/space/ephemeris.py:104 | `np.remainder(x, m)` with m > 0 lies in [0, m) |
| `Ephemeris.WrapAngleReduced` | navy/space/ephemeris.py:99 | `np.remainder(x + 2*PI, 2*PI)` lies in [0, 2*PI) and leaves an angle already in [0, 2*PI) unchanged |
| `Ephemeris.SmallStepOneSided` | navy/space/ephemeris.py:104-105 | for a step in [1e-12 - 2*PI, 2*PI) the break test passes exactly when 0 <= step < 1e-12: within that range, negative steps never stop the loop |
| `Ephemeris.SmallStepPeriodic` | navy/space/ephemeris.py:104-105 | the break test gives the same answer for a step and for that step plus 2*PI, so it cannot tell a full-turn step from no step |
| `Ephemeris.FirstConvergedStep` | navy/space/ephemeris.py:101-106 | searching from step `from`, the loop stops at the first step that passes the break test, or at step 10 |
| `Ephemeris.KeplerSteps` | navy/space/ephemeris.py:101-106 | the loop runs between 1 and 10 steps; it stops early only at a step that passes the break test, and no earlier step passes it |
| `Ephemeris.CircularIterate` | navy/space/ephemeris.py:103 | with ecc == 0 every iterate of E := M + ecc*sin(E) equals M (a single unfolding) |
| `Ephemeris.CircularOrbit` | navy/space/ephemeris.py:100-107 | with ecc == 0 and M in [0, 2*PI) the loop stops after its first step and E == M exactly |
| `Ephemeris.SolveKepler` | navy/space/ephemeris.py:100-107 | the loop's result is the iterate at the step where it stops (first converging step or the tenth), reduced to [0, 2*PI) |
| `Ephemeris.ClockPolynomial` | navy/space/ephemeris.py:88 | the Horner-form clock polynomial equals af0 at dt == 0 |
| `Ephemeris.ClockPolynomialExpanded` | navy/space/ephemeris.py:88 | the Horner form equals af2*dt*dt + af1*dt + af0 |
| `Ephemeris.Relativistic` | navy/space/ephemeris.py:109 | the relativistic term vanishes when ecc == 0 or sin(E) == 0 |
| `Ephemeris.MeanAnomaly` | navy/space/ephemeris.py:93-99 | the mean anomaly m0 + n*tk, with n = sqrt(GM/a^3) + deltan, is reduced to [0, 2*PI) |
| `Ephemeris.ComputeClock` | navy/space/ephemeris.py:85-127 | division by zero exactly when the semi-major axis is zero; otherwise dt == timeCheck(time - toc), the clock correction is the polynomial at dt, tk == timeCheck((time - correction) - toe), E is the Kepler loop's result for the reduced mean anomaly, and the returned correction is the polynomial at the same dt minus dtr; with ecc == 0, E == M and the returned correction equals the polynomial exactly |
| `Rinex.Split` | navy/io/rinex.py:54 | `str.split` always yields at least one entry |
| `Rinex.SplitPiecesFree` | navy/io/rinex.py:54 | no entry of a split contains a comma |
| `Rinex.JoinSplit` | navy/io/rinex.py:54 | joining the entries with commas gives back the configured value (nothing is trimmed or dropped) |
| `Rinex.SplitJoin` | navy/io/rinex.py:54 | splitting comma-free entries joined by commas gives back exactly those entries, in order, duplicates and empty entries included |
| `Rinex.ObservationCodes` | navy/io/rinex.py:58 | one signal gives four codes: its name prefixed by C, L, D and S, in that order |
| `Rinex.GetSignals` | navy/io/rinex.py:52-60 | the result has four codes per comma-separated entry; position i holds the (i mod 4)-th code of entry i div 4, so entry order is kept and duplicates repeat; an empty value gives ["C", "L", "D", "S"] |
| `Rinex.EntryCodes` | navy/io/rinex.py:56-58 | positions 4k .. 4k+3 of the signal list are exactly the four codes of entry k |
| `Rinex.Distinct` | navy/io/rinex.py:66 | `set(list)` holds exactly the list's entries and is no larger than the list |
| `Rinex.Systems` | navy/io/rinex.py:64-68 | x is a selected system exactly when x is one of the comma-separated entries; repeated entries collapse, there is at least one system and none contains a comma (the same function as navy/io/rinex.py:111-115) |

## Left out

- Orbit geometry of `computePosition` (navy/space/ephemeris.py:110-124): true anomaly, harmonic corrections, node longitude and the ECEF rotation are trigonometric floating-point numerics with nothing exact to state; the satellite position is not returned by the model.
- The `self.lastPosition` store (navy/space/ephemeris.py:125) and the satellite velocity, which the source leaves as a TODO.
- `BRDCEphemeris.fromXArray` and `__init__` (navy/space/ephemeris.py:40-77): empty stubs. The ephemeris record is a value holding the fields the clock path reads (toe, toc, af0, af1, af2, ecc, sqrtA, deltan, m0); the other declared fields are read by no modelled code.
- Floating point: all arithmetic is exact over `real`; rounding, overflow, NaN and the underflow of a tiny a**3 to zero (which also raises ZeroDivisionError in Python) are not modelled.
- Convergence of the Kepler iteration: nothing is claimed about how close the result is to a root of Kepler's equation, since `sin` is an arbitrary function here.
- `RINEXObs.read`, `RINEXObs.getData`, `RINEXNav.read`, `RINEXNav.getSatellitesPositions` (navy/io/rinex.py:27-48, 86-107): file loading and selection through georinex and xarray, datetime parsing and logging, all calls into foreign libraries.
- The ConfigParser lookup `config.get("DEFAULT", ...)`: the model takes the configured string value directly; a missing option (NoOptionError) is not modelled.
- navy/positioning/spp.py (epoch list and orchestration over abstract sources, and the empty `_buildMatrices`), navy/io/gnssdata.py (abstract base classes without behaviour) and main.py (script wiring): no logic of the core.
