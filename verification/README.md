# control-2D-3D, modelled in Dafny

A model of the motion helpers of `control-2D-3D`. Each stepper (`moveTo`, `turnTo` in 2D,
`speedUpTo`) turns a start, a target and a speed into a list of timed samples, one sample
every `duration` seconds; 3D `turnTo` rotates a vector and emits no samples.

- `moveTo` (2D and 3D) walks the straight line from `from` to `to` at constant speed. It
  emits one sample per whole step of `duration * speed`. When the distance is not a whole
  number of steps, it appends the target itself, reached after the remaining distance at
  `speed`.
- `turnTo` (2D) ramps a rotation from `from` to `to` the same way. It reports every angle
  through `normalizeAngle`, which maps an angle into `[0, 360)`.
- `speedUpTo` (2D) follows a trapezoidal speed profile built by `createFindDistance`. The
  speed starts at `speed`, ramps up to `maxSpeed` from `start`, cruises until `end`, then
  ramps back down. It emits samples until the profile's distance reaches the target.
- `turnTo` (3D) applies the z-x-z Euler rotation matrix of three angles to a vector.

All numbers are mathematical reals. The files are:

- `numbers.dfy` (module `Numbers`): JavaScript's `%` (a remainder truncated toward zero),
  `Math.abs`, and the count of whole steps within a distance.
- `speed_profile.dfy` (module `SpeedProfile`): `createFindDistance` / `findDistance`.
- `control2d.dfy` (module `Control2D`): `moveTo`, `turnTo`, `normalizeAngle` and `speedUpTo`
  of `control2D.js`.
- `control3d.dfy` (module `Control3D`): `moveTo` and `turnTo` of `control3D.js`.

Each stepping loop is a `method` with the source's `for` loop, written as a `while`, and the source's variables
(`positionX`, `currentTime`, `i`, ...). Each is proved equal to a closed-form function:
`MoveToSamples`, `TurnToSamples` or `SpeedUpSamples`. The properties of the output are
lemmas about those functions.

`findDistance` does not plateau once braking ends: after `decelerationTime` it keeps growing
at `speed`, because its last branch still adds `speed * t`. The model follows the code
(`SpeedProfile.FindDistanceAfterDeceleration`).

## Model

| member | source | states |
|---|---|---|
| Numbers.Abs | control2D.js:49 | `Math.abs`: the result is non-negative and is `x` or `-x` |
| Numbers.Rem | control2D.js:17 | JavaScript's `%` on reals: `a - trunc(a / b) * b`, the quotient truncated toward zero (its bounds are `Numbers.RemBounds`) |
| Numbers.Trunc | control2D.js:17 | the quotient behind `%` is rounded toward zero: it lies within one of `x`, on the side of zero |
| Numbers.RemBounds | control2D.js:17 | `a % b` keeps the sign of `a` and is smaller than `b` in size; for `a >= 0` it is the floored remainder |
| Numbers.WithinSteps | control2D.js:22 | the cursor `k * step` satisfies the loop test `i <= distance` exactly when `k <= floor(distance / step)` |
| Numbers.CursorIsProduct | control2D.js:22 | after `k` increments `i += step` the cursor is exactly `k * step` |
| Numbers.TimeOfDistance | control2D.js:26-32 | the last whole step's time plus `remainder / speed` is `distance / speed` |
| Numbers.SampleTimesIncrease | control2D.js:26-32 | a stepper's time stamps strictly increase, including the remainder sample |
| Control2D.ZeroDistance | control2D.js:15 | the `Math.hypot` distance is zero exactly when `from == to` |
| Control2D.MoveTo | control2D.js:10-36 | the loop's result is `MoveToSamples`: one sample per whole step, then the target when a remainder is left |
| Control2D.NextStepSample | control2D.js:23-27 | each later loop sample moves by `distance / numberOfSteps` per axis and comes `duration` later |
| Control2D.MoveToEndsAtTarget | control2D.js:22-33 | `moveTo` has `floor(distance / step) + 1` loop samples, plus one when a remainder is left; the last is exactly `to` at `distance / speed` |
| Control2D.MoveToOnSegment | control2D.js:22-33 | every sample lies on the segment from `from` to `to` |
| Control2D.MoveToTimesIncrease | control2D.js:22-33 | sample times strictly increase |
| Control2D.MoveToStepDistance | control2D.js:22-29 | the `k`-th loop sample lies `k * duration * speed` from the start |
| Control2D.LerpDistance | control2D.js:24-25 | a point a fraction `f` along the segment is `f * distance` from the start |
| Control2D.MoveToSamePoint | control2D.js:10-36 | a move onto the start point gives the single sample `(from, 0)` |
| Control2D.MoveToExample | control2D.js:8 | the documented call from (1, 1) to (12, 1) gives exactly 12 samples, the `k`-th at (1 + k, 1) at time k/2, so the last is (12, 1) at 5.5 |
| Control2D.ExampleSample | control2D.js:8 | in that call the `k`-th sample, for each `k < 12`, is (1 + k, 1) at time k/2 |
| Control2D.NormalizeAngle | control2D.js:74-82 | the result lies in `[0, 360)` |
| Control2D.NormalizeAngleFloored | control2D.js:74-82 | the result is `angle - floor(angle / 360) * 360` |
| Control2D.NormalizeAngleTurns | control2D.js:74-82 | adding whole turns does not change the result |
| Control2D.NormalizeAngleUnique | control2D.js:74-82 | the result is the only value in `[0, 360)` a whole number of turns from `angle` |
| Control2D.NormalizeAngleIdempotent | control2D.js:74-82 | normalising twice equals normalising once |
| Control2D.NormalizeAngleShift | control2D.js:74-82 | normalising before a shift does not change the normalised result |
| Control2D.RotationPerStep | control2D.js:52-55 | `distanceRotation / numberOfSteps` is one step of `duration * speed` in the direction of `to` |
| Control2D.NextTurnState | control2D.js:60-63 | each loop step turns by one signed step and advances time by `duration` |
| Control2D.TurnTo | control2D.js:47-72 | the loop's result is `TurnToSamples`: normalised angles one step apart, then the normalised target when a remainder is left |
| Control2D.TurnToEndsAtTarget | control2D.js:59-69 | `turnTo` has `floor(abs(to - from) / step) + 1` loop samples, plus one with a remainder; the last is `normalizeAngle(to)` at `abs(to - from) / speed` |
| Control2D.TurnStateAtTarget | control2D.js:59-65 | when the rotation is a whole number of steps, the last step lands exactly on `to` |
| Control2D.TurnToSteps | control2D.js:59-65 | the first sample is `normalizeAngle(from)` at 0; each further loop sample is the previous one turned by a signed step, renormalised |
| Control2D.TurnStep | control2D.js:60-64 | one rotation step, seen through `normalizeAngle`, is the previous normalised angle plus a signed step, renormalised |
| Control2D.TurnToAnglesNormalized | control2D.js:59-69 | every angle `turnTo` reports, loop and remainder samples alike, lies in `[0, 360)` |
| Control2D.TurnToTimesIncrease | control2D.js:59-69 | sample times strictly increase |
| Control2D.TurnToSameAngle | control2D.js:47-72 | turning onto the same angle gives the single sample `(normalizeAngle(angle), 0)` |
| Control2D.TurnToExample | control2D.js:45 | the documented call `turnTo(400, -400, 0.5, 60)` gives 28 samples: 40, 10, 340, ..., ending at 320 at 40/3 s |
| SpeedProfile.AccelerationTime | control2D.js:128 | `accelerationTime = start + (maxSpeed - speed) / acceleration` |
| SpeedProfile.DecelerationTime | control2D.js:129 | `decelerationTime = end + (maxSpeed - speed) / deceleration` |
| SpeedProfile.MinimumSpeedDistance | control2D.js:130 | `minimumSpeedDistance = speed * t` |
| SpeedProfile.AccelerationDistance | control2D.js:132-134 | the whole ramp up's `distanceWithAcceleration`, from `accelerationTimeSpan` and `currentSpeedDuringAcceleration` |
| SpeedProfile.CruiseDistance | control2D.js:136 | the whole cruise's `maximumSpeedDistance = (end - accelerationTime) * (maxSpeed - speed)` |
| SpeedProfile.DecelerationDistance | control2D.js:138-140 | the whole ramp down's `distanceWithDeceleration`, from `decelerationTimeSpan` and `currentBrakingSpeed` |
| SpeedProfile.AccelerationGain | control2D.js:146-149 | the ramp-up branch's `distanceWithAcceleration` at time `t` |
| SpeedProfile.DecelerationGain | control2D.js:158-163 | the ramp-down branch's `distanceWithDeceleration` at time `t`, braking counted from `end` |
| SpeedProfile.FindDistance | control2D.js:127-169 | the five branches of `findDistance`, term for term: before `start`, ramp up, cruise, ramp down, after `decelerationTime` |
| SpeedProfile.FindDistanceContinuous | control2D.js:126-170 | at `start`, `accelerationTime`, `end` and `decelerationTime` the adjacent branches of `findDistance` agree |
| SpeedProfile.RampTimes | control2D.js:128-129 | `start <= accelerationTime <= end <= decelerationTime` |
| SpeedProfile.DecelerationComplete | control2D.js:138-165 | the ramp-down branch at `decelerationTime` equals the precomputed `distanceWithDeceleration` |
| SpeedProfile.FindDistanceAfterDeceleration | control2D.js:168 | after `decelerationTime` the distance grows at `speed`: no plateau |
| SpeedProfile.RampDistancesNonNegative | control2D.js:132-140 | each ramp's contribution is non-negative |
| SpeedProfile.AccelerationGainMonotone | control2D.js:146-151 | during the ramp up the extra distance grows from 0 to `distanceWithAcceleration` |
| SpeedProfile.CruiseGainMonotone | control2D.js:153-156 | while cruising the extra distance grows from 0 to `maximumSpeedDistance` |
| SpeedProfile.DecelerationGainForm | control2D.js:159-163 | the ramp-down term is `(maxSpeed - speed) * u - deceleration * u * u / 2` after a braking time `u` |
| SpeedProfile.DecelerationGainMonotone | control2D.js:158-166 | during the ramp down the extra distance grows from 0 to `distanceWithDeceleration` |
| SpeedProfile.GainMonotone | control2D.js:142-168 | the distance gained over `speed * t` never decreases |
| SpeedProfile.MinimumSpeedDistanceMonotone | control2D.js:130 | with a non-negative floor speed, `minimumSpeedDistance` never decreases with `t` |
| SpeedProfile.FindDistanceMonotone | control2D.js:126-170 | `findDistance` never decreases with `t` |
| SpeedProfile.FindDistanceBounds | control2D.js:126-170 | `speed * t <= findDistance(t) <= speed * t` plus the three ramp distances |
| SpeedProfile.GainBounds | control2D.js:142-168 | the distance gained over `speed * t` lies between 0 and the three ramp distances together |
| Control2D.FloorBoundReached | control2D.js:113-114 | the profile passes `distance` no later than the step where `speed * t` does |
| Control2D.ReachIndex | control2D.js:113-114 | a search from step `k` finds the first step whose profile distance reaches `distance`, within the floor-speed bound |
| Control2D.ReachExists | control2D.js:113 | some step reaches the distance, and every earlier step falls short |
| Control2D.FirstReach | control2D.js:113 | the first step whose profile distance reaches `distance` |
| Control2D.SpeedUpTo | control2D.js:99-124 | the loop's result is `SpeedUpSamples`: one sample per step up to and including the first step that reaches the distance |
| Control2D.SpeedUpStep | control2D.js:113-120 | one loop pass appends the next profile sample, and the loop continues exactly while the first reach is still ahead |
| Control2D.ReachedBounds | control2D.js:114-117 | the clamped `currentDistance` lies in `[0, distance]` |
| Control2D.ProfileSampleOnLine | control2D.js:118-120 | each sample is the point `currentDistance / distance` along the segment, at time `k * duration` |
| Control2D.SpeedUpEmpty | control2D.js:108-113 | `speedUpTo` returns no samples exactly when `from == to` |
| Control2D.SpeedUpEndsAtTarget | control2D.js:113-121 | every sample but the last falls short of the distance; the last reaches it and is exactly `to` |
| Control2D.SpeedUpOnSegment | control2D.js:118-120 | every sample lies on the segment from `from` to `to` |
| Control2D.ScaledPointDistance | control2D.js:118-119 | the point computed from `currentDistance` lies `currentDistance` from the start |
| Control2D.ScaledPointAtEnd | control2D.js:116-119 | once `currentDistance` is clamped to `distance`, the computed point is `to` |
| Control2D.SpeedUpFloorBound | control2D.js:113-130 | before the last sample, even the floor-speed distance `speed * t` is short of the target |
| Control2D.SpeedUpProgress | control2D.js:113-120 | sample `j` lies `currentDistance_j` from the start; distances never decrease; samples are `duration` apart |
| Control3D.ZeroDistance | control3D.js:16 | the distance is zero exactly when `from == to` |
| Control3D.MoveTo | control3D.js:9-38 | the loop's result is `MoveToSamples`, as in 2D with a third coordinate |
| Control3D.NextStepSample | control3D.js:24-29 | each later loop sample moves by `distance / numberOfSteps` per axis and comes `duration` later |
| Control3D.MoveToEndsAtTarget | control3D.js:23-35 | the sample count is `floor(distance / step) + 1`, plus one with a remainder; the last sample is exactly `to` at `distance / speed` |
| Control3D.MoveToOnSegment | control3D.js:23-35 | every sample lies on the segment from `from` to `to` |
| Control3D.MoveToTimesIncrease | control3D.js:23-35 | sample times strictly increase |
| Control3D.MoveToStepDistance | control3D.js:23-31 | the `k`-th loop sample lies `k * duration * speed` from the start |
| Control3D.LerpDistance | control3D.js:25-27 | a point a fraction `f` along the segment is `f * distance` from the start |
| Control3D.MoveToSamePoint | control3D.js:9-38 | a move onto the start point gives the single sample `(from, 0)` |
| Control3D.MoveToExample | control3D.js:40 | the call from (1, 1, 1) to (1, 1, 8) with duration 1 and speed 2 gives 5 samples: z = 1, 3, 5, 7 at t = 0, 1, 2, 3, then (1, 1, 8) at 3.5 |
| Control3D.ExampleSample | control3D.js:40 | in that call the `k`-th loop sample, for each `k <= 3`, is (1, 1, 1 + 2k) at time k |
| Control3D.RotationMatrix | control3D.js:49-61 | the matrix is 3 by 3 |
| Control3D.TurnTo | control3D.js:48-76 | the result has three coordinates |
| Control3D.TurnToComposition | control3D.js:49-73 | the matrix product is the rotation about z by `alpha`, then about x by `beta`, then about z by `gamma` |
| Control3D.TurnToPreservesNorm | control3D.js:49-73 | for actual angles (`sin² + cos² = 1`) the vector's length is unchanged |
| Control3D.TurnToUndo | control3D.js:49-73 | the three opposite turns, in reverse order, bring the result back to the input |
| Control3D.RotateZUndo | control3D.js:49-61 | a turn about z is undone by the opposite turn |
| Control3D.RotateXUndo | control3D.js:49-61 | a turn about x is undone by the opposite turn |
| Control3D.TurnToIdentity | control3D.js:49-73 | with all angles zero the vector is unchanged |
| Control3D.TurnToAdditive | control3D.js:63-73 | turning a sum gives the sum of the turns |
| Control3D.TurnToHomogeneous | control3D.js:63-73 | turning a scaled vector gives the scaled turn |
| Control3D.TurnToThirdComponent | control3D.js:60-72 | the third coordinate is `sin α sin β x + cos α sin β y + cos β z`, whatever `gamma` is |

## Left out

- Floating point: every number is a real. Rounding drift of the repeated `+=` in the loops is not modelled, nor NaN or infinities.
- `Math.hypot` (2D) and `Math.sqrt` (3D): the distance is an argument `distance`. `IsDistance` ties it to the coordinates: it is non-negative and its square is the sum of the squared differences.
- `Math.sin` and `Math.cos` (3D `turnTo`): each angle is given by its sine and cosine (`Trig`). `TurnTo` itself accepts any pair of reals. Norm preservation and `TurnToUndo` require `sin² + cos² = 1`.
- Angle units: the doc comment of 2D `turnTo` (control2D.js:40-43) speaks of radians, but `normalizeAngle` works modulo 360. The model states what the code computes and takes no side. The 3D doc comment (control3D.js:42-47) names only rotation angles, which go straight to `Math.sin` and `Math.cos`.
- `console.log` at control3D.js:78 is output only and is not modelled. Its call passes degree-looking values to radian functions, which the model does not judge.
- Input validation: the source checks nothing. A non-positive `duration` or `speed` is treated as invalid input, and `MoveTo` (2D and 3D), `TurnTo` (2D) and `SpeedUpTo` require `duration > 0 && speed > 0`. This excludes more than the non-terminating runs.
- `MoveTo` and `TurnTo`, non-positive inputs: when one of `duration` and `speed` is zero, or exactly one is negative, the step `duration * speed` is zero or negative and the loop never ends. When both are negative the step is positive and the loop ends, but the sample times fall below zero and the remainder sample's time `remainder / speed` is negative. The requires excludes these terminating runs too.
- `SpeedUpTo`, zero floor speed: with `speed == 0` the profile stops growing after `decelerationTime`, at `distanceWithAcceleration + maximumSpeedDistance + distanceWithDeceleration` (`AccelerationDistance + CruiseDistance + DecelerationDistance`). The loop then ends exactly when `distance` is at most that sum. The requires excludes these terminating runs as well.
- Control2D.SpeedUpTo: handles only coherent profiles (`Valid`): positive rates, `speed <= maxSpeed`, and a ramp up complete by `end`. The source accepts any options. The proof that the loop ends rests on `findDistance(t) >= speed * t`, which holds for these profiles. Other profiles are not modelled.
- `normalizeAngle`'s `angle === 0` branch only turns `-0` into `0`. Reals have no negative zero, so that branch changes nothing in the model.
- `createFindDistance` returns a closure. The model uses a function of the options and `t` (`SpeedProfile.FindDistance`).
- `Control2D.SpeedUpEndsAtTarget`: does not bound the number of samples by `floor(distance / (speed * duration)) + 2`. `Control2D.SpeedUpFloorBound` states that bound's substance instead: every sample before the last is short of the distance even at the floor speed alone.
- `Control3D.TurnTo`: is a function on values. The source builds two fresh arrays and mutates nothing, so there is no in-place update to model.
