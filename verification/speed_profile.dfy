/**
 * The trapezoidal distance profile behind `speedUpTo`: `createFindDistance(options)`
 * returns `findDistance(t)`, the distance covered by time `t` when the speed starts at
 * `speed`, rises by `acceleration` per second from `start` until it reaches `maxSpeed`,
 * cruises until `end`, then falls by `deceleration` per second back to `speed`, which
 * it keeps from then on.
 */
module SpeedProfile {
  import opened Numbers

  /** The `accelerationOptions` record of `speedUpTo`. */
  datatype AccelerationOptions = AccelerationOptions(
    speed: real, maxSpeed: real, acceleration: real, deceleration: real, start: real, end: real)

  /** The rates are usable as divisors, as `findDistance` divides by both. */
  predicate HasRates(o: AccelerationOptions) {
    o.acceleration != 0.0 && o.deceleration != 0.0
  }

  /** The time the speed reaches `maxSpeed`. */
  function AccelerationTime(o: AccelerationOptions): real
    requires HasRates(o)
  {
    o.start + (o.maxSpeed - o.speed) / o.acceleration
  }

  /** The time the speed is back at `speed`. */
  function DecelerationTime(o: AccelerationOptions): real
    requires HasRates(o)
  {
    o.end + (o.maxSpeed - o.speed) / o.deceleration
  }

  /**
   * A coherent profile: positive rates, a floor speed no larger than the cruise speed,
   * and a ramp up that is complete by `end`.
   */
  predicate Valid(o: AccelerationOptions) {
    0.0 < o.acceleration && 0.0 < o.deceleration && 0.0 <= o.speed <= o.maxSpeed &&
    AccelerationTime(o) <= o.end
  }

  /** `minimumSpeedDistance`: the distance covered by time `t` at the floor speed alone. */
  function MinimumSpeedDistance(o: AccelerationOptions, t: real): real {
    o.speed * t
  }

  /** `distanceWithAcceleration`: the distance gained over `speed` during the whole ramp up. */
  function AccelerationDistance(o: AccelerationOptions): real
    requires HasRates(o)
  {
    var accelerationTimeSpan := AccelerationTime(o) - o.start;
    var currentSpeedDuringAcceleration := o.acceleration * accelerationTimeSpan;
    (currentSpeedDuringAcceleration * accelerationTimeSpan) / 2.0
  }

  /** `maximumSpeedDistance`: the distance gained over `speed` while cruising. */
  function CruiseDistance(o: AccelerationOptions): real
    requires HasRates(o)
  {
    (o.end - AccelerationTime(o)) * (o.maxSpeed - o.speed)
  }

  /** `distanceWithDeceleration`: as the source computes it, from the braking rate. */
  function DecelerationDistance(o: AccelerationOptions): real
    requires HasRates(o)
  {
    var decelerationTimeSpan := DecelerationTime(o) - o.end;
    var currentBrakingSpeed := o.deceleration * decelerationTimeSpan;
    (currentBrakingSpeed * decelerationTimeSpan) / 2.0
  }

  /** The distance gained over `speed` by time `t` during the ramp up. */
  function AccelerationGain(o: AccelerationOptions, t: real): real {
    var accelerationTimeSpan := t - o.start;
    var currentSpeedDuringAcceleration := o.acceleration * accelerationTimeSpan;
    (currentSpeedDuringAcceleration * accelerationTimeSpan) / 2.0
  }

  /** The distance gained over `speed` by time `t` during the ramp down, counted from `end`. */
  function DecelerationGain(o: AccelerationOptions, t: real): real {
    var decelerationTimeSpan := t - o.end;
    var currentBrakingSpeed := o.deceleration * decelerationTimeSpan;
    (currentBrakingSpeed * decelerationTimeSpan) / 2.0 +
    (o.maxSpeed - currentBrakingSpeed - o.speed) * decelerationTimeSpan
  }

  /** `findDistance(t)`: five branches, each the floor-speed distance plus what the ramps added. */
  function FindDistance(o: AccelerationOptions, t: real): real
    requires HasRates(o)
  {
    var minimumSpeedDistance := o.speed * t;
    if t < o.start then
      minimumSpeedDistance
    else if t < AccelerationTime(o) then
      minimumSpeedDistance + AccelerationGain(o, t)
    else if t < o.end then
      minimumSpeedDistance + AccelerationDistance(o) + (t - AccelerationTime(o)) * (o.maxSpeed - o.speed)
    else if t < DecelerationTime(o) then
      minimumSpeedDistance + AccelerationDistance(o) + CruiseDistance(o) + DecelerationGain(o, t)
    else
      minimumSpeedDistance + AccelerationDistance(o) + CruiseDistance(o) + DecelerationDistance(o)
  }

  // ---------------------------------------------------------------------------
  // Continuity, growth and monotonicity
  // ---------------------------------------------------------------------------

  /**
   * At each phase boundary the branch that ends there, evaluated at the boundary, gives
   * `findDistance`'s value: the profile has no jumps. At `decelerationTime` the distance
   * is the floor-speed distance plus the three ramp contributions.
   */
  lemma FindDistanceContinuous(o: AccelerationOptions)
    requires Valid(o)
    ensures FindDistance(o, o.start) == o.speed * o.start
    ensures FindDistance(o, AccelerationTime(o)) == o.speed * AccelerationTime(o) + AccelerationGain(o, AccelerationTime(o))
    ensures FindDistance(o, o.end) ==
            o.speed * o.end + AccelerationDistance(o) + (o.end - AccelerationTime(o)) * (o.maxSpeed - o.speed)
    ensures FindDistance(o, DecelerationTime(o)) ==
            o.speed * DecelerationTime(o) + AccelerationDistance(o) + CruiseDistance(o) + DecelerationGain(o, DecelerationTime(o))
    ensures FindDistance(o, DecelerationTime(o)) ==
            o.speed * DecelerationTime(o) + AccelerationDistance(o) + CruiseDistance(o) + DecelerationDistance(o)
  {
    FindDistanceAtStart(o);
    FindDistanceAtAccelerationTime(o);
    FindDistanceAtEnd(o);
    FindDistanceAtDecelerationTime(o);
  }

  /** At `start` no ramp has contributed yet. */
  lemma FindDistanceAtStart(o: AccelerationOptions)
    requires Valid(o)
    ensures FindDistance(o, o.start) == o.speed * o.start
  {
    RampTimes(o);
    assert AccelerationGain(o, o.start) == 0.0;
    assert DecelerationGain(o, o.end) == 0.0;
  }

  /** At `accelerationTime` the ramp-up branch, evaluated there, gives the profile's value. */
  lemma FindDistanceAtAccelerationTime(o: AccelerationOptions)
    requires Valid(o)
    ensures FindDistance(o, AccelerationTime(o)) == o.speed * AccelerationTime(o) + AccelerationGain(o, AccelerationTime(o))
  {
    RampTimes(o);
    assert DecelerationGain(o, o.end) == 0.0;
  }

  /** At `end` the cruise branch, evaluated there, gives the profile's value. */
  lemma FindDistanceAtEnd(o: AccelerationOptions)
    requires Valid(o)
    ensures FindDistance(o, o.end) ==
            o.speed * o.end + AccelerationDistance(o) + (o.end - AccelerationTime(o)) * (o.maxSpeed - o.speed)
  {
    RampTimes(o);
    assert DecelerationGain(o, o.end) == 0.0;
  }

  /** At `decelerationTime` the ramp-down branch has reached `distanceWithDeceleration`. */
  lemma FindDistanceAtDecelerationTime(o: AccelerationOptions)
    requires Valid(o)
    ensures FindDistance(o, DecelerationTime(o)) ==
            o.speed * DecelerationTime(o) + AccelerationDistance(o) + CruiseDistance(o) + DecelerationGain(o, DecelerationTime(o))
    ensures FindDistance(o, DecelerationTime(o)) ==
            o.speed * DecelerationTime(o) + AccelerationDistance(o) + CruiseDistance(o) + DecelerationDistance(o)
  {
    RampTimes(o);
    DecelerationComplete(o);
  }

  /** The ramp up ends no earlier than it starts, and the ramp down no earlier than `end`. */
  lemma RampTimes(o: AccelerationOptions)
    requires Valid(o)
    ensures o.start <= AccelerationTime(o) <= o.end <= DecelerationTime(o)
  {
    assert 0.0 <= (o.maxSpeed - o.speed) / o.acceleration;
    assert 0.0 <= (o.maxSpeed - o.speed) / o.deceleration;
  }

  /**
   * The braking speed at `decelerationTime` has fallen by exactly `maxSpeed - speed`, so
   * the ramp-down branch there reaches the source's `distanceWithDeceleration`.
   */
  lemma DecelerationComplete(o: AccelerationOptions)
    requires Valid(o)
    ensures DecelerationGain(o, DecelerationTime(o)) == DecelerationDistance(o)
  {
    var span := DecelerationTime(o) - o.end;
    assert o.deceleration * span == o.maxSpeed - o.speed;
  }

  /**
   * After `decelerationTime` the profile keeps growing at the floor speed: it does not
   * stop at the distance reached when braking ends.
   */
  lemma FindDistanceAfterDeceleration(o: AccelerationOptions, t: real)
    requires Valid(o)
    requires DecelerationTime(o) <= t
    ensures FindDistance(o, t) == FindDistance(o, DecelerationTime(o)) + o.speed * (t - DecelerationTime(o))
  {
    RampTimes(o);
  }

  /** The distance gained over the floor speed by time `t`. */
  function Gain(o: AccelerationOptions, t: real): real
    requires HasRates(o)
  {
    FindDistance(o, t) - MinimumSpeedDistance(o, t)
  }

  /** Which branch of `findDistance` applies at `t`, numbered 0 to 4. */
  function Phase(o: AccelerationOptions, t: real): nat
    requires HasRates(o)
  {
    if t < o.start then 0
    else if t < AccelerationTime(o) then 1
    else if t < o.end then 2
    else if t < DecelerationTime(o) then 3
    else 4
  }

  /** The gain at the start of each phase. */
  function PhaseLow(o: AccelerationOptions, phase: nat): real
    requires HasRates(o)
  {
    if phase <= 1 then 0.0
    else if phase == 2 then AccelerationDistance(o)
    else if phase == 3 then AccelerationDistance(o) + CruiseDistance(o)
    else AccelerationDistance(o) + CruiseDistance(o) + DecelerationDistance(o)
  }

  /** The gain at the end of each phase. */
  function PhaseHigh(o: AccelerationOptions, phase: nat): real
    requires HasRates(o)
  {
    if phase == 0 then 0.0
    else if phase == 1 then AccelerationDistance(o)
    else if phase == 2 then AccelerationDistance(o) + CruiseDistance(o)
    else AccelerationDistance(o) + CruiseDistance(o) + DecelerationDistance(o)
  }

  /** Each ramp contributes a non-negative distance. */
  lemma RampDistancesNonNegative(o: AccelerationOptions)
    requires Valid(o)
    ensures 0.0 <= AccelerationDistance(o) && 0.0 <= CruiseDistance(o) && 0.0 <= DecelerationDistance(o)
  {
    RampTimes(o);
    HalfScaledSquareMonotone(o.acceleration, 0.0, AccelerationTime(o) - o.start);
    ScaleMonotone(o.maxSpeed - o.speed, 0.0, o.end - AccelerationTime(o));
    HalfScaledSquareMonotone(o.deceleration, 0.0, DecelerationTime(o) - o.end);
  }

  /** During the ramp up the gain grows from nothing to the whole ramp's distance. */
  lemma AccelerationGainMonotone(o: AccelerationOptions, t1: real, t2: real)
    requires Valid(o)
    requires o.start <= t1 <= t2 <= AccelerationTime(o)
    ensures 0.0 <= AccelerationGain(o, t1) <= AccelerationGain(o, t2) <= AccelerationDistance(o)
  {
    HalfScaledSquareMonotone(o.acceleration, t1 - o.start, t2 - o.start);
    HalfScaledSquareMonotone(o.acceleration, t2 - o.start, AccelerationTime(o) - o.start);
  }

  /** While cruising the gain grows at `maxSpeed - speed`, up to the whole cruise distance. */
  lemma CruiseGainMonotone(o: AccelerationOptions, t1: real, t2: real)
    requires Valid(o)
    requires AccelerationTime(o) <= t1 <= t2 <= o.end
    ensures 0.0 <= (t1 - AccelerationTime(o)) * (o.maxSpeed - o.speed)
                <= (t2 - AccelerationTime(o)) * (o.maxSpeed - o.speed)
                <= CruiseDistance(o)
  {
    var rise := o.maxSpeed - o.speed;
    ScaleMonotone(rise, 0.0, t1 - AccelerationTime(o));
    ScaleMonotone(rise, t1 - AccelerationTime(o), t2 - AccelerationTime(o));
    ScaleMonotone(rise, t2 - AccelerationTime(o), o.end - AccelerationTime(o));
  }

  /**
   * The ramp-down gain is `(maxSpeed - speed) * u - deceleration * u * u / 2` after a
   * span `u` of braking.
   */
  lemma DecelerationGainForm(o: AccelerationOptions, t: real)
    ensures DecelerationGain(o, t) ==
            (o.maxSpeed - o.speed) * (t - o.end) - o.deceleration * ((t - o.end) * (t - o.end)) / 2.0
  {
  }

  /** While braking, before the speed is back at the floor, the gain still grows. */
  lemma DecelerationGainStep(o: AccelerationOptions, t1: real, t2: real)
    requires Valid(o)
    requires o.end <= t1 <= t2 <= DecelerationTime(o)
    ensures DecelerationGain(o, t1) <= DecelerationGain(o, t2)
  {
    var u1, u2 := t1 - o.end, t2 - o.end;
    var span := DecelerationTime(o) - o.end;
    var rise := o.maxSpeed - o.speed;
    assert o.deceleration * span == rise;
    DecelerationGainForm(o, t1);
    DecelerationGainForm(o, t2);
    ScaleMonotone(o.deceleration, (u1 + u2) / 2.0, span);
    ScaleMonotone(u2 - u1, 0.0, rise - o.deceleration * ((u1 + u2) / 2.0));
    assert DecelerationGain(o, t2) - DecelerationGain(o, t1)
        == (u2 - u1) * (rise - o.deceleration * ((u1 + u2) / 2.0));
  }

  /** During the ramp down the gain grows from nothing to the source's braking distance. */
  lemma DecelerationGainMonotone(o: AccelerationOptions, t1: real, t2: real)
    requires Valid(o)
    requires o.end <= t1 <= t2 <= DecelerationTime(o)
    ensures 0.0 <= DecelerationGain(o, t1) <= DecelerationGain(o, t2) <= DecelerationDistance(o)
  {
    assert DecelerationGain(o, o.end) == 0.0 by {
      DecelerationGainForm(o, o.end);
    }
    DecelerationGainStep(o, o.end, t1);
    DecelerationGainStep(o, t1, t2);
    DecelerationGainStep(o, t2, DecelerationTime(o));
    DecelerationComplete(o);
  }

  /** The gain at `t` lies between the gains at the start and the end of `t`'s phase. */
  lemma GainWithinPhase(o: AccelerationOptions, t: real)
    requires Valid(o)
    ensures PhaseLow(o, Phase(o, t)) <= Gain(o, t) <= PhaseHigh(o, Phase(o, t))
  {
    RampTimes(o);
    RampDistancesNonNegative(o);
    match Phase(o, t)
    case 0 =>
    case 1 => AccelerationGainMonotone(o, t, t);
    case 2 => CruiseGainMonotone(o, t, t);
    case 3 => DecelerationGainMonotone(o, t, t);
    case _ =>
  }

  /** Within one phase the gain grows with time. */
  lemma GainSamePhase(o: AccelerationOptions, t1: real, t2: real)
    requires Valid(o)
    requires t1 <= t2 && Phase(o, t1) == Phase(o, t2)
    ensures Gain(o, t1) <= Gain(o, t2)
  {
    RampTimes(o);
    match Phase(o, t1)
    case 0 =>
    case 1 => AccelerationGainMonotone(o, t1, t2);
    case 2 => CruiseGainMonotone(o, t1, t2);
    case 3 => DecelerationGainMonotone(o, t1, t2);
    case _ =>
  }

  /** A later phase starts with at least the gain an earlier one ends with. */
  lemma PhasesOrdered(o: AccelerationOptions, p1: nat, p2: nat)
    requires Valid(o)
    requires p1 < p2
    ensures PhaseHigh(o, p1) <= PhaseLow(o, p2)
  {
    RampDistancesNonNegative(o);
  }

  /** The gain never decreases: it grows within each phase and does not drop between phases. */
  lemma GainMonotone(o: AccelerationOptions, t1: real, t2: real)
    requires Valid(o)
    requires t1 <= t2
    ensures Gain(o, t1) <= Gain(o, t2)
  {
    RampTimes(o);
    var p1, p2 := Phase(o, t1), Phase(o, t2);
    if p1 == p2 {
      GainSamePhase(o, t1, t2);
    } else {
      assert p1 < p2;
      GainWithinPhase(o, t1);
      GainWithinPhase(o, t2);
      PhasesOrdered(o, p1, p2);
    }
  }

  /** `findDistance` never decreases: neither the floor-speed distance nor the gain does. */
  lemma FindDistanceMonotone(o: AccelerationOptions, t1: real, t2: real)
    requires Valid(o)
    requires t1 <= t2
    ensures FindDistance(o, t1) <= FindDistance(o, t2)
  {
    GainMonotone(o, t1, t2);
    MinimumSpeedDistanceMonotone(o, t1, t2);
  }

  /** The floor-speed distance never decreases, the floor speed being non-negative. */
  lemma MinimumSpeedDistanceMonotone(o: AccelerationOptions, t1: real, t2: real)
    requires 0.0 <= o.speed && t1 <= t2
    ensures MinimumSpeedDistance(o, t1) <= MinimumSpeedDistance(o, t2)
  {
    ScaleMonotone(o.speed, t1, t2);
  }

  /**
   * `findDistance` is never below the floor-speed distance `speed * t`, and exceeds it
   * by at most the three ramp contributions together.
   */
  lemma FindDistanceBounds(o: AccelerationOptions, t: real)
    requires Valid(o)
    ensures o.speed * t <= FindDistance(o, t)
    ensures FindDistance(o, t) <= o.speed * t + AccelerationDistance(o) + CruiseDistance(o) + DecelerationDistance(o)
  {
    GainBounds(o, t);
  }

  /** The gain over the floor speed is non-negative and at most the three ramp contributions together. */
  lemma GainBounds(o: AccelerationOptions, t: real)
    requires Valid(o)
    ensures 0.0 <= Gain(o, t) <= AccelerationDistance(o) + CruiseDistance(o) + DecelerationDistance(o)
  {
    GainWithinPhase(o, t);
    RampDistancesNonNegative(o);
  }
}
