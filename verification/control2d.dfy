/**
 * The planar controls: a constant-speed linear stepper (`moveTo`), a constant-speed
 * rotation ramp with angle normalisation (`turnTo`, `normalizeAngle`), and a stepper
 * that follows a trapezoidal speed profile (`speedUpTo` over `createFindDistance`).
 * Numbers are mathematical reals; `Math.hypot` is replaced by a distance argument.
 */
module Control2D {
  import opened Numbers
  import opened SpeedProfile

  datatype Point = Point(x: real, y: real)

  /** One sample of a planar trajectory: a position and the time it is reached. */
  datatype Sample = Sample(x: real, y: real, t: real)

  /** One sample of a rotation ramp: an angle in [0, 360) and the time it is reached. */
  datatype AngleSample = AngleSample(angle: real, t: real)

  /** `distance` is the Euclidean distance from `from` to `to`, as `Math.hypot` returns it. */
  predicate IsDistance(from: Point, to: Point, distance: real) {
    0.0 <= distance && Sq(distance) == Sq(to.x - from.x) + Sq(to.y - from.y)
  }

  /** The point a fraction `f` of the way from `from` to `to`. */
  function Lerp(from: Point, to: Point, f: real): Point {
    Point(from.x + f * (to.x - from.x), from.y + f * (to.y - from.y))
  }

  /** The sample's position lies on the closed segment from `from` to `to`. */
  ghost predicate OnSegment(s: Sample, from: Point, to: Point) {
    exists f: real :: 0.0 <= f <= 1.0 && Lerp(from, to, f) == Point(s.x, s.y)
  }

  /** The distance vanishes exactly when the two points coincide. */
  lemma ZeroDistance(from: Point, to: Point, distance: real)
    requires IsDistance(from, to, distance)
    ensures distance == 0.0 <==> from == to
  {
    SqPositive(to.x - from.x);
    SqPositive(to.y - from.y);
    SqPositive(distance);
  }

  // ---------------------------------------------------------------------------
  // moveTo: constant-speed linear stepper
  // ---------------------------------------------------------------------------

  /** The `k`-th sample of the stepping loop: `k` steps along the line, `k` durations in. */
  function StepSample(from: Point, to: Point, duration: real, speed: real, distance: real, k: nat): Sample {
    var p := Lerp(from, to, StepFraction(distance, duration * speed, k));
    Sample(p.x, p.y, k as real * duration)
  }

  /** The first `n` samples of the stepping loop. */
  function StepSamples(from: Point, to: Point, duration: real, speed: real, distance: real, n: nat): seq<Sample> {
    seq(n, k requires 0 <= k < n => StepSample(from, to, duration, speed, distance, k))
  }

  /**
   * The sample appended after the loop: the target itself, reached `remainder / speed`
   * after the last whole step, when the distance is not a whole number of steps.
   */
  function RemainderSample(to: Point, duration: real, speed: real, distance: real): seq<Sample>
    requires 0.0 < duration && 0.0 < speed && 0.0 <= distance
  {
    var remainder := Rem(distance, duration * speed);
    if remainder != 0.0 then [Sample(to.x, to.y, LastStep(distance, duration * speed) as real * duration + remainder / speed)]
    else []
  }

  /** A sequence that agrees with the stepping loop's samples at every index is their prefix. */
  lemma StepSamplesAgree(from: Point, to: Point, duration: real, speed: real, distance: real, s: seq<Sample>)
    requires forall j :: 0 <= j < |s| ==> s[j] == StepSample(from, to, duration, speed, distance, j)
    ensures s == StepSamples(from, to, duration, speed, distance, |s|)
  {
  }

  /**
   * What `moveTo` returns, in closed form: one sample per cursor position
   * `0, step, ..., last * step` within the distance, then the remainder sample.
   */
  function MoveToSamples(from: Point, to: Point, duration: real, speed: real, distance: real): seq<Sample>
    requires 0.0 < duration && 0.0 < speed && 0.0 <= distance
  {
    StepSamples(from, to, duration, speed, distance, LastStep(distance, duration * speed) + 1)
      + RemainderSample(to, duration, speed, distance)
  }

  /** The first sample of the stepping loop is the start point at time zero. */
  lemma FirstStepSample(from: Point, to: Point, duration: real, speed: real, distance: real)
    ensures StepSample(from, to, duration, speed, distance, 0) == Sample(from.x, from.y, 0.0)
  {
  }

  /** Advancing the fraction by one step's share moves the point by `(to - from) / n`, `n` steps making the whole. */
  lemma LerpStep(from: Point, to: Point, f: real, distance: real, step: real, n: real)
    requires 0.0 < distance && 0.0 < step && n == distance / step
    ensures Lerp(from, to, f + step / distance) == Point(Lerp(from, to, f).x + (to.x - from.x) / n, Lerp(from, to, f).y + (to.y - from.y) / n)
  {
    var p, q := Lerp(from, to, f), Lerp(from, to, f + step / distance);
    assert q.x == p.x + (to.x - from.x) / n by { PerStep(from.x, to.x - from.x, f, distance, step, n); }
    assert q.y == p.y + (to.y - from.y) / n by { PerStep(from.y, to.y - from.y, f, distance, step, n); }
  }

  /**
   * Each further sample of the stepping loop moves by the per-step share
   * `(to - from) / numberOfSteps` and comes `duration` later.
   */
  lemma NextStepSample(from: Point, to: Point, duration: real, speed: real, distance: real, k: nat, numberOfSteps: real)
    requires 0.0 < duration && 0.0 < speed && 0.0 < distance && 0 < k
    requires numberOfSteps == distance / (duration * speed)
    ensures var previous := StepSample(from, to, duration, speed, distance, k - 1);
            StepSample(from, to, duration, speed, distance, k) ==
            Sample(previous.x + (to.x - from.x) / numberOfSteps,
                   previous.y + (to.y - from.y) / numberOfSteps,
                   previous.t + duration)
  {
    var step := duration * speed;
    var f := StepFraction(distance, step, k - 1);
    var g := StepFraction(distance, step, k);
    assert g == f + step / distance by {
      NextFraction(k, step, distance);
    }
    LerpStep(from, to, f, distance, step, numberOfSteps);
    NextCursor(k - 1, duration);
  }

  /** The remainder sample, written with the time of the last whole step. */
  lemma RemainderSampleAt(to: Point, duration: real, speed: real, distance: real, time: real)
    requires 0.0 < duration && 0.0 < speed && 0.0 <= distance
    requires time == LastStep(distance, duration * speed) as real * duration
    ensures RemainderSample(to, duration, speed, distance) ==
            if Rem(distance, duration * speed) != 0.0
            then [Sample(to.x, to.y, time + Rem(distance, duration * speed) / speed)] else []
  {
  }

  /** After the loop has emitted its samples, the remainder sample completes `moveTo`'s result. */
  lemma MoveToTail(from: Point, to: Point, duration: real, speed: real, distance: real, stepped: seq<Sample>, time: real)
    requires 0.0 < duration && 0.0 < speed && 0.0 <= distance
    requires stepped == StepSamples(from, to, duration, speed, distance, LastStep(distance, duration * speed) + 1)
    requires time == stepped[|stepped| - 1].t
    ensures MoveToSamples(from, to, duration, speed, distance) ==
            stepped + if Rem(distance, duration * speed) != 0.0
                      then [Sample(to.x, to.y, time + Rem(distance, duration * speed) / speed)] else []
  {
    var last := LastStep(distance, duration * speed);
    assert stepped[last] == StepSample(from, to, duration, speed, distance, last);
    assert time == last as real * duration;
    RemainderSampleAt(to, duration, speed, distance, time);
  }

  /** `moveTo(from, to, duration, speed)` with `distance` standing for `Math.hypot(...)`. */
  method MoveTo(from: Point, to: Point, duration: real, speed: real, distance: real) returns (result: seq<Sample>)
    requires 0.0 < duration && 0.0 < speed
    requires IsDistance(from, to, distance)
    ensures result == MoveToSamples(from, to, duration, speed, distance)
  {
    var positionX := from.x;
    var positionY := from.y;
    var distanceX := to.x - from.x;
    var distanceY := to.y - from.y;
    var stepDistance := duration * speed;
    var remainderOfTheDistance := Rem(distance, stepDistance);
    var numberOfSteps := distance / stepDistance;
    var currentTime := 0.0;
    result := [];

    ghost var last := LastStep(distance, stepDistance);
    var i := 0.0;
    ghost var k: nat := 0;
    while i <= distance
      invariant i == Cursor(k, stepDistance)
      invariant k <= last + 1
      invariant |result| == k
      invariant forall j :: 0 <= j < k ==> result[j] == StepSample(from, to, duration, speed, distance, j)
      invariant k == 0 ==> Sample(positionX, positionY, currentTime) == Sample(from.x, from.y, 0.0)
      invariant k > 0 ==> Sample(positionX, positionY, currentTime) == StepSample(from, to, duration, speed, distance, k - 1)
      decreases last + 1 - k
    {
      assert k <= last && (i != 0.0 <==> k != 0) && (k != 0 ==> 0.0 < distance) by {
        CursorIsProduct(k, stepDistance);
        WithinSteps(k, distance, stepDistance);
        CursorAtOrigin(k, stepDistance);
      }
      if i != 0.0 {
        NextStepSample(from, to, duration, speed, distance, k, numberOfSteps);
        positionX := positionX + distanceX / numberOfSteps;
        positionY := positionY + distanceY / numberOfSteps;
        currentTime := currentTime + duration;
      } else {
        FirstStepSample(from, to, duration, speed, distance);
      }
      result := result + [Sample(positionX, positionY, currentTime)];
      i := i + stepDistance;
      k := k + 1;
    }
    assert k == last + 1 by {
      CursorIsProduct(k, stepDistance);
      WithinSteps(k, distance, stepDistance);
    }
    StepSamplesAgree(from, to, duration, speed, distance, result);
    MoveToTail(from, to, duration, speed, distance, result, currentTime);
    if remainderOfTheDistance != 0.0 {
      result := result + [Sample(to.x, to.y, currentTime + remainderOfTheDistance / speed)];
    }
  }

  /**
   * `moveTo` has `floor(distance / step) + 1` loop samples, one more when the distance
   * is not a whole number of steps, and always ends exactly at `to`, at time
   * `distance / speed`: either the last whole step lands on `to` or the remainder
   * sample does.
   */
  lemma MoveToEndsAtTarget(from: Point, to: Point, duration: real, speed: real, distance: real)
    requires 0.0 < duration && 0.0 < speed
    requires IsDistance(from, to, distance)
    ensures var s := MoveToSamples(from, to, duration, speed, distance);
            |s| == LastStep(distance, duration * speed) + (if Rem(distance, duration * speed) != 0.0 then 2 else 1) &&
            s[|s| - 1] == Sample(to.x, to.y, distance / speed)
  {
    var step := duration * speed;
    var last := LastStep(distance, step);
    var s := MoveToSamples(from, to, duration, speed, distance);
    TimeOfDistance(distance, duration, speed);
    RemAfterLastStep(distance, step);
    if Rem(distance, step) == 0.0 {
      assert s[|s| - 1] == StepSample(from, to, duration, speed, distance, last);
      assert last as real * step == distance;
      if distance == 0.0 {
        ZeroDistance(from, to, distance);
      } else {
        var covered := last as real * step;
        assert StepFraction(distance, step, last) == covered / distance;
        assert covered / distance == 1.0;
      }
    }
  }

  /** Every sample of `moveTo` lies on the segment from `from` to `to`. */
  lemma MoveToOnSegment(from: Point, to: Point, duration: real, speed: real, distance: real)
    requires 0.0 < duration && 0.0 < speed
    requires IsDistance(from, to, distance)
    ensures var s := MoveToSamples(from, to, duration, speed, distance);
            forall j :: 0 <= j < |s| ==> OnSegment(s[j], from, to)
  {
    var step := duration * speed;
    var last := LastStep(distance, step);
    var s := MoveToSamples(from, to, duration, speed, distance);
    forall j | 0 <= j < |s|
      ensures OnSegment(s[j], from, to)
    {
      if j <= last {
        var f := StepFraction(distance, step, j);
        assert 0.0 <= f <= 1.0 by {
          WithinSteps(j, distance, step);
          if distance != 0.0 {
            CompareQuotient(1.0, j as real * step, distance);
            assert 0.0 <= j as real * step;
          }
        }
        assert Lerp(from, to, f) == Point(s[j].x, s[j].y);
      } else {
        assert Lerp(from, to, 1.0) == Point(s[j].x, s[j].y);
      }
    }
  }

  /** The times of the samples of `moveTo` strictly increase. */
  lemma MoveToTimesIncrease(from: Point, to: Point, duration: real, speed: real, distance: real)
    requires 0.0 < duration && 0.0 < speed
    requires IsDistance(from, to, distance)
    ensures var s := MoveToSamples(from, to, duration, speed, distance);
            forall i, j :: 0 <= i < j < |s| ==> s[i].t < s[j].t
  {
    var s := MoveToSamples(from, to, duration, speed, distance);
    forall i, j | 0 <= i < j < |s|
      ensures s[i].t < s[j].t
    {
      assert s[i].t == SampleTime(distance, duration, speed, i);
      assert s[j].t == SampleTime(distance, duration, speed, j);
      SampleTimesIncrease(distance, duration, speed, i, j);
    }
  }

  /**
   * The `k`-th sample of the stepping loop lies `k` steps of `duration * speed` away
   * from the start, measured by squared Euclidean distance.
   */
  lemma MoveToStepDistance(from: Point, to: Point, duration: real, speed: real, distance: real, k: nat)
    requires 0.0 < duration && 0.0 < speed
    requires IsDistance(from, to, distance)
    requires k <= LastStep(distance, duration * speed)
    ensures var s := MoveToSamples(from, to, duration, speed, distance)[k];
            Sq(s.x - from.x) + Sq(s.y - from.y) == Sq(k as real * (duration * speed))
  {
    var step := duration * speed;
    var s := MoveToSamples(from, to, duration, speed, distance)[k];
    var f := StepFraction(distance, step, k);
    assert Point(s.x, s.y) == Lerp(from, to, f);
    LerpDistance(from, to, f, distance);
    if distance == 0.0 {
      assert k as real * step <= 0.0 by { WithinSteps(k, distance, step); }
      CursorAtOrigin(k, step);
    } else {
      assert f * distance == k as real * step;
    }
  }

  /** The point a fraction `f` of the way lies `f` times the distance from the start. */
  lemma LerpDistance(from: Point, to: Point, f: real, distance: real)
    requires IsDistance(from, to, distance)
    ensures var p := Lerp(from, to, f);
            Sq(p.x - from.x) + Sq(p.y - from.y) == Sq(f * distance)
  {
    var p := Lerp(from, to, f);
    assert p.x - from.x == f * (to.x - from.x) && p.y - from.y == f * (to.y - from.y);
    SqProduct(f, to.x - from.x);
    SqProduct(f, to.y - from.y);
    SqProduct(f, distance);
  }

  /** A `moveTo` onto the start point stays there: one sample, at time zero. */
  lemma MoveToSamePoint(from: Point, duration: real, speed: real)
    requires 0.0 < duration && 0.0 < speed
    ensures MoveToSamples(from, from, duration, speed, 0.0) == [Sample(from.x, from.y, 0.0)]
  {
    var step := duration * speed;
    LastStepBounds(0.0, step);
    assert LastStep(0.0, step) == 0 by { CursorAtOrigin(LastStep(0.0, step), step); }
    RemAfterLastStep(0.0, step);
  }

  /**
   * The documented example `moveTo({x: 1, y: 1}, {x: 12, y: 1}, 0.5, 2)`: steps of one
   * unit fit the eleven units exactly, so there are twelve samples, half a second apart,
   * the last at the target after five and a half seconds.
   */
  lemma MoveToExample()
    ensures var s := MoveToSamples(Point(1.0, 1.0), Point(12.0, 1.0), 0.5, 2.0, 11.0);
            |s| == 12 && forall k :: 0 <= k < 12 ==> s[k] == Sample(1.0 + k as real, 1.0, 0.5 * k as real)
  {
    forall k | 0 <= k < 12
      ensures MoveToSamples(Point(1.0, 1.0), Point(12.0, 1.0), 0.5, 2.0, 11.0)[k] ==
              Sample(1.0 + k as real, 1.0, 0.5 * k as real)
    {
      ExampleSample(k);
    }
    ExampleSample(0);
  }

  /** In the example, the `k`-th sample stands `k` units right of the start, `k` half seconds in. */
  lemma ExampleSample(k: nat)
    requires k < 12
    ensures var s := MoveToSamples(Point(1.0, 1.0), Point(12.0, 1.0), 0.5, 2.0, 11.0);
            |s| == 12 && s[k] == Sample(1.0 + k as real, 1.0, 0.5 * k as real)
  {
    var from, to := Point(1.0, 1.0), Point(12.0, 1.0);
    assert LastStep(11.0, 0.5 * 2.0) == 11 by { LastStepBounds(11.0, 0.5 * 2.0); }
    assert Rem(11.0, 0.5 * 2.0) == 0.0 by { RemAfterLastStep(11.0, 0.5 * 2.0); }
    var s := MoveToSamples(from, to, 0.5, 2.0, 11.0);
    var steps := StepSamples(from, to, 0.5, 2.0, 11.0, 12);
    assert s == steps + RemainderSample(to, 0.5, 2.0, 11.0);
    assert s[k] == steps[k] == StepSample(from, to, 0.5, 2.0, 11.0, k);
    var f := StepFraction(11.0, 0.5 * 2.0, k);
    assert f == k as real / 11.0;
    assert f * (12.0 - 1.0) == k as real;
  }

  // ---------------------------------------------------------------------------
  // normalizeAngle and turnTo: constant-speed rotation ramp
  // ---------------------------------------------------------------------------

  /**
   * `normalizeAngle`: JavaScript's `angle % 360`, lifted by a full turn when negative.
   * The result is the angle's representative in [0, 360): the floored remainder.
   */
  function NormalizeAngle(angle: real): (r: real)
    ensures 0.0 <= r < 360.0
  {
    RemBounds(angle, 360.0);
    var a := Rem(angle, 360.0);
    if a < 0.0 then
      a + 360.0
    else if a == 0.0 then
      0.0
    else
      a
  }

  /**
   * The normalised angle is the floored remainder of the angle by a full turn: the
   * angle less the whole turns below it.
   */
  lemma NormalizeAngleFloored(angle: real)
    ensures NormalizeAngle(angle) == angle - (angle / 360.0).Floor as real * 360.0
  {
    RemFloored(angle, 360.0);
  }

  /** Two angles a whole number of turns apart normalise alike. */
  lemma NormalizeAngleTurns(angle: real, n: int)
    ensures NormalizeAngle(angle + n as real * 360.0) == NormalizeAngle(angle)
  {
    NormalizeAngleFloored(angle);
    NormalizeAngleFloored(angle + n as real * 360.0);
    var q := (angle / 360.0).Floor;
    assert (angle + n as real * 360.0) / 360.0 == angle / 360.0 + n as real;
    assert ((angle + n as real * 360.0) / 360.0).Floor == q + n;
  }

  /** An angle in [0, 360) a whole number of turns from `angle` is its normalisation. */
  lemma NormalizeAngleUnique(angle: real, r: real, n: int)
    requires 0.0 <= r < 360.0
    requires angle == r + n as real * 360.0
    ensures NormalizeAngle(angle) == r
  {
    NormalizeAngleTurns(r, n);
    NormalizeAngleFloored(r);
    assert (r / 360.0).Floor == 0;
  }

  /** Normalising twice changes nothing. */
  lemma NormalizeAngleIdempotent(angle: real)
    ensures NormalizeAngle(NormalizeAngle(angle)) == NormalizeAngle(angle)
  {
    NormalizeAngleUnique(NormalizeAngle(angle), NormalizeAngle(angle), 0);
  }

  /** Turning a normalised angle by `delta` lands where turning the raw angle does. */
  lemma NormalizeAngleShift(angle: real, delta: real)
    ensures NormalizeAngle(NormalizeAngle(angle) + delta) == NormalizeAngle(angle + delta)
  {
    NormalizeAngleFloored(angle);
    var q := (angle / 360.0).Floor;
    assert NormalizeAngle(angle) + delta == (angle + delta) + (-q) as real * 360.0;
    NormalizeAngleTurns(angle + delta, -q);
  }

  /** The sense of the rotation: towards smaller angles when `to < from`, otherwise towards larger. */
  function Direction(from: real, to: real): real {
    if to < from then -1.0 else 1.0
  }

  /**
   * The state of the rotation loop after `k` steps: the rotation before normalisation,
   * `k` steps of `duration * speed` from `from` towards `to`, and the time, `k` durations in.
   */
  function TurnState(from: real, to: real, duration: real, speed: real, k: nat): AngleSample {
    AngleSample(from + Direction(from, to) * (k as real * (duration * speed)), k as real * duration)
  }

  /** The `k`-th sample of the rotation loop: the loop's state with its angle normalised. */
  function TurnStepSample(from: real, to: real, duration: real, speed: real, k: nat): AngleSample {
    var state := TurnState(from, to, duration, speed, k);
    AngleSample(NormalizeAngle(state.angle), state.t)
  }

  /** The first `n` samples of the rotation loop. */
  function TurnStepSamples(from: real, to: real, duration: real, speed: real, n: nat): seq<AngleSample> {
    seq(n, k requires 0 <= k < n => TurnStepSample(from, to, duration, speed, k))
  }

  /**
   * The sample appended after the rotation loop: the normalised target, reached
   * `remainder / speed` after the last whole step, when the rotation is not a whole
   * number of steps.
   */
  function TurnRemainderSample(from: real, to: real, duration: real, speed: real): seq<AngleSample>
    requires 0.0 < duration && 0.0 < speed
  {
    var remainder := Rem(Abs(to - from), duration * speed);
    if remainder != 0.0
    then [AngleSample(NormalizeAngle(to), LastStep(Abs(to - from), duration * speed) as real * duration + remainder / speed)]
    else []
  }

  /** What `turnTo` returns, in closed form. */
  function TurnToSamples(from: real, to: real, duration: real, speed: real): seq<AngleSample>
    requires 0.0 < duration && 0.0 < speed
  {
    TurnStepSamples(from, to, duration, speed, LastStep(Abs(to - from), duration * speed) + 1)
      + TurnRemainderSample(from, to, duration, speed)
  }

  /**
   * The per-step rotation `distanceRotation / numberOfSteps`, with the step count negated
   * for a decreasing rotation, is one step in the direction of `to`.
   */
  lemma RotationPerStep(from: real, to: real, step: real, numberOfSteps: real)
    requires 0.0 < step && from != to
    requires numberOfSteps == (if to < from then Abs(to - from) / step * -1.0 else Abs(to - from) / step)
    ensures numberOfSteps != 0.0
    ensures Abs(to - from) / numberOfSteps == Direction(from, to) * step
  {
    var d := Abs(to - from);
    assert d / (d / step) == step;
  }

  /**
   * Each further state of the rotation loop turns by the per-step share
   * `distanceRotation / numberOfSteps` and comes `duration` later.
   */
  lemma NextTurnState(from: real, to: real, duration: real, speed: real, k: nat, numberOfSteps: real)
    requires 0.0 < duration && 0.0 < speed && from != to && 0 < k
    requires numberOfSteps == (if to < from then Abs(to - from) / (duration * speed) * -1.0
                               else Abs(to - from) / (duration * speed))
    ensures numberOfSteps != 0.0
    ensures var previous := TurnState(from, to, duration, speed, k - 1);
            TurnState(from, to, duration, speed, k) ==
            AngleSample(previous.angle + Abs(to - from) / numberOfSteps, previous.t + duration)
  {
    RotationPerStep(from, to, duration * speed, numberOfSteps);
    NextCursor(k - 1, duration * speed);
    NextCursor(k - 1, duration);
  }

  /** A sequence that agrees with the rotation loop's samples at every index is their prefix. */
  lemma TurnStepSamplesAgree(from: real, to: real, duration: real, speed: real, s: seq<AngleSample>)
    requires forall j :: 0 <= j < |s| ==> s[j] == TurnStepSample(from, to, duration, speed, j)
    ensures s == TurnStepSamples(from, to, duration, speed, |s|)
  {
  }

  /** After the rotation loop has emitted its samples, the remainder sample completes `turnTo`'s result. */
  lemma TurnToTail(from: real, to: real, duration: real, speed: real, stepped: seq<AngleSample>, time: real)
    requires 0.0 < duration && 0.0 < speed
    requires stepped == TurnStepSamples(from, to, duration, speed, LastStep(Abs(to - from), duration * speed) + 1)
    requires time == stepped[|stepped| - 1].t
    ensures TurnToSamples(from, to, duration, speed) ==
            stepped + if Rem(Abs(to - from), duration * speed) != 0.0
                      then [AngleSample(NormalizeAngle(to), time + Rem(Abs(to - from), duration * speed) / speed)] else []
  {
    var last := LastStep(Abs(to - from), duration * speed);
    assert stepped[last] == TurnStepSample(from, to, duration, speed, last);
    assert time == last as real * duration;
    TurnRemainderSampleAt(from, to, duration, speed, time);
  }

  /** The rotation's remainder sample, written with the time of the last whole step. */
  lemma TurnRemainderSampleAt(from: real, to: real, duration: real, speed: real, time: real)
    requires 0.0 < duration && 0.0 < speed
    requires time == LastStep(Abs(to - from), duration * speed) as real * duration
    ensures TurnRemainderSample(from, to, duration, speed) ==
            if Rem(Abs(to - from), duration * speed) != 0.0
            then [AngleSample(NormalizeAngle(to), time + Rem(Abs(to - from), duration * speed) / speed)] else []
  {
  }

  /** A loop state that is the `k`-th rotation state gives, normalised, the `k`-th sample. */
  lemma TurnStepSampleOf(from: real, to: real, duration: real, speed: real, k: nat, angle: real, time: real)
    requires AngleSample(angle, time) == TurnState(from, to, duration, speed, k)
    ensures AngleSample(NormalizeAngle(angle), time) == TurnStepSample(from, to, duration, speed, k)
  {
  }

  /** `turnTo(from, to, duration, speed)`. */
  method TurnTo(from: real, to: real, duration: real, speed: real) returns (result: seq<AngleSample>)
    requires 0.0 < duration && 0.0 < speed
    ensures result == TurnToSamples(from, to, duration, speed)
  {
    var currentRotation := from;
    var distanceRotation := Abs(to - from);
    var stepDistanceRotation := duration * speed;
    var remainderDistanceRotation := Rem(distanceRotation, stepDistanceRotation);
    var numberOfSteps := distanceRotation / stepDistanceRotation;
    if to < from {
      numberOfSteps := numberOfSteps * -1.0;
    }
    var currentTime := 0.0;
    result := [];

    ghost var last := LastStep(distanceRotation, stepDistanceRotation);
    assert TurnState(from, to, duration, speed, 0) == AngleSample(from, 0.0);
    var i := 0.0;
    ghost var k: nat := 0;
    while i <= distanceRotation
      invariant i == Cursor(k, stepDistanceRotation)
      invariant k <= last + 1
      invariant |result| == k
      invariant forall j :: 0 <= j < k ==> result[j] == TurnStepSample(from, to, duration, speed, j)
      invariant AngleSample(currentRotation, currentTime) == TurnState(from, to, duration, speed, if k == 0 then 0 else k - 1)
      decreases last + 1 - k
    {
      assert k <= last && (i != 0.0 <==> k != 0) && (k != 0 ==> from != to) by {
        CursorIsProduct(k, stepDistanceRotation);
        WithinSteps(k, distanceRotation, stepDistanceRotation);
        CursorAtOrigin(k, stepDistanceRotation);
      }
      if i != 0.0 {
        NextTurnState(from, to, duration, speed, k, numberOfSteps);
        currentRotation := currentRotation + distanceRotation / numberOfSteps;
        currentTime := currentTime + duration;
      }
      TurnStepSampleOf(from, to, duration, speed, k, currentRotation, currentTime);
      result := result + [AngleSample(NormalizeAngle(currentRotation), currentTime)];
      i := i + stepDistanceRotation;
      k := k + 1;
    }
    assert k == last + 1 by {
      CursorIsProduct(k, stepDistanceRotation);
      WithinSteps(k, distanceRotation, stepDistanceRotation);
    }
    TurnStepSamplesAgree(from, to, duration, speed, result);
    TurnToTail(from, to, duration, speed, result, currentTime);
    if remainderDistanceRotation != 0.0 {
      result := result + [AngleSample(NormalizeAngle(to), currentTime + remainderDistanceRotation / speed)];
    }
  }

  /**
   * `turnTo` ends at the normalised target at time `|to - from| / speed`, after
   * `floor(|to - from| / step) + 1` loop samples and possibly one remainder sample.
   */
  lemma TurnToEndsAtTarget(from: real, to: real, duration: real, speed: real)
    requires 0.0 < duration && 0.0 < speed
    ensures var s := TurnToSamples(from, to, duration, speed);
            |s| == LastStep(Abs(to - from), duration * speed) + (if Rem(Abs(to - from), duration * speed) != 0.0 then 2 else 1) &&
            s[|s| - 1] == AngleSample(NormalizeAngle(to), Abs(to - from) / speed)
  {
    var step := duration * speed;
    var distance := Abs(to - from);
    var last := LastStep(distance, step);
    var s := TurnToSamples(from, to, duration, speed);
    TimeOfDistance(distance, duration, speed);
    RemAfterLastStep(distance, step);
    if Rem(distance, step) == 0.0 {
      assert s[|s| - 1] == TurnStepSample(from, to, duration, speed, last);
      TurnStateAtTarget(from, to, duration, speed, last);
    }
  }

  /** A loop state whose steps cover the whole turn stands at `to`, at time `|to - from| / speed`. */
  lemma TurnStateAtTarget(from: real, to: real, duration: real, speed: real, k: nat)
    requires 0.0 < duration && 0.0 < speed
    requires k as real * (duration * speed) == Abs(to - from)
    ensures TurnState(from, to, duration, speed, k) == AngleSample(to, Abs(to - from) / speed)
  {
    assert k as real * duration == (k as real * (duration * speed)) / speed;
  }

  /**
   * `turnTo` starts at the normalised `from` at time zero, and each further loop sample
   * turns the previous angle by one step towards `to`, modulo a full turn, `duration` later.
   */
  lemma TurnToSteps(from: real, to: real, duration: real, speed: real)
    requires 0.0 < duration && 0.0 < speed
    ensures var s := TurnToSamples(from, to, duration, speed);
            s[0] == AngleSample(NormalizeAngle(from), 0.0) &&
            forall j :: 0 <= j < LastStep(Abs(to - from), duration * speed) ==>
              s[j + 1] == AngleSample(NormalizeAngle(s[j].angle + Direction(from, to) * (duration * speed)), s[j].t + duration)
  {
    var s := TurnToSamples(from, to, duration, speed);
    assert s[0] == TurnStepSample(from, to, duration, speed, 0);
    forall j | 0 <= j < LastStep(Abs(to - from), duration * speed)
      ensures s[j + 1] == AngleSample(NormalizeAngle(s[j].angle + Direction(from, to) * (duration * speed)), s[j].t + duration)
    {
      assert s[j] == TurnStepSample(from, to, duration, speed, j);
      assert s[j + 1] == TurnStepSample(from, to, duration, speed, j + 1);
      TurnStep(from, to, duration, speed, j);
    }
  }

  /** One step of the rotation loop, on its normalised samples. */
  lemma TurnStep(from: real, to: real, duration: real, speed: real, j: nat)
    ensures var previous := TurnStepSample(from, to, duration, speed, j);
            TurnStepSample(from, to, duration, speed, j + 1)
            == AngleSample(NormalizeAngle(previous.angle + Direction(from, to) * (duration * speed)), previous.t + duration)
  {
    var turn := Direction(from, to) * (duration * speed);
    var previous := TurnState(from, to, duration, speed, j);
    var next := TurnState(from, to, duration, speed, j + 1);
    assert next == AngleSample(previous.angle + turn, previous.t + duration) by {
      NextCursor(j, duration * speed);
      NextCursor(j, duration);
    }
    NormalizeAngleShift(previous.angle, turn);
  }

  /** The times of the samples of `turnTo` strictly increase. */
  lemma TurnToTimesIncrease(from: real, to: real, duration: real, speed: real)
    requires 0.0 < duration && 0.0 < speed
    ensures var s := TurnToSamples(from, to, duration, speed);
            forall i, j :: 0 <= i < j < |s| ==> s[i].t < s[j].t
  {
    var s := TurnToSamples(from, to, duration, speed);
    forall i, j | 0 <= i < j < |s|
      ensures s[i].t < s[j].t
    {
      assert s[i].t == SampleTime(Abs(to - from), duration, speed, i);
      assert s[j].t == SampleTime(Abs(to - from), duration, speed, j);
      SampleTimesIncrease(Abs(to - from), duration, speed, i, j);
    }
  }

  /** Every angle `turnTo` reports, loop samples and remainder sample alike, lies in [0, 360). */
  lemma TurnToAnglesNormalized(from: real, to: real, duration: real, speed: real)
    requires 0.0 < duration && 0.0 < speed
    ensures var s := TurnToSamples(from, to, duration, speed);
            forall j :: 0 <= j < |s| ==> 0.0 <= s[j].angle < 360.0
  {
    var s := TurnToSamples(from, to, duration, speed);
    var n := LastStep(Abs(to - from), duration * speed) + 1;
    forall j | 0 <= j < |s|
      ensures 0.0 <= s[j].angle < 360.0
    {
      if j < n {
        assert s[j] == TurnStepSample(from, to, duration, speed, j);
      } else {
        assert s[j] == AngleSample(NormalizeAngle(to), s[j].t);
      }
    }
  }

  /** A `turnTo` onto the start angle emits the normalised angle once, at time zero. */
  lemma TurnToSameAngle(angle: real, duration: real, speed: real)
    requires 0.0 < duration && 0.0 < speed
    ensures TurnToSamples(angle, angle, duration, speed) == [AngleSample(NormalizeAngle(angle), 0.0)]
  {
    var step := duration * speed;
    LastStepBounds(0.0, step);
    assert LastStep(0.0, step) == 0 by { CursorAtOrigin(LastStep(0.0, step), step); }
    RemAfterLastStep(0.0, step);
  }

  /**
   * The documented example `turnTo(400, -400, 0.5, 60)`: 800 degrees in steps of 30
   * give 27 loop samples turning down from 40 and a remainder of 20 degrees, so 28
   * samples ending at 320 after 40/3 seconds.
   */
  lemma TurnToExample()
    ensures var s := TurnToSamples(400.0, -400.0, 0.5, 60.0);
            |s| == 28 && s[0] == AngleSample(40.0, 0.0) && s[1] == AngleSample(10.0, 0.5) &&
            s[2] == AngleSample(340.0, 1.0) && s[27] == AngleSample(320.0, 40.0 / 3.0)
  {
    var s := TurnToSamples(400.0, -400.0, 0.5, 60.0);
    assert LastStep(800.0, 0.5 * 60.0) == 26 && Rem(800.0, 0.5 * 60.0) == 20.0;
    assert |s| == 28;
    assert s[0] == AngleSample(40.0, 0.0) by {
      assert s[0] == TurnStepSample(400.0, -400.0, 0.5, 60.0, 0);
      NormalizeAngleUnique(400.0, 40.0, 1);
    }
    assert s[1] == AngleSample(10.0, 0.5) by {
      assert s[1] == TurnStepSample(400.0, -400.0, 0.5, 60.0, 1);
      NormalizeAngleUnique(370.0, 10.0, 1);
    }
    assert s[2] == AngleSample(340.0, 1.0) by {
      assert s[2] == TurnStepSample(400.0, -400.0, 0.5, 60.0, 2);
      NormalizeAngleUnique(340.0, 340.0, 0);
    }
    assert s[27] == AngleSample(320.0, 40.0 / 3.0) by {
      TurnToEndsAtTarget(400.0, -400.0, 0.5, 60.0);
      NormalizeAngleUnique(-400.0, 320.0, -2);
    }
  }

  // ---------------------------------------------------------------------------
  // speedUpTo: stepper over the trapezoidal distance profile
  // ---------------------------------------------------------------------------

  /** The profile's distance at the `k`-th sample time `k * duration`. */
  function DistanceAt(o: AccelerationOptions, duration: real, k: nat): real
    requires HasRates(o)
  {
    FindDistance(o, k as real * duration)
  }

  /** `currentDistance` at the `k`-th sample: the profile's distance, clamped to the segment. */
  function Reached(o: AccelerationOptions, duration: real, distance: real, k: nat): real
    requires HasRates(o)
  {
    var currentDistance := DistanceAt(o, duration, k);
    if currentDistance >= distance then distance else currentDistance
  }

  /** The `k`-th sample of `speedUpTo`: the point `Reached` along the segment, `k` durations in. */
  function ProfileSample(from: Point, to: Point, duration: real, o: AccelerationOptions, distance: real, k: nat): Sample
    requires HasRates(o) && distance != 0.0
  {
    var currentDistance := Reached(o, duration, distance, k);
    Sample((currentDistance * (to.x - from.x)) / distance + from.x,
           (currentDistance * (to.y - from.y)) / distance + from.y,
           k as real * duration)
  }

  /** The first `n` samples of `speedUpTo`. */
  function ProfileSamples(from: Point, to: Point, duration: real, o: AccelerationOptions, distance: real, n: nat): seq<Sample>
    requires HasRates(o) && distance != 0.0
  {
    seq(n, k requires 0 <= k < n => ProfileSample(from, to, duration, o, distance, k))
  }

  /**
   * One sample past the last whole floor-speed step, the profile is past the distance:
   * the floor speed alone bounds how long `speedUpTo` runs.
   */
  lemma FloorBoundReached(o: AccelerationOptions, duration: real, distance: real)
    requires Valid(o) && 0.0 < o.speed && 0.0 < duration && 0.0 <= distance
    ensures distance < DistanceAt(o, duration, LastStep(distance, o.speed * duration) + 1)
  {
    var n := LastStep(distance, o.speed * duration) + 1;
    assert distance < n as real * (o.speed * duration) by {
      LastStepBounds(distance, o.speed * duration);
    }
    FloorDistanceReached(o, duration, distance, n);
  }

  /** Once the floor-speed distance alone is past the distance, so is the profile. */
  lemma FloorDistanceReached(o: AccelerationOptions, duration: real, distance: real, n: nat)
    requires Valid(o) && distance < n as real * (o.speed * duration)
    ensures distance < DistanceAt(o, duration, n)
  {
    var t := n as real * duration;
    assert n as real * (o.speed * duration) == MinimumSpeedDistance(o, t);
    FindDistanceBounds(o, t);
  }

  /** A search for the first sample, from `k` on, at which the profile has covered the distance. */
  function ReachIndex(o: AccelerationOptions, duration: real, distance: real, k: nat): (r: nat)
    requires Valid(o) && 0.0 < o.speed && 0.0 < duration && 0.0 <= distance
    requires k <= LastStep(distance, o.speed * duration) + 1
    ensures k <= r <= LastStep(distance, o.speed * duration) + 1
    ensures distance <= DistanceAt(o, duration, r)
    ensures forall j :: k <= j < r ==> DistanceAt(o, duration, j) < distance
    decreases LastStep(distance, o.speed * duration) + 1 - k
  {
    FloorBoundReached(o, duration, distance);
    if distance <= DistanceAt(o, duration, k) then k
    else ReachIndex(o, duration, distance, k + 1)
  }

  /** Some sample covers the distance, so there is a first one. */
  lemma ReachExists(o: AccelerationOptions, duration: real, distance: real)
    requires Valid(o) && 0.0 < o.speed && 0.0 < duration && 0.0 <= distance
    ensures exists r: nat :: distance <= DistanceAt(o, duration, r) &&
                             forall j :: 0 <= j < r ==> DistanceAt(o, duration, j) < distance
  {
    var r := ReachIndex(o, duration, distance, 0);
    assert distance <= DistanceAt(o, duration, r);
  }

  /**
   * The index of the first sample at which the profile has covered the distance: the
   * sample at which `speedUpTo`'s loop stops.
   */
  ghost function FirstReach(o: AccelerationOptions, duration: real, distance: real): (r: nat)
    requires Valid(o) && 0.0 < o.speed && 0.0 < duration && 0.0 <= distance
    ensures distance <= DistanceAt(o, duration, r)
    ensures forall j :: 0 <= j < r ==> DistanceAt(o, duration, j) < distance
  {
    ReachExists(o, duration, distance);
    var r: nat :| distance <= DistanceAt(o, duration, r) &&
                  forall j :: 0 <= j < r ==> DistanceAt(o, duration, j) < distance;
    r
  }

  /**
   * What `speedUpTo` returns, in closed form: nothing for a zero-length segment, otherwise
   * one sample per `duration` up to and including the first at which the profile has
   * covered the distance.
   */
  ghost function SpeedUpSamples(from: Point, to: Point, duration: real, o: AccelerationOptions, distance: real): seq<Sample>
    requires Valid(o) && 0.0 < o.speed && 0.0 < duration && 0.0 <= distance
  {
    if distance == 0.0 then []
    else ProfileSamples(from, to, duration, o, distance, FirstReach(o, duration, distance) + 1)
  }

  /** `speedUpTo(from, to, duration, options)` with `distance` standing for `Math.hypot(...)`. */
  method SpeedUpTo(from: Point, to: Point, duration: real, o: AccelerationOptions, distance: real) returns (result: seq<Sample>)
    requires Valid(o) && 0.0 < o.speed && 0.0 < duration
    requires IsDistance(from, to, distance)
    ensures result == SpeedUpSamples(from, to, duration, o, distance)
  {
    var positionX := from.x;
    var positionY := from.y;
    var distanceX := to.x - from.x;
    var distanceY := to.y - from.y;
    result := [];
    var currentDistance := 0.0;

    ghost var reach := FirstReach(o, duration, distance);
    var t := 0.0;
    ghost var k: nat := 0;
    while currentDistance < distance
      invariant t == Cursor(k, duration)
      invariant k <= reach + 1
      invariant k > 0 ==> 0.0 < distance
      invariant k == 0 ==> result == [] && currentDistance == 0.0
      invariant k > 0 ==> result == ProfileSamples(from, to, duration, o, distance, k)
      invariant k > 0 ==> (currentDistance < distance <==> k - 1 < reach)
      decreases reach + 1 - k
    {
      assert t == k as real * duration by {
        CursorIsProduct(k, duration);
      }
      currentDistance := FindDistance(o, t);
      if currentDistance >= distance {
        currentDistance := distance;
      }
      positionX := (currentDistance * distanceX) / distance + from.x;
      positionY := (currentDistance * distanceY) / distance + from.y;
      SpeedUpStep(from, to, duration, o, distance, k, t, currentDistance, distanceX, distanceY);
      assert result == ProfileSamples(from, to, duration, o, distance, k);
      result := result + [Sample(positionX, positionY, t)];
      t := t + duration;
      k := k + 1;
    }
    assert distance != 0.0 ==> k == reach + 1;
  }

  /**
   * One iteration of `speedUpTo`'s loop at the `k`-th sample time `t`: the sample it
   * pushes is the next sample of the closed form, and the loop goes on exactly while
   * the first sample that covers the distance is still ahead.
   */
  lemma SpeedUpStep(from: Point, to: Point, duration: real, o: AccelerationOptions, distance: real, k: nat,
                    t: real, currentDistance: real, distanceX: real, distanceY: real)
    requires Valid(o) && 0.0 < o.speed && 0.0 < duration && 0.0 < distance
    requires k <= FirstReach(o, duration, distance)
    requires t == k as real * duration
    requires currentDistance == if FindDistance(o, t) >= distance then distance else FindDistance(o, t)
    requires distanceX == to.x - from.x && distanceY == to.y - from.y
    ensures ProfileSamples(from, to, duration, o, distance, k + 1) ==
            ProfileSamples(from, to, duration, o, distance, k) +
            [Sample((currentDistance * distanceX) / distance + from.x, (currentDistance * distanceY) / distance + from.y, t)]
    ensures currentDistance < distance <==> k < FirstReach(o, duration, distance)
  {
    var reach := FirstReach(o, duration, distance);
    assert currentDistance == Reached(o, duration, distance, k);
    assert currentDistance < distance <==> k < reach by {
      if k < reach {
        assert DistanceAt(o, duration, k) < distance;
      }
    }
    ProfileSampleAt(from, to, duration, o, distance, k, currentDistance, t, distanceX, distanceY);
    ProfileSamplesNext(from, to, duration, o, distance, k);
  }

  /** The `k`-th sample of `speedUpTo`, given its clamped distance and its time. */
  lemma ProfileSampleAt(from: Point, to: Point, duration: real, o: AccelerationOptions, distance: real, k: nat,
                        currentDistance: real, t: real, distanceX: real, distanceY: real)
    requires HasRates(o) && distance != 0.0
    requires currentDistance == Reached(o, duration, distance, k) && t == k as real * duration
    requires distanceX == to.x - from.x && distanceY == to.y - from.y
    ensures ProfileSample(from, to, duration, o, distance, k) ==
            Sample((currentDistance * distanceX) / distance + from.x,
                   (currentDistance * distanceY) / distance + from.y, t)
  {
  }

  /** One more iteration of `speedUpTo`'s loop appends the next sample. */
  lemma ProfileSamplesNext(from: Point, to: Point, duration: real, o: AccelerationOptions, distance: real, n: nat)
    requires HasRates(o) && distance != 0.0
    ensures ProfileSamples(from, to, duration, o, distance, n + 1) ==
            ProfileSamples(from, to, duration, o, distance, n) + [ProfileSample(from, to, duration, o, distance, n)]
  {
  }

  /** The clamped distance of every sample lies between zero and the target distance. */
  lemma ReachedBounds(o: AccelerationOptions, duration: real, distance: real, k: nat)
    requires Valid(o) && 0.0 < duration && 0.0 <= distance
    ensures 0.0 <= Reached(o, duration, distance, k) <= distance
  {
    var t := k as real * duration;
    assert o.speed * t <= FindDistance(o, t) by { FindDistanceBounds(o, t); }
    assert 0.0 <= t by { ScaleMonotone(duration, 0.0, k as real); }
    assert 0.0 <= o.speed * t by { ScaleMonotone(o.speed, 0.0, t); }
  }

  /**
   * The `k`-th sample of `speedUpTo` is the point `Reached / distance` of the way along
   * the segment, stamped `k` durations in.
   */
  lemma ProfileSampleOnLine(from: Point, to: Point, duration: real, o: AccelerationOptions, distance: real, k: nat)
    requires HasRates(o) && distance != 0.0
    ensures var s := ProfileSample(from, to, duration, o, distance, k);
            Point(s.x, s.y) == Lerp(from, to, Reached(o, duration, distance, k) / distance) &&
            s.t == k as real * duration
  {
  }

  /** `speedUpTo` returns no sample exactly when `from` and `to` coincide. */
  lemma SpeedUpEmpty(from: Point, to: Point, duration: real, o: AccelerationOptions, distance: real)
    requires Valid(o) && 0.0 < o.speed && 0.0 < duration
    requires IsDistance(from, to, distance)
    ensures SpeedUpSamples(from, to, duration, o, distance) == [] <==> from == to
  {
    ZeroDistance(from, to, distance);
  }

  /**
   * For distinct points, `speedUpTo` stops at the first sample time at which the profile
   * has covered the distance: every earlier sample falls short of it, the last sample is
   * exactly `to`.
   */
  lemma SpeedUpEndsAtTarget(from: Point, to: Point, duration: real, o: AccelerationOptions, distance: real)
    requires Valid(o) && 0.0 < o.speed && 0.0 < duration
    requires IsDistance(from, to, distance) && from != to
    ensures var s := SpeedUpSamples(from, to, duration, o, distance);
            && 0 < |s|
            && (forall j :: 0 <= j < |s| - 1 ==> DistanceAt(o, duration, j) < distance)
            && distance <= DistanceAt(o, duration, |s| - 1)
            && s[|s| - 1] == Sample(to.x, to.y, (|s| - 1) as real * duration)
  {
    assert distance != 0.0 by { ZeroDistance(from, to, distance); }
    var s := SpeedUpSamples(from, to, duration, o, distance);
    var last := FirstReach(o, duration, distance);
    assert |s| == last + 1;
    assert Reached(o, duration, distance, last) == distance;
    assert s[last] == ProfileSample(from, to, duration, o, distance, last);
    ScaledPointAtEnd(from, to, distance);
  }

  /** Every sample of `speedUpTo` lies on the segment from `from` to `to`. */
  lemma SpeedUpOnSegment(from: Point, to: Point, duration: real, o: AccelerationOptions, distance: real)
    requires Valid(o) && 0.0 < o.speed && 0.0 < duration
    requires IsDistance(from, to, distance)
    ensures var s := SpeedUpSamples(from, to, duration, o, distance);
            forall j :: 0 <= j < |s| ==> OnSegment(s[j], from, to)
  {
    var s := SpeedUpSamples(from, to, duration, o, distance);
    forall j | 0 <= j < |s|
      ensures OnSegment(s[j], from, to)
    {
      var f := Reached(o, duration, distance, j) / distance;
      assert 0.0 <= f <= 1.0 by {
        ReachedBounds(o, duration, distance, j);
        CompareQuotient(1.0, Reached(o, duration, distance, j), distance);
      }
      ProfileSampleOnLine(from, to, duration, o, distance, j);
      assert Lerp(from, to, f) == Point(s[j].x, s[j].y);
    }
  }

  /** The point `c * (to - from) / distance + from` lies `c` away from `from`. */
  lemma ScaledPointDistance(from: Point, to: Point, distance: real, c: real)
    requires IsDistance(from, to, distance) && distance != 0.0
    ensures Sq((c * (to.x - from.x)) / distance + from.x - from.x) +
            Sq((c * (to.y - from.y)) / distance + from.y - from.y) == Sq(c)
  {
    var u := c / distance;
    assert (c * (to.x - from.x)) / distance + from.x - from.x == u * (to.x - from.x);
    assert (c * (to.y - from.y)) / distance + from.y - from.y == u * (to.y - from.y);
    SqProduct(u, to.x - from.x);
    SqProduct(u, to.y - from.y);
    SqProduct(u, distance);
    assert Sq(u) * Sq(to.x - from.x) + Sq(u) * Sq(to.y - from.y) == Sq(u) * Sq(distance);
    assert u * distance == c;
  }

  /** Scaling the whole way by `distance / distance` lands on `to`. */
  lemma ScaledPointAtEnd(from: Point, to: Point, distance: real)
    requires distance != 0.0
    ensures (distance * (to.x - from.x)) / distance + from.x == to.x
    ensures (distance * (to.y - from.y)) / distance + from.y == to.y
  {
  }

  /** The `k`-th sample of `speedUpTo` lies `Reached` away from `from`. */
  lemma ProfileSampleDistance(from: Point, to: Point, duration: real, o: AccelerationOptions, distance: real, k: nat)
    requires HasRates(o) && IsDistance(from, to, distance) && distance != 0.0
    ensures var s := ProfileSample(from, to, duration, o, distance, k);
            Sq(s.x - from.x) + Sq(s.y - from.y) == Sq(Reached(o, duration, distance, k))
  {
    ScaledPointDistance(from, to, distance, Reached(o, duration, distance, k));
  }

  /**
   * Before its last sample, `speedUpTo` has not covered the distance even at the floor
   * speed alone: the floor speed bounds how long it runs.
   */
  lemma SpeedUpFloorBound(from: Point, to: Point, duration: real, o: AccelerationOptions, distance: real)
    requires Valid(o) && 0.0 < o.speed && 0.0 < duration
    requires IsDistance(from, to, distance)
    ensures var s := SpeedUpSamples(from, to, duration, o, distance);
            forall j :: 0 <= j < |s| - 1 ==> MinimumSpeedDistance(o, s[j].t) < distance
  {
    var s := SpeedUpSamples(from, to, duration, o, distance);
    forall j | 0 <= j < |s| - 1
      ensures MinimumSpeedDistance(o, s[j].t) < distance
    {
      assert DistanceAt(o, duration, j) < distance;
      FloorBelowReach(from, to, duration, o, distance, j, s[j]);
    }
  }

  /** Where the profile falls short of the distance, the floor-speed distance does too. */
  lemma FloorBelowReach(from: Point, to: Point, duration: real, o: AccelerationOptions, distance: real, j: nat, sample: Sample)
    requires Valid(o) && 0.0 < o.speed && 0.0 < duration && 0.0 < distance
    requires DistanceAt(o, duration, j) < distance && sample == ProfileSample(from, to, duration, o, distance, j)
    ensures MinimumSpeedDistance(o, sample.t) < distance
  {
    var t := j as real * duration;
    assert MinimumSpeedDistance(o, sample.t) == MinimumSpeedDistance(o, t);
    FindDistanceBounds(o, t);
  }

  /**
   * `speedUpTo` never moves backward: each sample lies `Reached` away from `from`
   * (measured by squared Euclidean distance), `Reached` never decreases from one sample
   * to the next, and the sample times are `duration` apart.
   */
  lemma SpeedUpProgress(from: Point, to: Point, duration: real, o: AccelerationOptions, distance: real, i: nat, j: nat)
    requires Valid(o) && 0.0 < o.speed && 0.0 < duration
    requires IsDistance(from, to, distance)
    requires i <= j < |SpeedUpSamples(from, to, duration, o, distance)|
    ensures var s := SpeedUpSamples(from, to, duration, o, distance);
            && Sq(s[j].x - from.x) + Sq(s[j].y - from.y) == Sq(Reached(o, duration, distance, j))
            && Reached(o, duration, distance, i) <= Reached(o, duration, distance, j)
            && s[j].t - s[i].t == (j - i) as real * duration
  {
    var s := SpeedUpSamples(from, to, duration, o, distance);
    assert distance != 0.0;
    assert s[j] == ProfileSample(from, to, duration, o, distance, j);
    ProfileSampleDistance(from, to, duration, o, distance, j);
    assert s[j].t - s[i].t == (j - i) as real * duration by {
      ProfileSampleOnLine(from, to, duration, o, distance, i);
      ProfileSampleOnLine(from, to, duration, o, distance, j);
    }
    assert DistanceAt(o, duration, i) <= DistanceAt(o, duration, j) by {
      assert i as real * duration <= j as real * duration;
      FindDistanceMonotone(o, i as real * duration, j as real * duration);
    }
  }
}
