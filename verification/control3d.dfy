/**
 * The spatial controls: a constant-speed linear stepper in three dimensions (`moveTo`)
 * and an Euler rotation of a vector (`turnTo`). Numbers are mathematical reals;
 * `Math.sqrt` is replaced by a distance argument and `Math.sin` / `Math.cos` of each
 * Euler angle by a pair of reals.
 */
module Control3D {
  import opened Numbers

  datatype Point = Point(x: real, y: real, z: real)

  /** One sample of a spatial trajectory: a position and the time it is reached. */
  datatype Sample = Sample(x: real, y: real, z: real, t: real)

  /** `distance` is the Euclidean distance from `from` to `to`, as `Math.sqrt` of the squares gives it. */
  predicate IsDistance(from: Point, to: Point, distance: real) {
    0.0 <= distance && Sq(distance) == Sq(to.x - from.x) + Sq(to.y - from.y) + Sq(to.z - from.z)
  }

  /** The point a fraction `f` of the way from `from` to `to`. */
  function Lerp(from: Point, to: Point, f: real): Point {
    Point(from.x + f * (to.x - from.x), from.y + f * (to.y - from.y), from.z + f * (to.z - from.z))
  }

  /** The sample's position lies on the closed segment from `from` to `to`. */
  ghost predicate OnSegment(s: Sample, from: Point, to: Point) {
    exists f: real :: 0.0 <= f <= 1.0 && Lerp(from, to, f) == Point(s.x, s.y, s.z)
  }

  /** The distance vanishes exactly when the two points coincide. */
  lemma ZeroDistance(from: Point, to: Point, distance: real)
    requires IsDistance(from, to, distance)
    ensures distance == 0.0 <==> from == to
  {
    SqPositive(to.x - from.x);
    SqPositive(to.y - from.y);
    SqPositive(to.z - from.z);
    SqPositive(distance);
  }

  // ---------------------------------------------------------------------------
  // moveTo: constant-speed linear stepper
  // ---------------------------------------------------------------------------

  /** The `k`-th sample of the stepping loop: `k` steps along the line, `k` durations in. */
  function StepSample(from: Point, to: Point, duration: real, speed: real, distance: real, k: nat): Sample {
    var p := Lerp(from, to, StepFraction(distance, duration * speed, k));
    Sample(p.x, p.y, p.z, k as real * duration)
  }

  /** The first `n` samples of the stepping loop. */
  function StepSamples(from: Point, to: Point, duration: real, speed: real, distance: real, n: nat): seq<Sample> {
    seq(n, k requires 0 <= k < n => StepSample(from, to, duration, speed, distance, k))
  }

  /**
   * The sample appended after the loop: the target itself, reached `remainder / speed`
   * after the last whole step, when the distance is not a whole number of steps.
   */
  function RemainderSample(to: Point, duration: real, speed: real, distance: real): seq<Sample>
    requires 0.0 < duration && 0.0 < speed && 0.0 <= distance
  {
    var remainder := Rem(distance, duration * speed);
    if remainder != 0.0
    then [Sample(to.x, to.y, to.z, LastStep(distance, duration * speed) as real * duration + remainder / speed)]
    else []
  }

  /** A sequence that agrees with the stepping loop's samples at every index is their prefix. */
  lemma StepSamplesAgree(from: Point, to: Point, duration: real, speed: real, distance: real, s: seq<Sample>)
    requires forall j :: 0 <= j < |s| ==> s[j] == StepSample(from, to, duration, speed, distance, j)
    ensures s == StepSamples(from, to, duration, speed, distance, |s|)
  {
  }

  /**
   * What `moveTo` returns, in closed form: one sample per cursor position
   * `0, step, ..., last * step` within the distance, then the remainder sample.
   */
  function MoveToSamples(from: Point, to: Point, duration: real, speed: real, distance: real): seq<Sample>
    requires 0.0 < duration && 0.0 < speed && 0.0 <= distance
  {
    StepSamples(from, to, duration, speed, distance, LastStep(distance, duration * speed) + 1)
      + RemainderSample(to, duration, speed, distance)
  }

  /** The first sample of the stepping loop is the start point at time zero. */
  lemma FirstStepSample(from: Point, to: Point, duration: real, speed: real, distance: real)
    ensures StepSample(from, to, duration, speed, distance, 0) == Sample(from.x, from.y, from.z, 0.0)
  {
  }

  /** A loop sample, written out with the fraction `f` of the segment it covers. */
  lemma StepSampleAt(from: Point, to: Point, duration: real, speed: real, distance: real, k: nat, f: real)
    requires f == StepFraction(distance, duration * speed, k)
    ensures StepSample(from, to, duration, speed, distance, k) ==
            Sample(from.x + f * (to.x - from.x), from.y + f * (to.y - from.y), from.z + f * (to.z - from.z),
                   k as real * duration)
  {
  }

  /** Advancing the fraction by one step's share moves the point by `(to - from) / n`, `n` steps making the whole. */
  lemma LerpStep(from: Point, to: Point, f: real, distance: real, step: real, n: real)
    requires 0.0 < distance && 0.0 < step && n == distance / step
    ensures Lerp(from, to, f + step / distance) ==
            Point(Lerp(from, to, f).x + (to.x - from.x) / n,
                  Lerp(from, to, f).y + (to.y - from.y) / n,
                  Lerp(from, to, f).z + (to.z - from.z) / n)
  {
    var p, q := Lerp(from, to, f), Lerp(from, to, f + step / distance);
    assert q.x == p.x + (to.x - from.x) / n by { PerStep(from.x, to.x - from.x, f, distance, step, n); }
    assert q.y == p.y + (to.y - from.y) / n by { PerStep(from.y, to.y - from.y, f, distance, step, n); }
    assert q.z == p.z + (to.z - from.z) / n by { PerStep(from.z, to.z - from.z, f, distance, step, n); }
  }

  /**
   * Each further sample of the stepping loop moves by the per-step share
   * `(to - from) / numberOfSteps` and comes `duration` later.
   */
  lemma NextStepSample(from: Point, to: Point, duration: real, speed: real, distance: real, k: nat, numberOfSteps: real)
    requires 0.0 < duration && 0.0 < speed && 0.0 < distance && 0 < k
    requires numberOfSteps == distance / (duration * speed)
    ensures var previous := StepSample(from, to, duration, speed, distance, k - 1);
            StepSample(from, to, duration, speed, distance, k) ==
            Sample(previous.x + (to.x - from.x) / numberOfSteps,
                   previous.y + (to.y - from.y) / numberOfSteps,
                   previous.z + (to.z - from.z) / numberOfSteps,
                   previous.t + duration)
  {
    var step := duration * speed;
    var f := StepFraction(distance, step, k - 1);
    var g := StepFraction(distance, step, k);
    assert g == f + step / distance by {
      NextFraction(k, step, distance);
    }
    LerpStep(from, to, f, distance, step, numberOfSteps);
    NextCursor(k - 1, duration);
  }

  /** The remainder sample, written with the time of the last whole step. */
  lemma RemainderSampleAt(to: Point, duration: real, speed: real, distance: real, time: real)
    requires 0.0 < duration && 0.0 < speed && 0.0 <= distance
    requires time == LastStep(distance, duration * speed) as real * duration
    ensures RemainderSample(to, duration, speed, distance) ==
            if Rem(distance, duration * speed) != 0.0
            then [Sample(to.x, to.y, to.z, time + Rem(distance, duration * speed) / speed)] else []
  {
  }

  /** After the loop has emitted its samples, the remainder sample completes `moveTo`'s result. */
  lemma MoveToTail(from: Point, to: Point, duration: real, speed: real, distance: real, stepped: seq<Sample>, time: real)
    requires 0.0 < duration && 0.0 < speed && 0.0 <= distance
    requires stepped == StepSamples(from, to, duration, speed, distance, LastStep(distance, duration * speed) + 1)
    requires time == stepped[|stepped| - 1].t
    ensures MoveToSamples(from, to, duration, speed, distance) ==
            stepped + if Rem(distance, duration * speed) != 0.0
                      then [Sample(to.x, to.y, to.z, time + Rem(distance, duration * speed) / speed)] else []
  {
    var last := LastStep(distance, duration * speed);
    assert stepped[last] == StepSample(from, to, duration, speed, distance, last);
    assert time == last as real * duration;
    RemainderSampleAt(to, duration, speed, distance, time);
  }

  /** `moveTo(from, to, duration, speed)` with `distance` standing for `Math.sqrt(...)`. */
  method MoveTo(from: Point, to: Point, duration: real, speed: real, distance: real) returns (result: seq<Sample>)
    requires 0.0 < duration && 0.0 < speed
    requires IsDistance(from, to, distance)
    ensures result == MoveToSamples(from, to, duration, speed, distance)
  {
    var positionX := from.x;
    var positionY := from.y;
    var positionZ := from.z;
    var distanceX := to.x - from.x;
    var distanceY := to.y - from.y;
    var distanceZ := to.z - from.z;
    var stepDistance := duration * speed;
    var remainderOfTheDistance := Rem(distance, stepDistance);
    var numberOfSteps := distance / stepDistance;
    var currentTime := 0.0;
    result := [];

    ghost var last := LastStep(distance, stepDistance);
    var i := 0.0;
    ghost var k: nat := 0;
    while i <= distance
      invariant i == Cursor(k, stepDistance)
      invariant k <= last + 1
      invariant |result| == k
      invariant forall j :: 0 <= j < k ==> result[j] == StepSample(from, to, duration, speed, distance, j)
      invariant k == 0 ==> Sample(positionX, positionY, positionZ, currentTime) == Sample(from.x, from.y, from.z, 0.0)
      invariant k > 0 ==> Sample(positionX, positionY, positionZ, currentTime) == StepSample(from, to, duration, speed, distance, k - 1)
      decreases last + 1 - k
    {
      assert k <= last && (i != 0.0 <==> k != 0) && (k != 0 ==> 0.0 < distance) by {
        CursorIsProduct(k, stepDistance);
        WithinSteps(k, distance, stepDistance);
        CursorAtOrigin(k, stepDistance);
      }
      if i != 0.0 {
        NextStepSample(from, to, duration, speed, distance, k, numberOfSteps);
        positionX := positionX + distanceX / numberOfSteps;
        positionY := positionY + distanceY / numberOfSteps;
        positionZ := positionZ + distanceZ / numberOfSteps;
        currentTime := currentTime + duration;
      } else {
        FirstStepSample(from, to, duration, speed, distance);
      }
      result := result + [Sample(positionX, positionY, positionZ, currentTime)];
      i := i + stepDistance;
      k := k + 1;
    }
    assert k == last + 1 by {
      CursorIsProduct(k, stepDistance);
      WithinSteps(k, distance, stepDistance);
    }
    StepSamplesAgree(from, to, duration, speed, distance, result);
    MoveToTail(from, to, duration, speed, distance, result, currentTime);
    if remainderOfTheDistance != 0.0 {
      result := result + [Sample(to.x, to.y, to.z, currentTime + remainderOfTheDistance / speed)];
    }
  }

  /**
   * `moveTo` has `floor(distance / step) + 1` loop samples, one more when the distance
   * is not a whole number of steps, and always ends exactly at `to`, at time
   * `distance / speed`.
   */
  lemma MoveToEndsAtTarget(from: Point, to: Point, duration: real, speed: real, distance: real)
    requires 0.0 < duration && 0.0 < speed
    requires IsDistance(from, to, distance)
    ensures var s := MoveToSamples(from, to, duration, speed, distance);
            |s| == LastStep(distance, duration * speed) + (if Rem(distance, duration * speed) != 0.0 then 2 else 1) &&
            s[|s| - 1] == Sample(to.x, to.y, to.z, distance / speed)
  {
    var step := duration * speed;
    var last := LastStep(distance, step);
    var s := MoveToSamples(from, to, duration, speed, distance);
    TimeOfDistance(distance, duration, speed);
    RemAfterLastStep(distance, step);
    if Rem(distance, step) == 0.0 {
      assert s[|s| - 1] == StepSample(from, to, duration, speed, distance, last);
      assert last as real * step == distance;
      if distance == 0.0 {
        ZeroDistance(from, to, distance);
      } else {
        var covered := last as real * step;
        assert StepFraction(distance, step, last) == covered / distance;
        assert covered / distance == 1.0;
      }
    }
  }

  /** Every sample of `moveTo` lies on the segment from `from` to `to`. */
  lemma MoveToOnSegment(from: Point, to: Point, duration: real, speed: real, distance: real)
    requires 0.0 < duration && 0.0 < speed
    requires IsDistance(from, to, distance)
    ensures var s := MoveToSamples(from, to, duration, speed, distance);
            forall j :: 0 <= j < |s| ==> OnSegment(s[j], from, to)
  {
    var step := duration * speed;
    var last := LastStep(distance, step);
    var s := MoveToSamples(from, to, duration, speed, distance);
    forall j | 0 <= j < |s|
      ensures OnSegment(s[j], from, to)
    {
      if j <= last {
        var f := StepFraction(distance, step, j);
        assert 0.0 <= f <= 1.0 by {
          WithinSteps(j, distance, step);
          if distance != 0.0 {
            CompareQuotient(1.0, j as real * step, distance);
            assert 0.0 <= j as real * step;
          }
        }
        assert Lerp(from, to, f) == Point(s[j].x, s[j].y, s[j].z);
      } else {
        assert Lerp(from, to, 1.0) == Point(s[j].x, s[j].y, s[j].z);
      }
    }
  }

  /** The times of the samples of `moveTo` strictly increase. */
  lemma MoveToTimesIncrease(from: Point, to: Point, duration: real, speed: real, distance: real)
    requires 0.0 < duration && 0.0 < speed
    requires IsDistance(from, to, distance)
    ensures var s := MoveToSamples(from, to, duration, speed, distance);
            forall i, j :: 0 <= i < j < |s| ==> s[i].t < s[j].t
  {
    var s := MoveToSamples(from, to, duration, speed, distance);
    forall i, j | 0 <= i < j < |s|
      ensures s[i].t < s[j].t
    {
      assert s[i].t == SampleTime(distance, duration, speed, i);
      assert s[j].t == SampleTime(distance, duration, speed, j);
      SampleTimesIncrease(distance, duration, speed, i, j);
    }
  }

  /** The point a fraction `f` of the way lies `f` times the distance from the start. */
  lemma LerpDistance(from: Point, to: Point, f: real, distance: real)
    requires IsDistance(from, to, distance)
    ensures var p := Lerp(from, to, f);
            Sq(p.x - from.x) + Sq(p.y - from.y) + Sq(p.z - from.z) == Sq(f * distance)
  {
    var p := Lerp(from, to, f);
    assert p.x - from.x == f * (to.x - from.x) && p.y - from.y == f * (to.y - from.y) &&
           p.z - from.z == f * (to.z - from.z);
    SqProduct(f, to.x - from.x);
    SqProduct(f, to.y - from.y);
    SqProduct(f, to.z - from.z);
    SqProduct(f, distance);
    ScaleSum(Sq(f), Sq(to.x - from.x), Sq(to.y - from.y), Sq(to.z - from.z), Sq(distance));
  }

  /**
   * The `k`-th sample of the stepping loop lies `k` steps of `duration * speed` away
   * from the start, measured by squared Euclidean distance.
   */
  lemma MoveToStepDistance(from: Point, to: Point, duration: real, speed: real, distance: real, k: nat)
    requires 0.0 < duration && 0.0 < speed
    requires IsDistance(from, to, distance)
    requires k <= LastStep(distance, duration * speed)
    ensures var s := MoveToSamples(from, to, duration, speed, distance)[k];
            Sq(s.x - from.x) + Sq(s.y - from.y) + Sq(s.z - from.z) == Sq(k as real * (duration * speed))
  {
    var step := duration * speed;
    var s := MoveToSamples(from, to, duration, speed, distance)[k];
    var f := StepFraction(distance, step, k);
    assert Point(s.x, s.y, s.z) == Lerp(from, to, f);
    LerpDistance(from, to, f, distance);
    if distance == 0.0 {
      assert k as real * step <= 0.0 by { WithinSteps(k, distance, step); }
      CursorAtOrigin(k, step);
    } else {
      assert f * distance == k as real * step;
    }
  }

  /** A `moveTo` onto the start point stays there: one sample, at time zero. */
  lemma MoveToSamePoint(from: Point, duration: real, speed: real)
    requires 0.0 < duration && 0.0 < speed
    ensures MoveToSamples(from, from, duration, speed, 0.0) == [Sample(from.x, from.y, from.z, 0.0)]
  {
    var step := duration * speed;
    LastStepBounds(0.0, step);
    assert LastStep(0.0, step) == 0 by { CursorAtOrigin(LastStep(0.0, step), step); }
    RemAfterLastStep(0.0, step);
  }

  /**
   * The call `moveTo({x: 1, y: 1, z: 1}, {x: 1, y: 1, z: 8}, 1, 2)`: seven units in steps
   * of two give four loop samples a second apart and a remainder of one unit, covered
   * in half a second, so five samples ending at the target after three and a half seconds.
   */
  lemma MoveToExample()
    ensures var s := MoveToSamples(Point(1.0, 1.0, 1.0), Point(1.0, 1.0, 8.0), 1.0, 2.0, 7.0);
            |s| == 5 && s[0] == Sample(1.0, 1.0, 1.0, 0.0) && s[1] == Sample(1.0, 1.0, 3.0, 1.0) &&
            s[2] == Sample(1.0, 1.0, 5.0, 2.0) && s[3] == Sample(1.0, 1.0, 7.0, 3.0) &&
            s[4] == Sample(1.0, 1.0, 8.0, 3.5)
  {
    ExampleSample(0);
    ExampleSample(1);
    ExampleSample(2);
    ExampleSample(3);
    ExampleRemainder();
  }

  /** In the example three whole steps fit in the distance, and one unit is left. */
  lemma ExampleCounts()
    ensures LastStep(7.0, 1.0 * 2.0) == 3 && Rem(7.0, 1.0 * 2.0) == 1.0
  {
    LastStepBounds(7.0, 1.0 * 2.0);
    RemAfterLastStep(7.0, 1.0 * 2.0);
  }

  /** In the example, the `k`-th loop sample stands `2 * k` above the start, after `k` seconds. */
  lemma ExampleSample(k: nat)
    requires k <= 3
    ensures var s := MoveToSamples(Point(1.0, 1.0, 1.0), Point(1.0, 1.0, 8.0), 1.0, 2.0, 7.0);
            |s| == 5 && s[k] == Sample(1.0, 1.0, 1.0 + 2.0 * k as real, k as real)
  {
    var from, to := Point(1.0, 1.0, 1.0), Point(1.0, 1.0, 8.0);
    ExampleCounts();
    var s := MoveToSamples(from, to, 1.0, 2.0, 7.0);
    var steps := StepSamples(from, to, 1.0, 2.0, 7.0, 4);
    assert s == steps + RemainderSample(to, 1.0, 2.0, 7.0);
    assert s[k] == steps[k] == StepSample(from, to, 1.0, 2.0, 7.0, k);
    var covered := k as real * (1.0 * 2.0);
    assert covered == 2.0 * k as real;
    var f := StepFraction(7.0, 1.0 * 2.0, k);
    assert f == covered / 7.0;
    assert f * (8.0 - 1.0) == covered;
    StepSampleAt(from, to, 1.0, 2.0, 7.0, k, f);
    assert from.x + f * (to.x - from.x) == 1.0;
    assert from.z + f * (to.z - from.z) == 1.0 + covered;
    assert k as real * 1.0 == k as real;
    assert from.y + f * (to.y - from.y) == 1.0;
    assert StepSample(from, to, 1.0, 2.0, 7.0, k) == Sample(1.0, 1.0, 1.0 + 2.0 * k as real, k as real);
    assert s[k] == Sample(1.0, 1.0, 1.0 + 2.0 * k as real, k as real);
    assert |s| == 5;
  }

  /** In the example, the last sample is the target, reached after three and a half seconds. */
  lemma ExampleRemainder()
    ensures var s := MoveToSamples(Point(1.0, 1.0, 1.0), Point(1.0, 1.0, 8.0), 1.0, 2.0, 7.0);
            |s| == 5 && s[4] == Sample(1.0, 1.0, 8.0, 3.5)
  {
    ExampleCounts();
  }

  // ---------------------------------------------------------------------------
  // turnTo: Euler rotation of a vector
  // ---------------------------------------------------------------------------

  /** `Math.sin` and `Math.cos` of one angle. */
  datatype Trig = Trig(sin: real, cos: real)

  /** The rotation angles `{alpha, beta, gamma}`, each given by its sine and cosine. */
  datatype EulerAngles = EulerAngles(alpha: Trig, beta: Trig, gamma: Trig)

  /** The sine and cosine of an actual angle: a point of the unit circle. */
  predicate IsAngle(a: Trig) {
    Sq(a.sin) + Sq(a.cos) == 1.0
  }

  /** All three are actual angles. */
  predicate AreAngles(angles: EulerAngles) {
    IsAngle(angles.alpha) && IsAngle(angles.beta) && IsAngle(angles.gamma)
  }

  /** `rotationMatrix`, row by row, as `turnTo` builds it. */
  function RotationMatrix(angles: EulerAngles): (m: seq<seq<real>>)
    ensures |m| == 3 && forall i :: 0 <= i < 3 ==> |m[i]| == 3
  {
    var sa, ca := angles.alpha.sin, angles.alpha.cos;
    var sb, cb := angles.beta.sin, angles.beta.cos;
    var sg, cg := angles.gamma.sin, angles.gamma.cos;
    [
      [ca * cg - cb * sa * sg, -cg * sa - ca * cb * sg, sb * sg],
      [cb * cg * sa + ca * sg, ca * cb * cg - sa * sg, -cg * sb],
      [sa * sb, ca * sb, cb]
    ]
  }

  /** One entry of a matrix-vector product: a row of the matrix against the first three coordinates. */
  function RowTimes(row: seq<real>, coordinates: seq<real>): real
    requires |row| == 3 && 3 <= |coordinates|
  {
    row[0] * coordinates[0] + row[1] * coordinates[1] + row[2] * coordinates[2]
  }

  /** `turnTo(coordinates, angles)`: the rotation matrix applied to the vector. */
  function TurnTo(coordinates: seq<real>, angles: EulerAngles): (r: seq<real>)
    requires 3 <= |coordinates|
    ensures |r| == 3
  {
    var rotationMatrix := RotationMatrix(angles);
    [
      RowTimes(rotationMatrix[0], coordinates),
      RowTimes(rotationMatrix[1], coordinates),
      RowTimes(rotationMatrix[2], coordinates)
    ]
  }

  /** A rotation by `a` about the z axis. */
  function RotateZ(a: Trig, v: seq<real>): (r: seq<real>)
    requires |v| == 3
    ensures |r| == 3
  {
    [a.cos * v[0] - a.sin * v[1], a.sin * v[0] + a.cos * v[1], v[2]]
  }

  /** A rotation by `a` about the x axis. */
  function RotateX(a: Trig, v: seq<real>): (r: seq<real>)
    requires |v| == 3
    ensures |r| == 3
  {
    [v[0], a.cos * v[1] - a.sin * v[2], a.sin * v[1] + a.cos * v[2]]
  }

  /** The opposite angle: the same cosine, the sine negated. */
  function Opposite(a: Trig): Trig {
    Trig(-a.sin, a.cos)
  }

  /** Two vectors of three coordinates are equal when their coordinates are. */
  lemma SameVector(p: seq<real>, q: seq<real>)
    requires |p| == 3 && |q| == 3
    requires p[0] == q[0] && p[1] == q[1] && p[2] == q[2]
    ensures p == q
  {
    assert forall i | 0 <= i < 3 :: p[i] == q[i];
  }

  /** The squared length of a vector. */
  function Norm(v: seq<real>): real
    requires |v| == 3
  {
    Sq(v[0]) + Sq(v[1]) + Sq(v[2])
  }

  /** Componentwise sum of the first three coordinates. */
  function Add(u: seq<real>, v: seq<real>): (r: seq<real>)
    requires 3 <= |u| && 3 <= |v|
    ensures |r| == 3
  {
    [u[0] + v[0], u[1] + v[1], u[2] + v[2]]
  }

  /** The first three coordinates scaled by `c`. */
  function Scale(c: real, v: seq<real>): (r: seq<real>)
    requires 3 <= |v|
    ensures |r| == 3
  {
    [c * v[0], c * v[1], c * v[2]]
  }

  /**
   * The matrix of `turnTo` is the z-x-z Euler rotation: first about z by `alpha`, then
   * about x by `beta`, then about z by `gamma`.
   */
  lemma TurnToComposition(coordinates: seq<real>, angles: EulerAngles)
    requires 3 <= |coordinates|
    ensures TurnTo(coordinates, angles) ==
            RotateZ(angles.gamma, RotateX(angles.beta, RotateZ(angles.alpha, coordinates[..3])))
  {
    var e := RotateZ(angles.gamma, RotateX(angles.beta, RotateZ(angles.alpha, coordinates[..3])));
    FirstCoordinate(coordinates, angles);
    SecondCoordinate(coordinates, angles);
    ThirdCoordinate(coordinates, angles);
    SameVector(TurnTo(coordinates, angles), e);
  }

  /** The first coordinate of `turnTo` is that of the composed turn. */
  lemma FirstCoordinate(coordinates: seq<real>, angles: EulerAngles)
    requires 3 <= |coordinates|
    ensures TurnTo(coordinates, angles)[0] ==
            RotateZ(angles.gamma, RotateX(angles.beta, RotateZ(angles.alpha, coordinates[..3])))[0]
  {
    var a, b, g := angles.alpha, angles.beta, angles.gamma;
    var x, y, z := coordinates[0], coordinates[1], coordinates[2];
    var v := coordinates[..3];
    assert v[0] == x && v[1] == y && v[2] == z;
    var u := RotateZ(a, v);
    var w := RotateX(b, u);
    var m := RotationMatrix(angles);
    FirstRowIsComposition(a.sin, a.cos, b.sin, b.cos, g.sin, g.cos, x, y, z,
                          m[0][0], m[0][1], m[0][2], w[0], u[1], w[1]);
  }

  /** The second coordinate of `turnTo` is that of the composed turn. */
  lemma SecondCoordinate(coordinates: seq<real>, angles: EulerAngles)
    requires 3 <= |coordinates|
    ensures TurnTo(coordinates, angles)[1] ==
            RotateZ(angles.gamma, RotateX(angles.beta, RotateZ(angles.alpha, coordinates[..3])))[1]
  {
    var a, b, g := angles.alpha, angles.beta, angles.gamma;
    var x, y, z := coordinates[0], coordinates[1], coordinates[2];
    var v := coordinates[..3];
    assert v[0] == x && v[1] == y && v[2] == z;
    var u := RotateZ(a, v);
    var w := RotateX(b, u);
    var m := RotationMatrix(angles);
    SecondRowIsComposition(a.sin, a.cos, b.sin, b.cos, g.sin, g.cos, x, y, z,
                           m[1][0], m[1][1], m[1][2], w[0], u[1], w[1]);
  }

  /** The third coordinate of `turnTo` is that of the composed turn. */
  lemma ThirdCoordinate(coordinates: seq<real>, angles: EulerAngles)
    requires 3 <= |coordinates|
    ensures TurnTo(coordinates, angles)[2] ==
            RotateZ(angles.gamma, RotateX(angles.beta, RotateZ(angles.alpha, coordinates[..3])))[2]
  {
    var a, b := angles.alpha, angles.beta;
    var x, y, z := coordinates[0], coordinates[1], coordinates[2];
    var v := coordinates[..3];
    assert v[0] == x && v[1] == y && v[2] == z;
    var u := RotateZ(a, v);
    var m := RotationMatrix(angles);
    ThirdRowIsComposition(a.sin, a.cos, b.sin, b.cos, x, y, z, m[2][0], m[2][1], m[2][2], u[1]);
  }

  /**
   * The first row `(m0, m1, m2)` of the matrix against `(x, y, z)` is the first
   * coordinate of the composed turn, whose intermediate coordinates are `p`, `q`
   * (after `alpha`) and `h` (after `beta`).
   */
  lemma FirstRowIsComposition(sa: real, ca: real, sb: real, cb: real, sg: real, cg: real,
                              x: real, y: real, z: real, m0: real, m1: real, m2: real,
                              p: real, q: real, h: real)
    requires m0 == ca * cg - cb * sa * sg && m1 == -cg * sa - ca * cb * sg && m2 == sb * sg
    requires p == ca * x - sa * y && q == sa * x + ca * y && h == cb * q - sb * z
    ensures m0 * x + m1 * y + m2 * z == cg * p - sg * h
  {
  }

  /** The second row of the matrix, against the same intermediate coordinates. */
  lemma SecondRowIsComposition(sa: real, ca: real, sb: real, cb: real, sg: real, cg: real,
                               x: real, y: real, z: real, m0: real, m1: real, m2: real,
                               p: real, q: real, h: real)
    requires m0 == cb * cg * sa + ca * sg && m1 == ca * cb * cg - sa * sg && m2 == -cg * sb
    requires p == ca * x - sa * y && q == sa * x + ca * y && h == cb * q - sb * z
    ensures m0 * x + m1 * y + m2 * z == sg * p + cg * h
  {
  }

  /** The third row of the matrix: the turn about x of the coordinate `q` left by `alpha`. */
  lemma ThirdRowIsComposition(sa: real, ca: real, sb: real, cb: real, x: real, y: real, z: real,
                              m0: real, m1: real, m2: real, q: real)
    requires m0 == sa * sb && m1 == ca * sb && m2 == cb
    requires q == sa * x + ca * y
    ensures m0 * x + m1 * y + m2 * z == sb * q + cb * z
  {
  }

  /**
   * A plane turn by an angle with sine `s` and cosine `c` takes `(p, q)` to `(r0, r1)`;
   * it keeps the squared length, and the turn by the opposite angle brings `(r0, r1)`
   * back to `(p, q)`.
   */
  lemma PlaneTurn(s: real, c: real, p: real, q: real, r0: real, r1: real)
    requires Sq(s) + Sq(c) == 1.0
    requires r0 == c * p - s * q && r1 == s * p + c * q
    ensures Sq(r0) + Sq(r1) == Sq(p) + Sq(q)
    ensures c * r0 - -s * r1 == p && -s * r0 + c * r1 == q
  {
    assert Sq(r0) + Sq(r1) == (Sq(s) + Sq(c)) * (Sq(p) + Sq(q));
    assert c * r0 - -s * r1 == (Sq(s) + Sq(c)) * p;
    assert -s * r0 + c * r1 == (Sq(s) + Sq(c)) * q;
  }

  /** A rotation about the z axis keeps the length of a vector. */
  lemma RotateZNorm(a: Trig, v: seq<real>)
    requires |v| == 3 && IsAngle(a)
    ensures Norm(RotateZ(a, v)) == Norm(v)
  {
    var r := RotateZ(a, v);
    PlaneTurn(a.sin, a.cos, v[0], v[1], r[0], r[1]);
  }

  /** A rotation about the x axis keeps the length of a vector. */
  lemma RotateXNorm(a: Trig, v: seq<real>)
    requires |v| == 3 && IsAngle(a)
    ensures Norm(RotateX(a, v)) == Norm(v)
  {
    var r := RotateX(a, v);
    PlaneTurn(a.sin, a.cos, v[1], v[2], r[1], r[2]);
  }

  /** For actual angles, `turnTo` is a rotation: it keeps the length of the vector. */
  lemma TurnToPreservesNorm(coordinates: seq<real>, angles: EulerAngles)
    requires 3 <= |coordinates| && AreAngles(angles)
    ensures Norm(TurnTo(coordinates, angles)) == Norm(coordinates[..3])
  {
    var v := coordinates[..3];
    TurnToComposition(coordinates, angles);
    RotateZNorm(angles.alpha, v);
    RotateXNorm(angles.beta, RotateZ(angles.alpha, v));
    RotateZNorm(angles.gamma, RotateX(angles.beta, RotateZ(angles.alpha, v)));
  }

  /** Turning about the z axis by the opposite angle undoes a turn about it. */
  lemma RotateZUndo(a: Trig, v: seq<real>)
    requires |v| == 3 && IsAngle(a)
    ensures RotateZ(Opposite(a), RotateZ(a, v)) == v
  {
    var r := RotateZ(a, v);
    PlaneTurn(a.sin, a.cos, v[0], v[1], r[0], r[1]);
    SameVector(RotateZ(Opposite(a), r), v);
  }

  /** Turning about the x axis by the opposite angle undoes a turn about it. */
  lemma RotateXUndo(a: Trig, v: seq<real>)
    requires |v| == 3 && IsAngle(a)
    ensures RotateX(Opposite(a), RotateX(a, v)) == v
  {
    var r := RotateX(a, v);
    PlaneTurn(a.sin, a.cos, v[1], v[2], r[1], r[2]);
    SameVector(RotateX(Opposite(a), r), v);
  }

  /**
   * For actual angles, `turnTo` is undone by the three opposite turns in reverse order:
   * about z by `-gamma`, about x by `-beta`, about z by `-alpha`.
   */
  lemma TurnToUndo(coordinates: seq<real>, angles: EulerAngles)
    requires 3 <= |coordinates| && AreAngles(angles)
    ensures RotateZ(Opposite(angles.alpha), RotateX(Opposite(angles.beta), RotateZ(Opposite(angles.gamma),
              TurnTo(coordinates, angles)))) == coordinates[..3]
  {
    var v := coordinates[..3];
    var first := RotateZ(angles.alpha, v);
    var second := RotateX(angles.beta, first);
    TurnToComposition(coordinates, angles);
    RotateZUndo(angles.gamma, second);
    RotateXUndo(angles.beta, first);
    RotateZUndo(angles.alpha, v);
  }

  /** With every sine 0 and every cosine 1 (all angles zero) `turnTo` returns the vector unchanged. */
  lemma TurnToIdentity(coordinates: seq<real>)
    requires 3 <= |coordinates|
    ensures TurnTo(coordinates, EulerAngles(Trig(0.0, 1.0), Trig(0.0, 1.0), Trig(0.0, 1.0))) == coordinates[..3]
  {
    var zero := Trig(0.0, 1.0);
    var m := RotationMatrix(EulerAngles(zero, zero, zero));
    assert m == [[1.0, 0.0, 0.0], [0.0, 1.0, 0.0], [0.0, 0.0, 1.0]];
    SameVector(TurnTo(coordinates, EulerAngles(zero, zero, zero)), coordinates[..3]);
  }

  /** A row against a sum `(s0, s1, s2)` of two vectors is the sum of the row against each. */
  lemma RowDistributes(m0: real, m1: real, m2: real, a0: real, a1: real, a2: real,
                       b0: real, b1: real, b2: real, s0: real, s1: real, s2: real)
    requires s0 == a0 + b0 && s1 == a1 + b1 && s2 == a2 + b2
    ensures m0 * s0 + m1 * s1 + m2 * s2 == (m0 * a0 + m1 * a1 + m2 * a2) + (m0 * b0 + m1 * b1 + m2 * b2)
  {
  }

  /** A row against a vector scaled by `c` into `(s0, s1, s2)` is `c` times the row against it. */
  lemma RowScales(m0: real, m1: real, m2: real, c: real, a0: real, a1: real, a2: real,
                  s0: real, s1: real, s2: real)
    requires s0 == c * a0 && s1 == c * a1 && s2 == c * a2
    ensures m0 * s0 + m1 * s1 + m2 * s2 == c * (m0 * a0 + m1 * a1 + m2 * a2)
  {
  }

  /** A row against a scaled vector is the scaled row product. */
  lemma RowTimesScales(row: seq<real>, c: real, v: seq<real>)
    requires |row| == 3 && 3 <= |v|
    ensures RowTimes(row, Scale(c, v)) == c * RowTimes(row, v)
  {
    var w := Scale(c, v);
    RowScales(row[0], row[1], row[2], c, v[0], v[1], v[2], w[0], w[1], w[2]);
  }

  /** `turnTo` is additive: turning a sum is summing the turns. */
  lemma TurnToAdditive(u: seq<real>, v: seq<real>, angles: EulerAngles)
    requires 3 <= |u| && 3 <= |v|
    ensures TurnTo(Add(u, v), angles) == Add(TurnTo(u, angles), TurnTo(v, angles))
  {
    var m := RotationMatrix(angles);
    var w := Add(u, v);
    RowDistributes(m[0][0], m[0][1], m[0][2], u[0], u[1], u[2], v[0], v[1], v[2], w[0], w[1], w[2]);
    RowDistributes(m[1][0], m[1][1], m[1][2], u[0], u[1], u[2], v[0], v[1], v[2], w[0], w[1], w[2]);
    RowDistributes(m[2][0], m[2][1], m[2][2], u[0], u[1], u[2], v[0], v[1], v[2], w[0], w[1], w[2]);
    SameVector(TurnTo(w, angles), Add(TurnTo(u, angles), TurnTo(v, angles)));
  }

  /** `turnTo` is homogeneous: turning a scaled vector is scaling the turn. */
  lemma TurnToHomogeneous(c: real, v: seq<real>, angles: EulerAngles)
    requires 3 <= |v|
    ensures TurnTo(Scale(c, v), angles) == Scale(c, TurnTo(v, angles))
  {
    var m := RotationMatrix(angles);
    var w := Scale(c, v);
    RowTimesScales(m[0], c, v);
    RowTimesScales(m[1], c, v);
    RowTimesScales(m[2], c, v);
    SameVector(TurnTo(w, angles), Scale(c, TurnTo(v, angles)));
  }

  /**
   * The third component of `turnTo` is `sin(alpha) sin(beta) x + cos(alpha) sin(beta) y
   * + cos(beta) z`: it does not depend on `gamma`.
   */
  lemma TurnToThirdComponent(coordinates: seq<real>, angles: EulerAngles, gamma: Trig)
    requires 3 <= |coordinates|
    ensures TurnTo(coordinates, angles)[2] ==
            angles.alpha.sin * angles.beta.sin * coordinates[0] +
            angles.alpha.cos * angles.beta.sin * coordinates[1] +
            angles.beta.cos * coordinates[2]
    ensures TurnTo(coordinates, angles)[2] == TurnTo(coordinates, angles.(gamma := gamma))[2]
  {
    var x, y, z := coordinates[0], coordinates[1], coordinates[2];
    var m := RotationMatrix(angles);
    var n := RotationMatrix(angles.(gamma := gamma));
    ThirdRow(angles.alpha.sin, angles.alpha.cos, angles.beta.sin, angles.beta.cos, x, y, z, m[2][0], m[2][1], m[2][2]);
    ThirdRow(angles.alpha.sin, angles.alpha.cos, angles.beta.sin, angles.beta.cos, x, y, z, n[2][0], n[2][1], n[2][2]);
  }

  /** The third row of the matrix against `(x, y, z)`, expanded. */
  lemma ThirdRow(sa: real, ca: real, sb: real, cb: real, x: real, y: real, z: real, m0: real, m1: real, m2: real)
    requires m0 == sa * sb && m1 == ca * sb && m2 == cb
    ensures m0 * x + m1 * y + m2 * z == sa * sb * x + ca * sb * y + cb * z
  {
  }
}
