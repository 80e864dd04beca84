/**
 * The JavaScript number operations the controls rely on, over mathematical reals:
 * `Math.abs`, the remainder operator `%`, and the counting of a cursor that walks
 * `0, step, 2*step, ...` while it stays within a distance.
 */
module Numbers {

  /** `Math.abs` */
  function Abs(x: real): (r: real)
    ensures 0.0 <= r
    ensures r == x || r == -x
  {
    if x < 0.0 then -x else x
  }

  /** The integer part of a quotient, rounded toward zero (the quotient behind `%`). */
  function Trunc(x: real): (n: int)
    ensures 0.0 <= x ==> 0 <= n && n as real <= x < n as real + 1.0
    ensures x < 0.0 ==> n <= 0 && n as real - 1.0 < x <= n as real
  {
    if 0.0 <= x then x.Floor else -((-x).Floor)
  }

  /** Multiplying by a positive divisor turns a comparison with a quotient into one with the dividend. */
  lemma CompareQuotient(x: real, a: real, b: real)
    requires 0.0 < b
    ensures x <= a / b <==> x * b <= a
    ensures x < a / b <==> x * b < a
  {
    assert (a / b) * b == a;
    assert (x - a / b) * b == x * b - a;
  }

  /**
   * JavaScript's `a % b` for a positive divisor `b`: `a` minus a whole multiple of `b`,
   * the multiple taken toward zero, so that the remainder keeps the sign of `a`.
   */
  function Rem(a: real, b: real): real
    requires 0.0 < b
  {
    a - Trunc(a / b) as real * b
  }

  /**
   * The remainder lies strictly within one divisor of zero, on the side of the dividend;
   * for a non-negative dividend it is the floored remainder.
   */
  lemma RemBounds(a: real, b: real)
    requires 0.0 < b
    ensures 0.0 <= a ==> 0.0 <= Rem(a, b) < b && Rem(a, b) == a - (a / b).Floor as real * b
    ensures a < 0.0 ==> -b < Rem(a, b) <= 0.0
  {
    var n := Trunc(a / b);
    CompareQuotient(n as real, a, b);
    CompareQuotient(n as real - 1.0, a, b);
    CompareQuotient(n as real + 1.0, a, b);
  }

  /**
   * The index of the last cursor position `k * step` that is still within `distance`:
   * the number of whole steps that fit in `distance`.
   */
  function LastStep(distance: real, step: real): nat
    requires 0.0 <= distance && 0.0 < step
  {
    CompareQuotient(0.0, distance, step);
    (distance / step).Floor
  }

  /** The last step is the largest whole number of steps within the distance. */
  lemma LastStepBounds(distance: real, step: real)
    requires 0.0 <= distance && 0.0 < step
    ensures LastStep(distance, step) as real * step <= distance < (LastStep(distance, step) + 1) as real * step
  {
    var q := distance / step;
    CompareQuotient(q.Floor as real, distance, step);
    CompareQuotient(q.Floor as real + 1.0, distance, step);
  }

  /** A cursor at `k * step` is within `distance` exactly when `k` is at most the last step. */
  lemma WithinSteps(k: nat, distance: real, step: real)
    requires 0.0 <= distance && 0.0 < step
    ensures k as real * step <= distance <==> k <= LastStep(distance, step)
  {
    var n := LastStep(distance, step);
    LastStepBounds(distance, step);
    if k <= n {
      assert (n - k) as real * step >= 0.0;
    } else {
      assert (k - (n + 1)) as real * step >= 0.0;
    }
  }

  /** The distance cursor after `k` increments `i += step`, starting from zero. */
  function Cursor(k: nat, step: real): real {
    if k == 0 then 0.0 else Cursor(k - 1, step) + step
  }

  /** The fraction of a segment covered once the distance cursor stands at `k * step`. */
  function StepFraction(distance: real, step: real, k: nat): real {
    if distance == 0.0 then 0.0 else k as real * step / distance
  }

  /** The accumulated cursor is exactly `k` whole steps. */
  lemma {:induction false} CursorIsProduct(k: nat, step: real)
    ensures Cursor(k, step) == k as real * step
  {
    if k > 0 {
      CursorIsProduct(k - 1, step);
      assert k as real * step == (k - 1) as real * step + step;
    }
  }

  /** One more step adds `step` to the cursor. */
  lemma NextCursor(k: nat, step: real)
    ensures (k + 1) as real * step == k as real * step + step
  {
  }

  /** One more step adds `step / distance` to the fraction of the distance covered. */
  lemma NextFraction(k: nat, step: real, distance: real)
    requires 0 < k && 0.0 < distance
    ensures k as real * step / distance == (k - 1) as real * step / distance + step / distance
  {
    NextCursor(k - 1, step);
  }

  /** The remainder of a distance by its step is what is left after the last whole step. */
  lemma RemAfterLastStep(distance: real, step: real)
    requires 0.0 <= distance && 0.0 < step
    ensures Rem(distance, step) == distance - LastStep(distance, step) as real * step
  {
    RemBounds(distance, step);
  }

  /** The time the cursor takes to cover the whole distance, its last step plus the remainder. */
  lemma TimeOfDistance(distance: real, duration: real, speed: real)
    requires 0.0 <= distance && 0.0 < duration && 0.0 < speed
    ensures LastStep(distance, duration * speed) as real * duration
            + Rem(distance, duration * speed) / speed == distance / speed
  {
    var step := duration * speed;
    var n := LastStep(distance, step) as real;
    RemAfterLastStep(distance, step);
    calc {
      n * duration + Rem(distance, step) / speed;
      n * duration + (distance - n * step) / speed;
      { assert n * step / speed == n * duration; }
      distance / speed;
    }
  }

  /** The square of a number. */
  function Sq(x: real): real {
    x * x
  }

  /** A square is never negative, and is zero only at zero. */
  lemma SqPositive(x: real)
    ensures 0.0 <= Sq(x)
    ensures x != 0.0 ==> 0.0 < Sq(x)
  {
    if x != 0.0 {
      var u := 1.0 / x;
      assert x * u == 1.0;
      assert Sq(x) * (u * u) == (x * u) * (x * u);
    }
  }

  /** The cursor `k * step` of a positive step is at the origin only before the first step. */
  lemma CursorAtOrigin(k: nat, step: real)
    requires 0.0 < step
    ensures k as real * step == 0.0 <==> k == 0
    ensures 0 < k ==> step <= k as real * step
  {
    if 0 < k {
      assert k as real * step == (k - 1) as real * step + step;
      assert 0.0 <= (k - 1) as real * step;
    }
  }

  /**
   * Advancing a fraction `f` of a coordinate's span `delta` by one step's share
   * `step / distance` adds `delta` divided by the number of steps `n = distance / step`.
   */
  lemma PerStep(base: real, delta: real, f: real, distance: real, step: real, n: real)
    requires 0.0 < distance && 0.0 < step && n == distance / step
    ensures base + (f + step / distance) * delta == (base + f * delta) + delta / n
  {
    assert delta / n == (step / distance) * delta;
    assert (f + step / distance) * delta == f * delta + (step / distance) * delta;
  }

  /** The square of a product is the product of the squares. */
  lemma SqProduct(a: real, b: real)
    ensures Sq(a * b) == Sq(a) * Sq(b)
  {
  }

  /** Scaling each of three parts scales their sum. */
  lemma ScaleSum(c: real, a: real, b: real, d: real, sum: real)
    requires sum == a + b + d
    ensures c * a + c * b + c * d == c * sum
  {
  }

  /**
   * The remainder against the floored quotient: a non-negative remainder is already
   * `a - floor(a / b) * b`, a negative one becomes it once `b` is added.
   */
  lemma RemFloored(a: real, b: real)
    requires 0.0 < b
    ensures 0.0 <= Rem(a, b) ==> Rem(a, b) == a - (a / b).Floor as real * b
    ensures Rem(a, b) < 0.0 ==> Rem(a, b) + b == a - (a / b).Floor as real * b
  {
    RemBounds(a, b);
    var n := Trunc(a / b);
    var f := (a / b).Floor;
    if a < 0.0 {
      CompareQuotient(n as real, a, b);
      CompareQuotient(n as real - 1.0, a, b);
      if Rem(a, b) < 0.0 {
        assert n as real - 1.0 <= a / b < n as real;
        assert f == n - 1;
      } else {
        assert a / b == n as real;
        assert f == n;
      }
    }
  }

  /**
   * The time stamp of the `j`-th sample of a stepper over `distance`: `j` durations
   * for a cursor sample, and for the sample after the last whole step the remainder
   * covered at `speed`.
   */
  function SampleTime(distance: real, duration: real, speed: real, j: nat): real
    requires 0.0 <= distance && 0.0 < duration && 0.0 < speed
  {
    var last := LastStep(distance, duration * speed);
    if j <= last then j as real * duration
    else last as real * duration + Rem(distance, duration * speed) / speed
  }

  /**
   * The time stamps of a stepper strictly increase, up to the sample after the last
   * whole step, which exists only when a remainder is left.
   */
  lemma SampleTimesIncrease(distance: real, duration: real, speed: real, i: nat, j: nat)
    requires 0.0 <= distance && 0.0 < duration && 0.0 < speed
    requires i < j
    requires j <= LastStep(distance, duration * speed) || (j == LastStep(distance, duration * speed) + 1 && Rem(distance, duration * speed) != 0.0)
    ensures SampleTime(distance, duration, speed, i) < SampleTime(distance, duration, speed, j)
  {
    var last := LastStep(distance, duration * speed);
    assert i as real * duration < j as real * duration by {
      assert (j - i) as real * duration > 0.0;
    }
    if last < j {
      RemBounds(distance, duration * speed);
      assert 0.0 < Rem(distance, duration * speed) / speed;
    }
  }

  /** Multiplying by a non-negative factor keeps an inequality. */
  lemma ScaleMonotone(c: real, x: real, y: real)
    requires 0.0 <= c && x <= y
    ensures c * x <= c * y
  {
    assert c * y - c * x == c * (y - x);
  }

  /**
   * Half a scaled square `(c * u) * u / 2`, the distance gained under a constant
   * acceleration `c` over a time span `u`, grows with the span.
   */
  lemma HalfScaledSquareMonotone(c: real, u1: real, u2: real)
    requires 0.0 <= c && 0.0 <= u1 <= u2
    ensures 0.0 <= (c * u1) * u1 / 2.0 <= (c * u2) * u2 / 2.0
  {
    ScaleMonotone(c, u1, u2);
    ScaleMonotone(c * u2, u1, u2);
    ScaleMonotone(u1, 0.0, c * u1);
    ScaleMonotone(u1, c * u1, c * u2);
  }
}
