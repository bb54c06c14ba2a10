/** The sample-time plan both `calculateTimestamps` (TypeScript) and
    `calculate_timestamps` (Rust) compute: in fixed mode `count` interior points
    evenly spaced, in interval mode every multiple of the interval below the
    duration. Times are exact reals. */
module Timestamps {

  /** Fixed mode: point k (from 0) at `duration / (count + 1) * (k + 1)`. */
  function FixedPlan(duration: real, count: nat): seq<real> {
    seq(count, k requires 0 <= k < count => duration / (count as real + 1.0) * (k as real + 1.0))
  }

  /** Steps of `interval` still to take from `t` before reaching `duration`. */
  function StepsLeft(t: real, duration: real, interval: real): nat
    requires interval > 0.0
  {
    if t < duration then ((duration - t) / interval).Floor as nat + 1 else 0
  }

  lemma StepShrinks(t: real, duration: real, interval: real)
    requires interval > 0.0 && t < duration
    ensures StepsLeft(t + interval, duration, interval) < StepsLeft(t, duration, interval)
  {
    var a := duration - t;
    assert (a - interval) / interval == a / interval - interval / interval;
  }

  /** The times `t, t + interval, ...` that are below `duration`. */
  function IntervalFrom(t: real, duration: real, interval: real): seq<real>
    requires interval > 0.0
    decreases StepsLeft(t, duration, interval)
  {
    if t < duration then
      StepShrinks(t, duration, interval);
      [t] + IntervalFrom(t + interval, duration, interval)
    else []
  }

  /** Interval mode: the multiples of `interval`, from the first, below `duration`. */
  function IntervalPlan(duration: real, interval: real): seq<real>
    requires interval > 0.0
  {
    IntervalFrom(interval, duration, interval)
  }

  ghost predicate StrictlyIncreasing(s: seq<real>) {
    forall i, j :: 0 <= i < j < |s| ==> s[i] < s[j]
  }

  // ------------------------------------------------------------ fixed mode

  /** The fixed plan has `count` points, strictly increasing and strictly inside
      the video when the duration is positive. */
  lemma FixedPlanShape(duration: real, count: nat)
    requires duration > 0.0
    ensures |FixedPlan(duration, count)| == count
    ensures StrictlyIncreasing(FixedPlan(duration, count))
    ensures forall k :: 0 <= k < count ==> 0.0 < FixedPlan(duration, count)[k] < duration
  {
    var p := FixedPlan(duration, count);
    var step := duration / (count as real + 1.0);
    assert step > 0.0;
    forall k | 0 <= k < count ensures 0.0 < p[k] < duration {
      assert p[k] == step * (k as real + 1.0);
      assert step * (k as real + 1.0) <= step * (count as real);
      assert step * (count as real + 1.0) == duration;
    }
    forall i, j | 0 <= i < j < count ensures p[i] < p[j] {
      assert p[j] - p[i] == step * (j - i) as real;
    }
  }

  /** Consecutive fixed points are one step apart, the first one step in. */
  lemma FixedPlanSpacing(duration: real, count: nat)
    ensures forall k :: 0 < k < count ==>
      FixedPlan(duration, count)[k] - FixedPlan(duration, count)[k - 1] == duration / (count as real + 1.0)
    ensures count > 0 ==> FixedPlan(duration, count)[0] == duration / (count as real + 1.0)
  {
  }

  /** The example of the Rust tests: 100 s with nine points gives 10, 50 and 90 at
      positions 0, 4 and 8. */
  lemma FixedPlanExample()
    ensures |FixedPlan(100.0, 9)| == 9
    ensures FixedPlan(100.0, 9)[0] == 10.0
    ensures FixedPlan(100.0, 9)[4] == 50.0
    ensures FixedPlan(100.0, 9)[8] == 90.0
  {
  }

  // --------------------------------------------------------- interval mode

  /** Point k of the run from `t` is `t + k * interval`, and every point is below
      the duration. */
  lemma {:induction false} IntervalFromValues(t: real, duration: real, interval: real)
    requires interval > 0.0
    ensures forall k :: 0 <= k < |IntervalFrom(t, duration, interval)| ==>
      IntervalFrom(t, duration, interval)[k] == t + k as real * interval &&
      IntervalFrom(t, duration, interval)[k] < duration
    decreases StepsLeft(t, duration, interval)
  {
    if t < duration {
      StepShrinks(t, duration, interval);
      IntervalFromValues(t + interval, duration, interval);
      var s := IntervalFrom(t, duration, interval);
      forall k | 0 < k < |s| ensures s[k] == t + k as real * interval {
        assert s[k] == IntervalFrom(t + interval, duration, interval)[k - 1];
      }
    }
  }

  /** Point k of the whole plan is `(k + 1) * interval`; the plan is strictly
      increasing and stays below the duration. */
  lemma IntervalPlanValues(duration: real, interval: real)
    requires interval > 0.0
    ensures var p := IntervalPlan(duration, interval);
      (forall k :: 0 <= k < |p| ==> p[k] == (k as real + 1.0) * interval && p[k] < duration) &&
      StrictlyIncreasing(p)
  {
    var p := IntervalPlan(duration, interval);
    IntervalFromValues(interval, duration, interval);
    forall i, j | 0 <= i < j < |p| ensures p[i] < p[j] {
      assert p[j] - p[i] == (j - i) as real * interval;
    }
  }

  /** The plan stops at the first multiple that reaches the duration: the next
      multiple after the last point is not below it. */
  lemma {:induction false} IntervalFromComplete(t: real, duration: real, interval: real)
    requires interval > 0.0
    ensures t + |IntervalFrom(t, duration, interval)| as real * interval >= duration
    decreases StepsLeft(t, duration, interval)
  {
    if t < duration {
      StepShrinks(t, duration, interval);
      IntervalFromComplete(t + interval, duration, interval);
    }
  }

  /** So the plan holds exactly the multiples below the duration. */
  lemma IntervalPlanExact(duration: real, interval: real, k: nat)
    requires interval > 0.0 && k >= 1
    ensures (k as real * interval < duration) <==> k <= |IntervalPlan(duration, interval)|
  {
    var p := IntervalPlan(duration, interval);
    IntervalFromValues(interval, duration, interval);
    IntervalFromComplete(interval, duration, interval);
    if k <= |p| {
      assert p[k - 1] == interval + (k - 1) as real * interval;
    } else {
      var gap := k as real - (|p| as real + 1.0);
      assert gap >= 0.0;
      assert gap * interval >= 0.0;
      assert k as real * interval == (|p| as real + 1.0) * interval + gap * interval;
      assert (|p| as real + 1.0) * interval == interval + |p| as real * interval;
    }
  }

  /** The interval plan is empty exactly when one interval already reaches the
      duration. */
  lemma IntervalPlanEmpty(duration: real, interval: real)
    requires interval > 0.0
    ensures IntervalPlan(duration, interval) == [] <==> interval >= duration
  {
  }

  /** The examples of the Rust tests: 600 s every 2 minutes is 120, 240, 360, 480;
      30 s every minute is nothing. */
  lemma IntervalPlanExamples()
    ensures IntervalPlan(600.0, 120.0) == [120.0, 240.0, 360.0, 480.0]
    ensures IntervalPlan(30.0, 60.0) == []
  {
    assert IntervalFrom(600.0, 600.0, 120.0) == [];
    assert IntervalFrom(480.0, 600.0, 120.0) == [480.0];
    assert IntervalFrom(360.0, 600.0, 120.0) == [360.0, 480.0];
    assert IntervalFrom(240.0, 600.0, 120.0) == [240.0, 360.0, 480.0];
  }

  // ------------------------------------------------------------ the loop

  /** `let mut t = interval; while t < duration { push(t); t += interval }`. */
  method IntervalLoop(duration: real, interval: real) returns (timestamps: seq<real>)
    requires interval > 0.0
    ensures timestamps == IntervalPlan(duration, interval)
  {
    timestamps := [];
    var t := interval;
    while t < duration
      invariant timestamps + IntervalFrom(t, duration, interval) == IntervalPlan(duration, interval)
      decreases StepsLeft(t, duration, interval)
    {
      StepShrinks(t, duration, interval);
      assert IntervalFrom(t, duration, interval) == [t] + IntervalFrom(t + interval, duration, interval);
      timestamps := timestamps + [t];
      t := t + interval;
    }
  }
}
