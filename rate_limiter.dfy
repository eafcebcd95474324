/**
 * `RateLimiter`: a time gate that opens at most once per interval. The clock reading is
 * a parameter of `Limit`.
 */
module RateLimit {
  /** `Limit` at `time` with the gate at `next`: whether it passes, and the new `next`. */
  function LimitStep(next: real, interval: real, time: real): (bool, real) {
    if time < next then (false, next) else (true, time + interval)
  }

  /** A pass happens exactly when the time has reached the gate, and moves the gate one interval past it. */
  lemma LimitCases(next: real, interval: real, time: real)
    ensures var (ok, next') := LimitStep(next, interval, time);
            && (ok <==> next <= time)
            && (ok ==> next' == time + interval)
            && (!ok ==> next' == next)
  {
  }

  /** With a positive interval, a second call at the same time is refused. */
  lemma SecondCallFails(next: real, interval: real, time: real)
    requires interval > 0.0 && LimitStep(next, interval, time).0
    ensures !LimitStep(LimitStep(next, interval, time).1, interval, time).0
  {
  }

  /** A fresh gate lets the first call through at any time from 0 on. */
  lemma FirstCallPasses(interval: real, time: real)
    requires time >= 0.0
    ensures LimitStep(0.0, interval, time).0
  {
  }

  /** The times at which a sequence of calls passes. */
  function Passes(next: real, interval: real, times: seq<real>): seq<real>
    decreases |times|
  {
    if times == [] then []
    else
      var step := LimitStep(next, interval, times[0]);
      (if step.0 then [times[0]] else []) + Passes(step.1, interval, times[1..])
  }

  /** No time in `p` is before `next`. */
  predicate NotBefore(p: seq<real>, next: real) {
    forall i :: 0 <= i < |p| ==> next <= p[i]
  }

  /** Consecutive times in `p` are at least `interval` apart. */
  predicate Spaced(p: seq<real>, interval: real) {
    forall i :: 0 <= i < |p| - 1 ==> p[i] + interval <= p[i + 1]
  }

  /**
   * With an interval that is not negative, passes over any run of calls are at least
   * one interval apart, and none comes before the gate it starts from.
   */
  lemma {:induction false} PassesSpaced(next: real, interval: real, times: seq<real>)
    requires interval >= 0.0
    ensures NotBefore(Passes(next, interval, times), next)
    ensures Spaced(Passes(next, interval, times), interval)
    decreases |times|
  {
    if times != [] {
      var step := LimitStep(next, interval, times[0]);
      var next' := step.1;
      PassesSpaced(next', interval, times[1..]);
      var rest := Passes(next', interval, times[1..]);
      var p := Passes(next, interval, times);
      if step.0 {
        assert p == [times[0]] + rest;
        forall i | 0 <= i < |p| ensures next <= p[i] {
          if i > 0 {
            assert p[i] == rest[i - 1];
          }
        }
        forall i | 0 <= i < |p| - 1 ensures p[i] + interval <= p[i + 1] {
          assert p[i + 1] == rest[i];
          if i > 0 {
            assert p[i] == rest[i - 1];
          }
        }
      } else {
        assert p == rest;
      }
    }
  }

  class RateLimiter {
    /** The interval between passes, in seconds. */
    const rate: real
    var nextTime: real

    /** `RateLimiter(float rate)`: `rate` is the interval. */
    constructor FromInterval(rate: real)
      ensures this.rate == rate && nextTime == 0.0
    {
      this.rate := rate;
      nextTime := 0.0;
    }

    /** `RateLimiter(int rate)`: `rate` passes per second, so the interval is its inverse. */
    constructor FromFrequency(rate: int)
      requires rate != 0
      ensures this.rate == 1.0 / rate as real && nextTime == 0.0
    {
      this.rate := 1.0 / rate as real;
      nextTime := 0.0;
    }

    /** `Limit()` at the clock reading `time`. */
    method Limit(time: real) returns (ok: bool)
      modifies this
      ensures (ok, nextTime) == LimitStep(old(nextTime), rate, time)
    {
      if time < nextTime {
        return false;
      }
      nextTime := time + rate;
      return true;
    }
  }
}
