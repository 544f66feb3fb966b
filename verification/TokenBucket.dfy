/** The token bucket: RateLimiter in src/advanced/traffic_manager.cpp, lines 174-196.  Doubles are reals. */
module TokenBucket {
  import opened Machine

  datatype Limits = Limits(rate: real, burst: real) {
    predicate NonNegative() { rate >= 0.0 && burst >= 0.0 }
  }

  datatype Bucket = Bucket(tokens: real, lastMs: uint64, init: bool)

  /** `tryAcquire` and `available`. */
  datatype Call = TryAcquire(now: uint64, tokens: real) | Available(now: uint64)

  function Fresh(limits: Limits): Bucket { Bucket(limits.burst, 0, false) }

  /** What the rate yields between two times. */
  function Earned(rate: real, from: int, to: int): real { rate * (to - from) as real / 1000.0 }

  lemma EarnedAdds(rate: real, a: int, b: int, c: int)
    ensures Earned(rate, a, b) + Earned(rate, b, c) == Earned(rate, a, c)
    ensures rate >= 0.0 && a <= b ==> Earned(rate, a, b) >= 0.0
  {
    assert (c - a) as real == (b - a) as real + (c - b) as real;
    assert rate * (c - a) as real == rate * (b - a) as real + rate * (c - b) as real;
  }

  function Refilled(limits: Limits, b: Bucket, now: uint64): Bucket {
    if !b.init then b.(init := true, lastMs := now)
    else if now > b.lastMs then
      Bucket(MinReal(limits.burst, b.tokens + Earned(limits.rate, b.lastMs, now)), now, true)
    else b
  }

  predicate Allowed(limits: Limits, b: Bucket, c: Call) { c.TryAcquire? && Refilled(limits, b, c.now).tokens >= c.tokens }

  function Step(limits: Limits, b: Bucket, c: Call): Bucket {
    var filled := Refilled(limits, b, c.now);
    if Allowed(limits, b, c) then filled.(tokens := filled.tokens - c.tokens) else filled
  }

  // ------------------------------------------------------------ runs

  function After(limits: Limits, b: Bucket, calls: seq<Call>): Bucket
    decreases |calls|
  {
    if calls == [] then b else After(limits, Step(limits, b, calls[0]), calls[1..])
  }

  /** The total granted. */
  function Admitted(limits: Limits, b: Bucket, calls: seq<Call>): real
    decreases |calls|
  {
    if calls == [] then 0.0
    else (if Allowed(limits, b, calls[0]) then calls[0].tokens else 0.0)
         + Admitted(limits, Step(limits, b, calls[0]), calls[1..])
  }

  predicate Requests(calls: seq<Call>) { forall c :: c in calls && c.TryAcquire? ==> c.tokens >= 0.0 }

  predicate Within(limits: Limits, b: Bucket) { 0.0 <= b.tokens <= limits.burst }

  /** The time up to which a bucket has been filled; the first call sets it. */
  function FilledTo(b: Bucket, calls: seq<Call>): uint64 {
    if b.init || calls == [] then b.lastMs else calls[0].now
  }

  lemma StepKeeps(limits: Limits, b: Bucket, c: Call)
    requires limits.NonNegative() && Within(limits, b) && (c.TryAcquire? ==> c.tokens >= 0.0)
    ensures
      var after := Step(limits, b, c);
      var from := FilledTo(b, [c]);
      && Within(limits, after) && after.init && after.lastMs >= from
      && (if Allowed(limits, b, c) then c.tokens else 0.0) + after.tokens
        <= b.tokens + Earned(limits.rate, from, after.lastMs)
  {
    EarnedAdds(limits.rate, FilledTo(b, [c]), c.now, c.now);
    EarnedAdds(limits.rate, FilledTo(b, [c]), FilledTo(b, [c]), FilledTo(b, [c]));
    hide Earned;
  }

  /** What is granted and what is left were there before or have been earned since. */
  lemma {:induction false} GrantedWasEarned(limits: Limits, b: Bucket, calls: seq<Call>)
    requires limits.NonNegative() && Within(limits, b) && Requests(calls)
    ensures
      var after := After(limits, b, calls);
      && Within(limits, after) && after.lastMs >= FilledTo(b, calls)
      && Admitted(limits, b, calls) + after.tokens
        <= b.tokens + Earned(limits.rate, FilledTo(b, calls), after.lastMs)
    decreases |calls|
  {
    if calls == [] {
      EarnedAdds(limits.rate, b.lastMs, b.lastMs, b.lastMs);
    } else {
      var next := Step(limits, b, calls[0]);
      assert calls[0] in calls;
      StepKeeps(limits, b, calls[0]);
      GrantedWasEarned(limits, next, calls[1..]);
      EarnedAdds(limits.rate, FilledTo(b, calls), next.lastMs, After(limits, b, calls).lastMs);
      hide Earned, Step, Within, Allowed;
    }
  }

  /**
   * The limit: in any contiguous part of any run, timestamps in any order, at most the burst and
   * what the rate yields over the advance of the clock is granted.
   */
  lemma WindowBound(limits: Limits, before: seq<Call>, window: seq<Call>)
    requires limits.NonNegative() && Requests(before) && Requests(window)
    ensures
      var b := After(limits, Fresh(limits), before);
      && Within(limits, b)
      && Admitted(limits, b, window)
        <= limits.burst + Earned(limits.rate, FilledTo(b, window), After(limits, b, window).lastMs)
  {
    var b := After(limits, Fresh(limits), before);
    GrantedWasEarned(limits, Fresh(limits), before);
    GrantedWasEarned(limits, b, window);
  }

  /** The bound is reached: a burst, then whatever the pause earned, up to another burst. */
  lemma BoundIsReached(limits: Limits, start: uint64, end: uint64)
    requires limits.NonNegative() && start <= end && Earned(limits.rate, start, end) <= limits.burst
    ensures
      var earned := Earned(limits.rate, start, end);
      var calls := [TryAcquire(start, limits.burst), TryAcquire(end, earned)];
      Requests(calls) && Admitted(limits, Fresh(limits), calls) == limits.burst + earned
  {
    var earned := Earned(limits.rate, start, end);
    EarnedAdds(limits.rate, start, end, end);
    hide Earned;
    var first, second := TryAcquire(start, limits.burst), TryAcquire(end, earned);
    var b := Step(limits, Fresh(limits), first);
    assert b == Bucket(0.0, start, true);
    assert [first, second][1..] == [second] && [second][1..] == [];
    assert start == end ==> earned == 0.0 by { EarnedAdds(limits.rate, start, start, start); }
    assert Allowed(limits, b, second);
    assert Admitted(limits, Step(limits, b, second), []) == 0.0;
    assert Admitted(limits, b, [second]) == earned;
  }

  /** A request the burst covers is granted after a long enough pause. */
  lemma PauseSuffices(limits: Limits, b: Bucket, now: uint64, tokens: real)
    requires limits.NonNegative() && Within(limits, b) && b.init && now >= b.lastMs
    requires tokens <= limits.burst && Earned(limits.rate, b.lastMs, now) >= tokens
    ensures Allowed(limits, b, TryAcquire(now, tokens))
  {
    EarnedAdds(limits.rate, b.lastMs, b.lastMs, now);
    hide Earned;
  }

  /** Requests must not be negative: exactly then no call takes a bucket out of [0, burst]. */
  lemma WithinIffNonNegative(limits: Limits, now: uint64, tokens: real)
    requires limits.NonNegative()
    ensures (forall b: Bucket :: Within(limits, b) ==> Within(limits, Step(limits, b, TryAcquire(now, tokens))))
      <==> tokens >= 0.0
  {
    var full := Bucket(limits.burst, now, true);
    if tokens >= 0.0 {
      forall b: Bucket | Within(limits, b)
        ensures Within(limits, Step(limits, b, TryAcquire(now, tokens)))
      {
        StepKeeps(limits, b, TryAcquire(now, tokens));
      }
    } else {
      assert Within(limits, full) && !Within(limits, Step(limits, full, TryAcquire(now, tokens)));
    }
  }

  // ------------------------------------------------------------ the object

  class RateLimiter {
    const limits: Limits
    var tokens: real
    var lastMs: uint64
    var init: bool

    function Value(): Bucket
      reads this
    {
      Bucket(tokens, lastMs, init)
    }

    constructor (ratePerSec: real, burst: real)
      ensures limits == Limits(ratePerSec, burst) && Value() == Fresh(limits)
    {
      limits := Limits(ratePerSec, burst);
      tokens, lastMs, init := burst, 0, false;
    }

    method Refill(now: uint64)
      modifies this
      ensures Value() == Refilled(limits, old(Value()), now)
    {
      if !init {
        init := true;
        lastMs := now;
        return;
      }
      if now > lastMs {
        tokens := MinReal(limits.burst, tokens + Earned(limits.rate, lastMs, now));
        lastMs := now;
      }
    }

    method TryAcquire(now: uint64, request: real) returns (ok: bool)
      modifies this
      ensures ok == Allowed(limits, old(Value()), Call.TryAcquire(now, request))
      ensures Value() == Step(limits, old(Value()), Call.TryAcquire(now, request))
    {
      Refill(now);
      if tokens >= request {
        tokens := tokens - request;
        return true;
      }
      return false;
    }

    method Available(now: uint64) returns (left: real)
      modifies this
      ensures Value() == Step(limits, old(Value()), Call.Available(now)) && left == tokens
    {
      Refill(now);
      return tokens;
    }
  }
}
