/** RetryPolicy.go: attempt limit, deadline and exponential backoff. Durations are in nanoseconds. */
module RetryPolicies {
  import opened Basics

  type Duration = int

  datatype RetryPolicy = RetryPolicy(
    maxAttempts: int,
    timeLimit: Duration,
    minDelay: Duration,
    maxDelay: Duration,
    randomizeDelays: bool,
    expBackoffBase: real
  )
  {
    /** What the documentation of the fields asks for. */
    predicate Sane() {
      0 <= minDelay <= maxDelay && expBackoffBase >= 1.0
    }
  }

  /** Go's float-to-integer conversion: towards zero. */
  function Truncate(x: real): int {
    if x >= 0.0 then x.Floor else -((-x).Floor)
  }

  /** A duration scaled through floating point and back. */
  function Scale(d: Duration, factor: real): Duration {
    Truncate(factor * d as real)
  }

  /** The stored delay after the failure of the given attempt, from the one stored before. */
  function NextDelay(p: RetryPolicy, attempt: int, delay: Duration): Duration {
    if attempt == 2 then p.minDelay
    else if attempt > 2 then Min(Scale(delay, p.expBackoffBase), p.maxDelay)
    else delay
  }

  /** One operation's retry state. Every clock reading is any time not before the last known one. */
  class Op {
    const policy: RetryPolicy
    const expires: int
    var attempt: nat
    var delay: Duration
    var now: int                     // a time the wall clock has reached
    var asked: int                   // the clock reading of the last ShouldRetry
    ghost var sleeps: seq<Duration>

    /** The clock has not gone back, and the stored delay and all sleeps are those of the backoff law. */
    ghost predicate Valid()
      reads this
    {
      && attempt >= 1 && expires <= now + policy.timeLimit
      && |sleeps| == attempt - 1
      && delay == (if attempt == 1 then 0 else Backoff(policy, attempt - 1))
      && SleepsAllowed(policy, sleeps)
    }

    /** No further attempt is allowed: too many were made, or the last one failed after the deadline. */
    ghost predicate GivenUp()
      reads this
    {
      attempt >= policy.maxAttempts || asked > expires
    }

    /** StartOperation, at the given time. */
    constructor (policy: RetryPolicy, start: int)
      ensures Valid() && this.policy == policy
      ensures attempt == 1 && delay == 0 && expires == start + policy.timeLimit && now == start
    {
      this.policy := policy;
      expires := start + policy.timeLimit;
      attempt := 1;
      delay := 0;
      now, asked := start, start;
      sleeps := [];
    }

    /** Asked at some moment, no earlier than any known one. */
    method ShouldRetry() returns (retry: bool)
      requires Valid()
      modifies this
      ensures Valid()
      ensures old(now) <= asked <= now
      ensures retry <==> old(attempt) < policy.maxAttempts && asked <= expires
      ensures !retry ==> attempt == old(attempt) && sleeps == old(sleeps)
      ensures retry ==> attempt == old(attempt) + 1 && sleeps[..old(attempt) - 1] == old(sleeps)
      ensures retry ==> policy.timeLimit >= 0 && now == asked + Max(sleeps[attempt - 2], 0)
      ensures retry && policy.Sane() ==> now <= expires + policy.maxDelay && SleepsGrow(policy, sleeps)
    {
      var reading: int :| now <= reading;
      var random: real :| 0.0 <= random < 1.0;
      retry := ShouldRetryAt(reading, random);
      if retry && policy.Sane() {
        SleepsWithinBounds(policy, attempt - 1, sleeps[attempt - 2]);
        AllowedSleepsGrow(policy, sleeps);
      }
    }

    /**
     ShouldRetry, given what the clock and the random source say. It returns when the clock has moved by
     the sleep, or later.
     */
    method ShouldRetryAt(reading: int, random: real) returns (retry: bool)
      requires Valid() && now <= reading && 0.0 <= random < 1.0
      modifies this
      ensures Valid() && asked == reading
      ensures retry <==> old(attempt) < policy.maxAttempts && reading <= expires
      ensures !retry ==> attempt == old(attempt) && sleeps == old(sleeps) && now == reading
      ensures retry ==> attempt == old(attempt) + 1 && sleeps == old(sleeps) + [sleeps[attempt - 2]]
      ensures retry ==> now == reading + Max(sleeps[attempt - 2], 0) && Spread(random, sleeps[attempt - 2])
    {
      asked, now := reading, reading;
      if attempt >= policy.maxAttempts || reading > expires {
        return false;
      }
      GrowDelay();
      var effectiveDelay := EffectiveDelay(random);
      attempt := attempt + 1;
      sleeps := sleeps + [effectiveDelay];
      now := reading + Max(effectiveDelay, 0);
      return true;
    }

    /** Lines 74-81. */
    method GrowDelay()
      modifies this`delay
      ensures delay == NextDelay(policy, attempt, old(delay))
    {
      if attempt == 2 {
        delay := policy.minDelay;
      } else if attempt > 2 {
        delay := Scale(delay, policy.expBackoffBase);
        if delay > policy.maxDelay {
          delay := policy.maxDelay;
        }
      }
    }

    /** A randomised sleep exceeds MinDelay by the random part, rounded down, of what the delay exceeds it by. */
    ghost predicate Spread(random: real, slept: Duration)
      reads this
    {
      policy.randomizeDelays && delay > policy.minDelay ==>
        Multiplied(random, delay - policy.minDelay, slept - policy.minDelay)
    }

    /** Lines 83-86. */
    method EffectiveDelay(random: real) returns (effectiveDelay: Duration)
      requires 0.0 <= random < 1.0
      ensures SleepAllowed(policy, delay, effectiveDelay) && Spread(random, effectiveDelay)
    {
      effectiveDelay := delay;
      if policy.randomizeDelays && delay > policy.minDelay {
        RandomisedDelay(delay - policy.minDelay, random);
        effectiveDelay := policy.minDelay + Scale(delay - policy.minDelay, random);
      }
    }
  }

  /** What a sleep may be, given the stored delay. */
  predicate SleepAllowed(p: RetryPolicy, delay: Duration, slept: Duration) {
    if p.randomizeDelays && delay > p.minDelay then p.minDelay <= slept <= delay else slept == delay
  }

  lemma RandomisedDelay(span: int, random: real)
    requires span >= 0 && 0.0 <= random < 1.0
    ensures 0 <= Scale(span, random) <= span && Multiplied(random, span, Scale(span, random))
  {
    var scaled := random * span as real;
    PartOf(span as real, random, scaled);
    TruncateBetween(scaled, 0, span);
    TruncateBelow(scaled);
  }

  // Products are passed under names: the solver then treats each as one number.
  lemma PartOf(whole: real, share: real, part: real)
    requires whole >= 0.0 && 0.0 <= share <= 1.0 && part == share * whole
    ensures 0.0 <= part <= whole
  {
    ScaleMonotone(share, 0.0, whole);
    assert whole - part == (1.0 - share) * whole;
  }

  lemma Grows(x: real, factor: real, product: real)
    requires x >= 0.0 && factor >= 1.0 && product == factor * x
    ensures x <= product
  {
    assert product - x == (factor - 1.0) * x;
  }

  lemma TruncateBetween(x: real, low: int, high: int)
    requires 0 <= low && low as real <= x <= high as real
    ensures low <= Truncate(x) <= high
  {}

  lemma TruncateAbove(x: real, low: int)
    requires 0 <= low && low as real <= x
    ensures low <= Truncate(x) && Truncate(x) as real <= x
  {}

  lemma ScaleMonotone(x: real, a: real, b: real)
    requires x >= 0.0 && a <= b
    ensures x * a <= x * b
  {}

  // ---------------------------------------------------------------- the backoff law

  /** The delay stored for the n-th failed attempt of an operation. */
  function Backoff(p: RetryPolicy, n: nat): Duration {
    if n <= 1 then 0 else NextDelay(p, n, Backoff(p, n - 1))
  }

  /** first * base^n */
  function Geometric(first: real, base: real, n: nat): real {
    if n == 0 then first else base * Geometric(first, base, n - 1)
  }

  /** First retry at once, then delays that start at MinDelay, never shrink and never leave [MinDelay, MaxDelay]. */
  lemma {:induction false} BackoffGrowsWithinBounds(p: RetryPolicy, n: nat)
    requires p.Sane() && n >= 2
    ensures Backoff(p, 1) == 0 && Backoff(p, 2) == p.minDelay
    ensures p.minDelay <= Backoff(p, n) <= p.maxDelay
    ensures Backoff(p, n) <= Backoff(p, n + 1)
  {
    if n > 2 {
      BackoffGrowsWithinBounds(p, n - 1);
      GrowStep(p, Backoff(p, n - 1), n);
    }
    GrowStep(p, Backoff(p, n), n + 1);
  }

  lemma CappedGrowth(d: Duration, product: real, cap: Duration)
    requires 0 <= d <= cap && d as real <= product
    ensures d <= Min(Truncate(product), cap) <= cap && Min(Truncate(product), cap) as real <= product
  {
    TruncateAbove(product, d);
  }

  lemma GrowStep(p: RetryPolicy, d: Duration, attempt: nat)
    requires p.Sane() && p.minDelay <= d <= p.maxDelay && attempt > 2
    ensures d <= NextDelay(p, attempt, d) <= p.maxDelay
    ensures NextDelay(p, attempt, d) as real <= p.expBackoffBase * d as real
  {
    var product := p.expBackoffBase * d as real;
    Grows(d as real, p.expBackoffBase, product);
    CappedGrowth(d, product, p.maxDelay);
    assert NextDelay(p, attempt, d) == Min(Truncate(product), p.maxDelay);
  }

  lemma GeometricNext(first: real, base: real, n: nat)
    ensures Geometric(first, base, n + 1) == base * Geometric(first, base, n)
  {}

  lemma StaysBelow(factor: real, x: real, limit: real, product: real, scaledLimit: real)
    requires factor >= 0.0 && x <= limit && product == factor * x && scaledLimit == factor * limit
    ensures product <= scaledLimit
  {
    ScaleMonotone(factor, x, limit);
  }

  lemma StepBelow(p: RetryPolicy, attempt: nat, before: Duration, n: nat)
    requires p.Sane() && p.minDelay <= before <= p.maxDelay && attempt > 2
    requires before as real <= Geometric(p.minDelay as real, p.expBackoffBase, n)
    ensures NextDelay(p, attempt, before) as real <= Geometric(p.minDelay as real, p.expBackoffBase, n + 1)
  {
    var first, base := p.minDelay as real, p.expBackoffBase;
    GrowStep(p, before, attempt);
    GeometricNext(first, base, n);
    StaysBelow(base, before as real, Geometric(first, base, n), base * before as real, Geometric(first, base, n + 1));
  }

  /** The delays stay below MinDelay * base^(n-2). */
  lemma {:induction false} BackoffBelowExponential(p: RetryPolicy, n: nat)
    requires p.Sane() && n >= 2
    ensures Backoff(p, n) as real <= Geometric(p.minDelay as real, p.expBackoffBase, n - 2)
  {
    if n > 2 {
      BackoffBelowExponential(p, n - 1);
      BackoffGrowsWithinBounds(p, n - 1);
      StepBelow(p, n, Backoff(p, n - 1), n - 3);
    }
  }

  /** Each delay is the one before it times the base, rounded down, or MaxDelay if that is less. */
  lemma BackoffMultiplies(p: RetryPolicy, n: nat)
    requires p.Sane() && n >= 2
    ensures Capped(p.expBackoffBase, p.maxDelay, Backoff(p, n), Backoff(p, n + 1))
  {
    BackoffGrowsWithinBounds(p, n);
    CappedStep(p, Backoff(p, n), n + 1);
  }

  lemma CappedStep(p: RetryPolicy, d: Duration, attempt: nat)
    requires p.Sane() && 0 <= d && attempt > 2
    ensures Capped(p.expBackoffBase, p.maxDelay, d, NextDelay(p, attempt, d))
  {
    var product := p.expBackoffBase * d as real;
    Grows(d as real, p.expBackoffBase, product);
    assert NextDelay(p, attempt, d) == Min(Truncate(product), p.maxDelay);
    CapExactly(product, p.maxDelay, NextDelay(p, attempt, d));
  }

  lemma CapExactly(product: real, cap: int, after: int)
    requires 0.0 <= product && after == Min(Truncate(product), cap)
    ensures if product >= cap as real then after == cap else product - 1.0 < after as real <= product
  {
    TruncateBelow(product);
  }

  predicate Capped(base: real, cap: Duration, before: Duration, after: Duration) {
    if base * before as real >= cap as real then after == cap else Multiplied(base, before, after)
  }

  predicate Multiplied(base: real, before: Duration, after: Duration) {
    base * before as real - 1.0 < after as real <= base * before as real
  }

  lemma TruncateBelow(x: real)
    requires x >= 0.0
    ensures x - 1.0 < Truncate(x) as real <= x
  {}

  /**
   A later sleep: the one before it times the base, at most MaxDelay; or, randomised, between MinDelay
   and the stored delay.
   */
  ghost predicate NextSleep(p: RetryPolicy, n: nat, before: Duration, slept: Duration) {
    if p.randomizeDelays then p.minDelay <= slept <= Backoff(p, n)
    else Capped(p.expBackoffBase, p.maxDelay, before, slept)
  }

  /** The first retry comes at once, the second after MinDelay, and then the sleeps grow. */
  ghost predicate SleepsGrow(p: RetryPolicy, sleeps: seq<Duration>) {
    && (|sleeps| > 0 ==> sleeps[0] == 0)
    && (|sleeps| > 1 ==> sleeps[1] == p.minDelay)
    && forall i {:trigger sleeps[i]} | 2 <= i < |sleeps| :: NextSleep(p, i + 1, sleeps[i - 1], sleeps[i])
  }

  lemma NextSleepAllowed(p: RetryPolicy, n: nat, before: Duration, slept: Duration)
    requires p.Sane() && n >= 2
    requires SleepAllowed(p, Backoff(p, n), before) && SleepAllowed(p, Backoff(p, n + 1), slept)
    ensures NextSleep(p, n + 1, before, slept)
  {
    if p.randomizeDelays {
      SleepsWithinBounds(p, n + 1, slept);
    } else {
      BackoffMultiplies(p, n);
    }
  }

  lemma FirstSleeps(p: RetryPolicy, sleeps: seq<Duration>)
    requires p.Sane() && SleepsAllowed(p, sleeps)
    ensures |sleeps| > 0 ==> sleeps[0] == 0
    ensures |sleeps| > 1 ==> sleeps[1] == p.minDelay
  {
    assert Backoff(p, 1) == 0 && Backoff(p, 2) == p.minDelay;
  }

  lemma AllowedSleepsGrow(p: RetryPolicy, sleeps: seq<Duration>)
    requires p.Sane() && SleepsAllowed(p, sleeps)
    ensures SleepsGrow(p, sleeps)
  {
    FirstSleeps(p, sleeps);
    forall i | 2 <= i < |sleeps|
      ensures NextSleep(p, i + 1, sleeps[i - 1], sleeps[i])
    {
      NextSleepAllowed(p, i, sleeps[i - 1], sleeps[i]);
    }
  }

  /** Once the ceiling is reached the delay stays there. */
  lemma {:induction false} CeilingIsKept(p: RetryPolicy, n: nat, m: nat)
    requires p.Sane() && 2 <= n <= m && Backoff(p, n) == p.maxDelay
    ensures Backoff(p, m) == p.maxDelay
  {
    if m > n {
      CeilingIsKept(p, n, m - 1);
      BackoffGrowsWithinBounds(p, m - 1);
      BackoffGrowsWithinBounds(p, m);
    }
  }

  /** The code caps only the grown delays, so MaxDelay bounds every delay exactly when MinDelay does not exceed it. */
  lemma MaxDelayHoldsIffMinDelayFits(p: RetryPolicy)
    requires 0 <= p.maxDelay
    ensures (forall n: nat :: Backoff(p, n) <= p.maxDelay) <==> p.minDelay <= p.maxDelay
  {
    assert Backoff(p, 2) == p.minDelay;
  }

  /** Every sleep of an operation after the first lies in [MinDelay, MaxDelay]. */
  lemma SleepsWithinBounds(p: RetryPolicy, n: nat, slept: Duration)
    requires p.Sane() && n >= 1 && SleepAllowed(p, Backoff(p, n), slept)
    ensures n == 1 ==> slept == 0
    ensures n >= 2 ==> p.minDelay <= slept <= Backoff(p, n) <= p.maxDelay
  {
    if n >= 2 { BackoffGrowsWithinBounds(p, n); }
  }

  /** What a clock that stood at `start` says after the first n of these sleeps. */
  function ClockAfter(start: int, sleeps: seq<Duration>, n: nat): int
    requires n <= |sleeps|
  {
    if n == 0 then start else ClockAfter(start, sleeps, n - 1) + sleeps[n - 1]
  }

  lemma {:induction false} ClockAfterMore(start: int, sleeps: seq<Duration>, slept: Duration, n: nat)
    requires n <= |sleeps|
    ensures ClockAfter(start, sleeps + [slept], n) == ClockAfter(start, sleeps, n)
  {
    if n > 0 {
      ClockAfterMore(start, sleeps, slept, n - 1);
    }
  }

  ghost predicate SleepsAllowed(p: RetryPolicy, sleeps: seq<Duration>) {
    forall i | 0 <= i < |sleeps| :: SleepAllowed(p, Backoff(p, i + 1), sleeps[i])
  }

  /** The operation is asked again as soon as it has slept, and its clock says when its retries started. */
  ghost predicate Undelayed(start: int, expires: int, sleeps: seq<Duration>, starts: seq<int>) {
    && |starts| == |sleeps|
    && forall i | 0 <= i < |starts| ::
         starts[i] == ClockAfter(start, sleeps, i + 1) && ClockAfter(start, sleeps, i) <= expires
  }

  lemma UndelayedMore(start: int, expires: int, sleeps: seq<Duration>, starts: seq<int>, slept: Duration, began: int)
    requires Undelayed(start, expires, sleeps, starts) && ClockAfter(start, sleeps, |sleeps|) <= expires
    requires began == ClockAfter(start, sleeps, |sleeps|) + slept
    ensures Undelayed(start, expires, sleeps + [slept], starts + [began])
    ensures ClockAfter(start, sleeps + [slept], |sleeps| + 1) == began
  {
    var all := sleeps + [slept];
    forall i | 0 <= i <= |sleeps|
      ensures ClockAfter(start, all, i) == ClockAfter(start, sleeps, i)
    {
      ClockAfterMore(start, sleeps, slept, i);
    }
  }

  lemma UndelayedStartsInTime(p: RetryPolicy, start: int, expires: int, sleeps: seq<Duration>, starts: seq<int>)
    requires p.Sane() && SleepsAllowed(p, sleeps) && Undelayed(start, expires, sleeps, starts)
    ensures forall i | 0 <= i < |starts| :: starts[i] <= expires + p.maxDelay
  {
    forall i | 0 <= i < |starts|
      ensures starts[i] <= expires + p.maxDelay
    {
      assert starts[i] == ClockAfter(start, sleeps, i + 1);
      assert ClockAfter(start, sleeps, i) <= expires;
      assert ClockAfter(start, sleeps, i + 1) == ClockAfter(start, sleeps, i) + sleeps[i];
      SleepsWithinBounds(p, i + 1, sleeps[i]);
      assert sleeps[i] <= p.maxDelay;
    }
  }

  /**
   An operation all of whose attempts fail, on a clock that only its own sleeps move: it retries
   until the attempts are used up or the deadline is past, and every retry starts no later than the
   deadline plus MaxDelay.
   */
  method RetryOnOwnClock(p: RetryPolicy, start: int, random: nat -> real)
      returns (starts: seq<int>, ghost sleeps: seq<Duration>)
    requires p.Sane() && forall i :: 0.0 <= random(i) < 1.0
    ensures SleepsAllowed(p, sleeps) && Undelayed(start, start + p.timeLimit, sleeps, starts)
    ensures forall i | 0 <= i < |starts| :: starts[i] <= start + p.timeLimit + p.maxDelay
    ensures |starts| < Max(1, p.maxAttempts)
    ensures |starts| == Max(1, p.maxAttempts) - 1 || ClockAfter(start, sleeps, |sleeps|) > start + p.timeLimit
  {
    var op := new Op(p, start);
    starts := [];
    var again := true;
    while again
      invariant fresh(op) && op.Valid() && op.policy == p && op.expires == start + p.timeLimit
      invariant op.attempt == |starts| + 1 <= Max(1, p.maxAttempts) && op.now == ClockAfter(start, op.sleeps, |starts|)
      invariant Undelayed(start, op.expires, op.sleeps, starts)
      invariant again || op.attempt >= p.maxAttempts || op.now > op.expires
      decreases again, p.maxAttempts - op.attempt
    {
      again, starts := RetryAtOnce(op, start, starts, random(|starts|));
    }
    sleeps := op.sleeps;
    UndelayedStartsInTime(p, start, op.expires, sleeps, starts);
  }

  /** One more failure of such an operation. */
  method RetryAtOnce(op: Op, start: int, starts: seq<int>, random: real) returns (again: bool, more: seq<int>)
    requires 0.0 <= random < 1.0 && op.Valid() && op.policy.Sane() && op.attempt == |starts| + 1
    requires op.now == ClockAfter(start, op.sleeps, |starts|) && Undelayed(start, op.expires, op.sleeps, starts)
    modifies op
    ensures op.Valid() && op.attempt == |more| + 1
    ensures op.now == ClockAfter(start, op.sleeps, |more|) && Undelayed(start, op.expires, op.sleeps, more)
    ensures again ==> op.attempt == old(op.attempt) + 1 <= op.policy.maxAttempts
    ensures !again ==> op.attempt == old(op.attempt) && (op.attempt >= op.policy.maxAttempts || op.now > op.expires)
  {
    ghost var before := op.sleeps;
    more := starts;
    again := op.ShouldRetryAt(op.now, random);
    if again {
      SleepsWithinBounds(op.policy, op.attempt - 1, op.sleeps[op.attempt - 2]);
      UndelayedMore(start, op.expires, before, starts, op.sleeps[op.attempt - 2], op.now);
      more := starts + [op.now];
    }
  }
}
