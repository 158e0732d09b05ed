/** The request throttler: a token bucket, an adaptive delay and a retry loop. Times are real
    seconds; what the clock shows is handed to each method. */
module Throttler {
  import opened Common
  import opened Reals

  function Min(a: real, b: real): real {
    if a <= b then a else b
  }

  function Max(a: real, b: real): real {
    if a >= b then a else b
  }

  // ---------------------------------------------------------------- the token bucket

  datatype Bucket = Bucket(rate: real, size: real, tokens: real, last: real) {
    /** A positive rate, room for a token, and between none and `size` tokens. */
    predicate Valid() {
      rate > 0.0 && size >= 1.0 && 0.0 <= tokens <= size
    }

    function Refilled(now: real): Bucket {
      this.(tokens := Min(size, tokens + (now - last) * rate), last := now)
    }

    /** How long to sleep for the next token. */
    function Wait(): real
      requires rate > 0.0
    {
      (1.0 - tokens) / rate
    }

    /** One acquisition: refill, and if that is not enough sleep until `later` and refill again. */
    function Acquired(now: real, later: real): Bucket {
      var first := Refilled(now);
      var second := if first.tokens < 1.0 then first.Refilled(later) else first;
      second.(tokens := second.tokens - 1.0)
    }

    /** The clock does not run backwards and a sleep is at least as long as asked. */
    predicate ClockOk(now: real, later: real)
      requires rate > 0.0
    {
      last <= now && (Refilled(now).tokens < 1.0 ==> now + Refilled(now).Wait() <= later)
    }
  }

  lemma NonNegative(a: real, b: real, product: real)
    requires a >= 0.0 && b >= 0.0 && product == a * b
    ensures product >= 0.0
  {
  }

  lemma RefillValid(b: Bucket, now: real)
    requires b.Valid() && b.last <= now
    ensures b.Refilled(now).Valid() && b.Refilled(now).tokens <= b.tokens + (now - b.last) * b.rate
    ensures b.tokens <= b.Refilled(now).tokens
  {
    var brought := (now - b.last) * b.rate;
    NonNegative(now - b.last, b.rate, brought);
    assert b.Refilled(now).tokens == Min(b.size, b.tokens + brought);
  }

  lemma SleepBrings(tokens: real, rate: real, wait: real, elapsed: real)
    requires rate > 0.0 && tokens < 1.0 && wait * rate == 1.0 - tokens && wait <= elapsed
    ensures elapsed > 0.0 && tokens + elapsed * rate >= 1.0
  {
    Monotone(wait, elapsed, rate);
    PositiveFactor(elapsed, rate);
  }

  /** After the sleep there is a whole token. */
  lemma WaitSuffices(b: Bucket, later: real)
    requires b.Valid() && b.tokens < 1.0 && b.last + b.Wait() <= later
    ensures b.last <= later && b.Refilled(later).tokens >= 1.0
  {
    Quotient(1.0 - b.tokens, b.rate);
    SleepBrings(b.tokens, b.rate, b.Wait(), later - b.last);
  }

  /** An acquisition keeps the bucket within bounds and costs one token more than time brought in. */
  lemma AcquireKeeps(b: Bucket, now: real, later: real)
    requires b.Valid() && b.ClockOk(now, later)
    ensures var after := b.Acquired(now, later);
            && after.Valid() && after.tokens <= b.size - 1.0
            && after.rate == b.rate && after.size == b.size && b.last <= after.last
            && after.tokens <= b.tokens + (after.last - b.last) * b.rate - 1.0
  {
    var first := b.Refilled(now);
    RefillValid(b, now);
    if first.tokens < 1.0 {
      WaitSuffices(first, later);
      RefillValid(first, later);
      Distribute(now - b.last, later - now, b.rate);
      assert (now - b.last) + (later - now) == later - b.last;
    }
  }

  /** With a whole token on arrival there is no sleep: the bucket holds what time has brought, at
      most its size, less the token. */
  lemma AcquireAtOnce(b: Bucket, now: real, later: real, brought: real)
    requires b.size >= 1.0 && brought == b.tokens + (now - b.last) * b.rate && brought >= 1.0
    ensures b.Acquired(now, later) == Bucket(b.rate, b.size, (if brought <= b.size then brought else b.size) - 1.0, now)
  {
    assert b.Refilled(now).tokens == Min(b.size, brought);
  }

  /** Without one, it is the time after the sleep that counts. */
  lemma AcquireAfterSleep(b: Bucket, now: real, later: real, brought: real)
    requires b.size >= 1.0 && b.tokens + (now - b.last) * b.rate < 1.0 && brought == b.tokens + (later - b.last) * b.rate
    ensures b.Acquired(now, later) == Bucket(b.rate, b.size, (if brought <= b.size then brought else b.size) - 1.0, later)
  {
    RefillTwice(b, now, later);
    assert b.Acquired(now, later) == b.Refilled(later).(tokens := b.Refilled(later).tokens - 1.0);
    assert b.Refilled(later).tokens == Min(b.size, brought);
  }

  lemma RefillTwice(b: Bucket, now: real, later: real)
    requires b.size >= 1.0 && b.tokens + (now - b.last) * b.rate < 1.0
    ensures b.Refilled(now).tokens < 1.0 && b.Refilled(now).Refilled(later) == b.Refilled(later)
  {
    var first, second, whole := (now - b.last) * b.rate, (later - now) * b.rate, (later - b.last) * b.rate;
    AddUp(now - b.last, later - now, later - b.last, b.rate, first, second, whole);
    assert b.Refilled(now) == b.(tokens := b.tokens + first, last := now);
    assert b.Refilled(now).Refilled(later) == b.(tokens := Min(b.size, b.tokens + first + second), last := later);
    assert b.Refilled(later) == b.(tokens := Min(b.size, b.tokens + whole), last := later);
  }

  lemma AddUp(d: real, e: real, both: real, rate: real, first: real, second: real, whole: real)
    requires both == d + e && first == d * rate && second == e * rate && whole == both * rate
    ensures first + second == whole
  {
  }

  // ---------------------------------------------------------------- grants over a run

  /** When a token was granted and how many were left right after. */
  datatype Grant = Grant(time: real, left: real)

  /** The next grant costs a token, and time brings at most `rate` per second. */
  predicate Follows(a: Grant, b: Grant, rate: real) {
    a.time <= b.time && b.left <= a.left + (b.time - a.time) * rate - 1.0
  }

  ghost predicate Paced(grants: seq<Grant>, rate: real, size: real) {
    && (forall k | 0 <= k < |grants| :: 0.0 <= grants[k].left <= size - 1.0)
    && (forall k | 0 < k < |grants| :: Follows(grants[k - 1], grants[k], rate))
  }

  lemma TwoSteps(first: real, middle: real, last: real, d: real, e: real, rate: real, n: real)
    requires middle <= first + d * rate - n && last <= middle + e * rate - 1.0
    ensures last <= first + (d + e) * rate - (n + 1.0)
  {
    Distribute(d, e, rate);
  }

  lemma {:induction false} SpentBetween(grants: seq<Grant>, rate: real, size: real, i: nat, j: nat, elapsed: real)
    requires Paced(grants, rate, size) && i <= j < |grants| && elapsed == grants[j].time - grants[i].time
    ensures grants[j].left <= grants[i].left + elapsed * rate - (j - i) as real
    decreases j - i
  {
    if i < j {
      var d, e := grants[j - 1].time - grants[i].time, grants[j].time - grants[j - 1].time;
      SpentBetween(grants, rate, size, i, j - 1, d);
      assert Follows(grants[j - 1], grants[j], rate);
      TwoSteps(grants[i].left, grants[j - 1].left, grants[j].left, d, e, rate, (j - 1 - i) as real);
      assert d + e == elapsed;
    }
  }

  lemma WithinBucket(first: real, last: real, elapsed: real, rate: real, size: real, n: real)
    requires first <= size - 1.0 && 0.0 <= last <= first + elapsed * rate - n
    ensures n + 1.0 <= size + rate * elapsed
  {
    assert rate * elapsed == elapsed * rate;
  }

  /** Any window from grant i to grant j holds at most the bucket plus what the rate allows. */
  lemma WindowBound(grants: seq<Grant>, rate: real, size: real, i: nat, j: nat)
    requires Paced(grants, rate, size) && i <= j < |grants|
    ensures (j - i + 1) as real <= size + rate * (grants[j].time - grants[i].time)
  {
    var elapsed := grants[j].time - grants[i].time;
    SpentBetween(grants, rate, size, i, j, elapsed);
    WithinBucket(grants[i].left, grants[j].left, elapsed, rate, size, (j - i) as real);
    assert (j - i + 1) as real == (j - i) as real + 1.0;
  }

  // ---------------------------------------------------------------- adaptive delay

  datatype Pace = Pace(delay: real, failures: nat, lastFailure: real)

  /** _update_adaptive_delay. */
  function Updated(p: Pace, success: bool, now: real, maxDelay: real): Pace {
    if !success then
      var failures := p.failures + 1;
      Pace(if failures > 2 then Min(p.delay + 0.5 * failures as real, maxDelay / 4.0) else p.delay, failures, now)
    else
      p.(failures := if p.failures > 0 then p.failures - 1 else 0,
         delay := if p.delay > 0.0 && now - p.lastFailure > 10.0 then Max(0.0, p.delay - 0.1) else p.delay)
  }

  /** An outcome of a request and the time at which it is reported. */
  datatype Report = Report(success: bool, now: real)

  function UpdatedAll(p: Pace, reports: seq<Report>, maxDelay: real): Pace
    decreases |reports|
  {
    if reports == [] then p
    else UpdatedAll(Updated(p, reports[0].success, reports[0].now, maxDelay), reports[1..], maxDelay)
  }

  /** Over every run of successes and failures the adaptive delay stays within a quarter of the
      maximum delay, and it only ever leaves zero after three failures. */
  lemma {:induction false} DelayBounded(p: Pace, reports: seq<Report>, maxDelay: real)
    requires 0.0 <= p.delay <= maxDelay / 4.0
    ensures 0.0 <= UpdatedAll(p, reports, maxDelay).delay <= maxDelay / 4.0
    ensures |reports| <= 2 && p.failures == 0 ==> UpdatedAll(p, reports, maxDelay).delay <= p.delay
    decreases |reports|
  {
    if reports != [] {
      var next := Updated(p, reports[0].success, reports[0].now, maxDelay);
      DelayBounded(next, reports[1..], maxDelay);
      if |reports| == 2 {
        assert reports[1..][1..] == [];
        assert UpdatedAll(p, reports, maxDelay) == Updated(next, reports[1].success, reports[1].now, maxDelay);
      }
    }
  }

  /** Failures in a row, from the second on: the k-th failure ever adds k/2 seconds, up to a quarter
      of the maximum. */
  lemma {:induction false} FailuresAddUp(p: Pace, reports: seq<Report>, maxDelay: real, halves: int)
    requires p.failures >= 2 && p.delay <= maxDelay / 4.0 && forall r | r in reports :: !r.success
    requires 2 * halves == |reports| * (2 * p.failures + |reports| + 1)
    ensures var after := UpdatedAll(p, reports, maxDelay);
            && after.failures == p.failures + |reports|
            && after.delay == Min(p.delay + 0.5 * halves as real, maxDelay / 4.0)
    decreases |reports|
  {
    if reports != [] {
      OneFailureLess(|reports|, p.failures, halves);
      FailuresAddUp(Updated(p, false, reports[0].now, maxDelay), reports[1..], maxDelay, halves - (p.failures + 1));
    }
  }

  lemma OneFailureLess(k: nat, f: nat, halves: int)
    requires k >= 1 && 2 * halves == k * (2 * f + k + 1)
    ensures 2 * (halves - (f + 1)) == (k - 1) * (2 * (f + 1) + (k - 1) + 1) && (k == 1 ==> halves == f + 1)
  {
    assert (k - 1) * (2 * f + k + 2) == k * (2 * f + k + 2) - (2 * f + k + 2);
    assert k * (2 * f + k + 2) == k * (2 * f + k + 1) + k;
  }

  lemma {:induction false} HalfSum(k: nat)
    ensures 2 * ((k * (k + 1) - 6) / 2) == k * (k + 1) - 6
  {
    if k > 0 {
      HalfSum(k - 1);
      assert k * (k + 1) == (k - 1) * k + 2 * k;
    }
  }

  /** After k failures in a row from rest the delay is 3/2 + ... + k/2 seconds, that is
      (k * (k + 1) - 6) / 4, up to a quarter of the maximum. */
  lemma FailuresFromRest(p: Pace, reports: seq<Report>, maxDelay: real)
    requires p.failures == 0 && p.delay == 0.0 <= maxDelay && forall r | r in reports :: !r.success
    ensures var k, after := |reports|, UpdatedAll(p, reports, maxDelay);
            && after.failures == k
            && after.delay == if k <= 2 then 0.0 else Min((k * (k + 1) - 6) as real, maxDelay) / 4.0
  {
    if |reports| == 1 {
      assert reports[1..] == [];
    } else if |reports| >= 2 {
      var second := Updated(Updated(p, false, reports[0].now, maxDelay), false, reports[1].now, maxDelay);
      assert reports[1..][1..] == reports[2..];
      assert UpdatedAll(p, reports, maxDelay) == UpdatedAll(second, reports[2..], maxDelay);
      var k := |reports|;
      assert (k - 2) * (k + 3) == k * (k + 1) - 6;
      HalfSum(k);
      FailuresAddUp(second, reports[2..], maxDelay, (k * (k + 1) - 6) / 2);
    }
  }

  /** How many of the reports come more than ten seconds after that time. */
  function Late(reports: seq<Report>, since: real): nat {
    if reports == [] then 0 else (if reports[0].now - since > 10.0 then 1 else 0) + Late(reports[1..], since)
  }

  /** Successes in a row: each forgets one failure, and each that comes more than ten seconds after
      the last failure takes a tenth of a second off the delay, down to none. */
  lemma {:induction false} SuccessesWearOff(p: Pace, reports: seq<Report>, maxDelay: real)
    requires p.delay >= 0.0 && forall r | r in reports :: r.success
    ensures var n, after := |reports|, UpdatedAll(p, reports, maxDelay);
            && after.failures == (if p.failures <= n then 0 else p.failures - n) && after.lastFailure == p.lastFailure
            && after.delay == Max(0.0, p.delay - 0.1 * Late(reports, p.lastFailure) as real)
    decreases |reports|
  {
    if reports != [] {
      SuccessesWearOff(Updated(p, true, reports[0].now, maxDelay), reports[1..], maxDelay);
    }
  }

  function Power(base: real, n: nat): real {
    if n == 0 then 1.0 else base * Power(base, n - 1)
  }

  /** _calculate_backoff_delay. */
  function Backoff(initial: real, factor: real, attempt: nat, maxDelay: real): real {
    Min(initial * Power(factor, attempt), maxDelay)
  }

  lemma {:induction false} PowerGrows(base: real, n: nat)
    requires base >= 1.0
    ensures Power(base, n) >= 1.0 && Power(base, n) <= Power(base, n + 1)
  {
    if n > 0 {
      PowerGrows(base, n - 1);
      Monotone(Power(base, n - 1), Power(base, n), base);
    }
  }

  /** With a factor of at least one, each retry waits at least as long as the one before, up to
      the maximum. */
  lemma BackoffGrows(initial: real, factor: real, attempt: nat, maxDelay: real)
    requires initial >= 0.0 && factor >= 1.0 && maxDelay >= 0.0
    ensures 0.0 <= Backoff(initial, factor, attempt, maxDelay) <= Backoff(initial, factor, attempt + 1, maxDelay) <= maxDelay
  {
    PowerGrows(factor, attempt);
    ProductNonNegative(initial, Power(factor, attempt));
    Monotone(Power(factor, attempt), Power(factor, attempt + 1), initial);
  }

  /** The first retry waits the initial delay, each later one `factor` times as long, all up to the
      maximum. */
  lemma BackoffIs(initial: real, factor: real, attempt: nat, maxDelay: real)
    requires initial >= 0.0 && factor >= 1.0 && maxDelay >= 0.0
    ensures Backoff(initial, factor, 0, maxDelay) == Min(initial, maxDelay)
    ensures Backoff(initial, factor, attempt + 1, maxDelay) == Min(factor * Backoff(initial, factor, attempt, maxDelay), maxDelay)
  {
    var before := initial * Power(factor, attempt);
    Associate(initial, factor, Power(factor, attempt));
    assert initial * Power(factor, attempt + 1) == factor * before;
    PowerGrows(factor, attempt);
    ProductNonNegative(initial, Power(factor, attempt));
    Monotone(1.0, factor, before);
    Monotone(1.0, factor, maxDelay);
  }

  // ---------------------------------------------------------------- the throttler

  datatype Outcome = Success | Retryable | Fatal

  /** What other requests do to the throttler meanwhile: begin, take a token, or report an outcome. */
  datatype Activity = Begins | Acquires(now: real, later: real) | Reports(success: bool, now: real)

  /** What one attempt meets: other requests before it gets its token, the clock before and after a
      possible sleep, other requests while it runs, how the request ends, and when. */
  datatype Attempt = Attempt(before: seq<Activity>, now: real, later: real, during: seq<Activity>, outcome: Outcome, done: real)

  /** How many attempts a request makes: up to the first that is not retryable, or all of them. */
  function Tries(attempts: seq<Attempt>): (n: nat)
    ensures attempts != [] ==> 1 <= n <= |attempts|
  {
    if attempts == [] then 0
    else if !attempts[0].outcome.Retryable? then 1
    else 1 + Tries(attempts[1..])
  }

  /** The activities of a kind. */
  function Number(acts: seq<Activity>, kind: Activity -> bool): nat {
    if acts == [] then 0 else (if kind(acts[0]) then 1 else 0) + Number(acts[1..], kind)
  }

  /** The same over all attempts that are made. */
  function NumberAround(attempts: seq<Attempt>, kind: Activity -> bool): nat {
    if attempts == [] then 0
    else Number(attempts[0].before, kind) + Number(attempts[0].during, kind)
         + if attempts[0].outcome.Retryable? then NumberAround(attempts[1..], kind) else 0
  }

  function Taking(): Activity -> bool { (a: Activity) => a.Acquires? }
  function Beginning(): Activity -> bool { (a: Activity) => a.Begins? }
  function Succeeding(): Activity -> bool { (a: Activity) => a.Reports? && a.success }
  function Failing(): Activity -> bool { (a: Activity) => a.Reports? && !a.success }

  function Acted(b: Bucket, acts: seq<Activity>): Bucket
    decreases |acts|
  {
    if acts == [] then b
    else Acted(if acts[0].Acquires? then b.Acquired(acts[0].now, acts[0].later) else b, acts[1..])
  }

  /** The clock readings suit the bucket at every token taken. */
  predicate ActsOk(b: Bucket, acts: seq<Activity>)
    decreases |acts|
  {
    acts == [] ||
    if acts[0].Acquires? then
      b.rate > 0.0 && b.ClockOk(acts[0].now, acts[0].later) && ActsOk(b.Acquired(acts[0].now, acts[0].later), acts[1..])
    else ActsOk(b, acts[1..])
  }

  /** The statements under the token lock. */
  method Take(b: Bucket, now: real, later: real) returns (after: Bucket)
    requires b.rate > 0.0
    ensures after == b.Acquired(now, later)
  {
    after := b.Refilled(now);
    if after.tokens < 1.0 {
      after := after.Refilled(later);
    }
    after := after.(tokens := after.tokens - 1.0);
  }

  lemma PacedMore(grants: seq<Grant>, newest: Grant, next: Grant, rate: real, size: real)
    requires Paced(grants, rate, size) && (grants != [] ==> grants[|grants| - 1] == newest)
    requires 0.0 <= next.left <= size - 1.0 && Follows(newest, next, rate)
    ensures Paced(grants + [next], rate, size)
  {
    var more := grants + [next];
    forall k | 0 < k < |more| ensures Follows(more[k - 1], more[k], rate) {
      if k < |grants| {
        assert Follows(grants[k - 1], grants[k], rate);
      }
    }
  }

  class RequestThrottler {
    const rate: real
    const size: real
    const maxDelay: real
    var tokens: real
    var last: real
    var pace: Pace
    var total: nat
    var successful: nat
    var failed: nat
    ghost var grants: seq<Grant>

    ghost function AsBucket(): Bucket
      reads this
    {
      Bucket(rate, size, tokens, last)
    }

    ghost predicate Valid()
      reads this
    {
      && AsBucket().Valid()
      && maxDelay >= 0.0 && 0.0 <= pace.delay <= maxDelay / 4.0
      && Paced(grants, rate, size)
      && (grants != [] ==> grants[|grants| - 1] == Grant(last, tokens))
    }

    constructor (rate: real, maxDelay: real, now: real)
      requires rate > 0.0 && maxDelay >= 0.0
      ensures Valid() && this.rate == rate && this.maxDelay == maxDelay && tokens == size == Max(1.0, rate.Floor as real)
      ensures grants == [] && total == successful == failed == 0
    {
      this.rate, this.maxDelay := rate, maxDelay;
      size := Max(1.0, rate.Floor as real);
      tokens, last := Max(1.0, rate.Floor as real), now;
      pace := Pace(0.0, 0, 0.0);
      total, successful, failed := 0, 0, 0;
      grants := [];
    }

    /** _acquire_token. */
    method AcquireToken(now: real, later: real)
      requires Valid() && AsBucket().ClockOk(now, later)
      modifies this`tokens, this`last, this`grants
      ensures Valid() && AsBucket() == old(AsBucket()).Acquired(now, later)
      ensures grants == old(grants) + [Grant(last, tokens)]
    {
      var before := Bucket(rate, size, tokens, last);
      AcquireKeeps(before, now, later);
      var after := Take(before, now, later);
      PacedMore(grants, Grant(before.last, before.tokens), Grant(after.last, after.tokens), rate, size);
      tokens, last := after.tokens, after.last;
      grants := grants + [Grant(last, tokens)];
    }

    method Report(success: bool, now: real)
      requires Valid()
      modifies this`pace
      ensures Valid() && pace == Updated(old(pace), success, now, maxDelay)
    {
      pace := Updated(pace, success, now, maxDelay);
    }

    /** Other requests at work. */
    method Others(acts: seq<Activity>)
      requires Valid() && ActsOk(AsBucket(), acts)
      modifies this
      ensures Valid() && AsBucket() == Acted(old(AsBucket()), acts)
      ensures |grants| == |old(grants)| + Number(acts, Taking())
      ensures total == old(total) + Number(acts, Beginning())
      ensures successful == old(successful) + Number(acts, Succeeding())
      ensures failed == old(failed) + Number(acts, Failing())
    {
      var rest := acts;
      while rest != []
        invariant Valid() && ActsOk(AsBucket(), rest) && Acted(AsBucket(), rest) == Acted(old(AsBucket()), acts)
        invariant |grants| + Number(rest, Taking()) == |old(grants)| + Number(acts, Taking())
        invariant total + Number(rest, Beginning()) == old(total) + Number(acts, Beginning())
        invariant successful + Number(rest, Succeeding()) == old(successful) + Number(acts, Succeeding())
        invariant failed + Number(rest, Failing()) == old(failed) + Number(acts, Failing())
      {
        match rest[0] {
          case Begins => total := total + 1;
          case Acquires(now, later) => AcquireToken(now, later);
          case Reports(success, now) => Settle(success, now);
        }
        rest := rest[1..];
      }
    }

    /** The bookkeeping of an outcome. */
    method Settle(success: bool, now: real)
      requires Valid()
      modifies this`pace, this`successful, this`failed
      ensures Valid() && pace == Updated(old(pace), success, now, maxDelay)
      ensures successful == old(successful) + (if success then 1 else 0)
      ensures failed == old(failed) + (if success then 0 else 1)
    {
      Report(success, now);
      if success {
        successful := successful + 1;
      } else {
        failed := failed + 1;
      }
    }

    /** The bucket after an attempt. */
    static function AfterTry(b: Bucket, a: Attempt): Bucket {
      Acted(Acted(b, a.before).Acquired(a.now, a.later), a.during)
    }

    static predicate TryOk(b: Bucket, a: Attempt) {
      && ActsOk(b, a.before)
      && var first := Acted(b, a.before);
         first.rate > 0.0 && first.ClockOk(a.now, a.later) && ActsOk(first.Acquired(a.now, a.later), a.during)
    }

    /** One attempt: a token, the request, and the bookkeeping, other requests in between. */
    method TryOnce(a: Attempt)
      requires Valid() && TryOk(AsBucket(), a)
      modifies this
      ensures Valid() && AsBucket() == AfterTry(old(AsBucket()), a)
      ensures |grants| == |old(grants)| + 1 + Number(a.before, Taking()) + Number(a.during, Taking())
      ensures total == old(total) + Number(a.before, Beginning()) + Number(a.during, Beginning())
      ensures successful == old(successful) + (if a.outcome.Success? then 1 else 0) + Number(a.before, Succeeding()) + Number(a.during, Succeeding())
      ensures failed == old(failed) + (if a.outcome.Success? then 0 else 1) + Number(a.before, Failing()) + Number(a.during, Failing())
    {
      Others(a.before);
      AcquireToken(a.now, a.later);
      Others(a.during);
      Settle(a.outcome.Success?, a.done);
    }

    /** The clock readings suit the bucket at every attempt that is made. */
    static predicate ClocksOk(b: Bucket, attempts: seq<Attempt>)
      decreases |attempts|
    {
      attempts == [] ||
      (TryOk(b, attempts[0]) && (attempts[0].outcome.Retryable? ==> ClocksOk(AfterTry(b, attempts[0]), attempts[1..])))
    }

    /** execute_with_throttling over at most |attempts| = max_retries + 1 attempts, among any number
        of other requests: it succeeds if and only if the first outcome that is not retryable is a
        success, it takes exactly one token per attempt, and grants stay paced. */
    method Execute(attempts: seq<Attempt>) returns (ok: bool)
      requires Valid() && attempts != [] && ClocksOk(AsBucket(), attempts)
      modifies this
      ensures Valid()
      ensures |grants| == |old(grants)| + Tries(attempts) + NumberAround(attempts, Taking())
      ensures ok <==> attempts[Tries(attempts) - 1].outcome.Success?
      ensures total == old(total) + 1 + NumberAround(attempts, Beginning())
      ensures successful == old(successful) + (if ok then 1 else 0) + NumberAround(attempts, Succeeding())
      ensures failed == old(failed) + Tries(attempts) - (if ok then 1 else 0) + NumberAround(attempts, Failing())
    {
      total := total + 1;
      var rest := attempts;
      ok := false;
      while rest != []
        invariant Valid() && !ok && ClocksOk(AsBucket(), rest)
        invariant |grants| + Tries(rest) + NumberAround(rest, Taking()) == |old(grants)| + Tries(attempts) + NumberAround(attempts, Taking())
        invariant total + NumberAround(rest, Beginning()) == old(total) + 1 + NumberAround(attempts, Beginning())
        invariant successful + NumberAround(rest, Succeeding()) == old(successful) + NumberAround(attempts, Succeeding())
        invariant failed + Tries(rest) + NumberAround(rest, Failing()) == old(failed) + Tries(attempts) + NumberAround(attempts, Failing())
        invariant rest != [] ==> attempts[Tries(attempts) - 1] == rest[Tries(rest) - 1]
        invariant rest == [] ==> attempts[Tries(attempts) - 1].outcome.Retryable?
      {
        var a := rest[0];
        TryOnce(a);
        if a.outcome.Success? {
          return true;
        }
        if a.outcome.Fatal? {
          return false;
        }
        rest := rest[1..];
      }
    }
  }
}
