/**
 The token bucket of `crates/bit_rev/src/rate.rs`. Tokens and times are reals, the clock is
 an argument of every call, and a wait is a length of time.
 */
module RateLimiter {
  import opened Basics

  datatype Bucket = Bucket(tokens: real, last: real)

  /** What a poll did: the bucket after it, and how long to wait when it was refused. */
  datatype Outcome = Outcome(bucket: Bucket, wait: Option<real>)

  /** A request for `bytes` at time `now`. */
  datatype Poll = Poll(now: real, bytes: nat)

  function MinReal(a: real, b: real): real {
    if a <= b then a else b
  }

  function MaxReal(a: real, b: real): real {
    if a <= b then b else a
  }

  function Refill(b: Bucket, rate: nat, burst: nat, now: real): Bucket {
    if rate == 0 then Bucket(burst as real, now)
    else
      var elapsed := MaxReal(now - b.last, 0.0);
      Bucket(MinReal(b.tokens + elapsed * rate as real, burst as real), now)
  }

  /** The most tokens the bucket may hold while it serves a request of `bytes`. */
  function Capacity(burst: nat, bytes: nat): nat {
    Max(Max(burst, bytes), 1)
  }

  function TryTake(b: Bucket, rate: nat, burst: nat, p: Poll): Outcome {
    if rate == 0 then Outcome(b, None)
    else
      var full := Refill(b, rate, Capacity(burst, p.bytes), p.now);
      var need := p.bytes as real;
      if full.tokens >= need then Outcome(full.(tokens := full.tokens - need), None)
      else Outcome(full, Some(MaxReal((need - full.tokens) / rate as real, 0.0)))
  }

  /** The limiter of the source, with its fields updated in place. */
  class Limiter {
    var rate: nat
    var burst: nat
    var bucket: Bucket

    constructor (rate: nat, burst: nat, now: real)
      ensures this.rate == rate && this.burst == (if rate == 0 then 0 else Max(burst, 1))
      ensures bucket == Bucket(this.burst as real, now)
    {
      var b := if rate == 0 then 0 else Max(burst, 1);
      this.rate := rate;
      this.burst := b;
      this.bucket := Bucket(b as real, now);
    }

    method Take(bytes: nat, now: real) returns (wait: Option<real>)
      modifies this`bucket
      ensures Outcome(bucket, wait) == TryTake(old(bucket), rate, burst, Poll(now, bytes))
    {
      if rate == 0 {
        return None;
      }
      var capacity := Max(Max(burst, bytes), 1);
      bucket := Refill(bucket, rate, capacity, now);
      var need := bytes as real;
      if bucket.tokens >= need {
        bucket := bucket.(tokens := bucket.tokens - need);
        wait := None;
      } else {
        var secs := (need - bucket.tokens) / rate as real;
        wait := Some(MaxReal(secs, 0.0));
      }
    }
  }

  // ---------------------------------------------------------------------------------------
  // Runs

  /** One poll of a run: the bucket before and after it, and the wait it was given. */
  datatype Step = Step(before: Bucket, poll: Poll, wait: Option<real>, after: Bucket)

  /** The limiter made this step, and the clock had not gone back. */
  ghost predicate IsStep(s: Step, rate: nat, burst: nat) {
    s.before.last <= s.poll.now && TryTake(s.before, rate, burst, s.poll) == Outcome(s.after, s.wait)
  }

  /** Consecutive steps of one limiter, from a bucket that was not overdrawn. */
  ghost predicate IsRun(run: seq<Step>, rate: nat, burst: nat) {
    && (run != [] ==> run[0].before.tokens >= 0.0)
    && (forall k :: 0 <= k < |run| ==> IsStep(run[k], rate, burst))
    && Chained(run)
  }

  ghost predicate Chained(run: seq<Step>) {
    forall k :: 0 < k < |run| ==> run[k].before == run[k - 1].after
  }

  function Paid(s: Step): nat {
    if s.wait.None? then s.poll.bytes else 0
  }

  /** Bytes granted by the steps from `i` up to `j`. */
  ghost function GrantedIn(run: seq<Step>, i: nat, j: nat): nat
    requires i <= j <= |run|
    decreases j
  {
    if i == j then 0 else GrantedIn(run, i, j - 1) + Paid(run[j - 1])
  }

  /** The tokens that `elapsed` time earns, added up once per unit of rate. */
  ghost function Earned(elapsed: real, rate: nat): real {
    if rate == 0 then 0.0 else elapsed + Earned(elapsed, rate - 1)
  }

  lemma {:induction false} EarnedIsProduct(elapsed: real, rate: nat)
    ensures Earned(elapsed, rate) == elapsed * rate as real
    ensures elapsed >= 0.0 ==> Earned(elapsed, rate) >= 0.0
  {
    if rate > 0 {
      EarnedIsProduct(elapsed, rate - 1);
      assert elapsed * rate as real == elapsed + elapsed * (rate - 1) as real;
    }
  }

  lemma {:induction false} EarnedAdds(a: real, b: real, rate: nat)
    ensures Earned(a, rate) + Earned(b, rate) == Earned(a + b, rate)
  {
    if rate > 0 {
      EarnedAdds(a, b, rate - 1);
    }
  }

  /** A step hands out no more than the bucket held plus what the elapsed time earned. */
  ghost predicate PaysItsWay(s: Step, rate: nat, burst: nat) {
    && s.after.tokens >= 0.0 && s.after.last == s.poll.now
    && Paid(s) as real + s.after.tokens <= s.before.tokens + Earned(s.after.last - s.before.last, rate)
    && Paid(s) as real + s.after.tokens <= Capacity(burst, s.poll.bytes) as real
  }

  lemma StepPaysItsWay(s: Step, rate: nat, burst: nat)
    requires rate > 0 && s.before.tokens >= 0.0 && IsStep(s, rate, burst)
    ensures PaysItsWay(s, rate, burst)
  {
    EarnedIsProduct(s.poll.now - s.before.last, rate);
  }

  /** Tokens never go negative, in any run. */
  lemma {:induction false} RunPaysItsWay(run: seq<Step>, rate: nat, burst: nat, k: nat)
    requires rate > 0 && IsRun(run, rate, burst) && k < |run|
    ensures PaysItsWay(run[k], rate, burst)
  {
    if k > 0 {
      RunPaysItsWay(run, rate, burst, k - 1);
    }
    StepPaysItsWay(run[k], rate, burst);
  }

  lemma {:induction false} PaidWindow(run: seq<Step>, rate: nat, burst: nat, i: nat, j: nat)
    requires i < j <= |run| && Chained(run)
    requires forall k :: 0 <= k < |run| ==> PaysItsWay(run[k], rate, burst)
    ensures GrantedIn(run, i, j) as real + run[j - 1].after.tokens
            <= Capacity(burst, run[i].poll.bytes) as real + Earned(run[j - 1].poll.now - run[i].poll.now, rate)
    decreases j
  {
    if j == i + 1 {
      assert GrantedIn(run, i, i) == 0;
      EarnedIsProduct(0.0, rate);
    } else {
      PaidWindow(run, rate, burst, i, j - 1);
      var here := run[j - 1];
      assert here.before == run[j - 2].after;
      EarnedAdds(here.before.last - run[i].poll.now, here.after.last - here.before.last, rate);
    }
  }

  /**
   In every window of every run, the bytes granted stay within the capacity at the first
   poll of the window plus the rate times the length of the window.
   */
  lemma WindowBound(run: seq<Step>, rate: nat, burst: nat, i: nat, j: nat, window: real)
    requires rate > 0 && IsRun(run, rate, burst) && i < j <= |run|
    requires window == run[j - 1].poll.now - run[i].poll.now
    ensures GrantedIn(run, i, j) as real <= Capacity(burst, run[i].poll.bytes) as real + window * rate as real
  {
    forall k | 0 <= k < |run| ensures PaysItsWay(run[k], rate, burst) {
      RunPaysItsWay(run, rate, burst, k);
    }
    PaidWindow(run, rate, burst, i, j);
    EarnedIsProduct(window, rate);
  }

  /**
   The account after a poll, exactly: what was held and earned, at most the largest of the burst, the
   bytes asked for and one, less the bytes if they are granted.
   */
  lemma ExactBalance(b: Bucket, rate: nat, burst: nat, p: Poll)
    requires rate > 0 && b.last <= p.now
    ensures var held := b.tokens + Earned(p.now - b.last, rate);
            var most := (if burst > p.bytes then burst else if p.bytes > 0 then p.bytes else 1) as real;
            var out := TryTake(b, rate, burst, p);
            && out.bucket.last == p.now
            && out.bucket.tokens == (if held < most then held else most) - (if out.wait.None? then p.bytes else 0) as real
  {
    EarnedIsProduct(p.now - b.last, rate);
  }

  /** A rate of zero means no limit: everything is granted and nothing is paid. */
  lemma ZeroIsUnlimited(b: Bucket, burst: nat, p: Poll)
    ensures TryTake(b, 0, burst, p) == Outcome(b, None)
  {
  }

  // ---------------------------------------------------------------------------------------
  // The promised wait

  /** A poll is granted exactly when the tokens held and earned cover it: the cap never bites. */
  lemma GrantedIff(b: Bucket, rate: nat, burst: nat, p: Poll)
    requires rate > 0 && b.last <= p.now
    ensures TryTake(b, rate, burst, p).wait.None? <==> b.tokens + Earned(p.now - b.last, rate) >= p.bytes as real
  {
    EarnedIsProduct(p.now - b.last, rate);
  }

  /** A refused poll leaves all earned tokens in the bucket. */
  ghost predicate Earns(s: Step, rate: nat) {
    s.after.last == s.poll.now && s.after.tokens == s.before.tokens + Earned(s.after.last - s.before.last, rate)
  }

  lemma RefusalEarns(s: Step, rate: nat, burst: nat)
    requires rate > 0 && IsStep(s, rate, burst) && s.wait.Some?
    ensures Earns(s, rate)
    ensures s.after.tokens < s.poll.bytes as real
    ensures s.wait.value == (s.poll.bytes as real - s.after.tokens) / rate as real
  {
    EarnedIsProduct(s.poll.now - s.before.last, rate);
    var missing := s.poll.bytes as real - s.after.tokens;
    assert missing > 0.0;
    assert missing / rate as real > 0.0;
  }

  lemma {:induction false} RefusalsEarn(run: seq<Step>, rate: nat, k: nat)
    requires k < |run| && Chained(run)
    requires forall n :: 0 <= n < |run| ==> Earns(run[n], rate)
    ensures run[k].after.tokens == run[0].after.tokens + Earned(run[k].after.last - run[0].after.last, rate)
  {
    if k > 0 {
      RefusalsEarn(run, rate, k - 1);
      assert run[k].before == run[k - 1].after;
      EarnedAdds(run[k].before.last - run[0].after.last, run[k].after.last - run[k].before.last, rate);
    } else {
      EarnedIsProduct(0.0, rate);
    }
  }

  lemma WaitInTokens(need: real, tokens: real, wait: real, elapsed: real, rate: nat)
    requires rate > 0 && wait == (need - tokens) / rate as real
    ensures elapsed >= wait <==> tokens + Earned(elapsed, rate) >= need
  {
    EarnedIsProduct(elapsed, rate);
    assert wait * rate as real == need - tokens;
    assert elapsed * rate as real - wait * rate as real == (elapsed - wait) * rate as real;
    if elapsed >= wait {
      assert (elapsed - wait) * rate as real >= 0.0;
    } else {
      assert (wait - elapsed) * rate as real > 0.0;
    }
  }

  /**
   The wait is exact: when a request is refused and nothing takes tokens afterwards, the same
   request is granted at a later time if and only if at least the returned wait has passed.
   Other requests may poll meanwhile, as long as they too are refused.
   */
  lemma WaitIsExact(run: seq<Step>, rate: nat, burst: nat, later: real)
    requires rate > 0 && IsRun(run, rate, burst) && run != []
    requires forall k :: 0 <= k < |run| ==> run[k].wait.Some?
    requires run[|run| - 1].poll.now <= later
    ensures TryTake(run[|run| - 1].after, rate, burst, Poll(later, run[0].poll.bytes)).wait.None?
            <==> later >= run[0].poll.now + run[0].wait.value
  {
    forall k | 0 <= k < |run| ensures Earns(run[k], rate) {
      RefusalEarns(run[k], rate, burst);
    }
    RefusalEarns(run[0], rate, burst);
    var asked, last := run[0], run[|run| - 1].after;
    RefusalsEarn(run, rate, |run| - 1);
    GrantedIff(last, rate, burst, Poll(later, asked.poll.bytes));
    EarnedAdds(last.last - asked.after.last, later - last.last, rate);
    WaitInTokens(asked.poll.bytes as real, asked.after.tokens, asked.wait.value, later - asked.after.last, rate);
  }
}
