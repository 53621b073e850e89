/** `RetryPolicy` of `offchain/crates/resilience`: durations are nanoseconds, the operation
    is an oracle giving the result of each call, and time asleep is added up. */
module Retrying {
  import opened Basics
  import opened Bits

  /** The longest `Duration`: 2^64 - 1 seconds and 999999999 nanoseconds. */
  const DURATION_MAX: nat := U64_MAX * 1_000_000_000 + 999_999_999

  function Least(a: nat, b: nat): nat {
    if a <= b then a else b
  }

  /** `half` plus the jitter that `seed` thousandths of it make, whole nanoseconds. The
      source's `mul_f64` is modelled as an exact product rounded down. */
  function Jittered(half: nat, seed: nat): nat {
    half + half * seed / 1000
  }

  function Seed(attempt: nat): nat {
    attempt * 2_654_435_761 % (U64_MAX + 1) % 1000
  }

  datatype RetryPolicy = RetryPolicy(maxAttempts: nat, baseDelay: nat, maxDelay: nat) {

    predicate Valid() {
      maxAttempts <= U32_MAX && baseDelay <= DURATION_MAX && maxDelay <= DURATION_MAX
    }

    /** `base * 2^attempt`, the exponent stopping at 16. */
    function Unit(attempt: nat): nat {
      baseDelay * Pow2(Least(attempt, 16))
    }

    /** The exponential delay before jitter. */
    function Exponential(attempt: nat): nat {
      Least(Least(Unit(attempt), DURATION_MAX), maxDelay)
    }

    function Backoff(attempt: nat): nat {
      Jittered(Exponential(attempt) / 2, Seed(attempt))
    }
  }

  lemma MulMonotone(b: nat, x: nat, y: nat)
    requires x <= y
    ensures b * x <= b * y
  {
  }

  lemma JitteredBounds(half: nat, seed: nat)
    requires seed < 1000
    ensures half <= Jittered(half, seed) <= 2 * half
  {
    MulMonotone(half, 0, seed);
    MulMonotone(half, seed, 1000);
  }

  lemma JitteredMonotone(half: nat, seed: nat, half': nat, seed': nat)
    requires half <= half' && seed <= seed'
    ensures Jittered(half, seed) <= Jittered(half', seed')
  {
    MulMonotone(half, seed, seed');
    MulMonotone(seed', half, half');
  }

  /** From a microsecond up, every thousandth shows. */
  lemma JitteredStrict(half: nat, seed: nat, seed': nat)
    requires half >= 1000 && seed < seed'
    ensures Jittered(half, seed) < Jittered(half, seed')
  {
    MulMonotone(half, seed + 1, seed');
    assert half * (seed + 1) == half * seed + half;
  }

  /** One jittered delay reaches another exactly when its thousandths, before rounding,
      reach the other's whole nanoseconds. */
  lemma JitteredAtMost(half: nat, seed: nat, half': nat, seed': nat)
    ensures Jittered(half, seed) <= Jittered(half', seed') <==>
      half * (1000 + seed) / 1000 * 1000 <= half' * (1000 + seed')
  {
    assert half * (1000 + seed) == 1000 * half + half * seed;
    assert half' * (1000 + seed') == 1000 * half' + half' * seed';
  }

  lemma SeedRange(attempt: nat)
    ensures Seed(attempt) < 1000
  {
  }

  lemma SeedPlain(attempt: nat)
    requires attempt <= U32_MAX
    ensures Seed(attempt) == attempt * 2_654_435_761 % 1000
  {
  }

  lemma ThousandthsNext(x: nat)
    ensures (x + 2_654_435_761) % 1000 == if x % 1000 < 239 then x % 1000 + 761 else x % 1000 - 239
  {
  }

  /** The product does not wrap for a 32-bit attempt, so the seed moves on by 761. */
  lemma SeedNext(attempt: nat)
    requires attempt < U32_MAX
    ensures Seed(attempt + 1) == if Seed(attempt) < 239 then Seed(attempt) + 761 else Seed(attempt) - 239
  {
    SeedPlain(attempt);
    SeedPlain(attempt + 1);
    hide Seed;
    ThousandthsNext(attempt * 2_654_435_761);
  }

  /** The delay in plain numbers: half of base times two to the attempt (at most sixteen), cut
      at the cap, plus as many thousandths of that half as 761 times the attempt leaves modulo
      a thousand. */
  lemma {:induction false} BackoffInPlainNumbers(p: RetryPolicy, attempt: nat)
    requires attempt < 0x1_0000_0000
    ensures p.Valid() <==>
      && p.maxAttempts < 0x1_0000_0000
      && p.baseDelay <= 18446744073709551615_999999999
      && p.maxDelay <= 18446744073709551615_999999999
    ensures p.Valid() ==>
      var unit := p.baseDelay * Pow2(if attempt < 16 then attempt else 16);
      var half := (if unit < p.maxDelay then unit else p.maxDelay) / 2;
      p.Backoff(attempt) == half + half * (attempt * 761 % 1000) / 1000
  {
    SeedClosedForm(attempt);
    var unit := p.Unit(attempt);
    assert unit == p.baseDelay * Pow2(if attempt < 16 then attempt else 16);
    hide Seed, Pow2, RetryPolicy.Unit;
    assert p.Valid() ==> p.Exponential(attempt) == if unit < p.maxDelay then unit else p.maxDelay;
    hide RetryPolicy.Exponential;
  }

  lemma SeedClosedForm(attempt: nat)
    requires attempt <= U32_MAX
    ensures Seed(attempt) == attempt * 761 % 1000
  {
    SeedPlain(attempt);
    hide Seed;
    WholeThousands(attempt * 761, attempt * 2_654_435);
  }

  lemma WholeThousands(x: nat, y: nat)
    ensures (x + 1000 * y) % 1000 == x % 1000
  {
  }

  /** Every delay lies between half the exponential (rounded down) and the exponential,
      which is the smaller of the unit and the cap: saturation never shows. */
  lemma {:induction false} BackoffBounds(p: RetryPolicy, attempt: nat)
    requires p.Valid()
    ensures p.Exponential(attempt) / 2 <= p.Backoff(attempt) <= p.Exponential(attempt)
    ensures p.Exponential(attempt) == Least(p.baseDelay * Pow2(Least(attempt, 16)), p.maxDelay)
  {
    hide Seed, Jittered, Pow2;
    SeedRange(attempt);
    JitteredBounds(p.Exponential(attempt) / 2, Seed(attempt));
  }

  lemma {:induction false} UnitNext(p: RetryPolicy, attempt: nat)
    ensures p.Unit(attempt + 1) == if attempt < 16 then 2 * p.Unit(attempt) else p.Unit(attempt)
  {
    if attempt < 16 {
      assert Pow2(attempt + 1) == 2 * Pow2(attempt);
      hide Pow2;
      Doubled(p.baseDelay, Pow2(attempt));
    }
  }

  lemma Doubled(b: nat, m: nat)
    ensures b * (2 * m) == 2 * (b * m)
  {
  }

  /** From one attempt to the next the exponential doubles, stays, or steps into the cap. */
  lemma {:induction false} ExponentialNext(p: RetryPolicy, attempt: nat)
    requires p.Valid()
    ensures var e, f := p.Exponential(attempt), p.Exponential(attempt + 1);
      && e <= f <= 2 * e
      && (attempt < 16 && 2 * p.Unit(attempt) <= p.maxDelay ==> f == 2 * e)
      && (attempt >= 16 || p.maxDelay <= p.Unit(attempt) ==> f == e)
      && (attempt < 16 && p.Unit(attempt) < p.maxDelay < 2 * p.Unit(attempt) ==>
            e == p.Unit(attempt) && f == p.maxDelay)
  {
    UnitNext(p, attempt);
    hide RetryPolicy.Unit;
  }

  /** Exactly when the next delay is no shorter: the exponential doubled, or the seed is
      below 239 and so grows, or the step into the cap is large enough to make up for the
      239 thousandths that the jitter loses (`ExponentialNext` says what the steps are). */
  lemma {:induction false} BackoffGrowsExactly(p: RetryPolicy, attempt: nat)
    requires p.Valid() && attempt < U32_MAX
    ensures p.Backoff(attempt) <= p.Backoff(attempt + 1) <==>
      || p.Exponential(attempt + 1) == 2 * p.Exponential(attempt)
      || Seed(attempt) < 239
      || p.Exponential(attempt) / 2 * (1000 + Seed(attempt)) / 1000 * 1000
           <= p.Exponential(attempt + 1) / 2 * (761 + Seed(attempt))
  {
    var e, f, seed, next := p.Exponential(attempt), p.Exponential(attempt + 1), Seed(attempt), Seed(attempt + 1);
    BackoffBounds(p, attempt);
    BackoffBounds(p, attempt + 1);
    ExponentialNext(p, attempt);
    SeedNext(attempt);
    hide Seed, Jittered, RetryPolicy.Exponential;
    if f != 2 * e {
      if seed < 239 {
        JitteredMonotone(e / 2, seed, f / 2, next);
      } else {
        JitteredAtMost(e / 2, seed, f / 2, next);
      }
    }
  }

  /** The one step into the cap, in terms of base and cap: the condition is exact there. */
  lemma {:induction false} StepIntoCapGrowsExactly(p: RetryPolicy, attempt: nat)
    requires p.Valid() && attempt < 16
    requires p.baseDelay * Pow2(attempt) < p.maxDelay < p.baseDelay * Pow2(attempt + 1)
    ensures p.Backoff(attempt) <= p.Backoff(attempt + 1) <==>
      || Seed(attempt) < 239
      || p.baseDelay * Pow2(attempt) / 2 * (1000 + Seed(attempt)) / 1000 * 1000
           <= p.maxDelay / 2 * (761 + Seed(attempt))
  {
    hide Seed, Pow2, RetryPolicy.Backoff, RetryPolicy.Exponential;
    UnitNext(p, attempt);
    ExponentialNext(p, attempt);
    BackoffGrowsExactly(p, attempt);
  }

  /** While the exponential stays (past attempt 16, or at the cap) the seed alone decides. */
  lemma {:induction false} FlatBackoffGrowsExactly(p: RetryPolicy, attempt: nat)
    requires p.Valid() && attempt < U32_MAX
    requires p.Exponential(attempt + 1) == p.Exponential(attempt) >= 2000
    ensures p.Backoff(attempt) <= p.Backoff(attempt + 1) <==> Seed(attempt) < 239
  {
    var half := p.Exponential(attempt) / 2;
    SeedNext(attempt);
    hide Seed, Jittered, RetryPolicy.Exponential;
    if Seed(attempt) < 239 {
      JitteredMonotone(half, Seed(attempt), half, Seed(attempt + 1));
    } else {
      JitteredStrict(half, Seed(attempt + 1), Seed(attempt));
    }
  }

  /** Delays never shrink while the exponential still doubles. */
  lemma {:induction false} BackoffGrowsWhileUncapped(p: RetryPolicy, attempt: nat)
    requires p.Valid() && attempt < 16 && p.baseDelay * Pow2(attempt + 1) <= p.maxDelay
    ensures p.Backoff(attempt) <= p.Backoff(attempt + 1)
  {
    UnitNext(p, attempt);
    ExponentialNext(p, attempt);
    BackoffBounds(p, attempt);
    BackoffBounds(p, attempt + 1);
  }

  /** Two policies whose delays shrink: one at its cap, one that never reaches it, past the
      attempt where the exponent stops. */
  lemma {:induction false} BackoffMayShrink()
    ensures var p := RetryPolicy(4, 4_000_000, 4_000_000); p.Valid() && p.Backoff(2) < p.Backoff(1)
    ensures var p := RetryPolicy(20, 2_000_000, DURATION_MAX);
      p.Valid() && p.Exponential(18) < p.maxDelay && p.Backoff(18) < p.Backoff(17)
  {
    var p, q := RetryPolicy(4, 4_000_000, 4_000_000), RetryPolicy(20, 2_000_000, DURATION_MAX);
    assert Seed(1) == 761 && Seed(17) == 937;
    SixteenDoublings();
    hide Seed, Pow2;
    assert q.Exponential(17) == q.Exponential(18) == 2_000_000 * 65536;
    assert p.Exponential(1) == p.Exponential(2) == 4_000_000 by {
      AtTheCap(p, 1);
      AtTheCap(p, 2);
    }
    FlatBackoffGrowsExactly(p, 1);
    FlatBackoffGrowsExactly(q, 17);
  }

  lemma SixteenDoublings()
    ensures Pow2(16) == 65536
  {
    assert Pow2(8) == 256;
    Pow2Sum(8, 8);
  }

  lemma AtTheCap(p: RetryPolicy, attempt: nat)
    requires p.Valid() && p.maxDelay <= p.baseDelay
    ensures p.Exponential(attempt) == p.maxDelay
  {
    hide Pow2;
    MulMonotone(p.baseDelay, 1, Pow2(Least(attempt, 16)));
  }

  /** Time asleep after `k` failed attempts that were all retried. */
  function Slept(p: RetryPolicy, k: nat): nat {
    if k == 0 then 0 else Slept(p, k - 1) + p.Backoff(k - 1)
  }

  lemma {:induction false} SleptWithinCaps(p: RetryPolicy, k: nat)
    requires p.Valid()
    ensures Slept(p, k) <= k * p.maxDelay
    decreases k
  {
    if k > 0 {
      hide *;
      SleptWithinCaps(p, k - 1);
      DelayBounds(p, k - 1);
      SleptNext(p, k - 1);
      Distribute(k, p.maxDelay);
    }
  }

  /** `base * (2^k - 1)`, the sum of the first `k` doublings of `base`. */
  function Doublings(base: nat, k: nat): nat {
    base * (Pow2(k) - 1)
  }

  lemma {:induction false} DoublingsNext(base: nat, k: nat)
    ensures Doublings(base, k + 1) == Doublings(base, k) + base * Pow2(k)
  {
    var m := Pow2(k);
    assert Pow2(k + 1) == 2 * m;
    hide Pow2;
    assert base * (2 * m - 1) == base * (m - 1) + base * m;
  }

  lemma {:induction false} SleptWithinDoublings(p: RetryPolicy, k: nat)
    requires p.Valid()
    ensures Slept(p, k) <= Doublings(p.baseDelay, k)
    decreases k
  {
    if k > 0 {
      hide *;
      SleptWithinDoublings(p, k - 1);
      DelayBounds(p, k - 1);
      SleptNext(p, k - 1);
      DoublingsNext(p.baseDelay, k - 1);
    }
  }

  lemma {:induction false} SleptBounds(p: RetryPolicy, k: nat)
    requires p.Valid()
    ensures Slept(p, k) <= k * p.maxDelay
    ensures Slept(p, k) <= p.baseDelay * (Pow2(k) - 1)
  {
    hide Slept, RetryPolicy.Valid, Pow2;
    SleptWithinCaps(p, k);
    SleptWithinDoublings(p, k);
  }

  lemma {:induction false} SleptNext(p: RetryPolicy, k: nat)
    ensures Slept(p, k + 1) == Slept(p, k) + p.Backoff(k)
  {
    hide RetryPolicy.Backoff;
  }

  lemma {:induction false} DelayBounds(p: RetryPolicy, attempt: nat)
    requires p.Valid()
    ensures p.Backoff(attempt) <= p.maxDelay && p.Backoff(attempt) <= p.baseDelay * Pow2(attempt)
  {
    BackoffBounds(p, attempt);
    hide RetryPolicy.Backoff, RetryPolicy.Exponential, Pow2;
    Pow2Monotone(Least(attempt, 16), attempt);
    MulMonotone(p.baseDelay, Pow2(Least(attempt, 16)), Pow2(attempt));
  }

  lemma Distribute(n: nat, d: nat)
    requires n >= 1
    ensures n * d == (n - 1) * d + d
  {
  }

  /** `op(i)` is the result of the `i`-th call. The loop stops at the first success or when
      the attempts run out, and returns the last result. */
  method Retry<T, E>(p: RetryPolicy, op: nat -> Result<T, E>) returns (r: Result<T, E>, calls: nat, slept: nat)
    requires p.Valid()
    ensures 1 <= calls && (calls <= p.maxAttempts || calls == 1)
    ensures r == op(calls - 1)
    ensures forall i :: 0 <= i < calls - 1 ==> op(i).Err?
    ensures r.Ok? || calls >= p.maxAttempts
    ensures slept == Slept(p, calls - 1)
    ensures slept <= (calls - 1) * p.maxDelay && slept <= p.baseDelay * (Pow2(calls - 1) - 1)
  {
    hide RetryPolicy.Backoff, Pow2;
    var attempt: nat := 0;
    calls, slept := 0, 0;
    while true
      invariant calls == attempt && (attempt == 0 || attempt < p.maxAttempts)
      invariant forall i :: 0 <= i < calls ==> op(i).Err?
      invariant slept == Slept(p, attempt)
      decreases p.maxAttempts - attempt
    {
      r := op(calls);
      calls := calls + 1;
      if r.Ok? {
        break;
      }
      attempt := attempt + 1;
      if attempt >= p.maxAttempts {
        break;
      }
      slept := slept + p.Backoff(attempt - 1);
    }
    SleptBounds(p, calls - 1);
  }
}
