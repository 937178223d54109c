/**
 The token bucket of the global rate limit (rate_limit.go, `reserveBucket` and its saturating int64 arithmetic).

 Balances are in nanotokens and times in nanoseconds.  A configuration is known by its identity, as the source
 compares pointers.
 */
module TokenBucket {
  import opened Prelude
  import opened Arithmetic

  const NANOTOKENS_PER_TOKEN: int := 1_000_000_000
  const MAX_INT64: int := 0x7FFF_FFFF_FFFF_FFFF
  const MAX_LIMIT: int := 1_000_000

  datatype LimitConfig = LimitConfig(id: nat, rate: int, burst: int) {
    predicate Valid() { 1 <= rate <= MAX_LIMIT && 1 <= burst <= MAX_LIMIT }
  }

  datatype Bucket = Bucket(config: Option<LimitConfig>, rate: int, capacity: int, tokens: int, last: int) {
    ghost predicate Valid() {
      && config.Some? && config.value.Valid()
      && rate == config.value.rate && capacity == config.value.burst * NANOTOKENS_PER_TOKEN
      && 0 <= tokens <= capacity
    }
  }

  function Min(a: int, b: int): int { if a <= b then a else b }

  function NewBucket(config: Option<LimitConfig>, now: int): Bucket {
    match config
    case None => Bucket(None, 0, 0, 0, 0)
    case Some(c) =>
      var capacity := c.burst * NANOTOKENS_PER_TOKEN;
      Bucket(config, c.rate, capacity, capacity, now)
  }

  /** The difference of two readings as an int64, which saturates. */
  function Elapsed(now: int, last: int): (d: int)
    requires last <= now
    ensures 0 <= d <= MAX_INT64
    ensures d == Min(MAX_INT64, now - last)
  {
    if now - last > MAX_INT64 then MAX_INT64 else now - last
  }

  function SaturatingAdd(left: int, right: int): (sum: int)
    requires 0 <= left <= MAX_INT64 && 0 <= right <= MAX_INT64
    ensures sum == Min(0x7FFF_FFFF_FFFF_FFFF, left + right)
  {
    if right > MAX_INT64 - left then MAX_INT64 else left + right
  }

  lemma QuotientBound(left: int, right: int, most: int)
    requires 0 < right && 0 <= most
    ensures left > most / right <==> left * right > most
  {
    var q, r := most / right, most % right;
    assert most == right * q + r;
    MulDistributes(right, left, q);
    MulSign(right, left - q);
  }

  function SaturatingMultiply(left: int, right: int): (product: int)
    ensures 0 <= product <= MAX_INT64
    ensures left >= 0 && right >= 0 ==> product == Min(0x7FFF_FFFF_FFFF_FFFF, left * right)
  {
    if left <= 0 || right <= 0 then 0
    else
      QuotientBound(left, right, MAX_INT64);
      MulSign(left, right);
      if left > MAX_INT64 / right then MAX_INT64 else left * right
  }

  function Refill(b: Bucket, now: int): Bucket
    requires b.Valid()
  {
    if now < b.last then b
    else
      CapacityFits(b);
      var tokens := SaturatingAdd(b.tokens, SaturatingMultiply(Elapsed(now, b.last), b.rate));
      b.(tokens := if tokens > b.capacity then b.capacity else tokens, last := now)
  }

  /** The next bucket and the verdict; a bucket of another configuration is replaced by a fresh one. */
  function ReserveBucket(previous: Bucket, config: Option<LimitConfig>, now: int): (Bucket, bool)
    requires previous.config == config ==> previous.Valid()
  {
    if previous.config != config then
      var next := NewBucket(config, now);
      (next.(tokens := next.tokens - NANOTOKENS_PER_TOKEN), true)
    else
      var next := Refill(previous, now);
      if next.tokens >= NANOTOKENS_PER_TOKEN then (next.(tokens := next.tokens - NANOTOKENS_PER_TOKEN), true)
      else (next, false)
  }

  lemma CapacityFits(b: Bucket)
    requires b.Valid()
    ensures b.capacity <= MAX_LIMIT * NANOTOKENS_PER_TOKEN < MAX_INT64
  {
  }

  // ----- The saturating arithmetic is exact

  /** The balance before the debit, in unbounded arithmetic.  A reading in the past refills nothing. */
  function Refilled(b: Bucket, now: int): int {
    Min(b.capacity, b.tokens + b.rate * (Later(b.last, now) - b.last))
  }

  function Later(a: int, b: int): int { if a <= b then b else a }

  /** What a request does to a bucket of its own configuration, with the int64 arithmetic gone. */
  lemma ReserveExact(b: Bucket, now: int)
    requires b.Valid()
    ensures var (next, allowed) := ReserveBucket(b, b.config, now);
            && next.Valid() && next.config == b.config && next.last == Later(b.last, now)
            && allowed == (Refilled(b, now) >= NANOTOKENS_PER_TOKEN)
            && next.tokens == Refilled(b, now) - if allowed then NANOTOKENS_PER_TOKEN else 0
  {
    RefillIs(b, now);
  }

  lemma RefillIs(b: Bucket, now: int)
    requires b.Valid()
    ensures Refill(b, now) == b.(tokens := Refilled(b, now), last := Later(b.last, now))
    ensures 0 <= Refilled(b, now) <= b.capacity
  {
    CapacityFits(b);
    if b.last <= now {
      RefillExact(b.tokens, b.capacity, b.rate, now - b.last);
    }
  }

  lemma RefillExact(tokens: int, capacity: int, rate: int, e: int)
    requires 0 <= tokens <= capacity < MAX_INT64 && 1 <= rate && 0 <= e
    ensures Min(capacity, SaturatingAdd(tokens, SaturatingMultiply(Min(MAX_INT64, e), rate)))
            == Min(capacity, tokens + rate * e)
    ensures 0 <= Min(capacity, tokens + rate * e)
  {
    MulSign(rate, e);
    if e > MAX_INT64 {
      MulGrows(rate, MAX_INT64, e);
    }
    Commuted(Min(MAX_INT64, e), rate);
  }

  lemma Commuted(a: int, b: int)
    ensures a * b == b * a
  {
  }

  lemma MulGrows(rate: int, small: int, e: int)
    requires 1 <= rate && 0 <= small <= e
    ensures small <= rate * small <= rate * e
  {
    MulSign(small, rate);
    MulDistributes(rate, e, small);
    MulSign(rate, e - small);
  }

  /** The fresh bucket is a full one that has paid for the request that found it. */
  lemma FreshBucketAdmits(previous: Bucket, config: LimitConfig, now: int)
    requires config.Valid() && previous.config != Some(config)
    ensures var full := NewBucket(Some(config), now);
            full.Valid() && full.tokens == full.capacity
            && ReserveBucket(previous, Some(config), now) == ReserveBucket(full, Some(config), now)
  {
    var full := NewBucket(Some(config), now);
    ReserveExact(full, now);
  }

  // ----- Runs over arbitrary readings

  function After(b: Bucket, times: seq<int>): (s: Bucket)
    requires b.Valid()
    ensures s.Valid() && s.config == b.config && s.rate == b.rate && s.capacity == b.capacity
  {
    if |times| == 0 then b
    else
      var before := After(b, times[..|times| - 1]);
      ReserveExact(before, times[|times| - 1]);
      ReserveBucket(before, before.config, times[|times| - 1]).0
  }

  predicate Allowed(b: Bucket, times: seq<int>, k: nat)
    requires b.Valid() && k < |times|
  {
    var before := After(b, times[..k]);
    ReserveBucket(before, before.config, times[k]).1
  }

  /** How many of the first `k` requests are admitted. */
  function Admitted(b: Bucket, times: seq<int>, k: nat): nat
    requires b.Valid() && k <= |times|
  {
    if k == 0 then 0 else Admitted(b, times, k - 1) + if Allowed(b, times, k - 1) then 1 else 0
  }

  /** The bucket's clock after the first `k` requests: the latest reading so far. */
  function Clock(b: Bucket, times: seq<int>, k: nat): int
    requires k <= |times|
  {
    if k == 0 then b.last else Later(Clock(b, times, k - 1), times[k - 1])
  }

  /** It is one of the readings, or the bucket's own, and no earlier than any of them. */
  lemma {:induction false} ClockIsTheLatest(b: Bucket, times: seq<int>, k: nat)
    requires k <= |times|
    ensures b.last <= Clock(b, times, k) && forall j | 0 <= j < k :: times[j] <= Clock(b, times, k)
    ensures Clock(b, times, k) == b.last || exists j | 0 <= j < k :: times[j] == Clock(b, times, k)
  {
    if k > 0 {
      ClockIsTheLatest(b, times, k - 1);
    }
  }

  /** The balance request `k` finds. */
  function Balance(b: Bucket, times: seq<int>, k: nat): int
    requires b.Valid() && k < |times|
  {
    Refilled(After(b, times[..k]), times[k])
  }

  lemma {:induction false} ClockIs(b: Bucket, times: seq<int>, k: nat)
    requires b.Valid() && k <= |times|
    ensures After(b, times[..k]).last == Clock(b, times, k)
  {
    if k > 0 {
      ClockIs(b, times, k - 1);
      assert times[..k][..k - 1] == times[..k - 1];
      ReserveExact(After(b, times[..k - 1]), times[k - 1]);
    }
  }

  /** The most that the requests from `i` on can have spent by the time of request `j`. */
  function Envelope(b: Bucket, times: seq<int>, i: nat, j: nat): int
    requires i <= j < |times|
  {
    b.capacity + b.rate * (Clock(b, times, j + 1) - Clock(b, times, i + 1))
  }

  /** What accrues between request `k` and the next one, to the balance and to every window. */
  lemma Accrues(b: Bucket, times: seq<int>, i: nat, k: nat) returns (accrued: int)
    requires b.Valid() && i <= k && k + 1 < |times|
    ensures var debit := if Allowed(b, times, k) then NANOTOKENS_PER_TOKEN else 0;
            Balance(b, times, k + 1) == Min(b.capacity, Balance(b, times, k) - debit + accrued)
    ensures Envelope(b, times, i, k + 1) == Envelope(b, times, i, k) + accrued
  {
    accrued := b.rate * (Clock(b, times, k + 2) - Clock(b, times, k + 1));
    BalanceStep(b, times, k);
    EnvelopeStep(b, times, i, k);
  }

  lemma BalanceStep(b: Bucket, times: seq<int>, k: nat)
    requires b.Valid() && k + 1 < |times|
    ensures var debit := if Allowed(b, times, k) then NANOTOKENS_PER_TOKEN else 0;
            Balance(b, times, k + 1)
            == Min(b.capacity, Balance(b, times, k) - debit + b.rate * (Clock(b, times, k + 2) - Clock(b, times, k + 1)))
  {
    assert times[..k + 1][..k] == times[..k];
    ReserveExact(After(b, times[..k]), times[k]);
    ClockIs(b, times, k + 1);
  }

  lemma EnvelopeStep(b: Bucket, times: seq<int>, i: nat, j: nat)
    requires i <= j && j + 1 < |times|
    ensures Envelope(b, times, i, j + 1)
            == Envelope(b, times, i, j) + b.rate * (Clock(b, times, j + 2) - Clock(b, times, j + 1))
  {
    var c0, c1, c2 := Clock(b, times, i + 1), Clock(b, times, j + 1), Clock(b, times, j + 2);
    MulDistributes(b.rate, c1 - c0, c2 - c1);
  }

  lemma BalanceCapped(b: Bucket, times: seq<int>, k: nat)
    requires b.Valid() && k < |times|
    ensures Balance(b, times, k) <= b.capacity == Envelope(b, times, k, k)
  {
  }

  /** What the window `i..j` has left before request `j`, if every earlier request of it is paid for. */
  function Unspent(b: Bucket, times: seq<int>, i: nat, j: nat): int
    requires b.Valid() && i <= j < |times|
  {
    Envelope(b, times, i, j) - NANOTOKENS_PER_TOKEN * (Admitted(b, times, j) - Admitted(b, times, i))
  }

  /** The balance moves with every window, except that it is capped. */
  lemma UnspentStep(b: Bucket, times: seq<int>, i: nat, k: nat)
    requires b.Valid() && i <= k && k + 1 < |times|
    ensures Balance(b, times, k + 1)
            == Min(b.capacity, Balance(b, times, k) + (Unspent(b, times, i, k + 1) - Unspent(b, times, i, k)))
  {
    var _ := Accrues(b, times, i, k);
  }

  lemma {:induction false} BalanceBound(b: Bucket, times: seq<int>, i: nat, j: nat)
    requires b.Valid() && i <= j < |times|
    ensures Balance(b, times, j) <= Unspent(b, times, i, j)
  {
    if i == j {
      BalanceCapped(b, times, i);
    } else {
      BalanceBound(b, times, i, j - 1);
      UnspentStep(b, times, i, j - 1);
    }
  }

  /**
   Over any clock readings whatsoever, the admissions among the requests `i..j` never exceed the capacity plus
   what accrued between those two requests.
   */
  lemma AdmissionsWithinEnvelope(b: Bucket, times: seq<int>, i: nat, j: nat)
    requires b.Valid() && i <= j < |times|
    ensures NANOTOKENS_PER_TOKEN * (Admitted(b, times, j + 1) - Admitted(b, times, i)) <= Envelope(b, times, i, j)
  {
    BalanceBound(b, times, i, j);
    ReserveExact(After(b, times[..j]), times[j]);
    BalanceNonNegative(b, times, j);
  }

  /**
   The same in tokens and nanoseconds: `burst` tokens at once, and `rate` tokens for each 10^9 nanoseconds.  With a
   clock that does not go back, the span is that between the two requests.
   */
  lemma EnvelopeInTokens(b: Bucket, times: seq<int>, i: nat, j: nat)
    requires b.Valid() && i <= j < |times| && b.last <= times[0]
    requires forall k, m | 0 <= k <= m < |times| :: times[k] <= times[m]
    ensures 1_000_000_000 * (Admitted(b, times, j + 1) - Admitted(b, times, i))
            <= 1_000_000_000 * b.config.value.burst + b.config.value.rate * (times[j] - times[i])
  {
    AdmissionsWithinEnvelope(b, times, i, j);
    SteadyClock(b, times, i);
    SteadyClock(b, times, j);
  }

  lemma BalanceNonNegative(b: Bucket, times: seq<int>, k: nat)
    requires b.Valid() && k < |times|
    ensures 0 <= Balance(b, times, k)
  {
    var before := After(b, times[..k]);
    MulSign(before.rate, Later(before.last, times[k]) - before.last);
  }

  lemma FirstBalance(b: Bucket, times: seq<int>)
    requires b.Valid() && b.tokens == b.capacity && |times| > 0
    ensures Balance(b, times, 0) == b.capacity
  {
    MulSign(b.rate, Later(b.last, times[0]) - b.last);
    assert times[..0] == [];
  }

  /** From a full bucket, the balance is exactly what the tightest window leaves. */
  lemma {:induction false} TightestWindow(b: Bucket, times: seq<int>, j: nat) returns (i: nat)
    requires b.Valid() && b.tokens == b.capacity && j < |times|
    ensures i <= j && Balance(b, times, j) == Unspent(b, times, i, j)
  {
    if j == 0 {
      i := 0;
      FirstBalance(b, times);
      BalanceCapped(b, times, 0);
    } else if Balance(b, times, j) == b.capacity {
      i := j;
      BalanceCapped(b, times, j);
    } else {
      i := TightestWindow(b, times, j - 1);
      UnspentStep(b, times, i, j - 1);
    }
  }

  /** Request `j` still fits into the window that starts with request `i`. */
  ghost predicate WindowFits(b: Bucket, times: seq<int>, i: nat, j: nat) {
    && b.Valid() && i <= j < |times|
    && NANOTOKENS_PER_TOKEN * (Admitted(b, times, j) - Admitted(b, times, i) + 1) <= Envelope(b, times, i, j)
  }

  /**
   From a full bucket, a request is admitted exactly when, counting it, every window that ends with it still
   fits the envelope.  So nothing is denied that the envelope has room for.
   */
  lemma AdmittedExactlyWhenItFits(b: Bucket, times: seq<int>, j: nat)
    requires b.Valid() && b.tokens == b.capacity && j < |times|
    ensures Allowed(b, times, j) <==> forall i: nat | i <= j :: WindowFits(b, times, i, j)
  {
    VerdictIs(b, times, j);
    if Allowed(b, times, j) {
      forall i: nat | i <= j ensures WindowFits(b, times, i, j) {
        BalanceBound(b, times, i, j);
      }
    } else {
      var i := TightestWindow(b, times, j);
      assert !WindowFits(b, times, i, j);
    }
  }

  lemma VerdictIs(b: Bucket, times: seq<int>, j: nat)
    requires b.Valid() && j < |times|
    ensures Allowed(b, times, j) <==> Balance(b, times, j) >= NANOTOKENS_PER_TOKEN
  {
    ReserveExact(After(b, times[..j]), times[j]);
  }

  ghost predicate Fits(b: Bucket, times: seq<int>) {
    forall i, j | 0 <= i <= j < |times| :: NANOTOKENS_PER_TOKEN * (j - i + 1) <= Envelope(b, times, i, j)
  }

  lemma {:induction false} AllAdmittedCount(b: Bucket, times: seq<int>, k: nat)
    requires b.Valid() && k <= |times|
    requires forall j | 0 <= j < k :: Allowed(b, times, j)
    ensures Admitted(b, times, k) == k
  {
    if k > 0 {
      AllAdmittedCount(b, times, k - 1);
    }
  }

  lemma {:induction false} FittingIsAdmitted(b: Bucket, times: seq<int>, k: nat)
    requires b.Valid() && b.tokens == b.capacity && k <= |times| && Fits(b, times)
    ensures forall j | 0 <= j < k :: Allowed(b, times, j)
    ensures forall j: nat | j <= k :: Admitted(b, times, j) == j
  {
    if k > 0 {
      FittingIsAdmitted(b, times, k - 1);
      AdmittedExactlyWhenItFits(b, times, k - 1);
    }
  }

  /** A whole arrival sequence is admitted from a full bucket exactly when each of its windows fits the envelope. */
  lemma ConformingTrafficIsAdmitted(b: Bucket, times: seq<int>)
    requires b.Valid() && b.tokens == b.capacity
    ensures (forall j | 0 <= j < |times| :: Allowed(b, times, j)) <==> Fits(b, times)
  {
    if Fits(b, times) {
      FittingIsAdmitted(b, times, |times|);
    }
    if forall j | 0 <= j < |times| :: Allowed(b, times, j) {
      forall i, j | 0 <= i <= j < |times|
        ensures NANOTOKENS_PER_TOKEN * (j - i + 1) <= Envelope(b, times, i, j)
      {
        AllAdmittedCount(b, times, i);
        AllAdmittedCount(b, times, j + 1);
        AdmissionsWithinEnvelope(b, times, i, j);
      }
    }
  }

  /** With a clock that does not go back, the bucket's clock is the reading of the request itself. */
  lemma {:induction false} SteadyClock(b: Bucket, times: seq<int>, k: nat)
    requires k < |times| && b.last <= times[0]
    requires forall i, j | 0 <= i <= j < |times| :: times[i] <= times[j]
    ensures Clock(b, times, k + 1) == times[k]
  {
    if k > 0 {
      SteadyClock(b, times, k - 1);
    }
  }

  // ----- Buckets that were published one after the other

  /** Each bucket is what one request, with the given reading and verdict, made of the one before. */
  ghost predicate Chain(buckets: seq<Bucket>, times: seq<int>, verdicts: seq<bool>) {
    && |buckets| == |times| + 1 && |verdicts| == |times|
    && (forall k | 0 <= k < |buckets| :: buckets[k].Valid())
    && (forall k | 0 <= k < |times| :: Debit(buckets[k], times[k], buckets[k + 1], verdicts[k]))
  }

  ghost predicate Debit(before: Bucket, now: int, after: Bucket, verdict: bool) {
    before.Valid() && ReserveBucket(before, before.config, now) == (after, verdict)
  }

  function CountTrue(verdicts: seq<bool>, k: nat): nat
    requires k <= |verdicts|
  {
    if k == 0 then 0 else CountTrue(verdicts, k - 1) + if verdicts[k - 1] then 1 else 0
  }

  lemma {:induction false} ChainIsRun(buckets: seq<Bucket>, times: seq<int>, verdicts: seq<bool>, k: nat)
    requires Chain(buckets, times, verdicts) && k <= |times|
    ensures After(buckets[0], times[..k]) == buckets[k]
    ensures k < |times| ==> Allowed(buckets[0], times, k) == verdicts[k]
  {
    if k > 0 {
      ChainIsRun(buckets, times, verdicts, k - 1);
      assert times[..k][..k - 1] == times[..k - 1];
      assert Debit(buckets[k - 1], times[k - 1], buckets[k], verdicts[k - 1]);
    }
    if k < |times| {
      assert Debit(buckets[k], times[k], buckets[k + 1], verdicts[k]);
    }
  }

  lemma {:induction false} ChainCounts(buckets: seq<Bucket>, times: seq<int>, verdicts: seq<bool>, k: nat)
    requires Chain(buckets, times, verdicts) && k <= |times|
    ensures Admitted(buckets[0], times, k) == CountTrue(verdicts, k)
    ensures Clock(buckets[0], times, k) == buckets[k].last
  {
    if k > 0 {
      ChainCounts(buckets, times, verdicts, k - 1);
      ChainIsRun(buckets, times, verdicts, k - 1);
    }
    ChainIsRun(buckets, times, verdicts, k);
    ClockIs(buckets[0], times, k);
  }

  /** What the requests `i..j` of a chain may spend. */
  function ChainEnvelope(buckets: seq<Bucket>, i: nat, j: nat): int
    requires i <= j && j + 1 < |buckets|
  {
    buckets[0].capacity + buckets[0].rate * (buckets[j + 1].last - buckets[i + 1].last)
  }

  lemma SameEnvelope(buckets: seq<Bucket>, times: seq<int>, verdicts: seq<bool>, i: nat, j: nat)
    requires Chain(buckets, times, verdicts) && i <= j < |times|
    ensures Envelope(buckets[0], times, i, j) == ChainEnvelope(buckets, i, j)
  {
    ChainCounts(buckets, times, verdicts, i + 1);
    ChainCounts(buckets, times, verdicts, j + 1);
  }

  lemma ChainWithinEnvelope(buckets: seq<Bucket>, times: seq<int>, verdicts: seq<bool>, i: nat, j: nat)
    requires Chain(buckets, times, verdicts) && i <= j < |times|
    ensures NANOTOKENS_PER_TOKEN * (CountTrue(verdicts, j + 1) - CountTrue(verdicts, i)) <= ChainEnvelope(buckets, i, j)
  {
    AdmissionsWithinEnvelope(buckets[0], times, i, j);
    SameEnvelope(buckets, times, verdicts, i, j);
    ChainCounts(buckets, times, verdicts, i);
    ChainCounts(buckets, times, verdicts, j + 1);
  }

  /** One more request after the window `i..j-1` still fits. */
  ghost predicate ChainWindowFits(buckets: seq<Bucket>, verdicts: seq<bool>, i: nat, j: nat) {
    && i <= j <= |verdicts| && j + 1 < |buckets|
    && NANOTOKENS_PER_TOKEN * (CountTrue(verdicts, j) - CountTrue(verdicts, i) + 1) <= ChainEnvelope(buckets, i, j)
  }

  lemma ChainWindow(buckets: seq<Bucket>, times: seq<int>, verdicts: seq<bool>, i: nat, j: nat)
    requires Chain(buckets, times, verdicts) && i <= j < |times|
    ensures ChainWindowFits(buckets, verdicts, i, j) <==> WindowFits(buckets[0], times, i, j)
  {
    SameEnvelope(buckets, times, verdicts, i, j);
    ChainCounts(buckets, times, verdicts, i);
    ChainCounts(buckets, times, verdicts, j);
  }

  lemma ChainAdmitsWhatFits(buckets: seq<Bucket>, times: seq<int>, verdicts: seq<bool>, j: nat)
    requires Chain(buckets, times, verdicts) && j < |times| && buckets[0].tokens == buckets[0].capacity
    ensures verdicts[j] <==> forall i: nat | i <= j :: ChainWindowFits(buckets, verdicts, i, j)
  {
    ChainIsRun(buckets, times, verdicts, j);
    AdmittedExactlyWhenItFits(buckets[0], times, j);
    forall i: nat | i <= j
      ensures ChainWindowFits(buckets, verdicts, i, j) <==> WindowFits(buckets[0], times, i, j)
    {
      ChainWindow(buckets, times, verdicts, i, j);
    }
  }
}
