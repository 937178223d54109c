/**
 The limiter that is not bound to a generation pointer (rate_limit.go, `reserve`, `newRateLimiter` and
 `newRateLimiterAt`): a compare-and-swap loop over its own state.

 Any number of requests interleave, one atomic operation at a time, each with its own and arbitrary clock
 readings.  The state's pointer is known by how much has been published when it is loaded.
 */
module UnboundLimiter {
  import opened Prelude
  import opened TokenBucket

  datatype Request =
    | Arrived
    | Holding(base: nat)
    | Computed(base: nat, bucket: Bucket, allowed: bool, at: int)
    | Decided(place: nat, allowed: bool)

  /** `buckets` is the full bucket the limiter starts from and every published one after it; empty is the nil pointer. */
  datatype State = State(
    config: LimitConfig, buckets: seq<Bucket>, times: seq<int>, verdicts: seq<bool>, owners: seq<nat>, requests: seq<Request>)

  datatype Step =
    | Arrive
    | Load(request: nat)
    | Compute(request: nat, now: int)
    | CompareAndSwap(request: nat)

  /** A limiter that starts with a bucket or without one. */
  function Initial(config: LimitConfig, start: Option<int>): State {
    State(config, if start.Some? then [NewBucket(Some(config), start.value)] else [], [], [], [], [])
  }

  function Previous(s: State, base: nat): Bucket
    requires base <= |s.buckets|
  {
    if base == 0 then NewBucket(None, 0) else s.buckets[base - 1]
  }

  ghost predicate Enabled(s: State, step: Step) {
    match step
    case Arrive => true
    case Load(r) => r < |s.requests| && s.requests[r].Arrived?
    case Compute(r, _) =>
      && r < |s.requests| && s.requests[r].Holding? && s.requests[r].base <= |s.buckets|
      && (s.requests[r].base > 0 ==> Previous(s, s.requests[r].base).Valid())
    case CompareAndSwap(r) => r < |s.requests| && s.requests[r].Computed?
  }

  ghost function Apply(s: State, step: Step): State
    requires Enabled(s, step)
  {
    match step
    case Arrive => s.(requests := s.requests + [Arrived])
    case Load(r) => s.(requests := s.requests[r := Holding(|s.buckets|)])
    case Compute(r, now) =>
      var base := s.requests[r].base;
      var (bucket, allowed) := ReserveBucket(Previous(s, base), Some(s.config), now);
      s.(requests := s.requests[r := Computed(base, bucket, allowed, now)])
    case CompareAndSwap(r) =>
      var Computed(base, bucket, allowed, at) := s.requests[r];
      if base == |s.buckets| then
        State(s.config, (if base == 0 then [NewBucket(Some(s.config), at)] else s.buckets) + [bucket], s.times + [at],
              s.verdicts + [allowed], s.owners + [r], s.requests[r := Decided(|s.verdicts|, allowed)])
      else s.(requests := s.requests[r := Arrived])
  }

  ghost predicate Runs(s: State, steps: seq<Step>, t: State)
    decreases |steps|
  {
    if |steps| == 0 then s == t else Enabled(s, steps[0]) && Runs(Apply(s, steps[0]), steps[1..], t)
  }

  // ----- The invariant

  /** What has been published is a chain of single requests, from a full bucket on. */
  ghost predicate Chained(s: State) {
    && s.config.Valid() && |s.owners| == |s.verdicts|
    && (s.buckets == [] ==> s.times == [] && s.verdicts == [])
    && (s.buckets != [] ==>
          && Chain(s.buckets, s.times, s.verdicts)
          && s.buckets[0] == NewBucket(Some(s.config), s.buckets[0].last)
          && forall k | 0 <= k < |s.buckets| :: s.buckets[k].config == Some(s.config))
  }

  ghost predicate WellPlaced(s: State, r: nat)
    requires r < |s.requests|
  {
    match s.requests[r]
    case Arrived => true
    case Holding(base) => base <= |s.buckets|
    case Computed(base, bucket, allowed, at) =>
      && base <= |s.buckets| && (base > 0 ==> Previous(s, base).Valid())
      && ReserveBucket(Previous(s, base), Some(s.config), at) == (bucket, allowed)
    case Decided(k, allowed) => k < |s.verdicts| == |s.owners| && s.verdicts[k] == allowed && s.owners[k] == r
  }

  ghost predicate Owned(s: State, k: nat)
    requires k < |s.owners|
  {
    s.owners[k] < |s.requests| && s.requests[s.owners[k]].Decided? && s.requests[s.owners[k]].place == k
  }

  ghost predicate Inv(s: State) {
    && Chained(s)
    && (forall r: nat | r < |s.requests| :: WellPlaced(s, r))
    && (forall k: nat | k < |s.owners| :: Owned(s, k))
  }

  lemma ChainGrows(buckets: seq<Bucket>, times: seq<int>, verdicts: seq<bool>, bucket: Bucket, at: int, allowed: bool)
    requires Chain(buckets, times, verdicts) && Debit(buckets[|buckets| - 1], at, bucket, allowed)
    ensures Chain(buckets + [bucket], times + [at], verdicts + [allowed])
    ensures bucket.config == buckets[|buckets| - 1].config
  {
    ReserveExact(buckets[|buckets| - 1], at);
    var longer, later, more := buckets + [bucket], times + [at], verdicts + [allowed];
    forall k | 0 <= k < |later|
      ensures Debit(longer[k], later[k], longer[k + 1], more[k])
    {
      if k < |times| {
        assert Debit(buckets[k], times[k], buckets[k + 1], verdicts[k]);
      }
    }
  }

  /** The first request of a limiter without a bucket is served as if a full one had been there. */
  lemma FirstDebit(config: LimitConfig, bucket: Bucket, at: int, allowed: bool)
    requires config.Valid() && ReserveBucket(NewBucket(None, 0), Some(config), at) == (bucket, allowed)
    ensures Debit(NewBucket(Some(config), at), at, bucket, allowed)
    ensures Chain([NewBucket(Some(config), at)], [], [])
  {
    FreshBucketAdmits(NewBucket(None, 0), config, at);
  }

  lemma SwapChained(s: State, r: nat)
    requires Inv(s) && r < |s.requests| && s.requests[r].Computed? && s.requests[r].base == |s.buckets|
    ensures Chained(Apply(s, CompareAndSwap(r)))
  {
    assert WellPlaced(s, r);
    var Computed(base, bucket, allowed, at) := s.requests[r];
    if base == 0 {
      FirstDebit(s.config, bucket, at, allowed);
      ChainGrows([NewBucket(Some(s.config), at)], [], [], bucket, at, allowed);
    } else {
      ChainGrows(s.buckets, s.times, s.verdicts, bucket, at, allowed);
    }
  }

  lemma StepChained(s: State, step: Step)
    requires Inv(s) && Enabled(s, step)
    ensures Chained(Apply(s, step))
  {
    if step.CompareAndSwap? && s.requests[step.request].base == |s.buckets| {
      SwapChained(s, step.request);
    }
  }

  lemma PreviousStays(s: State, step: Step, base: nat)
    requires Inv(s) && Enabled(s, step) && base <= |s.buckets|
    ensures base <= |Apply(s, step).buckets| && Previous(Apply(s, step), base) == Previous(s, base)
  {
  }

  lemma StepPlaced(s: State, step: Step, r: nat)
    requires Inv(s) && Enabled(s, step) && r < |Apply(s, step).requests|
    ensures WellPlaced(Apply(s, step), r)
  {
    if r < |s.requests| {
      assert WellPlaced(s, r);
      if s.requests[r].Holding? || s.requests[r].Computed? {
        PreviousStays(s, step, s.requests[r].base);
      }
    }
  }

  lemma StepInv(s: State, step: Step)
    requires Inv(s) && Enabled(s, step)
    ensures Inv(Apply(s, step))
  {
    var t := Apply(s, step);
    StepChained(s, step);
    forall r: nat | r < |t.requests| ensures WellPlaced(t, r) {
      StepPlaced(s, step, r);
    }
    forall k: nat | k < |t.owners| ensures Owned(t, k) {
      if k < |s.owners| {
        assert Owned(s, k);
      }
    }
  }

  lemma {:induction false} RunInv(s: State, steps: seq<Step>, t: State)
    requires Inv(s) && Runs(s, steps, t)
    ensures Inv(t)
    decreases |steps|
  {
    if |steps| > 0 {
      StepInv(s, steps[0]);
      RunInv(Apply(s, steps[0]), steps[1..], t);
    }
  }

  ghost predicate Reachable(s: State) {
    exists config: LimitConfig, start: Option<int>, steps: seq<Step> ::
      config.Valid() && Runs(Initial(config, start), steps, s)
  }

  lemma ReachableInv(s: State)
    requires Reachable(s)
    ensures Inv(s)
  {
    var config: LimitConfig, start: Option<int>, steps: seq<Step> :|
      config.Valid() && Runs(Initial(config, start), steps, s);
    RunInv(Initial(config, start), steps, s);
  }

  /** A request that nothing else disturbs is decided in three steps, on what the last bucket has accrued by now. */
  lemma UndisturbedRequestIsDecided(s: State, r: nat, now: int)
    requires Reachable(s) && r < |s.requests| && s.requests[r].Arrived?
    ensures Enabled(s, Load(r)) && Settled(s, r, now)
  {
    ReachableInv(s);
    if s.buckets == [] {
      FreshBucketAdmits(NewBucket(None, 0), s.config, now);
      ReserveExact(NewBucket(Some(s.config), now), now);
    } else {
      ReserveExact(s.buckets[|s.buckets| - 1], now);
    }
  }

  ghost predicate Settled(s: State, r: nat, now: int)
    requires r < |s.requests| && Enabled(s, Load(r))
  {
    var loaded := Apply(s, Load(r));
    && r < |loaded.requests| && Enabled(loaded, Compute(r, now))
    && var computed := Apply(loaded, Compute(r, now));
       && r < |computed.requests| && Enabled(computed, CompareAndSwap(r))
       && var decided := Apply(computed, CompareAndSwap(r));
          && r < |decided.requests| && decided.times == s.times + [now]
          && decided.requests[r] == Decided(|s.verdicts|, Balance(s, now) >= 1_000_000_000)
          && |decided.buckets| > 0
          && decided.buckets[|decided.buckets| - 1].tokens
             == Balance(s, now) - if Balance(s, now) >= 1_000_000_000 then 1_000_000_000 else 0
  }

  /** The nanotokens at hand at `now`: everything before the first request, and later what has accrued. */
  function Balance(s: State, now: int): int {
    if s.buckets == [] then 1_000_000_000 * s.config.burst
    else
      var b := s.buckets[|s.buckets| - 1];
      Min(1_000_000_000 * s.config.burst, b.tokens + s.config.rate * (if b.last <= now then now - b.last else 0))
  }

  // ----- What every interleaving keeps

  /** Decisions and published buckets are in one-to-one correspondence, with the same verdict. */
  lemma OneBucketPerDecision(s: State)
    requires Reachable(s)
    ensures |s.owners| == |s.verdicts|
    ensures forall r | 0 <= r < |s.requests| && s.requests[r].Decided? ::
              && s.requests[r].place < |s.owners| && s.owners[s.requests[r].place] == r
              && s.verdicts[s.requests[r].place] == s.requests[r].allowed
    ensures forall k | 0 <= k < |s.owners| ::
              && s.owners[k] < |s.requests| && s.requests[s.owners[k]].Decided? && s.requests[s.owners[k]].place == k
  {
    ReachableInv(s);
    forall r: nat | r < |s.requests| && s.requests[r].Decided?
      ensures s.requests[r].place < |s.owners| && s.owners[s.requests[r].place] == r
      ensures s.verdicts[s.requests[r].place] == s.requests[r].allowed
    {
      assert WellPlaced(s, r);
    }
    forall k: nat | k < |s.owners|
      ensures s.owners[k] < |s.requests| && s.requests[s.owners[k]].Decided? && s.requests[s.owners[k]].place == k
    {
      assert Owned(s, k);
    }
  }

  /**
   However the requests interleave and whatever their clocks read, also backwards: the admissions among the
   published decisions `i..j` stay within the envelope, and decision `j` admits exactly when every window that
   ends with it fits.
   */
  lemma EnvelopeOverEveryInterleaving(s: State, i: nat, j: nat)
    requires Reachable(s) && i <= j < |s.verdicts|
    ensures |s.buckets| == |s.verdicts| + 1
    ensures NANOTOKENS_PER_TOKEN * (CountTrue(s.verdicts, j + 1) - CountTrue(s.verdicts, i)) <= ChainEnvelope(s.buckets, i, j)
    ensures s.verdicts[j] <==> forall k: nat | k <= j :: ChainWindowFits(s.buckets, s.verdicts, k, j)
  {
    ReachableInv(s);
    ChainWithinEnvelope(s.buckets, s.times, s.verdicts, i, j);
    ChainAdmitsWhatFits(s.buckets, s.times, s.verdicts, j);
  }
}
