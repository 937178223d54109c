/**
 Concurrent admission and reload over the published runtime generation (rate_limit.go, `admitGeneration`;
 main.go, `newReloadableRouter`, `StoreGeneration` and the admission part of `ServeHTTP`).

 The state machine interleaves any number of requests and reloads, one atomic operation at a time.  A
 generation is known by its place in the order of publication, which stands for its address: an address is
 not used again while a request still holds it.
 */
module Generations {
  import opened Prelude
  import opened TokenBucket

  /** The limiter that is bound to the process-wide generation pointer. */
  const BOUND_LIMITER: nat := 0

  datatype Router = Router(id: nat, limit: Option<LimitConfig>, limiter: nat) {
    predicate Valid() { limit.Some? ==> limit.value.Valid() }
  }

  datatype Generation = Generation(router: Router, certificate: nat, bucket: Bucket)

  /** How a generation came to be published, and at which clock reading its bucket was computed. */
  datatype Origin = Loaded(at: int) | Debited(request: nat, allowed: bool, at: int)

  /** Where a request is.  `server` is the generation whose router serves it. */
  datatype Request =
    | Arrived(server: nat)
    | Holding(server: nat, base: nat)
    | Computed(server: nat, base: nat, bucket: Bucket, allowed: bool, at: int)
    | Failed(server: nat)
    | Unlimited(server: nat)
    | Decided(server: nat, generation: nat, allowed: bool)

  datatype Reload =
    | Preparing(router: Router, certificate: nat)
    | Publishing(generation: Generation, at: int)
    | Published

  datatype State = State(
    published: seq<Generation>,
    origins: seq<Origin>,
    current: nat,
    requests: seq<Request>,
    reloads: seq<Reload>,
    now: int)

  datatype Step =
    | Arrive                                      // load the generation that will serve the request
    | LoadLatest(request: nat)                    // load the generation to be charged
    | Compute(request: nat)                       // sample the clock and compute the next bucket
    | CompareAndSwap(request: nat)
    | LoadAgain(request: nat)
    | BeginReload(router: Router, certificate: nat)  // load the old generation and take over its limiter
    | SampleReload(reload: nat)
    | Swap(reload: nat)
    | Tick(elapsed: nat)

  function Initial(router: Router, certificate: nat, now: int): State {
    var bound := router.(limiter := BOUND_LIMITER);
    State([Generation(bound, certificate, NewBucket(router.limit, now))], [Loaded(now)], 0, [], [], now)
  }

  ghost predicate Enabled(s: State, step: Step) {
    && s.current < |s.published|
    && match step
       case Arrive | Tick(_) => true
       case LoadLatest(r) => r < |s.requests| && s.requests[r].Arrived?
       case Compute(r) => r < |s.requests| && s.requests[r].Holding? && s.requests[r].base < |s.published|
                          && var g := s.published[s.requests[r].base];
                             g.bucket.config == g.router.limit && g.bucket.config.Some? ==> g.bucket.Valid()
       case CompareAndSwap(r) => r < |s.requests| && s.requests[r].Computed? && s.requests[r].base < |s.published|
       case LoadAgain(r) => r < |s.requests| && s.requests[r].Failed?
       case BeginReload(router, _) => router.Valid()
       case SampleReload(r) => r < |s.reloads| && s.reloads[r].Preparing?
       case Swap(r) => r < |s.reloads| && s.reloads[r].Publishing?
  }

  function Publish(s: State, g: Generation, o: Origin): State {
    s.(published := s.published + [g], origins := s.origins + [o], current := |s.published|)
  }

  ghost function Apply(s: State, step: Step): State
    requires Enabled(s, step)
  {
    match step
    case Arrive => s.(requests := s.requests + [Arrived(s.current)])
    case LoadLatest(r) =>
      var server := s.requests[r].server;
      if s.published[s.current].router.limit.None? then s.(requests := s.requests[r := Unlimited(server)])
      else s.(requests := s.requests[r := Holding(server, s.current)])
    case Compute(r) =>
      var Holding(server, base) := s.requests[r];
      var g := s.published[base];
      if g.router.limit.None? then s.(requests := s.requests[r := Unlimited(server)])
      else
        var (bucket, allowed) := ReserveBucket(g.bucket, g.router.limit, s.now);
        s.(requests := s.requests[r := Computed(server, base, bucket, allowed, s.now)])
    case CompareAndSwap(r) =>
      var Computed(server, base, bucket, allowed, at) := s.requests[r];
      if s.current == base then
        var next := s.published[base].(bucket := bucket);
        Publish(s, next, Debited(r, allowed, at)).(requests := s.requests[r := Decided(server, |s.published|, allowed)])
      else s.(requests := s.requests[r := Failed(server)])
    case LoadAgain(r) => s.(requests := s.requests[r := Holding(s.requests[r].server, s.current)])
    case BeginReload(router, certificate) =>
      var previous := s.published[s.current];
      s.(reloads := s.reloads + [Preparing(router.(limiter := previous.router.limiter), certificate)])
    case SampleReload(r) =>
      var Preparing(router, certificate) := s.reloads[r];
      s.(reloads := s.reloads[r := Publishing(Generation(router, certificate, NewBucket(router.limit, s.now)), s.now)])
    case Swap(r) =>
      var Publishing(g, at) := s.reloads[r];
      Publish(s, g, Loaded(at)).(reloads := s.reloads[r := Published])
    case Tick(elapsed) => s.(now := s.now + elapsed)
  }

  /** A run: every step is possible where it is taken. */
  ghost predicate Runs(s: State, steps: seq<Step>, t: State)
    decreases |steps|
  {
    if |steps| == 0 then s == t
    else Enabled(s, steps[0]) && Runs(Apply(s, steps[0]), steps[1..], t)
  }

  // ----- The invariant

  /** The bucket of a generation belongs to its router's limit, and its limiter is the bound one. */
  ghost predicate Consistent(g: Generation, now: int) {
    && g.router.Valid() && g.router.limiter == BOUND_LIMITER
    && g.bucket.config == g.router.limit
    && (g.router.limit.Some? ==> g.bucket.Valid() && g.bucket.last <= now)
  }

  /** A debit of `base`: its own bucket branch, a reading not before the bucket's, and the verdict that goes with it. */
  ghost predicate DebitOf(base: Generation, bucket: Bucket, allowed: bool, at: int) {
    && base.router.limit.Some? && base.bucket.config == base.router.limit && base.bucket.Valid()
    && base.bucket.last <= at
    && ReserveBucket(base.bucket, base.router.limit, at) == (bucket, allowed)
  }

  ghost predicate WellPublished(s: State, k: nat)
    requires k < |s.published| == |s.origins|
  {
    var g := s.published[k];
    && Consistent(g, s.now)
    && match s.origins[k]
       case Loaded(at) => g.bucket == NewBucket(g.router.limit, at) && at <= s.now
       case Debited(r, allowed, at) =>
         && k > 0 && at <= s.now
         && g.router == s.published[k - 1].router && g.certificate == s.published[k - 1].certificate
         && DebitOf(s.published[k - 1], g.bucket, allowed, at)
         && r < |s.requests| && s.requests[r].Decided? && s.requests[r].generation == k && s.requests[r].allowed == allowed
  }

  /** One of the generations from `server` on has no limit. */
  ghost predicate HasUnlimited(published: seq<Generation>, server: nat) {
    exists k: nat :: server <= k < |published| && published[k].router.limit.None?
  }

  ghost predicate WellPlaced(s: State, r: nat)
    requires r < |s.requests| && |s.published| == |s.origins|
  {
    var q := s.requests[r];
    && q.server < |s.published|
    && match q
       case Holding(server, base) => server <= base < |s.published|
       case Computed(server, base, bucket, allowed, at) =>
         server <= base < |s.published| && at <= s.now && DebitOf(s.published[base], bucket, allowed, at)
       case Decided(server, k, allowed) => server < k < |s.origins| && s.origins[k].Debited? && s.origins[k].request == r
       case Unlimited(server) => HasUnlimited(s.published, server)
       case _ => true
  }

  ghost predicate WellPrepared(s: State, r: nat)
    requires r < |s.reloads|
  {
    match s.reloads[r]
    case Preparing(router, _) => router.Valid() && router.limiter == BOUND_LIMITER
    case Publishing(g, at) => Consistent(g, s.now) && at <= s.now && g.bucket == NewBucket(g.router.limit, at)
    case Published => true
  }

  ghost predicate Inv(s: State) {
    && |s.published| == |s.origins| > 0 && s.current == |s.published| - 1
    && (forall k: nat | k < |s.published| :: WellPublished(s, k))
    && (forall r: nat | r < |s.requests| :: WellPlaced(s, r))
    && (forall r: nat | r < |s.reloads| :: WellPrepared(s, r))
  }

  lemma InitialInv(router: Router, certificate: nat, now: int)
    requires router.Valid()
    ensures Inv(Initial(router, certificate, now))
  {
    assert WellPublished(Initial(router, certificate, now), 0);
  }

  lemma ComputedDebit(base: Generation, now: int)
    requires Consistent(base, now) && base.router.limit.Some?
    ensures var (bucket, allowed) := ReserveBucket(base.bucket, base.router.limit, now);
            DebitOf(base, bucket, allowed, now)
  {
  }

  lemma DebitConsistent(base: Generation, bucket: Bucket, allowed: bool, at: int, now: int)
    requires Consistent(base, now) && DebitOf(base, bucket, allowed, at) && at <= now
    ensures Consistent(base.(bucket := bucket), now)
  {
    ReserveExact(base.bucket, at);
  }

  /** The precondition of `Compute` is no restriction: a held generation can always be charged. */
  lemma ComputeIsPossible(s: State, r: nat)
    requires Inv(s) && r < |s.requests| && s.requests[r].Holding?
    ensures Enabled(s, Compute(r))
  {
    assert WellPlaced(s, r);
    assert WellPublished(s, s.requests[r].base);
  }

  lemma StepPublished(s: State, step: Step, k: nat)
    requires Inv(s) && Enabled(s, step) && k < |Apply(s, step).published|
    ensures |Apply(s, step).origins| == |Apply(s, step).published|
    ensures WellPublished(Apply(s, step), k)
  {
    if k < |s.published| {
      assert WellPublished(s, k);
    } else if step.Swap? {
      assert WellPrepared(s, step.reload);
    } else {
      assert WellPlaced(s, step.request);
      var Computed(_, base, bucket, allowed, at) := s.requests[step.request];
      assert WellPublished(s, base);
      DebitConsistent(s.published[base], bucket, allowed, at, s.now);
    }
  }

  lemma HasUnlimitedStays(published: seq<Generation>, longer: seq<Generation>, server: nat)
    requires HasUnlimited(published, server) && published <= longer
    ensures HasUnlimited(longer, server)
  {
    var k: nat :| server <= k < |published| && published[k].router.limit.None?;
    assert longer[k].router.limit.None?;
  }

  /** The steps after which a request is not charged. */
  lemma StepUnlimited(s: State, step: Step, r: nat)
    requires Inv(s) && Enabled(s, step) && r < |s.requests| && Apply(s, step).requests[r].Unlimited?
    ensures Apply(s, step).requests[r].server == s.requests[r].server < |s.published|
    ensures HasUnlimited(Apply(s, step).published, s.requests[r].server)
  {
    assert WellPlaced(s, r);
    if s.requests[r].Unlimited? {
      HasUnlimitedStays(s.published, Apply(s, step).published, s.requests[r].server);
    } else if step == LoadLatest(r) {
      assert s.published[s.current].router.limit.None?;
    } else {
      assert s.published[s.requests[r].base].router.limit.None?;
    }
  }

  lemma StepRequest(s: State, step: Step, r: nat)
    requires Inv(s) && Enabled(s, step) && r < |Apply(s, step).requests|
    ensures |Apply(s, step).origins| == |Apply(s, step).published|
    ensures WellPlaced(Apply(s, step), r)
  {
    if r < |s.requests| {
      assert WellPlaced(s, r);
      if Apply(s, step).requests[r].Unlimited? {
        StepUnlimited(s, step, r);
      } else if step.Compute? && step.request == r {
        var base := s.published[s.requests[r].base];
        assert WellPublished(s, s.requests[r].base);
        if base.router.limit.Some? {
          ComputedDebit(base, s.now);
        }
      }
    }
  }

  lemma StepReload(s: State, step: Step, r: nat)
    requires Inv(s) && Enabled(s, step) && r < |Apply(s, step).reloads|
    ensures WellPrepared(Apply(s, step), r)
  {
    assert WellPublished(s, s.current);
    if r < |s.reloads| {
      assert WellPrepared(s, r);
    }
  }

  lemma StepInv(s: State, step: Step)
    requires Inv(s) && Enabled(s, step)
    ensures Inv(Apply(s, step))
  {
    var t := Apply(s, step);
    assert |t.published| == |t.origins| > 0 && t.current == |t.published| - 1;
    forall k: nat | k < |t.published| ensures WellPublished(t, k) {
      StepPublished(s, step, k);
    }
    forall r: nat | r < |t.requests| ensures WellPlaced(t, r) {
      StepRequest(s, step, r);
    }
    forall r: nat | r < |t.reloads| ensures WellPrepared(t, r) {
      StepReload(s, step, r);
    }
  }

  lemma {:induction false} RunInv(s: State, steps: seq<Step>, t: State)
    requires Inv(s) && Runs(s, steps, t)
    ensures Inv(t)
    decreases |steps|
  {
    if |steps| > 0 {
      StepInv(s, steps[0]);
      RunInv(Apply(s, steps[0]), steps[1..], t);
    }
  }

  // ----- What holds in every reachable state

  ghost predicate Reachable(s: State) {
    exists router: Router, certificate, now, steps ::
      router.Valid() && Runs(Initial(router, certificate, now), steps, s)
  }

  lemma ReachableInv(s: State)
    requires Reachable(s)
    ensures Inv(s)
  {
    var router: Router, certificate, now, steps :|
      router.Valid() && Runs(Initial(router, certificate, now), steps, s);
    InitialInv(router, certificate, now);
    RunInv(Initial(router, certificate, now), steps, s);
  }

  /**
   Whatever a request is about to publish was computed from the bucket of its base generation itself: the
   base belongs to that bucket's configuration, and the clock was sampled after the bucket's own reading.
   */
  lemma NoFreshBucketAndNoRollback(s: State, r: nat)
    requires Reachable(s) && r < |s.requests| && s.requests[r].Computed?
    ensures var Computed(_, base, bucket, allowed, at) := s.requests[r];
            && base < |s.published|
            && s.published[base].bucket.config == s.published[base].router.limit
            && s.published[base].bucket.last <= at == bucket.last
  {
    ReachableInv(s);
    assert WellPlaced(s, r);
    ReserveExact(s.published[s.requests[r].base].bucket, s.requests[r].at);
  }

  /** A request goes uncharged only if a generation without a limit was current after it arrived. */
  lemma OnlyUnlimitedGoesUncharged(s: State, r: nat)
    requires Reachable(s) && r < |s.requests| && s.requests[r].Unlimited?
    ensures HasUnlimited(s.published, s.requests[r].server)
  {
    ReachableInv(s);
    assert WellPlaced(s, r);
  }

  /**
   A request that nothing else disturbs is decided in three steps: let through if the current generation has no
   limit, and otherwise charged one token, in nanotokens, to what its bucket has accrued by now.
   */
  lemma UndisturbedRequestIsDecided(s: State, r: nat)
    requires Reachable(s) && r < |s.requests| && s.requests[r].Arrived?
    ensures Enabled(s, LoadLatest(r))
    ensures s.current < |s.published| && Settled(s, r, s.published[s.current])
  {
    ReachableInv(s);
    assert WellPlaced(s, r) && WellPublished(s, s.current);
    var g := s.published[s.current];
    if g.router.limit.Some? {
      ReserveExact(g.bucket, s.now);
      assert g.bucket.last <= s.now;
    }
  }

  ghost predicate Settled(s: State, r: nat, g: Generation)
    requires r < |s.requests| && Enabled(s, LoadLatest(r))
  {
    var loaded := Apply(s, LoadLatest(r));
    if g.router.limit.None? then loaded.requests[r] == Unlimited(s.requests[r].server) && loaded.published == s.published
    else
      && r < |loaded.requests| && Enabled(loaded, Compute(r))
      && var computed := Apply(loaded, Compute(r));
         && r < |computed.requests| && Enabled(computed, CompareAndSwap(r))
         && var decided := Apply(computed, CompareAndSwap(r));
            var accrued := g.bucket.tokens + g.bucket.rate * (s.now - g.bucket.last);
            var balance := if accrued <= g.bucket.capacity then accrued else g.bucket.capacity;
            var allowed := balance >= 1_000_000_000;
            var bucket := g.bucket.(tokens := if allowed then balance - 1_000_000_000 else balance, last := s.now);
            && |decided.requests| == |s.requests|
            && decided.requests[r] == Decided(s.requests[r].server, |s.published|, allowed)
            && decided.published == s.published + [g.(bucket := bucket)]
  }

  // ----- What a request and a reload meet between their start and their end

  /** The request was served from `server` on, and the reading it is charged at was taken after it arrived. */
  ghost predicate Tracked(s: State, r: nat, server: nat, since: int) {
    && r < |s.requests| && s.requests[r].server == server && since <= s.now
    && (s.requests[r].Computed? ==> since <= s.requests[r].at)
    && (s.requests[r].Decided? ==>
          && s.requests[r].generation < |s.origins| && s.origins[s.requests[r].generation].Debited?
          && since <= s.origins[s.requests[r].generation].at)
  }

  lemma StepTracks(s: State, step: Step, r: nat, server: nat, since: int)
    requires Inv(s) && Enabled(s, step) && Tracked(s, r, server, since)
    ensures Tracked(Apply(s, step), r, server, since)
  {
  }

  lemma {:induction false} RunTracks(s: State, steps: seq<Step>, t: State, r: nat, server: nat, since: int)
    requires Inv(s) && Runs(s, steps, t) && Tracked(s, r, server, since)
    ensures Tracked(t, r, server, since)
    decreases |steps|
  {
    if |steps| > 0 {
      StepTracks(s, steps[0], r, server, since);
      StepInv(s, steps[0]);
      RunTracks(Apply(s, steps[0]), steps[1..], t, r, server, since);
    }
  }

  /**
   Over every run from its arrival on: a request is served by the generation that was current when it arrived, and
   if it is decided, the clock was read for its debit after that and not after its decision.
   */
  lemma ServedByTheCurrentChargedSince(s: State, steps: seq<Step>, t: State)
    requires Reachable(s) && Enabled(s, Arrive) && Runs(Apply(s, Arrive), steps, t)
    ensures var r := |s.requests|;
            && r < |t.requests| && t.requests[r].server == |s.published| - 1
            && (t.requests[r].Decided? ==>
                  && t.requests[r].generation < |t.origins| && t.origins[t.requests[r].generation].Debited?
                  && s.now <= t.origins[t.requests[r].generation].at <= t.now)
  {
    ReachableInv(s);
    var arrived := Apply(s, Arrive);
    StepInv(s, Arrive);
    RunTracks(arrived, steps, t, |s.requests|, s.current, s.now);
    RunInv(arrived, steps, t);
    if t.requests[|s.requests|].Decided? {
      assert WellPlaced(t, |s.requests|);
      assert WellPublished(t, t.requests[|s.requests|].generation);
    }
  }

  /** What a reload brings: the router's identity and limit, and the certificate. */
  ghost predicate Brings(router: Router, certificate: nat, given: Router, with_: nat) {
    router.id == given.id && router.limit == given.limit && certificate == with_
  }

  ghost predicate ReloadTracked(s: State, r: nat, given: Router, with_: nat, since: int) {
    && r < |s.reloads| && since <= s.now
    && match s.reloads[r]
       case Preparing(router, certificate) => Brings(router, certificate, given, with_)
       case Publishing(g, at) => Brings(g.router, g.certificate, given, with_) && since <= at
       case Published => exists k: nat :: PublishedReload(s, k, given, with_, since)
  }

  ghost predicate PublishedReload(s: State, k: nat, given: Router, with_: nat, since: int) {
    && k < |s.published| == |s.origins| && s.origins[k].Loaded? && since <= s.origins[k].at
    && Brings(s.published[k].router, s.published[k].certificate, given, with_)
    && s.published[k].bucket == NewBucket(given.limit, s.origins[k].at)
  }

  lemma StepTracksReload(s: State, step: Step, r: nat, given: Router, with_: nat, since: int)
    requires Inv(s) && Enabled(s, step) && ReloadTracked(s, r, given, with_, since)
    ensures ReloadTracked(Apply(s, step), r, given, with_, since)
  {
    var t := Apply(s, step);
    StepInv(s, step);
    if s.reloads[r].Published? {
      var k: nat :| PublishedReload(s, k, given, with_, since);
      assert PublishedReload(t, k, given, with_, since);
    } else if step == Swap(r) {
      assert WellPrepared(s, r);
      assert PublishedReload(t, |s.published|, given, with_, since);
    }
  }

  lemma {:induction false} RunTracksReload(s: State, steps: seq<Step>, t: State, r: nat, given: Router, with_: nat, since: int)
    requires Inv(s) && Runs(s, steps, t) && ReloadTracked(s, r, given, with_, since)
    ensures ReloadTracked(t, r, given, with_, since)
    decreases |steps|
  {
    if |steps| > 0 {
      StepTracksReload(s, steps[0], r, given, with_, since);
      StepInv(s, steps[0]);
      RunTracksReload(Apply(s, steps[0]), steps[1..], t, r, given, with_, since);
    }
  }

  /** Over every run from its beginning on: a finished reload has published its router and certificate, with a full bucket. */
  lemma ReloadPublishesWhatItBrings(s: State, router: Router, certificate: nat, steps: seq<Step>, t: State)
    requires Reachable(s) && router.Valid() && Enabled(s, BeginReload(router, certificate))
    requires Runs(Apply(s, BeginReload(router, certificate)), steps, t)
    ensures |s.reloads| < |t.reloads|
    ensures t.reloads[|s.reloads|].Published? ==> exists k: nat :: PublishedReload(t, k, router, certificate, s.now)
  {
    ReachableInv(s);
    StepInv(s, BeginReload(router, certificate));
    RunTracksReload(Apply(s, BeginReload(router, certificate)), steps, t, |s.reloads|, router, certificate, s.now);
  }

  /** A request is never charged to a generation older than the one that serves it. */
  lemma ChargedNoEarlierThanServed(s: State, r: nat)
    requires Reachable(s) && r < |s.requests|
    ensures var q := s.requests[r];
            && q.server < |s.published|
            && (q.Holding? || q.Computed? ==> q.server <= q.base < |s.published|)
            && (q.Decided? ==> q.server < q.generation < |s.published|)
  {
    ReachableInv(s);
    assert WellPlaced(s, r);
  }

  /** A compare-and-swap fails exactly when another generation has been published since the base was loaded. */
  lemma SwapFailsExactlyWhenOvertaken(s: State, r: nat)
    requires Reachable(s) && r < |s.requests| && s.requests[r].Computed?
    ensures Enabled(s, CompareAndSwap(r))
    ensures Apply(s, CompareAndSwap(r)).requests[r].Failed? <==> s.requests[r].base + 1 < |s.published|
  {
    ReachableInv(s);
    assert WellPlaced(s, r);
  }

  /** Decisions and debits are in one-to-one correspondence, with the same verdict. */
  lemma OneDebitPerDecision(s: State)
    requires Reachable(s)
    ensures |s.origins| == |s.published|
    ensures forall r | 0 <= r < |s.requests| && s.requests[r].Decided? ::
              && s.requests[r].generation < |s.origins|
              && var o := s.origins[s.requests[r].generation];
                 o.Debited? && o.request == r && o.allowed == s.requests[r].allowed
    ensures forall k | 0 <= k < |s.origins| && s.origins[k].Debited? ::
              && s.origins[k].request < |s.requests|
              && var q := s.requests[s.origins[k].request];
                 q.Decided? && q.generation == k && q.allowed == s.origins[k].allowed
  {
    ReachableInv(s);
    forall r: nat | r < |s.requests| && s.requests[r].Decided?
      ensures var k := s.requests[r].generation;
              k < |s.origins| && s.origins[k].Debited? && s.origins[k].request == r && s.origins[k].allowed == s.requests[r].allowed
    {
      assert WellPlaced(s, r);
      assert WellPublished(s, s.requests[r].generation);
    }
    forall k: nat | k < |s.origins| && s.origins[k].Debited?
      ensures s.origins[k].request < |s.requests|
      ensures var q := s.requests[s.origins[k].request]; q.Decided? && q.generation == k && q.allowed == s.origins[k].allowed
    {
      assert WellPublished(s, k);
    }
  }

  /** The last generation at or before `k` that a start or a reload published. */
  function LastLoad(origins: seq<Origin>, k: nat): (l: nat)
    requires k < |origins|
    ensures l <= k
    ensures forall j | l < j <= k :: origins[j].Debited?
  {
    if k == 0 || origins[k].Loaded? then k else LastLoad(origins, k - 1)
  }

  lemma {:induction false} LastLoadIsLoaded(s: State, k: nat)
    requires Inv(s) && k < |s.origins|
    ensures s.origins[LastLoad(s.origins, k)].Loaded?
  {
    assert WellPublished(s, k);
    if !s.origins[k].Loaded? {
      LastLoadIsLoaded(s, k - 1);
    }
  }

  /** What has been published stays published, in the same order. */
  lemma {:induction false} HistoryGrows(s: State, steps: seq<Step>, t: State)
    requires Runs(s, steps, t)
    ensures s.published <= t.published && s.origins <= t.origins
    decreases |steps|
  {
    if |steps| > 0 {
      HistoryGrows(Apply(s, steps[0]), steps[1..], t);
    }
  }

  // ----- The traffic envelope, over every interleaving

  /** How many of the generations in `(l, k]` were published by an admitted request. */
  function Admissions(origins: seq<Origin>, l: nat, k: nat): nat
    requires l <= k < |origins|
  {
    if k == l then 0
    else Admissions(origins, l, k - 1) + if Admits(origins[k]) then 1 else 0
  }

  predicate Admits(o: Origin) { o.Debited? && o.allowed }

  /** The generations from `l` to `k` as buckets, the readings that led from each to the next, and the verdicts. */
  function Buckets(s: State, l: nat, k: nat): (buckets: seq<Bucket>)
    requires l <= k < |s.published|
  {
    seq(k - l + 1, (j: nat) requires j <= k - l => s.published[l + j].bucket)
  }

  function Times(s: State, l: nat, k: nat): (times: seq<int>)
    requires l <= k < |s.origins|
  {
    seq(k - l, (j: nat) requires j < k - l => s.origins[l + 1 + j].at)
  }

  function Verdicts(s: State, l: nat, k: nat): (verdicts: seq<bool>)
    requires l <= k < |s.origins|
  {
    seq(k - l, (j: nat) requires j < k - l => Admits(s.origins[l + 1 + j]))
  }

  lemma {:induction false} AdmissionsCounted(s: State, l: nat, j: nat, k: nat)
    requires l <= j <= k < |s.origins|
    ensures CountTrue(Verdicts(s, l, k), j - l) == Admissions(s.origins, l, j)
  {
    if j > l {
      AdmissionsCounted(s, l, j - 1, k);
    }
  }

  lemma {:induction false} AdmissionsSplit(origins: seq<Origin>, l: nat, j: nat, k: nat)
    requires l <= j <= k < |origins|
    ensures Admissions(origins, l, k) == Admissions(origins, l, j) + Admissions(origins, j, k)
  {
    if k > j {
      AdmissionsSplit(origins, l, j, k - 1);
    }
  }

  /** What a limited debit leaves behind it. */
  lemma DebitedFrom(s: State, k: nat)
    requires Inv(s) && k < |s.origins| && s.origins[k].Debited?
    ensures k > 0 && s.published[k - 1].router.limit.Some? && s.published[k].router == s.published[k - 1].router
    ensures s.published[k].bucket.Valid() && s.published[k - 1].bucket.Valid()
    ensures Debit(s.published[k - 1].bucket, s.origins[k].at, s.published[k].bucket, Admits(s.origins[k]))
  {
    assert WellPublished(s, k);
  }

  lemma DebitsChain(s: State, l: nat, k: nat)
    requires Inv(s) && l < k < |s.origins|
    requires forall j | l < j <= k :: s.origins[j].Debited?
    ensures Chain(Buckets(s, l, k), Times(s, l, k), Verdicts(s, l, k))
  {
    var buckets, times, verdicts := Buckets(s, l, k), Times(s, l, k), Verdicts(s, l, k);
    forall j | 0 <= j < |times|
      ensures Debit(buckets[j], times[j], buckets[j + 1], verdicts[j])
    {
      DebitedFrom(s, l + 1 + j);
    }
    forall j | 0 <= j < |buckets|
      ensures buckets[j].Valid()
    {
      DebitedFrom(s, if j == 0 then l + 1 else l + j);
    }
  }

  /** The debits since a load form a chain that starts from a full bucket. */
  lemma DebitsAreAChain(s: State, k: nat)
    requires Inv(s) && k < |s.origins| && LastLoad(s.origins, k) < k
    ensures var l := LastLoad(s.origins, k);
            && Chain(Buckets(s, l, k), Times(s, l, k), Verdicts(s, l, k))
            && s.published[k].router.limit.Some? && s.published[l].router == s.published[k].router
            && s.published[l].bucket == NewBucket(s.published[k].router.limit, s.published[l].bucket.last)
  {
    var l := LastLoad(s.origins, k);
    DebitsChain(s, l, k);
    LastLoadIsLoaded(s, k);
    SameRouter(s, k);
    DebitedFrom(s, k);
    assert WellPublished(s, l);
  }

  lemma {:induction false} SameRouter(s: State, k: nat)
    requires Inv(s) && k < |s.published|
    ensures var l := LastLoad(s.origins, k);
            s.published[k].router == s.published[l].router && s.published[k].certificate == s.published[l].certificate
    decreases k
  {
    assert WellPublished(s, k);
    if !s.origins[k].Loaded? {
      SameRouter(s, k - 1);
    }
  }

  /** An admission never brings back what a reload replaced: the router and the certificate are the last ones loaded. */
  lemma NeverResurrected(s: State, k: nat)
    requires Reachable(s) && k < |s.published|
    ensures k < |s.origins| && var l := LastLoad(s.origins, k);
            && s.origins[l].Loaded?
            && s.published[k].router == s.published[l].router && s.published[k].certificate == s.published[l].certificate
  {
    ReachableInv(s);
    LastLoadIsLoaded(s, k);
    SameRouter(s, k);
  }

  /** The envelope of a limit between two published generations. */
  function LimitEnvelope(s: State, limit: LimitConfig, i: nat, k: nat): int
    requires i <= k < |s.published|
  {
    limit.burst * NANOTOKENS_PER_TOKEN + limit.rate * (s.published[k].bucket.last - s.published[i].bucket.last)
  }

  /**
   However requests and reloads interleave: the admissions published from generation `i` to generation `k`,
   with no reload in between, stay within the capacity plus what accrued between the two.
   */
  lemma EnvelopeOverEveryInterleaving(s: State, i: nat, k: nat)
    requires Reachable(s) && i <= k < |s.published| == |s.origins| && LastLoad(s.origins, k) < i
    ensures s.published[k].router.limit.Some?
    ensures NANOTOKENS_PER_TOKEN * Admissions(s.origins, i - 1, k) <= LimitEnvelope(s, s.published[k].router.limit.value, i, k)
  {
    ReachableInv(s);
    var l := LastLoad(s.origins, k);
    DebitsAreAChain(s, k);
    ChainWithinEnvelope(Buckets(s, l, k), Times(s, l, k), Verdicts(s, l, k), i - 1 - l, k - l - 1);
    AdmissionsCounted(s, l, i - 1, k);
    AdmissionsCounted(s, l, k, k);
    AdmissionsSplit(s.origins, l, i - 1, k);
  }

  /** The request that published `k` still fits into the window that starts with generation `i`. */
  ghost predicate RunWindowFits(s: State, limit: LimitConfig, i: nat, k: nat) {
    && 0 < i <= k < |s.published| == |s.origins|
    && NANOTOKENS_PER_TOKEN * (Admissions(s.origins, i - 1, k - 1) + 1) <= LimitEnvelope(s, limit, i, k)
  }

  lemma RunWindow(s: State, l: nat, i: nat, k: nat, limit: LimitConfig)
    requires l < i <= k < |s.published| == |s.origins|
    requires s.published[l].bucket == NewBucket(Some(limit), s.published[l].bucket.last)
    ensures RunWindowFits(s, limit, i, k) <==> ChainWindowFits(Buckets(s, l, k), Verdicts(s, l, k), i - 1 - l, k - l - 1)
  {
    AdmissionsCounted(s, l, i - 1, k);
    AdmissionsCounted(s, l, k - 1, k);
    AdmissionsSplit(s.origins, l, i - 1, k - 1);
  }

  /**
   And nothing is denied needlessly: the request that published generation `k` was admitted exactly when,
   counting it, every window since the last load that ends with it fits.
   */
  lemma AdmittedExactlyWhenItFitsTheRun(s: State, k: nat)
    requires Reachable(s) && k < |s.published| == |s.origins| && s.origins[k].Debited?
    ensures s.published[k].router.limit.Some?
    ensures s.origins[k].allowed <==>
            forall i: nat | LastLoad(s.origins, k) < i <= k :: RunWindowFits(s, s.published[k].router.limit.value, i, k)
  {
    ReachableInv(s);
    var l := LastLoad(s.origins, k);
    LastLoadIsLoaded(s, k);
    DebitsAreAChain(s, k);
    ChainAdmitsWhatFits(Buckets(s, l, k), Times(s, l, k), Verdicts(s, l, k), k - l - 1);
    assert Verdicts(s, l, k)[k - l - 1] == Admits(s.origins[k]);
    WindowsMatch(s, l, k, k - l - 1, s.published[k].router.limit.value, Buckets(s, l, k), Verdicts(s, l, k));
  }

  lemma WindowsMatch(s: State, l: nat, k: nat, m: nat, limit: LimitConfig, buckets: seq<Bucket>, verdicts: seq<bool>)
    requires l < k < |s.published| == |s.origins| && m == k - l - 1
    requires buckets == Buckets(s, l, k) && verdicts == Verdicts(s, l, k)
    requires s.published[l].bucket == NewBucket(Some(limit), s.published[l].bucket.last)
    ensures (forall i: nat | l < i <= k :: RunWindowFits(s, limit, i, k)) <==>
            (forall j: nat | j <= m :: ChainWindowFits(buckets, verdicts, j, m))
  {
    forall i: nat | l < i <= k
      ensures RunWindowFits(s, limit, i, k) <==> ChainWindowFits(buckets, verdicts, i - 1 - l, m)
    {
      RunWindow(s, l, i, k, limit);
    }
    if forall i: nat | l < i <= k :: RunWindowFits(s, limit, i, k) {
      forall j: nat | j <= m ensures ChainWindowFits(buckets, verdicts, j, m) {
        assert RunWindowFits(s, limit, j + 1 + l, k);
      }
    }
  }
}
