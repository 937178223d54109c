# Kubio verification project

Kubio is a single-process HTTP reverse proxy. This project models the algorithms and state machines behind its
request path and proves their promises for every input, every run and every interleaving:

* **Target selection** (`TargetSchedule`, `TargetHealth`, `ClaimCycles`, `WeightedWrap`, `TargetSelection`,
  `ScanInterference`): the smooth weighted round-robin schedule, the 64-bit slot cursor and its wrap, passive and active health with lazy expiry
  and retirement, the health-aware scan under interference, and the retry target order.
* **Retries** (`RetryEngine`, `RetryBudget`, `SharedBudget`, `Backoff`, `RetryBody`, `Contexts`): the attempt loops against an
  adversarial transport, context and budget, from the buffering of the body to its release; the fixed-window budget and all requests that share it; the
  64-bit backoff table; the bounded replay buffer against any reader.
* **Rate limit and reload** (`TokenBucket`, `Generations`, `UnboundLimiter`): the saturating token bucket, the lock-free
  admission and reload over one published generation pointer, and the limiter that has only its own state.
* **Routing** (`Routes`, `Hosts`, `RawPath`, `ClientAddress`, `HeaderNames`): indexed route and site lookup against
  their linear definitions, rewriting and stripping of percent-encoded paths, and the effective client address.
* **Bodies, headers, configuration** (`DirectBody`, `ResponseHeaders`, `Environment`): the finalise-once timed body,
  the response header policies, and environment-variable expansion.

`Prelude` and `Arithmetic` hold shared result types and multiplication and division facts.
`dafny verify dfyconfig.toml` checks everything.

## How the model is built

* What the source updates in place is a class or an array (health state, cursor, schedule scores, request and header
  objects, budget window, timed body, route and host indexes). Its methods are proved against a function of the old
  state or against an independent definition. Atomic and locked sections become the steps of a state machine
  (`Generations`, `UnboundLimiter`, `DirectBody`). What concurrent requests do between two steps of a method is a
  parameter of it: their claims, and the health state they leave.
* Clock readings, context ends, transport outcomes, budget answers, jitter, reader results and parse results are
  parameters, arbitrary unless a clause says otherwise. A context is a sticky end that becomes visible from some sample on
  (`Contexts`). A clock is only assumed not to go back where a clause says so.
* Machine widths are explicit where they matter: the cursor wraps at 2^64, token arithmetic saturates at 2^63 - 1,
  backoff durations are a 64-bit type whose every operation is checked.
* Configuration limits that validation enforces are preconditions: `1 <= tries <= targets`, rate and burst in
  1..1000000, `0 < base <= cap`, `fail >= 1`, positive windows, and weights in 1..1000 that sum to at most 10000 (the last
  is itself proved of `ValidateTargetWeights`).

## Where the code and its documentation differ

The model follows the code.

* Retry deadline: `docs/specs/v0.14.txt` section 4 returns the transport error after a refused reservation.
  `RoundTrip` samples the context once more after the loop (`proxy.go:837-844`), so if the deadline passes in between, the
  context's error takes its place, also after a refusal. `RetryEngine.Run.RoundTrip` states exactly when, and
  `RetryEngine.DeadlineReplacesARefusal` is a run in which it happens.
* Health-aware scan: with concurrent claims in between, the scan can return an ejected target although another one is
  eligible (`ScanInterference.DisturbedScanCanMiss`). Over any health state it finds an eligible target if and only if its
  checks cover every slot (`FindsExactlyWhenCovered`), which for plain round-robin over `n` targets is a condition on the
  claims of others alone: the partial sums of `others[t] + 1` are distinct modulo `n` (`RoundRobinScanIsExact`).
* Round-robin across the cursor's wrap: without weights exact if and only if the number of targets divides 2^64
  (`ClaimCycles.RoundRobinAcrossTheWrap`; `WeightedWrap.ThreeTargetsMissOne` is a cycle over three targets that misses one).
  With weights `g * u`, where `u` has no common factor, exact if and only if the sum of `u` divides 2^64
  (`WeightedWrap.WrapExactInTheWeights`; `WeightedWrap.TwoToOneFails` for weights 2 and 1).
* Expansion: a doubled backslash collapses to one (`config.go:1928-1931`). `docs/specs/v0.1.txt` describes only the
  escape before an opening `${`. Text without `${` is literal if and only if no two backslashes are adjacent in it
  (`Environment.LiteralWithoutReferences`, with the shortest exception in `Environment.DoubledBackslashCollapses`). The
  quoting that inverts expansion therefore doubles backslashes.

## Model

| member | source | states |
|---|---|---|
| TargetSchedule.ValidateTargetWeights | proxy.go:509-527 | Weights are accepted iff there is one in 1..1000 for each target and they sum to at most 10000; an error names the first item that breaks the range or the sum. |
| TargetSchedule.BuildTargetSchedule | proxy.go:529-548 | The in-place score loop yields a cycle of length W in which every slot goes to the lowest target that lags its ideal share the most; exact counts, the prefix bound, and rotation for equal weights follow for its result. |
| TargetSchedule.NeverAFullSlotAhead | proxy.go:529-548 | For any positive weights and any number of slots, every target's score stays above -W. |
| TargetSchedule.PrefixShare | proxy.go:529-548 | Every prefix of length k gives target i fewer than k*w_i/W + 1 slots. |
| TargetSchedule.ExactShares | proxy.go:529-548 | One full cycle gives target i exactly w_i slots and returns every score to zero. |
| TargetSchedule.SmoothUnique | proxy.go:529-548 | Weights and length determine the schedule. |
| TargetSchedule.EqualWeightsRotate | proxy.go:529-548 | With equal weights slot k is target k mod n. |
| TargetHealth.BackendHealth.Available | proxy.go:100-114 | A check answers whether the deadline has passed, forgets a passed deadline together with the failures, and changes nothing when it answers no. |
| TargetHealth.BackendHealth.Observe | proxy.go:116-128 | Any response resets the target, an error of an ended attempt changes nothing, any other error is one failure; no other target changes. |
| TargetHealth.BackendHealth.ObserveProbe | proxy.go:130-142 | A probe of a cancelled or retired generation changes nothing; a timed-out or unhealthy probe is a failure. |
| TargetHealth.BackendHealth.ObserveFailure | proxy.go:144-159 | A failure while ejected prolongs the deadline by one cool; otherwise it counts, from one again after an expiry, and the fail-th one ejects for one cool from now. |
| TargetHealth.BackendHealth.Reset | proxy.go:161-164 | Exactly this target becomes healthy. |
| TargetHealth.RunsStaySound | proxy.go:144-159 | Over every run 0 <= failures < fail, and an ejected target has no failures on record. |
| TargetHealth.RunRefines | proxy.go:100-159 | Over every run with a clock that does not go back, the stored state with lazy expiry represents a reference record of ejection time and later failures, and a check answers what the reference says. |
| TargetHealth.ChecksArePure | proxy.go:100-114 | Inserting or deleting eligibility checks anywhere changes no later check and no later failure. |
| TargetHealth.SilentHappeningsDoNotCount | proxy.go:124-136 | Over every run, deleting the errors of attempts whose own context has ended, and the probes of a cancelled generation, changes neither the target nor any check. |
| TargetHealth.ResponsesHeal | proxy.go:116-142 | After any run, an attempt with a response, even a 1xx one, or without an error leaves the target without failures and deadline, and so does a healthy probe that is in time. |
| TargetHealth.FailuresCount | proxy.go:124-142 | After any run, the error of a live attempt without a response is one failure at its reading, and so is a late or unhealthy probe. |
| TargetHealth.EjectedAtTheThreshold | proxy.go:144-159 | Over every run, counting from the last response or expiry: the target is ejected iff the failures reach the threshold, since the fail-th of them, and every later one is remembered. |
| TargetHealth.StoredDeadline | proxy.go:144-159 | Over every run with a clock that does not go back, a check says no exactly until ejection time + (1 + later failures) * cool, which is the stored deadline. |
| TargetHealth.StretchIs | proxy.go:144-159 | What is counted are the failures since the last response, or since the first one that found an ejection over; each one after the fail-th came while the ejection was running. |
| TargetHealth.ExpiryRestarts | proxy.go:149-154 | The first failure after an ejection has ended starts from nothing; until then the ejection is remembered. |
| TargetHealth.ResponseRestarts | proxy.go:116-123 | Everything before a response is forgotten, so the count starts again. |
| TargetHealth.LiveIsRun | proxy.go:116-142 | A run of checks, attempts, probes and a retirement is a run of responses and failures, so all of the above holds of it. |
| TargetHealth.BackendHealth.PerformAll | proxy.go:100-164 | The critical sections, carried out one after the other in any order, with probes and a retirement among them, leave the target and answer as that run says, and touch no other target. |
| TargetHealth.RetirementSilencesProbes | proxy.go:134-136 | Over every run: after the retirement of router.go:179-183, deleting the probes changes neither the target nor any check, and only checks and attempts in flight still count. |
| TargetSelection.Backend.NextScheduledTargetIndex | proxy.go:708-725 | One atomic claim returns the claimed slot's target and advances the cursor, from 2^64 - 1 to 0; a single slot leaves it alone. |
| TargetSelection.Backend.NextTargetIndex | proxy.go:727-733 | Without health the claimed target; with health the result of the scan that starts from it. |
| TargetSelection.Backend.NextHealthyTargetIndex | proxy.go:735-751 | With arbitrary concurrent claims and health changes before each check, the scan stops at its first eligible target (forgetting its passed deadline) and otherwise returns the first claimed one, health untouched. |
| TargetSelection.Backend.RetryTargetIndex | proxy.go:753-769 | With arbitrary concurrent health changes, the first eligible target in cyclic order from start + attempt, or that target itself; the cursor does not move. |
| TargetSelection.RetryScanMeans | proxy.go:753-769 | The result is the first of the targets (start + attempt + j) mod n that has no deadline, or a passed one, at its own check, and no other target changes; if none of the n is free it is (start + attempt) mod n. |
| ClaimCycles.CycleCount | proxy.go:708-725 | Any full cycle of consecutive claims, from any claim on, meets a target as often as the schedule holds it. |
| ClaimCycles.CycleFollowsWeights | proxy.go:708-725 | Without a wrap, a full cycle of machine claims meets target i exactly w_i times. |
| ClaimCycles.RoundRobinAcrossTheWrap | proxy.go:718-724 | Unweighted cycles meet every target across the wrap too iff n divides 2^64. |
| ClaimCycles.WeightedAcrossTheWrap | proxy.go:718-724 | Every cycle of a weighted schedule keeps every count across the wrap iff 2^64 is a period of the claims. |
| ClaimCycles.WeightedWrapExact | proxy.go:718-724 | That is, iff the least period of the schedule, which always exists, divides 2^64. |
| ClaimCycles.SomeLeastPeriod | proxy.go:718-724 | Every schedule has a least period. |
| WeightedWrap.WrapExactInTheWeights | proxy.go:529-548 | For weights g * u, u without a common factor, the schedule repeats itself every sum(u) slots and no more often, and stays exact across the wrap iff sum(u) divides 2^64. |
| WeightedWrap.ReducedForm | proxy.go:509-527 | Every positive weights have such a form. |
| WeightedWrap.ThreeTargetsMissOne | proxy.go:718-724 | Over three targets the cycle that begins with the last counter value misses one. |
| WeightedWrap.TwoToOneFails | proxy.go:718-724 | No schedule of the weights 2 and 1 keeps its counts across the wrap. |
| ClaimCycles.EqualWeightsKeepRoundRobin | proxy.go:708-725 | Equal weights select as no weights do. |
| ScanInterference.ScanFinds | proxy.go:735-751 | A scan that no other claim disturbs returns the first target, slot by slot from its first claim, that was eligible at its own check, whenever some target with a slot stays eligible, whatever happens to the others. |
| ScanInterference.ScanExhausts | proxy.go:735-751 | If no check can succeed, it returns the first claimed target after exactly one whole cycle and leaves the health state as it found it. |
| ScanInterference.DisturbedScanCanMiss | proxy.go:744-750 | One foreign claim during a scan over two targets is an interference that makes it miss the only eligible one. |
| ScanInterference.FindsExactlyWhenCovered | proxy.go:735-751 | Over any health state and clock, the scan finds an eligible target iff its checks, the claims of others in between, look at the target of every slot. |
| ScanInterference.RoundRobinScanIsExact | proxy.go:735-751 | Without weights this is a condition on the claims of others alone: the sums of others[t] + 1 are distinct modulo n. |
| ScanInterference.EligibleStays | proxy.go:100-114 | Without health changes and with a clock that does not go back, a target eligible at the first check is eligible at every later one. |
| TargetSelection.RetryTargetsDistinct | proxy.go:753-757 | Without health, attempts below tries <= targets go to pairwise distinct targets. |
| TokenBucket.SaturatingAdd | rate_limit.go:156-161 | The int64 sum is the unbounded one limited at 2^63 - 1. |
| TokenBucket.SaturatingMultiply | rate_limit.go:163-171 | The int64 product is the unbounded one limited at 2^63 - 1, and 0 for non-positive operands. |
| TokenBucket.ReserveExact | rate_limit.go:132-154 | The saturating refill equals min(capacity, tokens + elapsed * rate) without bounds; the debit follows the verdict, and a reading in the past refills nothing and does not move the clock. |
| TokenBucket.FreshBucketAdmits | rate_limit.go:133-137 | Another configuration's bucket is replaced by a full one that has paid for this request. |
| TokenBucket.AdmissionsWithinEnvelope | rate_limit.go:132-154 | For any clock readings, admissions among requests i..j times 10^9 never exceed capacity + rate * (last_j - last_i). |
| TokenBucket.EnvelopeInTokens | rate_limit.go:132-154 | With a clock that does not go back: burst tokens at once and rate tokens for each 10^9 ns between the two requests. |
| TokenBucket.ClockIsTheLatest | rate_limit.go:140-147 | The bucket's clock is the latest reading so far: one of the readings or its own, and no earlier than any of them. |
| TokenBucket.AdmittedExactlyWhenItFits | rate_limit.go:132-154 | From a full bucket, a request is admitted iff every window that ends with it still fits the envelope. |
| TokenBucket.ConformingTrafficIsAdmitted | rate_limit.go:132-154 | From a full bucket, an arrival sequence is admitted in full iff every one of its windows fits. |
| TokenBucket.SteadyClock | rate_limit.go:140-147 | With a clock that does not go back, the bucket's clock is the request's own reading. |
| Generations.StepInv | rate_limit.go:79-104 | Every atomic step of admission and reload keeps the invariant of generations, requests and reloads. |
| Generations.RunInv | rate_limit.go:79-104 | So does every interleaving. |
| Generations.ComputeIsPossible | rate_limit.go:93 | A held generation can always be charged. |
| Generations.NoFreshBucketAndNoRollback | rate_limit.go:86-104 | In every reachable state a computed debit comes from its base generation's own configuration, with a reading not before that bucket's: neither the fresh-bucket nor the rollback branch occurs. |
| Generations.ChargedNoEarlierThanServed | main.go:89-119 | In every reachable state the generation a request is charged to is never older than the one that serves it. |
| Generations.SwapFailsExactlyWhenOvertaken | rate_limit.go:99-103 | A compare-and-swap fails iff another generation has been published since its base. |
| Generations.OneDebitPerDecision | rate_limit.go:93-101 | Decisions and published debits correspond one to one, with the same verdict. |
| Generations.OnlyUnlimitedGoesUncharged | main.go:109-117 | In every reachable state, a request that was not charged has met a generation without a limit, published at or after the one that serves it. |
| Generations.UndisturbedRequestIsDecided | rate_limit.go:79-104 | A request that nothing disturbs is let through if the current generation has no limit; otherwise three steps decide it, and its verdict and the published bucket are those of one token, 10^9 nanotokens, charged to min(capacity, tokens + rate * elapsed). |
| Generations.ServedByTheCurrentChargedSince | main.go:89-119 | Over every run from its arrival on, a request is served by the generation that was current then, and its debit reads the clock between its arrival and its decision. |
| Generations.ReloadPublishesWhatItBrings | main.go:137-154 | Over every run from its beginning on, a finished reload has published its router and certificate, with a full bucket of a later reading. |
| Generations.NeverResurrected | main.go:137-154 | An admission never republishes a router or certificate that a reload has replaced. |
| Generations.HistoryGrows | rate_limit.go:100-102 | What was published stays published, in the same order. |
| Generations.EnvelopeOverEveryInterleaving | rate_limit.go:79-104 | However requests and reloads interleave, admissions published between two generations without a reload stay within the envelope. |
| Generations.AdmittedExactlyWhenItFitsTheRun | rate_limit.go:79-104 | A decided request was admitted iff every window since the last load that ends with it fits. |
| UnboundLimiter.StepInv | rate_limit.go:118-130 | Every step of the unbound compare-and-swap loop keeps what is published a chain of single debits from a full bucket. |
| UnboundLimiter.FirstDebit | rate_limit.go:121-126 | A limiter without a bucket serves its first request as if a full one had been there. |
| UnboundLimiter.OneBucketPerDecision | rate_limit.go:118-130 | Its decisions and published buckets correspond one to one, with the same verdict. |
| UnboundLimiter.UndisturbedRequestIsDecided | rate_limit.go:118-130 | A request that nothing disturbs is decided by one token, 10^9 nanotokens, charged to what the bucket has accrued, or to a full one if there is none. |
| UnboundLimiter.EnvelopeOverEveryInterleaving | rate_limit.go:118-154 | Over every interleaving and any clock readings, also backwards, admissions stay within the envelope and each verdict is exact. |
| ClientAddress.NormalizedMembers | router.go:502-510 | Normalising a mapped prefix of length >= 96 keeps exactly the mapped members (section 2.5.5.2 of RFC 4291). |
| ClientAddress.NormalizedElsewhere | router.go:502-510 | Every other prefix keeps its members, and an IPv6 one still holds no IPv4 address. |
| ClientAddress.UnmapMeans | router.go:502-510 | Exactly ::ffff:0:0 to ::ffff:ffff:ffff are mapped, each to its IPv4 address; other addresses stay. |
| ClientAddress.ContainsIsARange | router.go:796-810 | A prefix holds exactly the addresses of its family in its own aligned block of 2^(width - length). |
| ClientAddress.TrustMeans | proxy.go:1504-1512 | An IPv4 address is trusted iff a prefix contains it, and its mapped form exactly when it is. |
| ClientAddress.IsTrustedProxy | proxy.go:1504-1512 | Trusted iff some prefix contains the unmapped address. |
| ClientAddress.EffectiveClientIP | router.go:512-543 | The right-to-left scan returns the rightmost untrusted address with only trusted ones after it; nothing for a malformed list or when all are trusted; the peer itself if untrusted. |
| ClientAddress.ClientUnique | router.go:512-543 | That definition determines the client. |
| ClientAddress.NoClientFromBadHeaders | router.go:523-535 | Behind a trusted peer, one malformed or zoned entry anywhere leaves no client, and so does a missing header. |
| ClientAddress.ClientAmongEntries | router.go:537-543 | Behind a trusted peer, with well-formed entries only, the client is the last entry that is not trusted, and there is none iff all are trusted. |
| ClientAddress.UntrustedPeerDecides | router.go:519-522 | No header changes the client of an untrusted peer. |
| ClientAddress.PrependedEntriesAreIgnored | router.go:512-543 | Once a client is found, prepending any well-formed entries, in a value of their own or in the first value, leaves it unchanged. |
| Routes.RouteMatchState.Matches | router.go:768-794 | Memoised evaluation answers what evaluation from scratch does, and keeps its caches sound. |
| Routes.RouteMatchState.MatchesClientIP | router.go:796-810 | The memoised client answers membership of the effective client. |
| Routes.BetterRouteIsAStrictTotalOrder | router.go:894-910 | The priority is irreflexive, total and transitive over the declared routes. |
| Routes.WinnerUnique | router.go:894-910 | At most one route is the winner. |
| Routes.WinnerPriority | router.go:894-926 | Field by field, against any other eligible route: the winner is exact if any is; at equal kind no shallower; at equal depth with no fewer conditions; at equal conditions with no more alternatives; and otherwise declared later. |
| Routes.PatternMeans | router.go:965-973 | An exact pattern matches its own path only; a wildcard one its path and everything below it at a slash, but nothing that only starts alike. |
| Routes.MethodsNarrow | router.go:847-860 | A method list narrows a route to the requests with one of its methods. |
| Routes.HeaderNarrows | router.go:812-845 | One more header condition narrows a route to the requests with one of its values under that name in any case, and Host to the request host. |
| Routes.QueryNarrows | router.go:777-793 | One more query condition narrows a route to the requests whose query parses and holds one of its values. |
| Routes.NetworksNarrow | router.go:796-810 | A list of networks narrows a route to the requests whose effective client is in one of them. |
| Routes.Site.BuildRouteIndex | router.go:688-699 | Each index lists, for every path, exactly the routes with that pattern. |
| Routes.WildcardMatches | router.go:965-973 | The wildcard patterns that match a path are the root, the prefixes before a slash and the path itself, and no others. |
| Routes.Site.Consider | router.go:721-729 | One bucket of an index: the best candidate so far stays the best of all considered. |
| Routes.Site.ScanRoutes | router.go:704-719 | The linear scan finds the winner. |
| Routes.Site.SelectWildcard | router.go:735-765 | The wildcard lookups find the winner when no exact route is eligible. |
| Routes.Site.SelectRoute | router.go:701-766 | Indexed or not, selection finds the best of all routes that match the path and are eligible. |
| Hosts.BestHostMatch | router.go:1190-1204 | The best score among a site's patterns. |
| Hosts.WildcardSuffix | router.go:1213-1231 | A host determines the one suffix that a wildcard can match: what follows its first dot. |
| Hosts.MatchKinds | router.go:1213-1231 | Score by score, a pattern matches exactly as an exact host, as the wildcard of that suffix or as the star. |
| Hosts.Router.constructor | router.go:149-166 | The host maps hold the first declaration of every exact host, wildcard suffix and star. |
| Hosts.Router.SelectSite | router.go:873-892 | For every host, map lookup selects the earliest site whose best score is the best of all. |
| Hosts.SelectedUnique | router.go:873-892 | That site is determined. |
| Hosts.HostPriority | router.go:873-892 | It is the first site that declares the host itself, else the first with the wildcard of what follows its first dot, else the first with the star. |
| RawPath.StripEscapedPathPrefix | router.go:1053-1070 | The index loop computes the encoding after the bytes that decode to the prefix. |
| RawPath.StrippedSplits | router.go:1053-1070 | Stripping succeeds iff the encoding splits into one of the prefix and a rest, and returns that rest. |
| RawPath.StrippedExactly | router.go:1053-1070 | Whatever encodes the prefix, and whatever follows it: stripping leaves exactly what follows. |
| RawPath.HexDigitMeans | router.go:1090-1101 | The hexadecimal digits are the sixteen of either case, with their values. |
| RawPath.StripDecodes | router.go:1053-1088 | If the encoding is one of the path, stripping any prefix of the path succeeds and the rest decodes to the remaining path. |
| RawPath.ValidRawPathMeans | router.go:1042-1051 | A raw path is valid iff it is non-empty, validly escaped and decodes to the path. |
| RawPath.DecodeEscape | router.go:954-956 | Decoding undoes escaping. |
| RawPath.CandidateValid | router.go:1019-1040 | A non-empty rewritten encoding is always valid for the rewritten path, and it is empty only for a root wildcard with nothing left. |
| RawPath.RewriteRawPath | router.go:1019-1040 | Keeps the encoding whenever there was a valid one. |
| RawPath.RewriteProxyPath | router.go:1001-1017 | The new path, and a raw path that is either valid for it or absent, absent exactly when the incoming one was invalid or nothing is left to write. |
| RawPath.RewriteReplacesThePrefix | router.go:1001-1040 | From a wildcard source, the destination's prefix takes the place of the source's in both forms, and what follows stays if the destination is a wildcard too; nothing at all becomes a root. |
| RawPath.RewriteFromExact | router.go:1001-1040 | From an exact source, the new path is the destination, and its encoding the escaped one. |
| RawPath.StripTakesThePrefix | router.go:975-985 | Stripping takes a leading prefix away once, changes nothing else, and leaves a root where nothing is left. |
| RawPath.StripRequestPath | router.go:987-999 | Both forms of the path lose the prefix; a valid encoding of the old path becomes a valid encoding of the new one, and is dropped exactly when the prefix is the whole path. |
| RetryBudget.RetryBudget.Reserve | proxy.go:266-285 | An ended context leaves the window alone; otherwise the window rolls, and grants while it has not granted max. |
| RetryBudget.WindowsApart | proxy.go:276-280 | With a clock that does not go back, windows start at least one window length apart. |
| RetryBudget.GrantsFromTheStart | proxy.go:266-285 | From the first request to t at most max * (1 + floor((t - t0) / window)) are granted. |
| RetryBudget.GrantsInARun | proxy.go:266-285 | Any later run grants at most one window more. |
| RetryBudget.GrantsInAnInterval | proxy.go:266-285 | Any half-open interval of one window length admits at most 2 * max. |
| RetryBudget.RefusedExactlyWhenSpent | proxy.go:276-283 | A reservation is refused iff the unfinished window it falls into has already granted max. |
| SharedBudget.AdditionalAttemptsAreBounded | proxy.go:266-296 | Over any number of requests that share a budget, interleaved in any way: all attempts after the first together are at most max * (1 + floor((t - t0) / window)). |
| SharedBudget.AdditionalAreGranted | proxy.go:287-296 | Each such attempt has a grant of its own from the shared budget. |
| Backoff.BuildBackoffDelays | proxy.go:934-949 | Every delay equals the unbounded min(cap, base * 2^i) and lies in base..cap: the first is base, and each next one is twice the one before, at most cap; no 64-bit operation overflows. |
| RetryBody.ReadsAreBounded | proxy.go:1051-1084 | An unfinished buffering has made at most 100 reads for each byte, and fewer than 100 empty ones in a row. |
| RetryBody.EveryReaderStops | proxy.go:1051-1084 | Any reader whatsoever is stopped at exactly one read, within 100 * (max + 1). |
| RetryBody.StopsMeans | proxy.go:1063-1084 | In terms of the reader's answers: complete iff within the limit and at the end of the body, too large iff more bytes than the limit, no progress iff 100 empty answers in a row, and the reader's own error exactly for that error. |
| RetryBody.AcceptedExactlyWhenItFits | proxy.go:1051-1084 | Whatever the pieces in which a reader hands out a content: it is buffered whole if it fits the limit, and is too large otherwise. |
| RetryBody.Fill | proxy.go:1051-1084 | The loop ends with the reader's stop or the context's end, having read at most max + 1 bytes; the last answer explains the stop, and success means that it was the end of the body and that the payload is exactly what was read. |
| RetryBody.PrepareRetryBody | proxy.go:1024-1093 | The incoming body is closed exactly once on every exit; a read error fails with that error and success needs the end of the body: then the request has a new reader at the start of exactly the bytes up to the end, and can make more of them, with their length and without trailers or transfer encoding. |
| RetryBody.CloneRetryRequest | proxy.go:1103-1114 | With a payload, an additional attempt gets a new reader at its start, whatever earlier attempts have read; without one, the very same body. |
| RetryEngine.AttemptsAccounted | proxy.go:853-932 | Every legal trace, and each of its prefixes, has at most tries attempts, and for every additional attempt one earlier reservation with a budget and one earlier wait with a backoff. |
| RetryEngine.ResponsesAreLinear | proxy.go:853-932 | Every response with a body is received at most once and closed exactly once unless it is still open. |
| RetryEngine.ClosedBeforeTheNext | proxy.go:919-921 | When an attempt is sent, and when it is waited for, every earlier response has been closed. |
| RetryEngine.ConclusionAccounts | proxy.go:853-932 | At the end every received response has been closed exactly once, except the one returned, which was never closed. |
| RetryEngine.AttemptsDistinct | proxy.go:855-872 | Attempts go out in order; without health no two go to the same target. |
| RetryEngine.RetriesFollowTheList | proxy.go:875-902 | An additional attempt follows only an outcome without a 1xx response: a transport error, or a response whose status is on the list. |
| RetryEngine.UnretriedOutcomes | proxy.go:875-902 | An outcome that comes back unrefused before the last try is a response after a 1xx one, without a list or with a status off it, or an error after a 1xx response or, without deadline and budget, of an ended context. |
| RetryEngine.AliveBeforeEachRetry | proxy.go:876-926 | Before every additional attempt the context was found alive, after the last outcome, close and wait. |
| RetryEngine.WaitsFollowTheTable | proxy.go:951-967 | Wait number k lasts delay k of the table, or less with jitter, and with a budget comes after its reservation. |
| RetryEngine.RetriesRotate | proxy.go:753-757 | The first attempt goes to the claimed target and, without health, attempt k to (start + k) mod n. |
| RetryEngine.ObservedAsItWas | proxy.go:771-775 | Every observation is of the attempt just sent, and healthy iff there was a response, be it a 1xx one. |
| RetryEngine.ObservedWhereSent | proxy.go:868-874 | And it is of the target that the attempt went to. |
| RetryEngine.RetriesFollowTheScan | proxy.go:753-769 | With health, additional attempt k goes to the first eligible target in cyclic order from start + k, or to that one if none is eligible. |
| RetryEngine.NothingAfterTheEnd | proxy.go:876-926 | Once the context has been found ended, nothing more is sent, reserved or waited for. |
| RetryEngine.RefusalKeepsTheOutcome | proxy.go:887-889 | A budget refusal returns the current outcome, with the response still open. |
| RetryEngine.NothingAfterARefusal | proxy.go:887-915 | After a refusal the run does nothing but look at the context. |
| RetryEngine.ResultAndContext | proxy.go:875-926 | A response, and with a deadline or a budget also an error, comes back only if the context was never found ended; the error then after a last look that found it alive. The context's error comes back only after it was found ended, and after a transport error with neither deadline nor budget only out of a wait. |
| RetryEngine.UndisturbedRun | proxy.go:853-932 | With a live context and a willing budget the run is exactly the attempts up to the first one that is not retryable, and its outcome is the result. |
| RetryEngine.Run.Send | proxy.go:858-874 | One attempt, on the request itself or on a clone of it, goes to its place in the target order, finds its body at the common start however much the transport has read before, and is observed before anything else happens. |
| RetryEngine.Run.ReserveRetry | proxy.go:287-296 | No budget admits freely; otherwise one reservation, one refusal or the end of the context. |
| RetryEngine.Run.WaitRetryBackoff | proxy.go:951-967 | Every wait indexes inside the table of length tries - 1 and lasts its delay, or less with jitter; the context is looked at afterwards. |
| RetryEngine.Run.AfterError | proxy.go:875-895 | After a transport error: a lawful conclusion, or everything the next attempt needs. |
| RetryEngine.Run.AfterResponse | proxy.go:897-930 | The same after a response. |
| RetryEngine.Run.CloseAndWait | proxy.go:919-929 | The response is closed before the pause. |
| RetryEngine.Run.RoundTripWithStatusRetry | proxy.go:853-932 | Against every transport, context and budget the trace is legal and the run concludes properly; the fall-through is never reached. |
| RetryEngine.Run.RoundTripWithTransportRetry | proxy.go:792-823 | The loop without a status list concludes properly, with a response or a transport error. |
| RetryEngine.Run.RoundTrip | proxy.go:781-851 | One proxied request, with buffering and release: nothing is sent when the buffering fails, every attempt starts at byte 0 of exactly the bytes read, the incoming body is closed once and the payload let go; the conclusion is replaced by the context's error exactly when the deadline is then seen to have passed. |
| RetryEngine.Run.RoundTripUnderDeadline | proxy.go:834-850 | The loop under its deadline; the timer is released unless a response body still needs it. |
| RetryEngine.DeadlineReplacesARefusal | proxy.go:837-844 | A run in which the budget refuses, the loop concludes with the transport error and the deadline's error is returned. |
| DirectBody.DirectBody.Finalize | proxy.go:390-426 | The locked part of finalisation; exactly the first call has to close the body. |
| DirectBody.DirectBody.Read | proxy.go:339-371 | A whole read, with another finalisation during it or not: it succeeds iff the body was open at its start, nothing finalised it meanwhile, the underlying read brought no error and the context is alive. |
| DirectBody.ClosedExactlyOnce | proxy.go:390-426 | In every interleaving the underlying body is closed at most once, and exactly once when finalised and quiet. |
| DirectBody.CauseIsFixed | proxy.go:391-399 | After the first finalisation the cause never changes. |
| DirectBody.FirstCause | proxy.go:400-407 | A context that has ended at finalisation overrides the cause the finaliser came with. |
| DirectBody.FirstFinalization | proxy.go:390-426 | Every run that finalises has one step that does it, and the cause is then fixed for good: the context's if that has ended, otherwise the finaliser's own. |
| DirectBody.CauseByOperation | proxy.go:335-407 | The cause of a finalised body is the context's if it had ended; else the deadline's after an expiry, none after a close or a cancellation, and some error after a read. |
| DirectBody.LateCallsReportTheCause | proxy.go:339-399 | In every interleaving, every read, and every other finalisation, that is not over when a cause is fixed ends with that cause, whatever it came with. |
| DirectBody.ReadAfterAPlainClose | proxy.go:339-348 | In every interleaving, a read begun after a finalisation without a cause ends as a read after close. |
| DirectBody.LateReadsFail | proxy.go:339-371 | A read that is under way when the body is finalised never returns success. |
| ResponseHeaders.ClosedForm | proxy.go:1354-1379 | Name by name, a policy removes, then sets, then appends, and leaves announced trailers alone. |
| ResponseHeaders.PolicyLaws | proxy.go:1354-1397 | Without the passes: an announced trailer, in any case, is left alone; a set value replaces, a removed and unset one goes, and added values come last. |
| ResponseHeaders.SiteThenRoute | proxy.go:1381-1385 | The site's closed form first, then the route's on its result. |
| ResponseHeaders.HttpResponse.ApplyResponseHeaders | proxy.go:1354-1379 | Whatever the map order, the headers end as the closed form; written names hold lists that are none of the existing ones, other names keep theirs, and the policy's own lists are unchanged. |
| ResponseHeaders.HttpResponse.ApplyResponseHeaderPolicies | proxy.go:1381-1385 | The same for the site policy followed by the route policy. |
| Environment.ValidEnvironmentName | config.go:1962-1976 | The byte loop accepts exactly the names that start with a letter or underscore and go on with those or digits. |
| Environment.ExpandEnv | config.go:1923-1960 | The scan computes the token-by-token expansion, and always makes progress. |
| Environment.QuotedIsLiteral | config.go:1923-1960 | A quoted text expands to itself, whatever may follow it. |
| Environment.QuotedReference | config.go:1923-1960 | Expanding quote(a) + "${N}" + quote(b) yields a + env(N) + b whatever the value contains: expansion is single-pass and quoting inverts it. |
| Environment.UnresolvedReference | config.go:1944-1951 | A reference whose name is not valid, or is not set, fails and says which, whatever quoted text comes first and whatever follows. |
| Environment.UnterminatedReference | config.go:1938-1942 | An opening without a closing brace fails as unterminated, whatever quoted text comes first. |
| Environment.LiteralWithoutReferences | config.go:1923-1960 | Text without an opening reference expands to itself iff no two backslashes are adjacent in it. |
| Environment.DoubledBackslashCollapses | config.go:1926-1931 | Two backslashes expand to one. |

## Left out

- Sockets, transports, TLS and certificate loading, and the probe requests themselves: their results are parameters.
- Configuration parsing and schema validation, except target weights and environment expansion: the limits they enforce are preconditions.
- Access logging, request identifiers, configuration polling and the start-up code.
- The random source of the jitter: any value in [0, delay) is allowed.
- Parsing of addresses, queries and headers, and header canonicalisation: parse results are inputs, policy names are taken as canonical.
- Host and path pattern compilation: its guarantees are the `Valid` predicates of the patterns. An exact host pattern holds no star, a wildcard pattern is `*.` and its suffix, a raw pattern is the escaped path.
- Generations.RunInv: a generation is known by its place in the order of publication, so an address is taken not to be used again while a request still holds it, as garbage collection guarantees.
- ScanInterference.FindsExactlyWhenCovered: assumes that the cursor does not wrap during the scan.
- RetryEngine.Run.Send: with health, the scan for each target is taken as `TargetSelection.Backend.RetryTargetIndex` specifies it, with arbitrary health states; the loop's own observations are not fed back into them. Cloning a request for an attempt does not fail, since a replayable body is only ever installed by the buffering.
- RetryEngine.Run.RoundTrip: a request without retry state, and the wrapper that cancels the deadline when the returned body is closed, are not modelled.
- RetryBody.PrepareRetryBody: the byte slice that all replays share is a value, so a transport that would write into it is not modelled.
- RawPath.StripRequestPath: the round trip is stated for a raw path that encodes the path; for any other the contract says what is computed, not what it means.
- DirectBody.DirectBody.Finalize: stopping the timer and the cancellation callback have no effect in the model, and construction is complete before any callback runs.
- Environment.ExpandEnv: strings are sequences of characters rather than of UTF-8 bytes; every character that the scan looks at is one byte.
- Routes.Site.SelectRoute: returns the winner's index; the route and the matched prefix, which is the pattern's own path in both searches, are its fields.
- The matching of header conditions walks a map in the source; it is a predicate over all names here.
- Overflow of schedule scores: weights sum to at most 10000, so a 64-bit score cannot overflow.
