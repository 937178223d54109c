/**
 The attempt loops of a named backend (proxy.go, `RoundTrip`, `roundTripWithStatusRetry`, `reserveRetry` and
 `waitRetryBackoff`).

 The world is adversarial: the outcome of every attempt, how much of its body it reads, the end of the context,
 the answers of the shared budget, the jitter and, with health, what each scan for a target finds are arbitrary.  A
 run leaves a trace of what it did.
 */
module RetryEngine {
  import opened Prelude
  import opened Arithmetic
  import opened Contexts
  import opened Backoff
  import opened ClaimCycles
  import TargetHealth
  import TargetSelection
  import opened RetryBody

  datatype Policy = Policy(
    targets: nat, tries: nat, statuses: Option<set<nat>>, deadline: bool, budgeted: bool,
    delays: Option<seq<Duration>>, jitter: bool, health: bool, bodyMax: nat)
  {
    predicate Valid() {
      && 1 <= tries <= targets
      && (statuses.None? ==> !deadline && !budgeted && delays.None?)
      && (delays.Some? ==> |delays.value| == tries - 1 && forall k | 0 <= k < tries - 1 :: delays.value[k] > 0)
    }
  }

  datatype Outcome = Failed | Responded(status: nat, hasBody: bool)

  /** What the transport does with an attempt: what it reads of the body, and whether a 1xx response came first. */
  datatype Attempt = Attempt(outcome: Outcome, informational: bool, consumed: nat)

  /** A scan for the target of an additional attempt: what it works on, what it returns and the health state it leaves. */
  datatype Choice = Choice(scan: TargetSelection.RetryScan, index: nat, end: seq<TargetHealth.Target>)

  /** `outer` is the context of the incoming request, `ctx` that of the attempts, which may have a deadline of its own. */
  datatype World = World(
    start: nat, attempts: seq<Attempt>, outer: Context, ctx: Context, grants: seq<bool>, choices: seq<Choice>, jitters: seq<Duration>)
  {
    /** With health, attempt `k` goes where the scan from `start + k` says. */
    ghost predicate Chosen(p: Policy, k: nat)
      requires k < |choices|
    {
      var c := choices[k];
      c.index < p.targets && c.scan.n == p.targets && c.scan.x == start + k && TargetSelection.RetryScanned(c.scan, c.index, c.end)
    }

    ghost predicate Valid(p: Policy) {
      && start < p.targets
      && |attempts| == |grants| == |jitters| == p.tries
      && (p.health ==> |choices| == p.tries && forall k: nat | 0 < k < p.tries :: Chosen(p, k))
      && (p.jitter && p.delays.Some? ==> forall k | 0 <= k < |p.delays.value| && k < p.tries :: 0 <= jitters[k] < p.delays.value[k])
    }
  }

  datatype Event =
    | Sent(attempt: nat, target: nat, body: Start)
    | Received(attempt: nat)
    | Observed(attempt: nat, target: nat, healthy: bool)
    | Reserved(attempt: nat)
    | Refused(attempt: nat)
    | Closed(attempt: nat)
    | Waited(attempt: nat, delay: Duration)
    | Sampled(ended: bool)  // the context's error is looked at

  datatype Result =
    | Response(attempt: nat)
    | TransportError(attempt: nat)
    | ContextError(cause: Cause)
    | BufferError(reason: Reason)
    | AttemptsExhausted

  // ----- The discipline that a trace has to follow

  /**
   Attempts sent and observed, reservations and waits so far, the response still open, whether the budget refused,
   whether the context was found alive since the last outcome, close or wait, and whether it was found ended.
   */
  datatype Monitor = Monitor(
    sent: nat, observed: nat, reserved: nat, waited: nat, open: Option<nat>, refused: bool, checked: bool, ended: bool)

  const FRESH := Monitor(0, 0, 0, 0, None, false, false, false)

  function TargetOf(p: Policy, w: World, k: nat): nat
    requires p.Valid() && w.Valid(p) && k < p.tries
  {
    if k == 0 then w.start
    else if p.health then w.choices[k].index
    else Turn(w.start + k, p.targets)
  }

  /** Whether the attempt's outcome may be followed by another attempt. */
  predicate Retryable(p: Policy, a: Attempt) {
    !a.informational && (a.outcome.Failed? || (p.statuses.Some? && a.outcome.status in p.statuses.value))
  }

  /** The last attempt has been observed, is not the last one allowed, and the context has just been found alive. */
  predicate Between(p: Policy, m: Monitor, k: nat) {
    k + 1 == m.sent == m.observed && k + 1 < p.tries && !m.refused && m.checked && !m.ended
  }

  predicate Permitted(p: Policy, w: World, m: Monitor, e: Event)
    requires p.Valid() && w.Valid(p)
  {
    match e
    case Sent(k, target, _) =>
      && k == m.sent == m.observed && k < p.tries && m.open.None? && !m.refused
      && (k > 0 ==> Retryable(p, w.attempts[k - 1]) && m.checked && !m.ended)
      && (p.budgeted ==> m.reserved == k) && (p.delays.Some? ==> m.waited == k)
      && target == TargetOf(p, w, k)
    case Received(k) =>
      && k + 1 == m.sent == m.observed + 1 && k < p.tries && m.open.None? && w.attempts[k].outcome.Responded?
    case Observed(k, target, healthy) =>
      && k + 1 == m.sent == m.observed + 1 && k < p.tries && target == TargetOf(p, w, k)
      && m.open == (if HasBody(w, k) then Some(k) else None)
      && healthy == (w.attempts[k].informational || w.attempts[k].outcome.Responded?)
    case Reserved(k) => p.budgeted && Between(p, m, k) && m.reserved == k && w.grants[k]
    case Refused(k) => p.budgeted && Between(p, m, k) && m.reserved == k && !w.grants[k]
    case Closed(k) => k + 1 == m.sent == m.observed && m.open == Some(k) && !m.refused
    case Waited(k, delay) =>
      && p.delays.Some? && Between(p, m, k) && m.waited == k && m.open.None? && (p.budgeted ==> m.reserved == k + 1)
      && if p.jitter then 0 <= delay < p.delays.value[k] else delay == p.delays.value[k]
    case Sampled(ended) => (m.ended ==> ended) && (ended ==> w.ctx.endsAt.Some?)
  }

  function Next(w: World, m: Monitor, e: Event): Monitor {
    match e
    case Sent(_, _, _) => m.(sent := m.sent + 1)
    case Received(k) => if HasBody(w, k) then m.(open := Some(k)) else m
    case Observed(_, _, _) => m.(observed := m.observed + 1, checked := false)
    case Reserved(_) => m.(reserved := m.reserved + 1)
    case Refused(_) => m.(refused := true)
    case Closed(_) => m.(open := None, checked := false)
    case Waited(_, _) => m.(waited := m.waited + 1, checked := false)
    case Sampled(ended) => m.(checked := !ended, ended := m.ended || ended)
  }

  predicate HasBody(w: World, k: nat) {
    k < |w.attempts| && w.attempts[k].outcome.Responded? && w.attempts[k].outcome.hasBody
  }

  function MonitorOf(w: World, trace: seq<Event>): Monitor {
    if |trace| == 0 then FRESH else Next(w, MonitorOf(w, trace[..|trace| - 1]), trace[|trace| - 1])
  }

  predicate Legal(p: Policy, w: World, trace: seq<Event>)
    requires p.Valid() && w.Valid(p)
  {
    |trace| == 0 ||
    (Legal(p, w, trace[..|trace| - 1]) && Permitted(p, w, MonitorOf(w, trace[..|trace| - 1]), trace[|trace| - 1]))
  }

  lemma Extend(p: Policy, w: World, trace: seq<Event>, e: Event)
    requires p.Valid() && w.Valid(p)
    requires Legal(p, w, trace) && Permitted(p, w, MonitorOf(w, trace), e)
    ensures Legal(p, w, trace + [e]) && MonitorOf(w, trace + [e]) == Next(w, MonitorOf(w, trace), e)
  {
    assert (trace + [e])[..|trace|] == trace;
  }

  // ----- What the discipline means for a whole run

  function Times(trace: seq<Event>, e: Event): nat {
    if |trace| == 0 then 0
    else Times(trace[..|trace| - 1], e) + if trace[|trace| - 1] == e then 1 else 0
  }

  function Attempts(trace: seq<Event>): nat {
    if |trace| == 0 then 0
    else Attempts(trace[..|trace| - 1]) + if trace[|trace| - 1].Sent? then 1 else 0
  }

  function Waits(trace: seq<Event>): nat {
    if |trace| == 0 then 0
    else Waits(trace[..|trace| - 1]) + if trace[|trace| - 1].Waited? then 1 else 0
  }

  function Reservations(trace: seq<Event>): nat {
    if |trace| == 0 then 0
    else Reservations(trace[..|trace| - 1]) + if trace[|trace| - 1].Reserved? then 1 else 0
  }

  /** What every legal run keeps: the attempts in step, one reservation ahead, and only what really happened. */
  ghost predicate Kept(p: Policy, w: World, m: Monitor)
    requires p.Valid() && w.Valid(p)
  {
    && m.observed <= m.sent <= m.observed + 1 && m.sent <= p.tries
    && (p.budgeted ==> m.sent <= m.reserved + 1 && m.reserved <= m.sent)
    && (p.delays.Some? ==> m.sent <= m.waited + 1 && m.waited <= m.sent)
    && (m.refused ==> 0 < m.sent && !w.grants[m.sent - 1])
    && (m.ended ==> w.ctx.endsAt.Some?)
  }

  lemma StepKeeps(p: Policy, w: World, m: Monitor, e: Event)
    requires p.Valid() && w.Valid(p) && Kept(p, w, m) && Permitted(p, w, m, e)
    ensures Kept(p, w, Next(w, m, e))
  {
  }

  lemma {:induction false} RunKeeps(p: Policy, w: World, trace: seq<Event>)
    requires p.Valid() && w.Valid(p) && Legal(p, w, trace)
    ensures Kept(p, w, MonitorOf(w, trace))
  {
    if |trace| > 0 {
      RunKeeps(p, w, trace[..|trace| - 1]);
      StepKeeps(p, w, MonitorOf(w, trace[..|trace| - 1]), trace[|trace| - 1]);
    }
  }

  lemma {:induction false} Counted(w: World, trace: seq<Event>)
    ensures var m := MonitorOf(w, trace);
            Attempts(trace) == m.sent && Reservations(trace) == m.reserved
  {
    if |trace| > 0 {
      Counted(w, trace[..|trace| - 1]);
    }
  }

  lemma {:induction false} WaitsCounted(w: World, trace: seq<Event>)
    ensures Waits(trace) == MonitorOf(w, trace).waited
  {
    if |trace| > 0 {
      WaitsCounted(w, trace[..|trace| - 1]);
    }
  }

  /**
   At most `tries` attempts, and for each attempt after the first one earlier reservation, with a budget, and one
   earlier wait, with a backoff.
   */
  lemma AttemptsAccounted(p: Policy, w: World, trace: seq<Event>)
    requires p.Valid() && w.Valid(p) && Legal(p, w, trace)
    ensures Attempts(trace) == MonitorOf(w, trace).sent <= p.tries
    ensures p.budgeted ==> Attempts(trace) <= Reservations(trace) + 1 && Reservations(trace) <= Attempts(trace)
    ensures p.delays.Some? ==> Attempts(trace) <= Waits(trace) + 1 && Waits(trace) <= Attempts(trace)
  {
    RunKeeps(p, w, trace);
    Counted(w, trace);
    WaitsCounted(w, trace);
  }

  /** With `received` and `closed` such events so far: at most one, and the response is open in between. */
  ghost predicate Linear(m: Monitor, k: nat, received: nat, closed: nat) {
    && received == closed + (if m.open == Some(k) then 1 else 0) <= 1
    && (received > 0 ==> k < m.sent && (m.open == Some(k) || k < m.observed))
    && (k < m.observed ==> received == 1)
  }

  lemma StepLinear(p: Policy, w: World, m: Monitor, e: Event, k: nat, received: nat, closed: nat)
    requires p.Valid() && w.Valid(p) && Kept(p, w, m) && Permitted(p, w, m, e) && HasBody(w, k)
    requires Linear(m, k, received, closed)
    ensures Linear(Next(w, m, e), k, received + if e == Received(k) then 1 else 0, closed + if e == Closed(k) then 1 else 0)
  {
  }

  /** A response with a body is received at most once, and closed exactly once unless it is still open. */
  lemma {:induction false} ResponsesAreLinear(p: Policy, w: World, trace: seq<Event>, k: nat)
    requires p.Valid() && w.Valid(p) && Legal(p, w, trace) && HasBody(w, k)
    ensures Linear(MonitorOf(w, trace), k, Times(trace, Received(k)), Times(trace, Closed(k)))
  {
    if |trace| > 0 {
      var front := trace[..|trace| - 1];
      ResponsesAreLinear(p, w, front, k);
      RunKeeps(p, w, front);
      StepLinear(p, w, MonitorOf(w, front), trace[|trace| - 1], k, Times(front, Received(k)), Times(front, Closed(k)));
    }
  }

  /** When an attempt is sent, and when it is waited for, every response received before has been closed. */
  lemma {:induction false} ClosedBeforeTheNext(p: Policy, w: World, trace: seq<Event>, i: nat, k: nat)
    requires p.Valid() && w.Valid(p) && Legal(p, w, trace) && i < |trace| && HasBody(w, k)
    requires trace[i].Sent? || trace[i].Waited?
    ensures Times(trace[..i], Received(k)) == Times(trace[..i], Closed(k))
  {
    LegalPrefix(p, w, trace, i + 1);
    assert trace[..i + 1][..i] == trace[..i];
    ResponsesAreLinear(p, w, trace[..i], k);
  }

  lemma {:induction false} LegalPrefix(p: Policy, w: World, trace: seq<Event>, i: nat)
    requires p.Valid() && w.Valid(p) && Legal(p, w, trace) && i <= |trace|
    ensures Legal(p, w, trace[..i])
    ensures i > 0 ==> Permitted(p, w, MonitorOf(w, trace[..i - 1]), trace[i - 1])
  {
    if i < |trace| {
      LegalPrefix(p, w, trace[..|trace| - 1], i);
      assert trace[..|trace| - 1][..i] == trace[..i];
      assert i > 0 ==> trace[..|trace| - 1][..i - 1] == trace[..i - 1];
    } else {
      assert trace[..i] == trace;
    }
  }

  /** Attempts go out in order, and without health no two of them go to the same target. */
  lemma AttemptsDistinct(p: Policy, w: World, trace: seq<Event>, i: nat, j: nat)
    requires p.Valid() && w.Valid(p) && Legal(p, w, trace)
    requires i < j < |trace| && trace[i].Sent? && trace[j].Sent?
    ensures trace[i].attempt < trace[j].attempt < p.tries
    ensures !p.health ==> trace[i].target != trace[j].target
  {
    SentIs(p, w, trace, i);
    SentIs(p, w, trace, j);
    SentGrows(p, w, trace, i, j);
    if !p.health {
      TargetSelection.RetryTargetsDistinct(w.start, trace[i].attempt, trace[j].attempt, p.tries, p.targets);
    }
  }

  lemma SentIs(p: Policy, w: World, trace: seq<Event>, i: nat)
    requires p.Valid() && w.Valid(p) && Legal(p, w, trace) && i < |trace| && trace[i].Sent?
    ensures var k := trace[i].attempt;
            && k == MonitorOf(w, trace[..i]).sent < p.tries
            && (!p.health ==> trace[i].target == Turn(w.start + k, p.targets))
  {
    PermittedAt(p, w, trace, i);
    FirstTurn(w.start, p.targets);
  }

  lemma PermittedAt(p: Policy, w: World, trace: seq<Event>, i: nat)
    requires p.Valid() && w.Valid(p) && Legal(p, w, trace) && i < |trace|
    ensures Permitted(p, w, MonitorOf(w, trace[..i]), trace[i])
  {
    LegalPrefix(p, w, trace, i + 1);
  }

  // ----- When an attempt may follow another

  /**
   An additional attempt follows only an outcome without a 1xx response before it: a transport error, or a response
   whose status is on the list.
   */
  lemma RetriesFollowTheList(p: Policy, w: World, trace: seq<Event>, i: nat)
    requires p.Valid() && w.Valid(p) && Legal(p, w, trace) && i < |trace| && trace[i].Sent? && trace[i].attempt > 0
    ensures trace[i].attempt < p.tries
    ensures var before := w.attempts[trace[i].attempt - 1];
            && !before.informational
            && (before.outcome.Responded? ==> p.statuses.Some? && before.outcome.status in p.statuses.value)
  {
    PermittedAt(p, w, trace, i);
  }

  /** And it follows no sooner than the context has been found alive again, after the last outcome, close and wait. */
  lemma AliveBeforeEachRetry(p: Policy, w: World, trace: seq<Event>, j: nat)
    requires p.Valid() && w.Valid(p) && Legal(p, w, trace) && j < |trace| && trace[j].Sent? && trace[j].attempt > 0
    ensures exists i: nat :: i < j && LastLook(trace, i, j)
  {
    PermittedAt(p, w, trace, j);
    var i := CheckedMeans(w, trace[..j]);
    assert LastLook(trace, i, j);
  }

  ghost predicate LastLook(trace: seq<Event>, i: nat, j: nat) {
    && i < j <= |trace| && trace[i] == Sampled(false)
    && forall k | i < k < j :: !trace[k].Observed? && !trace[k].Closed? && !trace[k].Waited?
  }

  lemma {:induction false} CheckedMeans(w: World, trace: seq<Event>) returns (i: nat)
    requires MonitorOf(w, trace).checked
    ensures LastLook(trace, i, |trace|)
  {
    if |trace| > 0 {
      var last := |trace| - 1;
      if trace[last].Sampled? {
        i := last;
      } else {
        i := CheckedMeans(w, trace[..last]);
      }
    }
  }

  /** Wait number `k` is delay `k` of the table, or less with jitter, and comes after the reservation it waits with. */
  lemma WaitsFollowTheTable(p: Policy, w: World, trace: seq<Event>, i: nat)
    requires p.Valid() && w.Valid(p) && Legal(p, w, trace) && i < |trace| && trace[i].Waited?
    ensures p.delays.Some? && Waits(trace[..i]) < |p.delays.value|
    ensures p.budgeted ==> Reservations(trace[..i]) == Attempts(trace[..i])
    ensures var (delay, full) := (trace[i].delay, p.delays.value[Waits(trace[..i])]);
            if p.jitter then 0 <= delay < full else delay == full
  {
    PermittedAt(p, w, trace, i);
    Counted(w, trace[..i]);
    WaitsCounted(w, trace[..i]);
  }

  /** The first attempt goes to the claimed target and, without health, attempt `k` to target `(start + k) mod n`. */
  lemma RetriesRotate(p: Policy, w: World, trace: seq<Event>, i: nat)
    requires p.Valid() && w.Valid(p) && Legal(p, w, trace) && i < |trace| && trace[i].Sent?
    ensures trace[i].attempt == Attempts(trace[..i])
    ensures trace[i].attempt == 0 ==> trace[i].target == w.start
    ensures !p.health ==> trace[i].target == (w.start + trace[i].attempt) % p.targets
  {
    PermittedAt(p, w, trace, i);
    SentIs(p, w, trace, i);
    Counted(w, trace[..i]);
    RemainderIs(w.start + trace[i].attempt, p.targets);
  }

  /** What health is told of an attempt: healthy exactly if there was a response, be it only a 1xx one. */
  lemma ObservedAsItWas(p: Policy, w: World, trace: seq<Event>, i: nat)
    requires p.Valid() && w.Valid(p) && Legal(p, w, trace) && i < |trace| && trace[i].Observed?
    ensures trace[i].attempt < p.tries && trace[i].attempt + 1 == Attempts(trace[..i])
    ensures var a := w.attempts[trace[i].attempt]; trace[i].healthy <==> a.informational || !a.outcome.Failed?
  {
    PermittedAt(p, w, trace, i);
    Counted(w, trace[..i]);
  }

  /** And it is told of the target that the attempt went to. */
  lemma ObservedWhereSent(p: Policy, w: World, trace: seq<Event>, i: nat, j: nat)
    requires p.Valid() && w.Valid(p) && Legal(p, w, trace) && i < |trace| && j < |trace|
    requires trace[i].Sent? && trace[j].Observed? && trace[i].attempt == trace[j].attempt
    ensures trace[i].target == trace[j].target
  {
    PermittedAt(p, w, trace, i);
    PermittedAt(p, w, trace, j);
  }

  /** A refusal is the end of it: after it the run does nothing but look at the context. */
  lemma NothingAfterARefusal(p: Policy, w: World, trace: seq<Event>, i: nat, j: nat)
    requires p.Valid() && w.Valid(p) && Legal(p, w, trace) && i < j < |trace| && trace[i].Refused?
    ensures trace[j].Sampled?
  {
    RefusalStays(p, w, trace, i, j);
    PermittedAt(p, w, trace, j);
  }

  lemma {:induction false} RefusalStays(p: Policy, w: World, trace: seq<Event>, i: nat, j: nat)
    requires p.Valid() && w.Valid(p) && Legal(p, w, trace) && i < j <= |trace| && trace[i].Refused?
    ensures var m := MonitorOf(w, trace[..j]); m.refused && m.sent == m.observed
  {
    assert trace[..j][..j - 1] == trace[..j - 1];
    if j > i + 1 {
      RefusalStays(p, w, trace, i, j - 1);
    }
    PermittedAt(p, w, trace, j - 1);
  }

  /** With health, an additional attempt goes to what the scan from `start + k` on in cyclic target order returns. */
  lemma RetriesFollowTheScan(p: Policy, w: World, trace: seq<Event>, i: nat)
    requires p.Valid() && w.Valid(p) && Legal(p, w, trace) && i < |trace| && trace[i].Sent?
    requires p.health && trace[i].attempt > 0
    ensures var k := trace[i].attempt;
            && k < |w.choices| && w.choices[k].scan.n == p.targets && w.choices[k].scan.x == w.start + k
            && TargetSelection.RetryScanned(w.choices[k].scan, trace[i].target, w.choices[k].end)
  {
    PermittedAt(p, w, trace, i);
    assert w.Chosen(p, trace[i].attempt);
  }

  lemma FirstTurn(start: nat, n: nat)
    requires start < n
    ensures Turn(start + 0, n) == start
  {
  }

  lemma {:induction false} SentGrows(p: Policy, w: World, trace: seq<Event>, i: nat, j: nat)
    requires p.Valid() && w.Valid(p) && Legal(p, w, trace) && i < j <= |trace| && trace[i].Sent?
    ensures MonitorOf(w, trace[..j]).sent > trace[i].attempt
  {
    LegalPrefix(p, w, trace, j);
    assert trace[..j][..j - 1] == trace[..j - 1];
    if j > i + 1 {
      SentGrows(p, w, trace, i, j - 1);
    }
  }

  lemma {:induction false} EarlierRetryable(p: Policy, w: World, trace: seq<Event>)
    requires p.Valid() && w.Valid(p) && Legal(p, w, trace)
    ensures MonitorOf(w, trace).sent <= p.tries
    ensures forall k | 0 <= k < MonitorOf(w, trace).sent - 1 :: Retryable(p, w.attempts[k])
  {
    if |trace| > 0 {
      EarlierRetryable(p, w, trace[..|trace| - 1]);
    }
  }

  /** Once the context has been found ended, nothing more is sent, reserved or waited for. */
  lemma NothingAfterTheEnd(p: Policy, w: World, trace: seq<Event>, i: nat, j: nat)
    requires p.Valid() && w.Valid(p) && Legal(p, w, trace)
    requires i < j < |trace| && trace[i] == Sampled(true) && MonitorOf(w, trace[..i]).sent > 0
    ensures !trace[j].Sent? && !trace[j].Reserved? && !trace[j].Waited? && !trace[j].Refused?
  {
    EndStays(p, w, trace, i, j);
    PermittedAt(p, w, trace, j);
  }

  lemma {:induction false} EndStays(p: Policy, w: World, trace: seq<Event>, i: nat, j: nat)
    requires p.Valid() && w.Valid(p) && Legal(p, w, trace)
    requires i < j <= |trace| && trace[i] == Sampled(true) && MonitorOf(w, trace[..i]).sent > 0
    ensures MonitorOf(w, trace[..j]).ended && MonitorOf(w, trace[..j]).sent > 0
  {
    assert trace[..j][..j - 1] == trace[..j - 1];
    if j > i + 1 {
      EndStays(p, w, trace, i, j - 1);
    }
  }

  // ----- How a run may conclude

  /**
   The result is the outcome of the last attempt or the context's error.  An outcome that allows another attempt
   is returned only on the last try, on a refusal, or (an error, with neither deadline nor budget) on a context that
   was found ended.  A response is left open exactly when it is the result, and the fall-through is never reached.
   */
  predicate Concluded(p: Policy, w: World, m: Monitor, result: Result)
    requires p.Valid() && w.Valid(p)
  {
    && 0 < m.sent == m.observed <= p.tries
    && var k := m.sent - 1;
       var final := k + 1 == p.tries || !Retryable(p, w.attempts[k]) || m.refused;
       match result
       case Response(j) =>
         && j == k && w.attempts[k].outcome.Responded? && final && !m.ended
         && m.open == (if HasBody(w, k) then Some(k) else None)
       case TransportError(j) =>
         && j == k && w.attempts[k].outcome.Failed? && m.open.None?
         && (final || m.ended) && (p.deadline || p.budgeted ==> m.checked && !m.ended)
       case ContextError(cause) =>
         && m.ended && w.ctx.endsAt.Some? && cause == w.ctx.cause && m.open.None? && !m.refused
         && (Retryable(p, w.attempts[k]) || w.attempts[k].outcome.Failed?)
         && (w.attempts[k].outcome.Failed? ==> p.deadline || p.budgeted || (p.delays.Some? && m.waited == k + 1))
       case BufferError(_) | AttemptsExhausted => false
  }

  /**
   An outcome that comes back unrefused and not on the last try is one that may not be retried: a response after a 1xx
   one, without a status list or with a status that is not on it; an error after a 1xx response or, without deadline and
   budget, of a context that had ended.
   */
  lemma UnretriedOutcomes(p: Policy, w: World, m: Monitor, result: Result)
    requires p.Valid() && w.Valid(p) && Concluded(p, w, m, result) && !m.refused && m.sent < p.tries
    ensures var a := w.attempts[m.sent - 1];
            && (result.Response? ==>
                  && a.outcome.Responded?
                  && (a.informational || p.statuses.None? || a.outcome.status !in p.statuses.value))
            && (result.TransportError? ==>
                  a.outcome.Failed? && (a.informational || (m.ended && !p.deadline && !p.budgeted)))
  {
  }

  lemma {:induction false} EndedMeans(w: World, trace: seq<Event>)
    ensures MonitorOf(w, trace).ended <==> Times(trace, Sampled(true)) > 0
  {
    if |trace| > 0 {
      EndedMeans(w, trace[..|trace| - 1]);
    }
  }

  /**
   What the result says about the context.  A response comes back only if it was never found ended, and with a deadline
   or a budget so does an error, after a last look that found it alive.  The context's own error comes back only after
   it was found ended, and after a transport error with neither deadline nor budget only out of a wait.
   */
  lemma ResultAndContext(p: Policy, w: World, trace: seq<Event>, result: Result)
    requires p.Valid() && w.Valid(p) && Legal(p, w, trace) && Concluded(p, w, MonitorOf(w, trace), result)
    ensures result.Response? || (result.TransportError? && (p.deadline || p.budgeted)) ==> Times(trace, Sampled(true)) == 0
    ensures result.TransportError? && (p.deadline || p.budgeted) ==> exists i: nat :: LastLook(trace, i, |trace|)
    ensures result.ContextError? ==> Times(trace, Sampled(true)) > 0 && w.ctx.endsAt.Some? && result.cause == w.ctx.cause
    ensures 0 < Attempts(trace) <= |w.attempts|
    ensures result.ContextError? && w.attempts[Attempts(trace) - 1].outcome.Failed? && !p.deadline && !p.budgeted ==>
              p.delays.Some? && Waits(trace) == Attempts(trace)
  {
    EndedMeans(w, trace);
    Counted(w, trace);
    WaitsCounted(w, trace);
    if result.TransportError? && (p.deadline || p.budgeted) {
      var i := CheckedMeans(w, trace);
      assert LastLook(trace, i, |trace|);
    }
  }

  /**
   The account at the end: every response with a body that was received has been closed exactly once, except the
   one that is the result, which was never closed.
   */
  lemma ConclusionAccounts(p: Policy, w: World, trace: seq<Event>, result: Result, k: nat)
    requires p.Valid() && w.Valid(p) && Legal(p, w, trace) && Concluded(p, w, MonitorOf(w, trace), result)
    requires HasBody(w, k)
    ensures Times(trace, Received(k)) == if k < Attempts(trace) then 1 else 0
    ensures Times(trace, Closed(k)) == if k < Attempts(trace) && result != Response(k) then 1 else 0
  {
    ResponsesAreLinear(p, w, trace, k);
    AttemptsAccounted(p, w, trace);
  }

  /** A refusal ends the run with the current outcome, untouched. */
  lemma RefusalKeepsTheOutcome(p: Policy, w: World, m: Monitor, result: Result)
    requires p.Valid() && w.Valid(p) && Concluded(p, w, m, result) && m.refused
    ensures var k := m.sent - 1;
            result == if w.attempts[k].outcome.Responded? then Response(k) else TransportError(k)
    ensures HasBody(w, m.sent - 1) ==> m.open == Some(m.sent - 1)
  {
  }

  /** The first attempt that ends the loop by itself. */
  function FirstTerminal(p: Policy, w: World, k: nat): (t: nat)
    requires p.Valid() && w.Valid(p) && k < p.tries
    ensures k <= t < p.tries
    decreases p.tries - k
  {
    if k + 1 == p.tries || !Retryable(p, w.attempts[k]) then k else FirstTerminal(p, w, k + 1)
  }

  lemma {:induction false} FirstTerminalIs(p: Policy, w: World, k: nat, t: nat)
    requires p.Valid() && w.Valid(p) && k <= t < p.tries
    requires forall j | k <= j < t :: Retryable(p, w.attempts[j])
    requires t + 1 == p.tries || !Retryable(p, w.attempts[t])
    ensures FirstTerminal(p, w, k) == t
    decreases t - k
  {
    if k < t {
      FirstTerminalIs(p, w, k + 1, t);
    }
  }

  /**
   If the context does not end and the budget grants everything, the run is exactly the attempts up to the first
   one that is not retryable, or the last one allowed, and its outcome is the result.
   */
  lemma UndisturbedRun(p: Policy, w: World, trace: seq<Event>, result: Result)
    requires p.Valid() && w.Valid(p) && Legal(p, w, trace) && Concluded(p, w, MonitorOf(w, trace), result)
    requires w.ctx.endsAt.None? && forall k | 0 <= k < p.tries :: w.grants[k]
    ensures var t := FirstTerminal(p, w, 0);
            && Attempts(trace) == t + 1
            && result == if w.attempts[t].outcome.Responded? then Response(t) else TransportError(t)
  {
    AttemptsAccounted(p, w, trace);
    EarlierRetryable(p, w, trace);
    RunKeeps(p, w, trace);
    FirstTerminalIs(p, w, 0, MonitorOf(w, trace).sent - 1);
  }

  // ----- The loops

  /** Every attempt of the trace found the same start. */
  ghost predicate StartsAlike(trace: seq<Event>, start: Start) {
    forall i | 0 <= i < |trace| && trace[i].Sent? :: trace[i].body == start
  }

  class Run {
    const policy: Policy
    const world: World
    const request: Request
    var trace: seq<Event>
    var samples: nat
    ghost var start: Start

    ghost predicate Valid()
      reads this
    {
      && policy.Valid() && world.Valid(policy) && Legal(policy, world, trace) && StartsAlike(trace, start)
      && (Seen().ended ==> samples > 0 && world.ctx.Err(samples - 1).Some?)
    }

    ghost function Seen(): Monitor
      reads this
    {
      MonitorOf(world, trace)
    }

    constructor (policy: Policy, world: World, request: Request)
      requires policy.Valid() && world.Valid(policy)
      ensures Valid() && this.policy == policy && this.world == world && this.request == request
      ensures trace == [] && samples == 0
    {
      this.policy, this.world, this.request := policy, world, request;
      trace, samples, start := [], 0, Without;
    }

    method Record(e: Event)
      requires Valid() && Permitted(policy, world, Seen(), e)
      requires e.Sampled? && e.ended ==> samples > 0 && world.ctx.Err(samples - 1).Some?
      requires e.Sent? ==> e.body == start
      modifies this`trace
      ensures Valid() && Seen() == Next(world, old(Seen()), e)
    {
      Extend(policy, world, trace, e);
      trace := trace + [e];
    }

    /** One sample of the context's error. */
    method ContextErr() returns (err: Option<Cause>)
      requires Valid()
      modifies this`trace, this`samples
      ensures Valid()
      ensures err == world.ctx.Err(old(samples)) && samples == old(samples) + 1
      ensures Seen() == Next(world, old(Seen()), Sampled(err.Some?)) && (old(Seen()).ended ==> err.Some?)
      ensures err.Some? ==> world.ctx.endsAt.Some? && err.value == world.ctx.cause
    {
      err := world.ctx.Err(samples);
      samples := samples + 1;
      Record(Sampled(err.Some?));
    }

    /** The request can still be sent: the first time as it is, and from then on by cloning it. */
    ghost predicate Sendable(k: nat)
      reads this, request, if request.body.Replay? then {request.body.reader} else {}
    {
      if k == 0 then Prepared(request, start) else Replayable(request, start)
    }

    /** The transport reads as much of the attempt's body as it likes. */
    method Transmit(body: Body, consumed: nat)
      requires body.Replay? ==> body.reader.position <= |body.reader.payload|
      modifies if body.Replay? then {body.reader} else {}
    {
      if body.Replay? {
        var _ := body.reader.Read(consumed);
      }
    }

    /** One attempt: the outcome is received, if it is one, and observed before anything else happens. */
    method Send(k: nat)
      requires Valid() && k < policy.tries && Sendable(k)
      requires Permitted(policy, world, Seen(), Sent(k, TargetOf(policy, world, k), start))
      modifies this`trace, if request.body.Replay? then {request.body.reader} else {}
      ensures Valid() && Replayable(request, start)
      ensures Seen() == old(Seen()).(sent := k + 1, observed := k + 1, checked := false,
                                     open := if HasBody(world, k) then Some(k) else None)
    {
      var target := world.start;
      var current := request;
      if k > 0 {
        current := CloneRetryRequest(request);
        RemainderIs(world.start + k, policy.targets);
        target := if policy.health then world.choices[k].index else (world.start + k) % policy.targets;
      }
      Record(Sent(k, target, StartOf(current.body)));
      Transmit(current.body, world.attempts[k].consumed);
      Answer(k, target);
    }

    method Answer(k: nat, target: nat)
      requires Valid() && k < policy.tries && target == TargetOf(policy, world, k)
      requires Seen().sent == k + 1 == Seen().observed + 1 && Seen().open.None?
      modifies this`trace
      ensures Valid()
      ensures Seen() == old(Seen()).(observed := k + 1, checked := false, open := if HasBody(world, k) then Some(k) else None)
    {
      var responded := world.attempts[k].outcome.Responded?;
      if responded {
        Record(Received(k));
      }
      Record(Observed(k, target, world.attempts[k].informational || responded));
    }

    /** `Some(true)` is a reservation, `Some(false)` a refusal, `None` an ended context. */
    method ReserveRetry(k: nat) returns (admitted: Option<bool>)
      requires Valid() && Between(policy, Seen(), k) && (policy.budgeted ==> Seen().reserved == k)
      modifies this`trace, this`samples
      ensures Valid()
      ensures admitted == None ==>
                policy.budgeted && world.ctx.endsAt.Some? && Seen() == old(Seen()).(checked := false, ended := true)
      ensures admitted == Some(false) ==> policy.budgeted && Seen() == old(Seen()).(refused := true)
      ensures admitted == Some(true) ==> Seen() == if policy.budgeted then old(Seen()).(reserved := k + 1) else old(Seen())
      ensures policy.budgeted && world.ctx.Err(old(samples) + 1).None? ==>
                samples == old(samples) + 2 && admitted == Some(world.grants[k])
    {
      if !policy.budgeted { return Some(true); }
      var before := ContextErr();
      if before.Some? { return None; }
      var inside := ContextErr();
      if inside.Some? { return None; }
      if !world.grants[k] {
        Record(Refused(k));
        return Some(false);
      }
      Record(Reserved(k));
      return Some(true);
    }

    /** The pause before attempt `k + 1`; its delay is always in the table. */
    method WaitRetryBackoff(k: nat) returns (err: Option<Cause>)
      requires Valid() && policy.delays.Some? && Between(policy, Seen(), k)
      requires Seen().waited == k && Seen().open.None? && (policy.budgeted ==> Seen().reserved == k + 1)
      modifies this`trace, this`samples
      ensures Valid() && Seen() == old(Seen()).(waited := k + 1, checked := err.None?, ended := err.Some?)
      ensures err.Some? ==> world.ctx.endsAt.Some? && err.value == world.ctx.cause
    {
      var delay := policy.delays.value[k];
      if policy.jitter { delay := world.jitters[k]; }
      Record(Waited(k, delay));
      err := ContextErr();
    }

    method CloseResponse(k: nat)
      requires Valid() && k + 1 == Seen().sent == Seen().observed && !Seen().refused
      requires Seen().open == if HasBody(world, k) then Some(k) else None
      modifies this`trace
      ensures Valid()
      ensures Seen() == if HasBody(world, k) then old(Seen()).(open := None, checked := false) else old(Seen())
    {
      if HasBody(world, k) {
        Record(Closed(k));
      }
    }

    /** Attempt `k` may be sent: everything before it is observed, closed, reserved and waited for. */
    ghost predicate Ready(k: nat)
      reads this
    {
      && Valid() && k < policy.tries
      && Seen() == Monitor(k, k, if policy.budgeted then k else 0, if policy.delays.Some? then k else 0, None, false, k > 0, false)
      && (k > 0 ==> Retryable(policy, world.attempts[k - 1]))
    }

    /** Attempt `k` has just been answered and observed. */
    ghost predicate Answered(k: nat)
      reads this
    {
      && Valid() && k < policy.tries
      && Seen() == Monitor(k + 1, k + 1, if policy.budgeted then k else 0, if policy.delays.Some? then k else 0,
                           if HasBody(world, k) then Some(k) else None, false, false, false)
    }

    /** The budget refuses another attempt after error `k`, and the context is still alive when it does. */
    predicate RefusedAt(k: nat, first: nat)
      requires policy.Valid() && world.Valid(policy) && k < policy.tries
    {
      && world.attempts[k].outcome.Failed? && !world.attempts[k].informational && k + 1 < policy.tries
      && policy.budgeted && !world.grants[k] && world.ctx.Err(first + 2).None?
    }

    /** The loop body after a transport error. */
    method AfterError(k: nat) returns (result: Option<Result>)
      requires Answered(k) && world.attempts[k].outcome.Failed?
      modifies this`trace, this`samples
      ensures Valid()
      ensures result.Some? ==> Concluded(policy, world, Seen(), result.value)
      ensures result.None? ==> Ready(k + 1)
      ensures RefusedAt(k, old(samples)) ==>
                result == Some(TransportError(k)) && Seen().refused && samples == old(samples) + 3
    {
      var informational := world.attempts[k].informational;
      var ended := None;
      if !informational { ended := ContextErr(); }
      if informational || ended.Some? || k + 1 == policy.tries {
        var contextErr := ContextErr();
        if contextErr.Some? && (policy.deadline || policy.budgeted) { return Some(ContextError(contextErr.value)); }
        return Some(TransportError(k));
      }
      result := RetryError(k);
    }

    /** An error that may be retried, the context having just been found alive. */
    method RetryError(k: nat) returns (result: Option<Result>)
      requires Valid() && Between(policy, Seen(), k) && Retryable(policy, world.attempts[k])
      requires world.attempts[k].outcome.Failed?
      requires Seen() == Monitor(k + 1, k + 1, if policy.budgeted then k else 0, if policy.delays.Some? then k else 0,
                                 None, false, true, false)
      modifies this`trace, this`samples
      ensures Valid()
      ensures result.Some? ==> Concluded(policy, world, Seen(), result.value)
      ensures result.None? ==> Ready(k + 1)
      ensures policy.budgeted && !world.grants[k] && world.ctx.Err(old(samples) + 1).None? ==>
                result == Some(TransportError(k)) && Seen().refused && samples == old(samples) + 2
    {
      var admitted := ReserveRetry(k);
      if admitted.None? { return Some(ContextError(world.ctx.cause)); }
      if !admitted.value { return Some(TransportError(k)); }
      if policy.delays.Some? {
        var err := WaitRetryBackoff(k);
        if err.Some? { return Some(ContextError(err.value)); }
      }
      return None;
    }

    /** The loop body after a response. */
    method AfterResponse(k: nat) returns (result: Option<Result>)
      requires Answered(k) && world.attempts[k].outcome.Responded? && policy.statuses.Some?
      modifies this`trace, this`samples
      ensures Valid()
      ensures result.Some? ==> Concluded(policy, world, Seen(), result.value)
      ensures result.None? ==> Ready(k + 1)
    {
      var a := world.attempts[k];
      if k + 1 == policy.tries || a.informational { return Some(Response(k)); }
      if a.outcome.status !in policy.statuses.value { return Some(Response(k)); }
      result := RetryResponse(k);
    }

    /** A response that may be retried: it is kept on a refusal and closed otherwise. */
    method RetryResponse(k: nat) returns (result: Option<Result>)
      requires Answered(k) && world.attempts[k].outcome.Responded? && k + 1 < policy.tries
      requires Retryable(policy, world.attempts[k])
      modifies this`trace, this`samples
      ensures Valid()
      ensures result.Some? ==> Concluded(policy, world, Seen(), result.value)
      ensures result.None? ==> Ready(k + 1)
    {
      var err := ContextErr();
      if err.Some? {
        CloseResponse(k);
        return Some(ContextError(err.value));
      }
      var admitted := ReserveRetry(k);
      if admitted.None? {
        CloseResponse(k);
        return Some(ContextError(world.ctx.cause));
      }
      if !admitted.value { return Some(Response(k)); }
      result := CloseAndWait(k);
    }

    /** The rest of a status retry: the response is given up before the pause. */
    method CloseAndWait(k: nat) returns (result: Option<Result>)
      requires Valid() && Between(policy, Seen(), k) && Retryable(policy, world.attempts[k]) && world.attempts[k].outcome.Responded?
      requires Seen() == Monitor(k + 1, k + 1, if policy.budgeted then k + 1 else 0, if policy.delays.Some? then k else 0,
                                 if HasBody(world, k) then Some(k) else None, false, true, false)
      modifies this`trace, this`samples
      ensures Valid()
      ensures result.Some? ==> Concluded(policy, world, Seen(), result.value)
      ensures result.None? ==> Ready(k + 1)
    {
      CloseResponse(k);
      var err := ContextErr();
      if err.Some? { return Some(ContextError(err.value)); }
      if policy.delays.Some? {
        err := WaitRetryBackoff(k);
        if err.Some? { return Some(ContextError(err.value)); }
      }
      return None;
    }

    /** One turn of the loop with a status list. */
    method Round(k: nat) returns (result: Option<Result>)
      requires Ready(k) && Sendable(k) && policy.statuses.Some?
      modifies this`trace, this`samples, if request.body.Replay? then {request.body.reader} else {}
      ensures Valid() && Replayable(request, start)
      ensures result.Some? ==> Concluded(policy, world, Seen(), result.value)
      ensures result.None? ==> Ready(k + 1)
      ensures RefusedAt(k, old(samples)) ==>
                result == Some(TransportError(k)) && Seen().refused && samples == old(samples) + 3
    {
      Send(k);
      if world.attempts[k].outcome.Failed? {
        result := AfterError(k);
      } else {
        result := AfterResponse(k);
      }
    }

    /** Status and transport retries.  The last attempt always concludes, so the loop never runs out. */
    method RoundTripWithStatusRetry() returns (result: Result)
      requires Ready(0) && Prepared(request, start) && policy.statuses.Some?
      modifies this`trace, this`samples, if request.body.Replay? then {request.body.reader} else {}
      ensures Valid() && Concluded(policy, world, Seen(), result)
      ensures RefusedAt(0, old(samples)) ==>
                result == TransportError(0) && Seen().refused && samples == old(samples) + 3
    {
      for attempt := 0 to policy.tries
        invariant Ready(attempt) && Sendable(attempt)
        invariant attempt == 0 ==> samples == old(samples)
        invariant attempt > 0 ==> !RefusedAt(0, old(samples))
      {
        var concluded := Round(attempt);
        if concluded.Some? { return concluded.value; }
      }
      result := AttemptsExhausted;
      assert false;
    }

    /** An attempt of the loop without a status list; `ends` is whether its outcome ends the loop. */
    method TransportTurn(k: nat) returns (ends: bool)
      requires Valid() && k < policy.tries && Sendable(k) && policy.statuses.None?
      requires Seen() == Monitor(k, k, 0, 0, None, false, k > 0, false)
      requires k > 0 ==> Retryable(policy, world.attempts[k - 1])
      modifies this`trace, this`samples, if request.body.Replay? then {request.body.reader} else {}
      ensures Valid() && Replayable(request, start)
      ensures ends && world.attempts[k].outcome.Responded? ==> Concluded(policy, world, Seen(), Response(k))
      ensures ends && world.attempts[k].outcome.Failed? ==> Concluded(policy, world, Seen(), TransportError(k))
      ensures !ends ==>
                && world.attempts[k].outcome.Failed? && Retryable(policy, world.attempts[k])
                && Seen() == Monitor(k + 1, k + 1, 0, 0, None, false, true, false)
    {
      Send(k);
      if world.attempts[k].outcome.Responded? || world.attempts[k].informational { return true; }
      var err := ContextErr();
      return err.Some?;
    }

    /** Transport retries only: without a status list there is no budget, no backoff and nothing to close. */
    method RoundTripWithTransportRetry() returns (result: Result)
      requires Ready(0) && Prepared(request, start) && policy.statuses.None?
      modifies this`trace, this`samples, if request.body.Replay? then {request.body.reader} else {}
      ensures Valid() && Concluded(policy, world, Seen(), result) && !result.ContextError?
    {
      var last := 0;
      var ends := TransportTurn(0);
      if ends { return if world.attempts[0].outcome.Responded? then Response(0) else TransportError(0); }
      for attempt := 1 to policy.tries
        invariant Valid() && last == attempt - 1 && attempt <= policy.tries && Replayable(request, start)
        invariant !ends
        invariant Seen() == Monitor(attempt, attempt, 0, 0, None, false, true, false)
        invariant Retryable(policy, world.attempts[last]) && world.attempts[last].outcome.Failed?
      {
        ends := TransportTurn(attempt);
        last := attempt;
        if ends { break; }
      }
      if world.attempts[last].outcome.Responded? { return Response(last); }
      return TransportError(last);
    }

    /**
     The loop with a status list under its deadline, if there is one.  `inner` is what the loop concluded, in the state
     `last`, and `cancelled` whether the deadline's timer has been released here rather than left to the response body.
     Under a deadline that has passed, the context's error takes the place of any other.
     */
    method RoundTripUnderDeadline() returns (result: Result, inner: Result, cancelled: bool, ghost last: Monitor)
      requires Ready(0) && Prepared(request, start) && policy.statuses.Some?
      modifies this`trace, this`samples, if request.body.Replay? then {request.body.reader} else {}
      ensures Valid() && Concluded(policy, world, last, inner)
      ensures Seen() == if policy.deadline && !inner.Response? then Next(world, last, Sampled(Seen().ended)) else last
      ensures result == if policy.deadline && !inner.Response? && Seen().ended then ContextError(world.ctx.cause) else inner
      ensures Seen().ended ==> world.ctx.endsAt.Some?
      ensures cancelled <==> policy.deadline && !(result.Response? && HasBody(world, result.attempt))
      ensures RefusedAt(0, old(samples)) ==>
                && inner == TransportError(0) && last.refused
                && (policy.deadline ==> Seen().ended == world.ctx.Err(old(samples) + 3).Some?)
    {
      cancelled := false;
      inner := RoundTripWithStatusRetry();
      result, last := inner, Seen();
      RunKeeps(policy, world, trace);
      if !policy.deadline { return; }
      if !inner.Response? {
        cancelled := true;
        var contextErr := ContextErr();
        if contextErr.Some? { result := ContextError(contextErr.value); }
        return;
      }
      cancelled := !HasBody(world, inner.attempt);
    }

    /** A request that may not be retried goes out once, with its body as it came. */
    method SendOnce() returns (result: Result)
      requires Valid() && trace == []
      modifies this`trace, this`start
      ensures Valid() && Seen().sent == Seen().observed == 1 && start == StartOf(request.body)
      ensures result == if world.attempts[0].outcome.Responded? then Response(0) else TransportError(0)
    {
      start := StartOf(request.body);
      Record(Sent(0, world.start, StartOf(request.body)));
      Answer(0, world.start);
      result := if world.attempts[0].outcome.Responded? then Response(0) else TransportError(0);
    }

    /** A retried request that brings a body has it buffered first. */
    predicate Buffers(retry: bool)
      reads request
    {
      retry && policy.statuses.Some? && policy.bodyMax > 0 && request.body.Incoming?
    }

    /** What the proxy hands over: a server request, which is retried only if it has no body or one that may be buffered. */
    ghost predicate Acceptable(retry: bool)
      reads request, if request.body.Incoming? then {request.body.source} else {}
    {
      && !request.body.Replay? && request.getBody.None?
      && (request.body.Incoming? ==> KeepsContract(request.body.source.reader) && request.body.source.readCount == 0)
      && (retry && request.body.Incoming? ==> policy.statuses.Some? && policy.bodyMax > 0)
    }

    /**
     One proxied request.  `retry` is whether it may be retried at all.  A body that is to be replayed is buffered first
     and closed exactly once; every attempt then starts at the beginning of exactly the bytes that were read, and the
     payload is let go at the end.  Without a replayable body nothing is sent.
     */
    method RoundTrip(retry: bool) returns (result: Result, inner: Result, cancelled: bool, ghost last: Monitor)
      requires Valid() && trace == [] && Acceptable(retry)
      modifies this, request, if request.body.Incoming? then {request.body.source} else {}
      ensures Valid()
      ensures !retry ==>
                && last.sent == 1 && start == old(StartOf(request.body))
                && inner == if world.attempts[0].outcome.Responded? then Response(0) else TransportError(0)
      ensures inner.BufferError? ==> old(Buffers(retry)) && inner.reason != Complete && trace == [] && result == inner
      ensures retry && !inner.BufferError? ==> Concluded(policy, world, last, inner)
      ensures retry && !old(Buffers(retry)) ==> start == Without
      ensures old(Buffers(retry)) ==>
                && old(request.body).source.closeCount == old(request.body.source.closeCount) + 1
                && request.body == NoBody && request.getBody == None
      ensures old(Buffers(retry)) && !inner.BufferError? ==>
                && StoppedBy(old(request.body).source, policy.bodyMax, Complete)
                && start == At(Buffered(old(request.body).source.reader, policy.bodyMax, old(request.body).source.readCount), 0)
      ensures var late := retry && policy.deadline && !inner.Response? && !inner.BufferError?;
              && Seen() == (if late then Next(world, last, Sampled(Seen().ended)) else last)
              && result == if late && Seen().ended then ContextError(world.ctx.cause) else inner
      ensures Seen().ended ==> world.ctx.endsAt.Some?
      ensures cancelled <==>
                retry && policy.deadline && !inner.BufferError? && !(result.Response? && HasBody(world, result.attempt))
      ensures old(samples) == 0 && retry && RefusedAt(0, 0) && !inner.BufferError? && policy.deadline ==>
                inner == TransportError(0) && last.refused && Seen().ended == world.ctx.Err(3).Some?
    {
      if !retry {
        inner := SendOnce();
        return inner, inner, false, Seen();
      }
      if policy.statuses.None? {
        start := Without;
        inner := RoundTripWithTransportRetry();
        RunKeeps(policy, world, trace);
        return inner, inner, false, Seen();
      }
      start := Without;
      var buffers := policy.bodyMax > 0 && request.body.Incoming?;
      if buffers {
        var reason := PrepareRetryBody(request, world.outer, policy.bodyMax);
        if reason != Complete { return BufferError(reason), BufferError(reason), false, Seen(); }
        start := StartOf(request.body);
      }
      result, inner, cancelled, last := RoundTripUnderDeadline();
      if buffers {
        ReleaseRetryBody(request);
      }
    }
  }

  /** A world in which the deadline passes between the budget's refusal and the last look at the context. */
  method DeadlineReplacesARefusal() returns (result: Result, inner: Result, ghost last: Monitor)
    ensures inner == TransportError(0) && last.refused && result == ContextError(DeadlineExceeded)
  {
    var policy := Policy(2, 2, Some({503}), true, true, None, false, false, 0);
    var failure := Attempt(Outcome.Failed, false, 0);
    var world := World(0, [failure, failure], Context(None, Canceled), Context(Some(3), DeadlineExceeded),
                       [false, false], [], [0, 0]);
    var request := new Request(NoBody, None, 0, false, false);
    var run := new Run(policy, world, request);
    var cancelled;
    result, inner, cancelled, last := run.RoundTrip(true);
  }
}
