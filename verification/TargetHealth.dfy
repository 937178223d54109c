/**
 Passive and active target health (proxy.go, `backendHealth` and `targetHealth`).

 Every method below is one critical section of a target's mutex.  The clock is a parameter: each section
 takes the one reading it makes.  A deadline of `None` is the source's zero time.
 */
module TargetHealth {
  import opened Prelude
  import opened Arithmetic

  datatype Target = Target(failures: int, until: Option<int>)

  const HEALTHY := Target(0, None)

  /** The settings `health.fail` and `health.cool`, as the configuration admits them. */
  datatype Policy = Policy(fail: int, cool: int) {
    predicate Valid() { fail >= 1 && cool > 0 }
  }

  predicate AvailableAt(t: Target, now: int) {
    t.until.None? || now >= t.until.value
  }

  /** A passed deadline is forgotten, together with the failures. */
  function Expired(t: Target, now: int): Target {
    if t.until.Some? && now >= t.until.value then HEALTHY else t
  }

  function Failed(t: Target, p: Policy, now: int): Target {
    if t.until.Some? && now < t.until.value then t.(until := Some(t.until.value + p.cool))
    else
      var live := Expired(t, now);
      if live.failures + 1 >= p.fail then Target(0, Some(now + p.cool))
      else Target(live.failures + 1, None)
  }

  class BackendHealth {
    const policy: Policy
    const targets: array<Target>
    var retired: bool

    constructor (policy: Policy, count: nat)
      ensures this.policy == policy && !retired && fresh(targets)
      ensures targets.Length == count && forall i | 0 <= i < count :: targets[i] == HEALTHY
    {
      this.policy := policy;
      targets := new Target[count](_ => HEALTHY);
      retired := false;
    }

    method Available(index: nat, now: int) returns (ok: bool)
      requires index < targets.Length
      modifies targets
      ensures ok == AvailableAt(old(targets[index]), now)
      ensures ok <==> old(targets[index]).until.None? || old(targets[index]).until.value <= now
      ensures targets[..] == old(targets[..])[index := Expired(old(targets[index]), now)]
      ensures !ok ==> targets[..] == old(targets[..])
    {
      var target := targets[index];
      if target.until.None? { return true; }
      if now < target.until.value { return false; }
      targets[index] := target.(until := None, failures := 0);
      return true;
    }

    /** `responded` covers informational responses; `ended` is whether the attempt's context has ended. */
    method Observe(index: nat, ended: bool, responded: bool, failed: bool, now: int)
      requires index < targets.Length
      modifies targets
      ensures targets[..] == old(targets[..])[index :=
                               Stepped(old(targets[index]), policy, AttemptEvent(ended, responded, failed, now))]
      ensures responded || !failed ==> targets[index] == Target(0, None)
      ensures !responded && failed && ended ==> targets[..] == old(targets[..])
      ensures !responded && failed && !ended ==> targets[index] == Failed(old(targets[index]), policy, now)
    {
      if responded || !failed {
        Reset(index);
        return;
      }
      if ended { return; }
      ObserveFailure(index, now);
    }

    /** `stopped` is whether the probing generation was cancelled, `timedOut` whether the probe's own context ended. */
    method ObserveProbe(index: nat, stopped: bool, timedOut: bool, healthy: bool, now: int)
      requires index < targets.Length
      modifies targets
      ensures targets[..] == old(targets[..])[index :=
                               Stepped(old(targets[index]), policy, ProbeEvent(retired, stopped, timedOut, healthy, now))]
      ensures retired || stopped ==> targets[..] == old(targets[..])
      ensures !retired && !stopped && healthy && !timedOut ==> targets[index] == Target(0, None)
      ensures !retired && !stopped && (timedOut || !healthy) ==> targets[index] == Failed(old(targets[index]), policy, now)
    {
      if stopped || retired { return; }
      if healthy && !timedOut {
        Reset(index);
        return;
      }
      ObserveFailure(index, now);
    }

    method ObserveFailure(index: nat, now: int)
      requires index < targets.Length
      modifies targets
      ensures targets[..] == old(targets[..])[index := Failed(old(targets[index]), policy, now)]
      ensures var t, cool := old(targets[index]), policy.cool;
              var failures := if t.until.Some? then 1 else t.failures + 1;
              targets[index] == if t.until.Some? && now < t.until.value then t.(until := Some(t.until.value + cool))
                                else if failures < policy.fail then Target(failures, None) else Target(0, Some(now + cool))
    {
      var target := targets[index];
      if target.until.Some? {
        if now < target.until.value {
          targets[index] := target.(until := Some(target.until.value + policy.cool));
          return;
        }
        target := target.(until := None, failures := 0);
      }
      target := target.(failures := target.failures + 1);
      if target.failures >= policy.fail {
        target := Target(0, Some(now + policy.cool));
      }
      targets[index] := target;
    }

    method Reset(index: nat)
      requires index < targets.Length
      modifies targets
      ensures targets[..] == old(targets[..])[index := HEALTHY]
    {
      targets[index] := Target(0, None);
    }

    /** What concurrent requests make of the state between two critical sections of this one. */
    method Become(view: seq<Target>)
      requires |view| == targets.Length
      modifies targets
      ensures targets[..] == view
    {
      forall i | 0 <= i < targets.Length {
        targets[i] := view[i];
      }
    }

    method Retire()
      modifies this`retired
      ensures retired
      ensures forall i | 0 <= i < targets.Length :: At(i) == Lived(old(At(i)), policy, Retirement)
    {
      retired := true;
    }

    /** One target as the run of its generation sees it. */
    function At(index: nat): Live
      requires index < targets.Length
      reads this, targets
    {
      Live(targets[index], retired)
    }

    /** Each critical section is one step of that run. */
    method Perform(index: nat, h: Happening) returns (answers: seq<bool>)
      requires index < targets.Length
      modifies this`retired, targets
      ensures At(index) == Lived(old(At(index)), policy, h) && answers == Answer(old(At(index)), h)
      ensures forall i | 0 <= i < targets.Length && i != index :: targets[i] == old(targets[i])
    {
      answers := [];
      match h
      case Checking(now) =>
        var ok := Available(index, now);
        answers := [ok];
      case Attempt(ended, responded, failed, now) =>
        Observe(index, ended, responded, failed, now);
      case Probe(stopped, timedOut, healthy, now) =>
        ObserveProbe(index, stopped, timedOut, healthy, now);
      case Retirement =>
        Retire();
    }

    /** Whatever happens to a target, in whatever order, the sections leave it as the run says, and so do their answers. */
    method PerformAll(index: nat, hs: seq<Happening>) returns (answers: seq<bool>)
      requires index < targets.Length
      modifies this`retired, targets
      ensures At(index) == LiveRun(old(At(index)), policy, hs) && answers == Answers(old(At(index)), policy, hs)
      ensures forall i | 0 <= i < targets.Length && i != index :: targets[i] == old(targets[i])
    {
      answers := [];
      for k := 0 to |hs|
        invariant At(index) == LiveRun(old(At(index)), policy, hs[..k])
        invariant answers == Answers(old(At(index)), policy, hs[..k])
        invariant forall i | 0 <= i < targets.Length && i != index :: targets[i] == old(targets[i])
      {
        LiveAppend(old(At(index)), policy, hs[..k], hs[k]);
        assert hs[..k + 1] == hs[..k] + [hs[k]];
        var more := Perform(index, hs[k]);
        answers := answers + more;
      }
      assert hs[..|hs|] == hs;
    }
  }

  // ----- Runs: what one target's mutex serialises

  datatype Event =
    | Check(now: int)      // an eligibility check
    | Response             // any upstream response or healthy probe
    | Failure(now: int)    // a transport error of an active attempt, or a failed probe
    | Ignored              // an error of an ended attempt, or any probe after retirement

  function AttemptEvent(ended: bool, responded: bool, failed: bool, now: int): Event {
    if responded || !failed then Response else if ended then Ignored else Failure(now)
  }

  function ProbeEvent(retired: bool, stopped: bool, timedOut: bool, healthy: bool, now: int): Event {
    if retired || stopped then Ignored else if healthy && !timedOut then Response else Failure(now)
  }

  function Stepped(t: Target, p: Policy, e: Event): Target {
    match e
    case Check(now) => Expired(t, now)
    case Response => HEALTHY
    case Failure(now) => Failed(t, p, now)
    case Ignored => t
  }

  function Run(t: Target, p: Policy, events: seq<Event>): Target {
    if |events| == 0 then t else Stepped(Run(t, p, events[..|events| - 1]), p, events[|events| - 1])
  }

  /** The counter stays below the threshold, and an ejected target has no failures on record. */
  ghost predicate Sound(t: Target, p: Policy) {
    0 <= t.failures < p.fail && (t.until.Some? ==> t.failures == 0)
  }

  lemma {:induction false} RunsStaySound(t: Target, p: Policy, events: seq<Event>)
    requires p.Valid() && Sound(t, p)
    ensures Sound(Run(t, p, events), p)
  {
    if |events| > 0 {
      RunsStaySound(t, p, events[..|events| - 1]);
    }
  }

  // ----- The reference: a target without stored deadlines and without lazy expiry

  /** Either some consecutive failures, or an ejection known by its time and by the failures since. */
  datatype Record = Counting(failures: nat) | Ejected(since: int, later: nat)

  function Deadline(r: Record, p: Policy): int
    requires r.Ejected?
  {
    r.since + (1 + r.later) * p.cool
  }

  function Seen(r: Record, p: Policy, now: int): Record {
    if r.Ejected? && now >= Deadline(r, p) then Counting(0) else r
  }

  function Recorded(r: Record, p: Policy, e: Event): Record {
    match e
    case Check(_) | Ignored => r
    case Response => Counting(0)
    case Failure(now) =>
      match Seen(r, p, now)
      case Counting(n) => if n + 1 >= p.fail then Ejected(now, 0) else Counting(n + 1)
      case Ejected(since, later) => Ejected(since, later + 1)
  }

  function RecordOf(p: Policy, events: seq<Event>): Record {
    if |events| == 0 then Counting(0)
    else Recorded(RecordOf(p, events[..|events| - 1]), p, events[|events| - 1])
  }

  /** The reading an event makes, if it makes one. */
  function Reading(e: Event): Option<int> {
    match e
    case Check(now) => Some(now)
    case Failure(now) => Some(now)
    case _ => None
  }

  /** Clock readings never go back, and none exceeds `now`. */
  ghost predicate Ordered(events: seq<Event>, now: int) {
    |events| == 0 ||
    var last := events[|events| - 1];
    if Reading(last).Some? then Reading(last).value <= now && Ordered(events[..|events| - 1], Reading(last).value)
    else Ordered(events[..|events| - 1], now)
  }

  /** From `now` on, the stored target and the reference record cannot be told apart. */
  ghost predicate Represents(t: Target, r: Record, p: Policy, now: int) {
    match Seen(r, p, now)
    case Counting(n) => Expired(t, now) == Target(n, None)
    case Ejected(_, _) => t == Target(0, Some(Deadline(r, p)))
  }

  lemma StepRefines(t: Target, r: Record, p: Policy, e: Event, before: int, now: int)
    requires p.Valid() && before <= now && Represents(t, r, p, before)
    requires Reading(e).Some? ==> Reading(e).value == before
    ensures Represents(Stepped(t, p, e), Recorded(r, p, e), p, now)
  {
    if e.Failure? {
      var later := Recorded(r, p, e);
      if later.Ejected? {
        MulDistributes(p.cool, 1, later.later);
      }
      if r.Ejected? {
        MulDistributes(p.cool, 1 + r.later, 1);
      }
    }
  }

  /** The stored state, with its lazy expiry, refines the reference over every run whose clock does not go back. */
  lemma {:induction false} RunRefines(p: Policy, events: seq<Event>, now: int)
    requires p.Valid() && Ordered(events, now)
    ensures Represents(Run(HEALTHY, p, events), RecordOf(p, events), p, now)
    ensures AvailableAt(Run(HEALTHY, p, events), now) <==> Seen(RecordOf(p, events), p, now).Counting?
    decreases |events|
  {
    if |events| > 0 {
      var front, e := events[..|events| - 1], events[|events| - 1];
      var before := if Reading(e).Some? then Reading(e).value else now;
      RunRefines(p, front, before);
      StepRefines(Run(HEALTHY, p, front), RecordOf(p, front), p, e, before, now);
    }
  }

  function WithoutChecks(events: seq<Event>): seq<Event> {
    if |events| == 0 then []
    else
      var front := WithoutChecks(events[..|events| - 1]);
      if events[|events| - 1].Check? then front else front + [events[|events| - 1]]
  }

  lemma {:induction false} RecordIgnoresChecks(p: Policy, events: seq<Event>)
    ensures RecordOf(p, WithoutChecks(events)) == RecordOf(p, events)
  {
    if |events| > 0 {
      var front, e := events[..|events| - 1], events[|events| - 1];
      RecordIgnoresChecks(p, front);
      if !e.Check? {
        assert WithoutChecks(events)[..|WithoutChecks(front)|] == WithoutChecks(front);
      }
    }
  }

  /** Eligibility checks can be inserted or dropped anywhere: no later result changes. */
  lemma ChecksArePure(p: Policy, a: seq<Event>, b: seq<Event>, now: int)
    requires p.Valid() && Ordered(a, now) && Ordered(b, now)
    requires WithoutChecks(a) == WithoutChecks(b)
    ensures AvailableAt(Run(HEALTHY, p, a), now) == AvailableAt(Run(HEALTHY, p, b), now)
    ensures Expired(Run(HEALTHY, p, a), now) == Expired(Run(HEALTHY, p, b), now)
    ensures Failed(Run(HEALTHY, p, a), p, now) == Failed(Run(HEALTHY, p, b), p, now)
  {
    RecordIgnoresChecks(p, a);
    RecordIgnoresChecks(p, b);
    RunRefines(p, a, now);
    RunRefines(p, b, now);
  }

  // ----- The threshold and the deadline, from the history itself

  function Failures(events: seq<Event>): seq<int> {
    if |events| == 0 then []
    else
      var front := Failures(events[..|events| - 1]);
      if events[|events| - 1].Failure? then front + [events[|events| - 1].now] else front
  }

  ghost predicate NoResponse(events: seq<Event>) {
    forall k | 0 <= k < |events| :: !events[k].Response?
  }

  /** The end of the ejection that the `fail`-th of these failures began and each later one prolonged. */
  function EndOf(p: Policy, times: seq<int>): int
    requires 1 <= p.fail <= |times|
  {
    times[p.fail - 1] + (1 + |times| - p.fail) * p.cool
  }

  predicate Over(p: Policy, times: seq<int>, now: int) {
    1 <= p.fail <= |times| && now >= EndOf(p, times)
  }

  /** The failures since the last response or, if that is later, from the first one on that found an ejection over. */
  function Stretch(p: Policy, events: seq<Event>): seq<int> {
    if |events| == 0 then [] else Stretched(p, Stretch(p, events[..|events| - 1]), events[|events| - 1])
  }

  function Stretched(p: Policy, times: seq<int>, e: Event): seq<int> {
    match e
    case Response => []
    case Failure(now) => if Over(p, times, now) then [now] else times + [now]
    case _ => times
  }

  /** Each failure after the `fail`-th came while the ejection it prolongs was still running. */
  ghost predicate Prolonging(p: Policy, times: seq<int>) {
    forall j | 1 <= p.fail <= j < |times| :: !Over(p, times[..j], times[j])
  }

  lemma ProlongingGrows(p: Policy, times: seq<int>, now: int)
    requires Prolonging(p, times) && !Over(p, times, now)
    ensures Prolonging(p, times + [now])
  {
    var longer := times + [now];
    forall j | 1 <= p.fail <= j < |longer|
      ensures !Over(p, longer[..j], longer[j])
    {
      assert longer[..j] == times[..j];
      assert times[..|times|] == times;
    }
  }

  /** Event `k` is the first of a stretch: after a response, or a failure that finds an ejection over. */
  ghost predicate Begins(p: Policy, events: seq<Event>, k: nat) {
    && 0 < k <= |events|
    && (events[k - 1].Response?
        || (k < |events| && events[k].Failure? && Over(p, Stretch(p, events[..k]), events[k].now)))
  }

  /** From `k` on, where it begins, there is no response, and each failure after the `fail`-th prolongs a running ejection. */
  ghost predicate StretchesFrom(p: Policy, events: seq<Event>, k: nat) {
    && k <= |events| && (k == 0 || Begins(p, events, k))
    && NoResponse(events[k..]) && Failures(events[k..]) == Stretch(p, events) && Prolonging(p, Stretch(p, events))
  }

  lemma FailuresAppend(events: seq<Event>, e: Event)
    ensures Failures(events + [e]) == if e.Failure? then Failures(events) + [e.now] else Failures(events)
  {
    assert (events + [e])[..|events|] == events;
  }

  lemma StretchAppend(p: Policy, events: seq<Event>, e: Event)
    ensures Stretch(p, events + [e]) == Stretched(p, Stretch(p, events), e)
  {
    assert (events + [e])[..|events|] == events;
  }

  lemma StretchGoesOn(p: Policy, events: seq<Event>, e: Event, k: nat)
    requires StretchesFrom(p, events, k) && !e.Response? && (e.Failure? ==> !Over(p, Stretch(p, events), e.now))
    ensures StretchesFrom(p, events + [e], k)
  {
    var longer := events + [e];
    assert longer[..k] == events[..k] && longer[k..] == events[k..] + [e];
    FailuresAppend(events[k..], e);
    StretchAppend(p, events, e);
    if e.Failure? {
      ProlongingGrows(p, Stretch(p, events), e.now);
    }
  }

  lemma OneProlongs(p: Policy, now: int)
    ensures Prolonging(p, [now])
  {
  }

  lemma OverMeansSome(p: Policy, times: seq<int>, now: int)
    requires Over(p, times, now)
    ensures |times| > 0
  {
  }

  lemma StretchStarts(p: Policy, events: seq<Event>, e: Event)
    requires e.Failure? && Over(p, Stretch(p, events), e.now)
    ensures StretchesFrom(p, events + [e], |events|)
  {
    var longer, k := events + [e], |events|;
    OverMeansSome(p, Stretch(p, events), e.now);
    assert longer[..k] == events && longer[k] == e && longer[k..] == [e];
    assert Begins(p, longer, k);
    assert Failures([e]) == [e.now] by {
      FailuresAppend([], e);
      assert [] + [e] == [e];
    }
    StretchAppend(p, events, e);
    OneProlongs(p, e.now);
  }

  /** What a stretch is, over every run: the failures since the last response or the first one after an ejection's end. */
  lemma {:induction false} StretchIs(p: Policy, events: seq<Event>) returns (k: nat)
    ensures StretchesFrom(p, events, k)
  {
    if |events| == 0 {
      return 0;
    }
    var front, e := events[..|events| - 1], events[|events| - 1];
    assert events == front + [e];
    if e.Response? {
      k := |events|;
    } else if e.Failure? && Over(p, Stretch(p, front), e.now) {
      k := |front|;
      StretchStarts(p, front, e);
    } else {
      k := StretchIs(p, front);
      StretchGoesOn(p, front, e, k);
    }
  }

  /**
   Over every run: the target is ejected exactly when its stretch holds `fail` failures, since the `fail`-th
   of them, and remembers each later one.
   */
  lemma {:induction false} EjectedAtTheThreshold(p: Policy, events: seq<Event>)
    requires p.Valid()
    ensures var times := Stretch(p, events);
            RecordOf(p, events) == if |times| < p.fail then Counting(|times|)
                                   else Ejected(times[p.fail - 1], |times| - p.fail)
  {
    if |events| > 0 {
      EjectedAtTheThreshold(p, events[..|events| - 1]);
    }
  }

  /**
   The same on the stored state, for every run whose clock does not go back: a check at `now` says no exactly
   until the fail-th failure's time plus one `cool` for the ejection and one for each later failure.
   */
  lemma StoredDeadline(p: Policy, events: seq<Event>, now: int)
    requires p.Valid() && Ordered(events, now)
    ensures var times, t := Stretch(p, events), Run(HEALTHY, p, events);
            if |times| < p.fail || Over(p, times, now) then AvailableAt(t, now)
            else !AvailableAt(t, now) && t == Target(0, Some(EndOf(p, times)))
  {
    EjectedAtTheThreshold(p, events);
    RunRefines(p, events, now);
  }

  /** Whatever led to an ejection is forgotten by the first failure after its end. */
  lemma {:induction false} ExpiryRestarts(p: Policy, before: seq<Event>, after: seq<Event>)
    requires p.Valid() && RecordOf(p, before).Ejected? && NoResponse(after)
    requires Failures(after) != [] ==> Failures(after)[0] >= Deadline(RecordOf(p, before), p)
    ensures RecordOf(p, before + after) == if Failures(after) == [] then RecordOf(p, before) else RecordOf(p, after)
  {
    if |after| == 0 {
      assert before + after == before;
    } else {
      var front := after[..|after| - 1];
      assert (before + after)[..|before + after| - 1] == before + front;
      ExpiryRestarts(p, before, front);
      if Failures(front) == [] {
        NothingCounted(p, front);
      }
    }
  }

  lemma {:induction false} NothingCounted(p: Policy, events: seq<Event>)
    requires NoResponse(events) && Failures(events) == []
    ensures RecordOf(p, events) == Counting(0)
  {
    if |events| > 0 {
      NothingCounted(p, events[..|events| - 1]);
    }
  }

  /** Whatever came before a response is forgotten, so the counting above starts again after each one. */
  lemma {:induction false} ResponseRestarts(p: Policy, before: seq<Event>, after: seq<Event>)
    ensures RecordOf(p, before + [Response] + after) == RecordOf(p, after)
  {
    var events := before + [Response] + after;
    if |after| == 0 {
      assert events[..|events| - 1] == before;
    } else {
      assert events[..|events| - 1] == before + [Response] + after[..|after| - 1];
      ResponseRestarts(p, before, after[..|after| - 1]);
    }
  }

  // ----- Probes and retirement

  /** What happens to a target of a generation, probes and retirement included. */
  datatype Happening =
    | Checking(now: int)
    | Attempt(ended: bool, responded: bool, failed: bool, now: int)
    | Probe(stopped: bool, timedOut: bool, healthy: bool, now: int)
    | Retirement

  datatype Live = Live(target: Target, retired: bool)

  function EventOf(retired: bool, h: Happening): Event {
    match h
    case Checking(now) => Check(now)
    case Attempt(ended, responded, failed, now) => AttemptEvent(ended, responded, failed, now)
    case Probe(stopped, timedOut, healthy, now) => ProbeEvent(retired, stopped, timedOut, healthy, now)
    case Retirement => Ignored
  }

  function Lived(l: Live, p: Policy, h: Happening): Live {
    Live(Stepped(l.target, p, EventOf(l.retired, h)), l.retired || h.Retirement?)
  }

  function LiveRun(l: Live, p: Policy, hs: seq<Happening>): Live {
    if |hs| == 0 then l else Lived(LiveRun(l, p, hs[..|hs| - 1]), p, hs[|hs| - 1])
  }

  function Answer(l: Live, h: Happening): seq<bool> {
    if h.Checking? then [AvailableAt(l.target, h.now)] else []
  }

  /** What the checks of a run answer. */
  function Answers(l: Live, p: Policy, hs: seq<Happening>): seq<bool> {
    if |hs| == 0 then []
    else Answers(l, p, hs[..|hs| - 1]) + Answer(LiveRun(l, p, hs[..|hs| - 1]), hs[|hs| - 1])
  }

  function EventsOf(retired: bool, hs: seq<Happening>): seq<Event> {
    if |hs| == 0 then []
    else EventsOf(retired, hs[..|hs| - 1]) + [EventOf(retired || Retirement in hs[..|hs| - 1], hs[|hs| - 1])]
  }

  lemma LiveAppend(l: Live, p: Policy, hs: seq<Happening>, h: Happening)
    ensures LiveRun(l, p, hs + [h]) == Lived(LiveRun(l, p, hs), p, h)
    ensures Answers(l, p, hs + [h]) == Answers(l, p, hs) + Answer(LiveRun(l, p, hs), h)
  {
    assert (hs + [h])[..|hs|] == hs;
  }

  lemma RunAppend(t: Target, p: Policy, events: seq<Event>, e: Event)
    ensures Run(t, p, events + [e]) == Stepped(Run(t, p, events), p, e)
  {
    assert (events + [e])[..|events|] == events;
  }

  lemma {:induction false} LiveRetired(l: Live, p: Policy, hs: seq<Happening>)
    ensures LiveRun(l, p, hs).retired <==> l.retired || Retirement in hs
  {
    if |hs| > 0 {
      LiveRetired(l, p, hs[..|hs| - 1]);
      assert hs == hs[..|hs| - 1] + [hs[|hs| - 1]];
    }
  }

  /** Such a run is a run of the events above, so everything proved about those holds of it. */
  lemma {:induction false} LiveIsRun(l: Live, p: Policy, hs: seq<Happening>)
    ensures LiveRun(l, p, hs).target == Run(l.target, p, EventsOf(l.retired, hs))
  {
    if |hs| > 0 {
      var front, h := hs[..|hs| - 1], hs[|hs| - 1];
      LiveIsRun(l, p, front);
      LiveRetired(l, p, front);
      RunAppend(l.target, p, EventsOf(l.retired, front), EventOf(l.retired || Retirement in front, h));
    }
  }

  lemma {:induction false} LiveConcat(l: Live, p: Policy, a: seq<Happening>, b: seq<Happening>)
    ensures LiveRun(l, p, a + b) == LiveRun(LiveRun(l, p, a), p, b)
    decreases |b|
  {
    if |b| == 0 {
      assert a + b == a;
    } else {
      var front, h := b[..|b| - 1], b[|b| - 1];
      assert b == front + [h] && a + b == (a + front) + [h];
      LiveConcat(l, p, a, front);
      LiveAppend(l, p, a + front, h);
      LiveAppend(LiveRun(l, p, a), p, front, h);
    }
  }

  lemma {:induction false} AnswersConcat(l: Live, p: Policy, a: seq<Happening>, b: seq<Happening>)
    ensures Answers(l, p, a + b) == Answers(l, p, a) + Answers(LiveRun(l, p, a), p, b)
    decreases |b|
  {
    if |b| == 0 {
      assert a + b == a;
    } else {
      var front, h := b[..|b| - 1], b[|b| - 1];
      assert b == front + [h] && a + b == (a + front) + [h];
      AnswersConcat(l, p, a, front);
      LiveConcat(l, p, a, front);
      LiveAppend(l, p, a + front, h);
      LiveAppend(LiveRun(l, p, a), p, front, h);
    }
  }

  function WithoutProbes(hs: seq<Happening>): seq<Happening> {
    if |hs| == 0 then []
    else if hs[|hs| - 1].Probe? then WithoutProbes(hs[..|hs| - 1])
    else WithoutProbes(hs[..|hs| - 1]) + [hs[|hs| - 1]]
  }

  lemma {:induction false} RetiredRun(l: Live, p: Policy, hs: seq<Happening>)
    requires l.retired
    ensures LiveRun(l, p, hs) == LiveRun(l, p, WithoutProbes(hs)) && LiveRun(l, p, hs).retired
    ensures Answers(l, p, hs) == Answers(l, p, WithoutProbes(hs))
  {
    if |hs| > 0 {
      var front, h := hs[..|hs| - 1], hs[|hs| - 1];
      RetiredRun(l, p, front);
      if h.Probe? {
        assert Answers(l, p, front) + [] == Answers(l, p, front);
      } else {
        LiveAppend(l, p, WithoutProbes(front), h);
      }
    }
  }

  /** Without probes, it does not matter to the events whether the generation is retired. */
  lemma {:induction false} NoProbesNoDifference(hs: seq<Happening>)
    ensures EventsOf(true, WithoutProbes(hs)) == EventsOf(false, WithoutProbes(hs))
  {
    if |hs| > 0 {
      var kept, h := WithoutProbes(hs[..|hs| - 1]), hs[|hs| - 1];
      NoProbesNoDifference(hs[..|hs| - 1]);
      assert (kept + [h])[..|kept|] == kept;
    }
  }

  // ----- What counts and what does not

  /** The error of an attempt whose own context has ended, without any response, and a probe of a cancelled generation. */
  predicate Silent(h: Happening) {
    match h
    case Attempt(ended, responded, failed, _) => ended && failed && !responded
    case Probe(stopped, _, _, _) => stopped
    case _ => false
  }

  function WithoutSilent(hs: seq<Happening>): seq<Happening> {
    if |hs| == 0 then []
    else if Silent(hs[|hs| - 1]) then WithoutSilent(hs[..|hs| - 1])
    else WithoutSilent(hs[..|hs| - 1]) + [hs[|hs| - 1]]
  }

  /** Over every run: a client that goes away, and a probe that is called off, say nothing about the target. */
  lemma {:induction false} SilentHappeningsDoNotCount(l: Live, p: Policy, hs: seq<Happening>)
    ensures LiveRun(l, p, hs) == LiveRun(l, p, WithoutSilent(hs))
    ensures Answers(l, p, hs) == Answers(l, p, WithoutSilent(hs))
  {
    if |hs| > 0 {
      var front, h := hs[..|hs| - 1], hs[|hs| - 1];
      SilentHappeningsDoNotCount(l, p, front);
      if Silent(h) {
        assert Answers(l, p, front) + [] == Answers(l, p, front);
      } else {
        LiveAppend(l, p, WithoutSilent(front), h);
      }
    }
  }

  /** Any response heals, whatever came before it and even if the attempt's context has ended. */
  lemma ResponsesHeal(l: Live, p: Policy, hs: seq<Happening>, ended: bool, responded: bool, failed: bool, now: int)
    requires responded || !failed
    ensures LiveRun(l, p, hs + [Attempt(ended, responded, failed, now)]).target == Target(0, None)
    ensures !LiveRun(l, p, hs).retired ==> LiveRun(l, p, hs + [Probe(false, false, true, now)]).target == Target(0, None)
  {
    LiveAppend(l, p, hs, Attempt(ended, responded, failed, now));
    LiveAppend(l, p, hs, Probe(false, false, true, now));
  }

  /** The error of a live attempt without a response counts, and so does a probe that is late or not healthy. */
  lemma FailuresCount(l: Live, p: Policy, hs: seq<Happening>, timedOut: bool, healthy: bool, now: int)
    ensures LiveRun(l, p, hs + [Attempt(false, false, true, now)]).target == Failed(LiveRun(l, p, hs).target, p, now)
    ensures !LiveRun(l, p, hs).retired && (timedOut || !healthy) ==>
              LiveRun(l, p, hs + [Probe(false, timedOut, healthy, now)]).target == Failed(LiveRun(l, p, hs).target, p, now)
  {
    LiveAppend(l, p, hs, Attempt(false, false, true, now));
    LiveAppend(l, p, hs, Probe(false, timedOut, healthy, now));
  }

  /**
   Over every run: once the generation is retired, its probes change neither the target nor what any check
   answers; only the checks themselves and the attempts still in flight go on counting.
   */
  lemma RetirementSilencesProbes(l: Live, p: Policy, before: seq<Happening>, after: seq<Happening>)
    ensures var retired, rest := before + [Retirement], WithoutProbes(after);
            && LiveRun(l, p, retired + after) == LiveRun(l, p, retired + rest)
            && Answers(l, p, retired + after) == Answers(l, p, retired + rest)
            && LiveRun(l, p, retired + after).target == Run(LiveRun(l, p, before).target, p, EventsOf(false, rest))
  {
    var retired := before + [Retirement];
    var state := LiveRun(l, p, retired);
    LiveAppend(l, p, before, Retirement);
    LiveConcat(l, p, retired, after);
    LiveConcat(l, p, retired, WithoutProbes(after));
    AnswersConcat(l, p, retired, after);
    AnswersConcat(l, p, retired, WithoutProbes(after));
    RetiredRun(state, p, after);
    LiveIsRun(state, p, WithoutProbes(after));
    NoProbesNoDifference(after);
  }
}
