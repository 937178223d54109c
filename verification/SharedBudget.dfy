/**
 One retry budget shared by any number of concurrent requests (proxy.go, `retryBudget.reserve` under
 `roundTripWithStatusRetry`): what it bounds over all of them together.
 */
module SharedBudget {
  import opened RetryBudget
  import opened RetryEngine

  /** One request's policy and world, and its trace so far. */
  datatype Member = Member(policy: Policy, world: World, trace: seq<Event>)

  ghost predicate Lawful(m: Member) {
    m.policy.Valid() && m.world.Valid(m.policy) && m.policy.budgeted && Legal(m.policy, m.world, m.trace)
  }

  /** What the budget has answered in a trace: reserved or refused, in order. */
  function Asked(trace: seq<Event>): seq<bool> {
    if |trace| == 0 then []
    else
      var front := Asked(trace[..|trace| - 1]);
      match trace[|trace| - 1]
      case Reserved(_) => front + [true]
      case Refused(_) => front + [false]
      case _ => front
  }

  /** What the budget answers member `r`, when request `k` for a reservation comes from member `owners[k]`. */
  function AnswersTo(b: Limits, times: seq<int>, owners: seq<nat>, r: nat, k: nat): seq<bool>
    requires k <= |times| == |owners|
  {
    if k == 0 then []
    else if owners[k - 1] == r then AnswersTo(b, times, owners, r, k - 1) + [Granted(b, times, k - 1)]
    else AnswersTo(b, times, owners, r, k - 1)
  }

  /** The members' reservations, interleaved in any order, are the ones the shared budget has decided. */
  ghost predicate Shares(b: Limits, times: seq<int>, owners: seq<nat>, members: seq<Member>) {
    && |owners| == |times|
    && forall r: nat | r < |members| ::
         Lawful(members[r]) && Asked(members[r].trace) == AnswersTo(b, times, owners, r, |times|)
  }

  function Trues(answers: seq<bool>): nat {
    if |answers| == 0 then 0 else Trues(answers[..|answers| - 1]) + if answers[|answers| - 1] then 1 else 0
  }

  lemma TruesAppend(answers: seq<bool>, answer: bool)
    ensures Trues(answers + [answer]) == Trues(answers) + if answer then 1 else 0
  {
    assert (answers + [answer])[..|answers|] == answers;
  }

  lemma {:induction false} AskedTrues(trace: seq<Event>)
    ensures Trues(Asked(trace)) == Reservations(trace)
  {
    if |trace| > 0 {
      AskedTrues(trace[..|trace| - 1]);
      TruesAppend(Asked(trace[..|trace| - 1]), trace[|trace| - 1].Reserved?);
    }
  }

  // ----- Counting over all members

  function AllAnswers(b: Limits, times: seq<int>, owners: seq<nat>, n: nat, k: nat): nat
    requires k <= |times| == |owners|
  {
    if n == 0 then 0 else AllAnswers(b, times, owners, n - 1, k) + Trues(AnswersTo(b, times, owners, n - 1, k))
  }

  lemma {:induction false} NextAnswer(b: Limits, times: seq<int>, owners: seq<nat>, n: nat, k: nat)
    requires k < |times| == |owners|
    ensures AllAnswers(b, times, owners, n, k + 1)
            == AllAnswers(b, times, owners, n, k) + if owners[k] < n && Granted(b, times, k) then 1 else 0
  {
    if n > 0 {
      NextAnswer(b, times, owners, n - 1, k);
      TruesAppend(AnswersTo(b, times, owners, n - 1, k), Granted(b, times, k));
    }
  }

  lemma NoAnswers(b: Limits, times: seq<int>, owners: seq<nat>, n: nat)
    requires |times| == |owners|
    ensures AllAnswers(b, times, owners, n, 0) == 0
  {
    if n > 0 {
      NoAnswers(b, times, owners, n - 1);
    }
  }

  /** Every grant goes to one member at most. */
  lemma {:induction false} AnswersAreGrants(b: Limits, times: seq<int>, owners: seq<nat>, n: nat, k: nat)
    requires k <= |times| == |owners|
    ensures AllAnswers(b, times, owners, n, k) <= Grants(b, times, k)
  {
    if k == 0 {
      NoAnswers(b, times, owners, n);
    } else {
      AnswersAreGrants(b, times, owners, n, k - 1);
      NextAnswer(b, times, owners, n, k - 1);
    }
  }

  /** The attempts of a member after its first. */
  function Additional(m: Member): nat {
    if Attempts(m.trace) == 0 then 0 else Attempts(m.trace) - 1
  }

  function AllAdditional(members: seq<Member>, n: nat): nat
    requires n <= |members|
  {
    if n == 0 then 0 else AllAdditional(members, n - 1) + Additional(members[n - 1])
  }

  lemma {:induction false} AdditionalArePaidFor(b: Limits, times: seq<int>, owners: seq<nat>, members: seq<Member>, n: nat)
    requires Shares(b, times, owners, members) && n <= |members|
    ensures AllAdditional(members, n) <= AllAnswers(b, times, owners, n, |times|)
  {
    if n > 0 {
      var m := members[n - 1];
      AdditionalArePaidFor(b, times, owners, members, n - 1);
      assert Lawful(m);
      AttemptsAccounted(m.policy, m.world, m.trace);
      AskedTrues(m.trace);
    }
  }

  /** Every attempt after a request's first has been granted by the shared budget, each by a grant of its own. */
  lemma AdditionalAreGranted(b: Limits, times: seq<int>, owners: seq<nat>, members: seq<Member>)
    requires Shares(b, times, owners, members)
    ensures AllAdditional(members, |members|) <= Grants(b, times, |times|)
  {
    AdditionalArePaidFor(b, times, owners, members, |members|);
    AnswersAreGrants(b, times, owners, |members|, |times|);
  }

  /** All that the budget grants from the first reservation to the last. */
  lemma GrantsOfAll(b: Limits, times: seq<int>) returns (most: int)
    requires b.Valid() && Ordered(times)
    ensures most == MostGrants(b, times) && Grants(b, times, |times|) <= most
  {
    most := MostGrants(b, times);
    if |times| > 0 {
      var last := |times| - 1;
      GrantsFromTheStart(b, times, last);
      assert last + 1 == |times|;
    }
  }

  /** `max` for each window that can have begun. */
  function MostGrants(b: Limits, times: seq<int>): int
    requires b.Valid()
  {
    if |times| == 0 then 0 else b.max * (1 + (times[|times| - 1] - times[0]) / b.window)
  }

  /**
   However many requests share a budget and however their steps interleave, and at any moment of their runs: all
   their attempts after the first, taken together, are at most `max * (1 + floor((t - t0) / window))` from the first
   reservation at `t0` to the last at `t`.
   */
  lemma AdditionalAttemptsAreBounded(b: Limits, times: seq<int>, owners: seq<nat>, members: seq<Member>)
    requires b.Valid() && Ordered(times) && Shares(b, times, owners, members)
    ensures AllAdditional(members, |members|) <= MostGrants(b, times)
  {
    var most := GrantsOfAll(b, times);
    AdditionalAreGranted(b, times, owners, members);
  }
}
