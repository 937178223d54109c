/**
 The timed response body of a direct target (proxy.go, `directBody`): one underlying body shared by readers, a
 timer, a cancellation callback and closers, finalised once.

 The class holds the sections that run under the mutex.  The state machine interleaves any number of
 operations, each section and each unlocked action being one step.
 */
module DirectBody {
  import opened Prelude

  datatype Error = EndOfBody | BrokenRead | Canceled | DeadlineExceeded | ReadAfterClose

  /** What the mutex protects. */
  datatype Shared = Shared(closed: bool, cause: Option<Error>)

  const OPEN := Shared(false, None)

  /** The locked part of `finalize`: the new state, the returned error, and whether this call has to close the body. */
  function Finalized(s: Shared, fallback: Option<Error>, ctxErr: Option<Error>): (Shared, Option<Error>, bool) {
    if s.closed then (s, if s.cause.None? then fallback else s.cause, false)
    else
      var cause := if ctxErr.Some? then ctxErr else fallback;
      (Shared(true, cause), cause, true)
  }

  /** The locked check of a read: what it has to return, if the body is finalised. */
  function Checked(s: Shared): Option<Error> {
    if !s.closed then None else if s.cause.Some? then s.cause else Some(ReadAfterClose)
  }

  class DirectBody {
    var closed: bool
    var cause: Option<Error>
    var attached: bool  // the underlying body has not been handed to a finaliser yet

    ghost predicate Valid()
      reads this
    {
      attached <==> !closed
    }

    ghost function State(): Shared
      reads this
    {
      Shared(closed, cause)
    }

    constructor ()
      ensures Valid() && State() == OPEN
    {
      closed, cause, attached := false, None, true;
    }

    method Check() returns (err: Option<Error>)
      requires Valid()
      ensures err == Checked(State())
    {
      if closed {
        if cause.Some? { return cause; }
        return Some(ReadAfterClose);
      }
      return None;
    }

    /** `ctxErr` is the context's error, sampled while the lock is held. */
    method Finalize(defaultCause: Option<Error>, ctxErr: Option<Error>) returns (err: Option<Error>, mustClose: bool)
      requires Valid()
      modifies this
      ensures Valid() && (State(), err, mustClose) == Finalized(old(State()), defaultCause, ctxErr)
      ensures mustClose <==> old(attached)
    {
      if closed {
        if cause.None? { return defaultCause, false; }
        return cause, false;
      }
      err := defaultCause;
      if ctxErr.Some? { err := ctxErr; }
      closed, cause := true, err;
      mustClose := attached;
      attached := false;
    }

    /**
     A read.  `err` is what the underlying read brings, `rival` the cause and the context's error of another
     finalisation during it, and `ctxErr` the context's error when it is over.
     */
    method Read(err: Option<Error>, rival: Option<(Option<Error>, Option<Error>)>, ctxErr: Option<Error>)
      returns (result: Option<Error>, mustClose: bool)
      requires Valid()
      modifies this
      ensures Valid()
      ensures old(closed) ==> result == Checked(old(State())) && State() == old(State()) && !mustClose
      ensures !old(closed) ==>
                var s := if rival.Some? then Finalized(old(State()), rival.value.0, rival.value.1).0 else old(State());
                if err.None? && ctxErr.None? then State() == s && result == Checked(s) && !mustClose
                else (State(), result, mustClose) == Finalized(s, if err.None? then ctxErr else err, ctxErr)
      ensures result.None? <==> !old(closed) && rival.None? && err.None? && ctxErr.None?
    {
      result := Check();
      if result.Some? { return result, false; }
      if rival.Some? {
        var _, _ := Finalize(rival.value.0, rival.value.1);
      }
      if err.None? {
        if ctxErr.Some? {
          result, mustClose := Finalize(ctxErr, ctxErr);
          return;
        }
        result := Check();
        return result, false;
      }
      result, mustClose := Finalize(err, ctxErr);
    }
  }

  // ----- The interleavings

  datatype Operation = Read | Close | Expire | Cancel

  datatype Thread =
    | Started(op: Operation)
    | Reading                                                  // in the underlying read, without the lock
    | Answered(err: Option<Error>)                             // the underlying read has returned
    | Rechecking                                               // it brought no error, and the context was alive
    | Finalizing(op: Operation, fallback: Option<Error>)
    | Closing(op: Operation, result: Option<Error>)            // has finalised, and now closes the underlying body
    | Done(op: Operation, result: Option<Error>)

  datatype State = State(shared: Shared, ctxErr: Option<Error>, closes: nat, threads: seq<Thread>)

  datatype Step =
    | Spawn(op: Operation)
    | EndContext(cause: Error)
    | Advance(thread: nat)
    | AnswerRead(thread: nat, err: Option<Error>)

  predicate Enabled(s: State, step: Step) {
    match step
    case Spawn(op) => op == Cancel ==> s.ctxErr.Some?
    case EndContext(_) => s.ctxErr.None?
    case Advance(t) => t < |s.threads| && !s.threads[t].Reading? && !s.threads[t].Done?
    case AnswerRead(t, _) => t < |s.threads| && s.threads[t].Reading?
  }

  function Moved(s: State, t: nat): State
    requires t < |s.threads| && !s.threads[t].Reading? && !s.threads[t].Done?
  {
    match s.threads[t]
    case Started(Read) =>
      var err := Checked(s.shared);
      s.(threads := s.threads[t := if err.Some? then Done(Read, err) else Reading])
    case Started(Expire) => s.(threads := s.threads[t := Finalizing(Expire, Some(DeadlineExceeded))])
    case Started(op) => s.(threads := s.threads[t := Finalizing(op, None)])
    case Answered(Some(err)) => s.(threads := s.threads[t := Finalizing(Read, Some(err))])
    case Answered(None) => s.(threads := s.threads[t := if s.ctxErr.Some? then Finalizing(Read, s.ctxErr) else Rechecking])
    case Rechecking => s.(threads := s.threads[t := Done(Read, Checked(s.shared))])
    case Finalizing(op, fallback) =>
      var (shared, result, first) := Finalized(s.shared, fallback, s.ctxErr);
      s.(shared := shared, threads := s.threads[t := if first then Closing(op, result) else Done(op, result)])
    case Closing(op, result) => s.(closes := s.closes + 1, threads := s.threads[t := Done(op, result)])
  }

  function Apply(s: State, step: Step): State
    requires Enabled(s, step)
  {
    match step
    case Spawn(op) => s.(threads := s.threads + [Started(op)])
    case EndContext(cause) => s.(ctxErr := Some(cause))
    case Advance(t) => Moved(s, t)
    case AnswerRead(t, err) => s.(threads := s.threads[t := Answered(err)])
  }

  ghost predicate Runs(s: State, steps: seq<Step>, t: State)
    decreases |steps|
  {
    if |steps| == 0 then s == t else Enabled(s, steps[0]) && Runs(Apply(s, steps[0]), steps[1..], t)
  }

  const INITIAL := State(OPEN, None, 0, [])

  // ----- The underlying body is closed exactly once

  function ClosingCount(threads: seq<Thread>): nat {
    if |threads| == 0 then 0
    else ClosingCount(threads[..|threads| - 1]) + if threads[|threads| - 1].Closing? then 1 else 0
  }

  lemma {:induction false} ClosingCountUpdate(threads: seq<Thread>, t: nat, after: Thread)
    requires t < |threads|
    ensures ClosingCount(threads[t := after])
            == ClosingCount(threads) - (if threads[t].Closing? then 1 else 0) + (if after.Closing? then 1 else 0)
  {
    var last := |threads| - 1;
    if t < last {
      ClosingCountUpdate(threads[..last], t, after);
      assert threads[t := after][..last] == threads[..last][t := after];
    } else {
      assert threads[t := after][..last] == threads[..last];
    }
  }

  /** Closes done and closes owed together are one from the first finalisation on, and none before. */
  ghost predicate ClosesBalance(s: State) {
    s.closes + ClosingCount(s.threads) == if s.shared.closed then 1 else 0
  }

  lemma StepBalances(s: State, step: Step)
    requires ClosesBalance(s) && Enabled(s, step)
    ensures ClosesBalance(Apply(s, step))
  {
    match step {
      case Spawn(op) => assert (s.threads + [Started(op)])[..|s.threads|] == s.threads;
      case EndContext(_) =>
      case Advance(t) => ClosingCountUpdate(s.threads, t, Moved(s, t).threads[t]);
      case AnswerRead(t, err) => ClosingCountUpdate(s.threads, t, Answered(err));
    }
  }

  lemma {:induction false} RunBalances(s: State, steps: seq<Step>, t: State)
    requires ClosesBalance(s) && Runs(s, steps, t)
    ensures ClosesBalance(t)
    decreases |steps|
  {
    if |steps| > 0 {
      StepBalances(s, steps[0]);
      RunBalances(Apply(s, steps[0]), steps[1..], t);
    }
  }

  lemma {:induction false} NoneClosing(threads: seq<Thread>)
    requires forall t | 0 <= t < |threads| :: !threads[t].Closing?
    ensures ClosingCount(threads) == 0
  {
    if |threads| > 0 {
      NoneClosing(threads[..|threads| - 1]);
    }
  }

  /** In every interleaving: never closed twice, and once nothing is under way, closed if and only if finalised. */
  lemma ClosedExactlyOnce(steps: seq<Step>, s: State)
    requires Runs(INITIAL, steps, s)
    ensures s.closes <= 1 && (s.closes == 1 ==> s.shared.closed)
    ensures (forall t | 0 <= t < |s.threads| :: !s.threads[t].Closing?) ==> s.closes == if s.shared.closed then 1 else 0
  {
    RunBalances(INITIAL, steps, s);
    if forall t | 0 <= t < |s.threads| :: !s.threads[t].Closing? {
      NoneClosing(s.threads);
    }
  }

  // ----- The first finalisation decides

  /** From then on the cause never changes, whatever runs. */
  lemma {:induction false} CauseIsFixed(s: State, steps: seq<Step>, t: State)
    requires Runs(s, steps, t) && s.shared.closed
    ensures t.shared == s.shared
    decreases |steps|
  {
    if |steps| > 0 {
      CauseIsFixed(Apply(s, steps[0]), steps[1..], t);
    }
  }

  /** The step that finalises: a context that has already ended overrides the cause the finaliser came with. */
  lemma FirstCause(s: State, step: Step)
    requires Enabled(s, step) && !s.shared.closed && Apply(s, step).shared.closed
    ensures step.Advance? && s.threads[step.thread].Finalizing?
    ensures Apply(s, step).shared.cause == if s.ctxErr.Some? then s.ctxErr else s.threads[step.thread].fallback
  {
  }

  /**
   Over every run that finalises the body: the step that does it, and the cause it fixes for the rest of the run,
   which is the context's if that has ended by then and otherwise the one the finaliser came with.
   */
  lemma {:induction false} FirstFinalization(s: State, steps: seq<Step>, t: State) returns (k: nat, u: State)
    requires Runs(s, steps, t) && !s.shared.closed && t.shared.closed
    ensures k < |steps| && Runs(s, steps[..k], u) && !u.shared.closed && Enabled(u, steps[k])
    ensures steps[k].Advance? && u.threads[steps[k].thread].Finalizing?
    ensures t.shared == Shared(true, if u.ctxErr.Some? then u.ctxErr else u.threads[steps[k].thread].fallback)
    decreases |steps|
  {
    var next := Apply(s, steps[0]);
    if next.shared.closed {
      k, u := 0, s;
      FirstCause(s, steps[0]);
      CauseIsFixed(next, steps[1..], t);
    } else {
      k, u := FirstFinalization(next, steps[1..], t);
      k := k + 1;
      assert steps[..k][1..] == steps[1..][..k - 1];
    }
  }

  // ----- What each finaliser brings, and what latecomers get

  /** An expiry brings the deadline's error, a close and a cancellation bring none, and a read brings its own. */
  predicate BringsItsOwn(t: Thread) {
    t.Finalizing? ==>
      match t.op
      case Expire => t.fallback == Some(DeadlineExceeded)
      case Read => t.fallback.Some?
      case _ => t.fallback == None
  }

  /** Whoever has finalised and still has to close has the cause that was fixed. */
  predicate HasTheCause(s: State, t: Thread) {
    t.Closing? ==> s.shared.closed && t.result == s.shared.cause
  }

  ghost predicate InOrder(s: State) {
    forall k | 0 <= k < |s.threads| :: BringsItsOwn(s.threads[k]) && HasTheCause(s, s.threads[k])
  }

  lemma StepInOrder(s: State, step: Step)
    requires InOrder(s) && Enabled(s, step)
    ensures InOrder(Apply(s, step))
  {
  }

  lemma {:induction false} RunInOrder(s: State, steps: seq<Step>, t: State)
    requires InOrder(s) && Runs(s, steps, t)
    ensures InOrder(t)
    decreases |steps|
  {
    if |steps| > 0 {
      StepInOrder(s, steps[0]);
      RunInOrder(Apply(s, steps[0]), steps[1..], t);
    }
  }

  /** The cause of a finalised body, by the operation that finalised it and by whether the context had ended then. */
  lemma CauseByOperation(steps: seq<Step>, t: State) returns (op: Operation, ctxErr: Option<Error>)
    requires Runs(INITIAL, steps, t) && t.shared.closed
    ensures ctxErr.Some? ==> t.shared.cause == ctxErr
    ensures ctxErr.None? && op == Expire ==> t.shared.cause == Some(DeadlineExceeded)
    ensures ctxErr.None? && (op == Close || op == Cancel) ==> t.shared.cause == None
    ensures ctxErr.None? && op == Read ==> t.shared.cause.Some?
  {
    var k, u := FirstFinalization(INITIAL, steps, t);
    RunInOrder(INITIAL, steps[..k], u);
    op, ctxErr := u.threads[steps[k].thread].op, u.ctxErr;
    assert BringsItsOwn(u.threads[steps[k].thread]);
  }

  /** Once a cause is fixed, a call that is still under way gives that cause and nothing of its own. */
  ghost predicate Reports(s: State, r: nat, cause: Error) {
    && s.shared == Shared(true, Some(cause)) && r < |s.threads|
    && (s.threads[r].Closing? || s.threads[r].Done? ==> s.threads[r].result == Some(cause))
  }

  lemma StepReports(s: State, step: Step, r: nat, cause: Error)
    requires Reports(s, r, cause) && Enabled(s, step)
    ensures Reports(Apply(s, step), r, cause)
  {
  }

  lemma {:induction false} RunReports(s: State, steps: seq<Step>, t: State, r: nat, cause: Error)
    requires Reports(s, r, cause) && Runs(s, steps, t)
    ensures Reports(t, r, cause)
    decreases |steps|
  {
    if |steps| > 0 {
      StepReports(s, steps[0], r, cause);
      RunReports(Apply(s, steps[0]), steps[1..], t, r, cause);
    }
  }

  /**
   In every interleaving: when the body has been finalised with a cause, every read, and the finalisation of every close,
   expiry and cancellation, that is not over then ends with that cause, whatever it came with.
   */
  lemma LateCallsReportTheCause(before: seq<Step>, s: State, after: seq<Step>, t: State, r: nat, cause: Error)
    requires Runs(INITIAL, before, s) && Runs(s, after, t)
    requires s.shared == Shared(true, Some(cause)) && r < |s.threads| && !s.threads[r].Done?
    ensures r < |t.threads| && (t.threads[r].Done? ==> t.threads[r].result == Some(cause))
  {
    RunInOrder(INITIAL, before, s);
    assert HasTheCause(s, s.threads[r]);
    RunReports(s, after, t, r, cause);
  }

  /** A read that has begun after a plain close gets no further than the check. */
  predicate PlainlyClosed(s: State, r: nat) {
    && s.shared == Shared(true, None) && r < |s.threads|
    && (s.threads[r] == Started(Read) || s.threads[r] == Done(Read, Some(ReadAfterClose)))
  }

  /** In every interleaving: a read begun after the body was finalised without a cause never reaches it, and says so. */
  lemma {:induction false} ReadAfterAPlainClose(s: State, steps: seq<Step>, t: State, r: nat)
    requires PlainlyClosed(s, r) && Runs(s, steps, t)
    ensures PlainlyClosed(t, r)
    decreases |steps|
  {
    if |steps| > 0 {
      ReadAfterAPlainClose(Apply(s, steps[0]), steps[1..], t, r);
    }
  }

  // ----- Reads and finalisation

  predicate IsRead(t: Thread) {
    || t.Reading? || t.Answered? || t.Rechecking?
    || ((t.Started? || t.Finalizing? || t.Closing? || t.Done?) && t.op == Read)
  }

  /** A read on its way to finalising carries an error. */
  predicate CarriesError(t: Thread) {
    && (t.Finalizing? && t.op == Read ==> t.fallback.Some?)
    && (t.Closing? && t.op == Read ==> t.result.Some?)
  }

  ghost predicate ReadsCarryErrors(s: State) {
    forall t | 0 <= t < |s.threads| :: CarriesError(s.threads[t])
  }

  lemma {:induction false} RunCarriesErrors(s: State, steps: seq<Step>, t: State)
    requires ReadsCarryErrors(s) && Runs(s, steps, t)
    ensures ReadsCarryErrors(t)
    decreases |steps|
  {
    if |steps| > 0 {
      StepCarriesErrors(s, steps[0]);
      RunCarriesErrors(Apply(s, steps[0]), steps[1..], t);
    }
  }

  lemma StepCarriesErrors(s: State, step: Step)
    requires ReadsCarryErrors(s) && Enabled(s, step)
    ensures ReadsCarryErrors(Apply(s, step))
  {
    if step.Advance? {
      assert CarriesError(s.threads[step.thread]);
    }
  }

  /** The fate of a read that is not over when the body is finalised: it stays a read, and never returns success. */
  ghost predicate Doomed(s: State, r: nat) {
    && s.shared.closed && r < |s.threads| && IsRead(s.threads[r])
    && (s.threads[r].Done? ==> s.threads[r].result.Some?)
  }

  lemma StepDooms(s: State, step: Step, r: nat)
    requires Doomed(s, r) && ReadsCarryErrors(s) && Enabled(s, step)
    ensures Doomed(Apply(s, step), r)
  {
    assert CarriesError(s.threads[r]);
  }

  lemma {:induction false} RunDooms(s: State, steps: seq<Step>, t: State, r: nat)
    requires Doomed(s, r) && ReadsCarryErrors(s) && Runs(s, steps, t)
    ensures Doomed(t, r)
    decreases |steps|
  {
    if |steps| > 0 {
      StepDooms(s, steps[0], r);
      StepCarriesErrors(s, steps[0]);
      RunDooms(Apply(s, steps[0]), steps[1..], t, r);
    }
  }

  /** In every interleaving: a read that is still under way when the body is finalised returns an error. */
  lemma LateReadsFail(before: seq<Step>, s: State, after: seq<Step>, t: State, r: nat)
    requires Runs(INITIAL, before, s) && Runs(s, after, t)
    requires s.shared.closed && r < |s.threads| && IsRead(s.threads[r]) && !s.threads[r].Done?
    ensures r < |t.threads| && IsRead(t.threads[r])
    ensures t.threads[r].Done? ==> t.threads[r].result.Some?
  {
    RunCarriesErrors(INITIAL, before, s);
    RunDooms(s, after, t, r);
  }
}
