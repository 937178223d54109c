/**
 First-target selection and the retry target order of a named backend (proxy.go, `nextScheduledTargetIndex`,
 `nextTargetIndex`, `nextHealthyTargetIndex` and `retryTargetIndex`).

 A scan is given the clock reading of each eligibility check, the health state that concurrent requests have left
 by then, and the number of slots that they claim before each of its own further claims.
 */
module TargetSelection {
  import opened Arithmetic
  import opened TargetSchedule
  import opened TargetHealth
  import opened ClaimCycles

  // ----- The health-aware scan

  /** One claim after `k` claims of others. */
  function ClaimedAfter(slots: seq<int>, cursor: nat, k: nat): int
    requires |slots| > 0
  {
    Claimed(slots, Wrapped(cursor + k))
  }

  function Advanced(cursor: nat, k: nat): nat {
    Wrapped(cursor + k + 1)
  }

  /**
   What a scan works on: the stored health each check finds, the slots, the target claimed before the scan, the
   cursor it starts from, the claims of others before each of its own, and the clock reading of each check.
   */
  datatype Scan = Scan(
    views: seq<seq<Target>>, slots: seq<int>, first: int, cursor: nat, others: seq<nat>, readings: seq<int>)
  {
    predicate Valid() {
      |slots| > 0 && |others| + 1 == |readings| == |views| == |slots|
    }
  }

  /** The cursor once `j` further claims and the claims of others before them have been made. */
  function CursorAfter(s: Scan, j: nat): nat
    requires j <= |s.others|
  {
    if j == 0 then s.cursor else Advanced(CursorAfter(s, j - 1), s.others[j - 1])
  }

  /** The target of the scan's `j`-th check; check 0 is the slot claimed before the scan. */
  function Checked(s: Scan, j: nat): int
    requires s.Valid() && j < |s.slots|
  {
    if j == 0 then s.first else ClaimedAfter(s.slots, CursorAfter(s, j - 1), s.others[j - 1])
  }

  ghost predicate Eligible(s: Scan, j: nat, i: int) {
    && s.Valid() && j < |s.slots|
    && 0 <= i < |s.views[j]| && AvailableAt(s.views[j][i], s.readings[j])
  }

  ghost predicate Found(s: Scan, j: nat) {
    s.Valid() && j < |s.slots| && Eligible(s, j, Checked(s, j))
  }

  ghost predicate NoneBefore(s: Scan, j: nat) {
    forall k: nat | k < j :: !Found(s, k)
  }

  /** The scan ends at check `j`: with that target, its passed deadline forgotten, and with the cursor of that claim. */
  ghost predicate EndsAt(s: Scan, j: nat, index: int, after: nat, end: seq<Target>) {
    && Found(s, j) && NoneBefore(s, j)
    && index == Checked(s, j) && after == CursorAfter(s, j)
    && end == s.views[j][index := Expired(s.views[j][index], s.readings[j])]
  }

  /** The scan stops at its first eligible target, and with the first claimed one if a whole cycle has none. */
  ghost predicate Scanned(s: Scan, index: int, after: nat, end: seq<Target>) {
    && s.Valid()
    && ((exists j: nat :: EndsAt(s, j, index, after, end))
        ||
        (NoneBefore(s, |s.slots|) && index == s.first && after == CursorAfter(s, |s.others|)
         && end == s.views[|s.others|]))
  }

  /** What a retry scan works on: the target count, where it starts, and what each check finds. */
  datatype RetryScan = RetryScan(n: nat, x: nat, views: seq<seq<Target>>, readings: seq<int>) {
    predicate Valid() {
      0 < n == |views| == |readings| && forall j | 0 <= j < n :: |views[j]| == n
    }
  }

  ghost predicate RetryFound(s: RetryScan, j: nat) {
    s.Valid() && j < s.n && AvailableAt(s.views[j][Turn(s.x + j, s.n)], s.readings[j])
  }

  ghost predicate NoRetryBefore(s: RetryScan, j: nat) {
    forall k: nat | k < j :: !RetryFound(s, k)
  }

  ghost predicate RetryEndsAt(s: RetryScan, j: nat, index: int, end: seq<Target>) {
    && RetryFound(s, j) && NoRetryBefore(s, j)
    && index == Turn(s.x + j, s.n) && end == s.views[j][index := Expired(s.views[j][index], s.readings[j])]
  }

  /** The first eligible target from `x` on in cyclic target order, or the one at `x` if none is eligible. */
  ghost predicate RetryScanned(s: RetryScan, index: int, end: seq<Target>) {
    && s.Valid()
    && ((exists j: nat :: RetryEndsAt(s, j, index, end))
        ||
        (NoRetryBefore(s, s.n) && index == Turn(s.x, s.n) && end == s.views[s.n - 1]))
  }

  ghost predicate Sized(views: seq<seq<Target>>, n: nat) {
    forall j | 0 <= j < |views| :: |views[j]| == n
  }

  class Backend {
    const count: nat
    const schedule: seq<int>
    const health: BackendHealth?
    var nextIndex: nat

    ghost predicate Valid()
      reads this, health
    {
      && 0 < count
      && InRange(schedule, count)
      && nextIndex < TWO_TO_THE_64
      && (health != null ==> health.targets.Length == count)
    }

    constructor (count: nat, schedule: seq<int>, health: BackendHealth?)
      requires 0 < count && InRange(schedule, count)
      requires health != null ==> health.targets.Length == count
      ensures Valid() && nextIndex == 0
      ensures this.count == count && this.schedule == schedule && this.health == health
    {
      this.count, this.schedule, this.health := count, schedule, health;
      nextIndex := 0;
    }

    function Period(): nat {
      if |schedule| > 0 then |schedule| else count
    }

    /** One atomic claim.  A backend with a single slot does not move the cursor. */
    method NextScheduledTargetIndex() returns (index: nat)
      requires Valid()
      modifies this`nextIndex
      ensures Valid()
      ensures index < count && index == Claimed(Slots(schedule, count), old(nextIndex))
      ensures nextIndex == if Period() == 1 then old(nextIndex) else Wrapped(old(nextIndex) + 1)
      ensures Period() != 1 ==> nextIndex == if old(nextIndex) == 0xFFFF_FFFF_FFFF_FFFF then 0 else old(nextIndex) + 1
    {
      var period := count;
      if |schedule| > 0 { period := |schedule|; }
      if period == 1 {
        if |schedule| > 0 { return schedule[0]; }
        return 0;
      }
      var current := nextIndex;
      RemainderIs(nextIndex + 1, TWO_TO_THE_64);
      nextIndex := (nextIndex + 1) % TWO_TO_THE_64;
      RemainderIs(current, period);
      var slot := current % period;
      if |schedule| > 0 { return schedule[slot]; }
      return slot;
    }

    /** A claim of this request after `k` claims of concurrent requests. */
    method ClaimAfterOthers(k: nat) returns (index: nat)
      requires Valid() && Period() != 1
      modifies this`nextIndex
      ensures Valid()
      ensures index < count && index == ClaimedAfter(Slots(schedule, count), old(nextIndex), k)
      ensures nextIndex == Advanced(old(nextIndex), k)
    {
      CursorStep(nextIndex, k);
      nextIndex := Wrapped(nextIndex + k);
      index := NextScheduledTargetIndex();
    }

    /** An eligibility check of this request, after what concurrent requests have made of the health state. */
    method CheckAmongOthers(index: nat, view: seq<Target>, now: int) returns (ok: bool)
      requires Valid() && health != null && index < |view| == count
      modifies health.targets
      ensures ok == AvailableAt(view[index], now)
      ensures health.targets[..] == if ok then view[index := Expired(view[index], now)] else view
    {
      health.Become(view);
      ok := health.Available(index, now);
    }

    method NextHealthyTargetIndex(first: nat, others: seq<nat>, views: seq<seq<Target>>, readings: seq<int>) returns (index: nat)
      requires Valid() && health != null && first < count
      requires |others| + 1 == |readings| == |views| == Period() && Sized(views, count)
      modifies this`nextIndex, health.targets
      ensures Valid() && index < count
      ensures Scanned(Scan(views, Slots(schedule, count), first, old(nextIndex), others, readings),
                      index, nextIndex, health.targets[..])
    {
      ghost var s := Scan(views, Slots(schedule, count), first, nextIndex, others, readings);
      var period := count;
      if |schedule| > 0 { period := |schedule|; }
      index := first;
      var ok := CheckAmongOthers(index, views[0], readings[0]);
      if ok {
        assert EndsAt(s, 0, index, nextIndex, health.targets[..]);
        return;
      }
      for attempt := 1 to period
        invariant Valid() && health.targets[..] == views[attempt - 1]
        invariant nextIndex == CursorAfter(s, attempt - 1)
        invariant NoneBefore(s, attempt)
      {
        index := ClaimAfterOthers(others[attempt - 1]);
        assert index == Checked(s, attempt) && nextIndex == CursorAfter(s, attempt);
        ok := CheckAmongOthers(index, views[attempt], readings[attempt]);
        if ok {
          assert EndsAt(s, attempt, index, nextIndex, health.targets[..]);
          return;
        }
      }
      index := first;
    }

    /** The target of a request's first attempt. */
    method NextTargetIndex(others: seq<nat>, views: seq<seq<Target>>, readings: seq<int>) returns (index: nat)
      requires Valid()
      requires health != null ==> |others| + 1 == |readings| == |views| == Period() && Sized(views, count)
      modifies this`nextIndex, if health == null then {} else {health.targets}
      ensures Valid() && index < count
      ensures var slots, claim := Slots(schedule, count), old(nextIndex);
              var cursor := if Period() == 1 then claim else Wrapped(claim + 1);
              if health == null then index == Claimed(slots, claim) && nextIndex == cursor
              else Scanned(Scan(views, slots, Claimed(slots, claim), cursor, others, readings),
                           index, nextIndex, health.targets[..])
    {
      var first := NextScheduledTargetIndex();
      if health == null { return first; }
      index := NextHealthyTargetIndex(first, others, views, readings);
    }

    /** Additional attempt `attempt` of a request whose first target was `start`; the cursor stays where it is. */
    method RetryTargetIndex(start: nat, attempt: nat, views: seq<seq<Target>>, readings: seq<int>) returns (index: nat)
      requires Valid() && start < count
      requires |readings| == |views| == count && Sized(views, count)
      modifies if health == null then {} else {health.targets}
      ensures Valid() && index < count
      ensures health == null ==> index == Turn(start + attempt, count)
      ensures health != null ==> RetryScanned(RetryScan(count, start + attempt, views, readings), index, health.targets[..])
    {
      RemainderIs(start + attempt, count);
      index := (start + attempt) % count;
      if health == null { return; }
      ghost var s := RetryScan(count, start + attempt, views, readings);
      var first := index;
      for j := 0 to count
        invariant Valid() && (j > 0 ==> health.targets[..] == views[j - 1])
        invariant index == Turn(s.x + j, count)
        invariant NoRetryBefore(s, j)
      {
        var ok := CheckAmongOthers(index, views[j], readings[j]);
        if ok {
          assert RetryEndsAt(s, j, index, health.targets[..]);
          return;
        }
        NextTurn(s.x + j, count);
        index := index + 1;
        if index == count { index := 0; }
      }
      index := first;
    }
  }

  /** What check `k` of a retry scan looks at is free: it has no deadline, or one that has passed. */
  ghost predicate FreeAt(s: RetryScan, k: nat) {
    && s.Valid() && k < s.n
    && var t := s.views[k][(s.x + k) % s.n]; t.until.None? || t.until.value <= s.readings[k]
  }

  lemma FreeIsFound(s: RetryScan, k: nat)
    requires s.Valid() && k < s.n
    ensures FreeAt(s, k) <==> RetryFound(s, k)
  {
    RemainderIs(s.x + k, s.n);
  }

  /** The scan ends at check `j`, the first one that looks at a free target, and touches no other target. */
  ghost predicate FirstFree(s: RetryScan, j: nat, index: int, end: seq<Target>) {
    && FreeAt(s, j) && index == (s.x + j) % s.n && |end| == s.n
    && (forall k: nat | k < j :: !FreeAt(s, k))
    && end[index].until.None? && forall i | 0 <= i < s.n && i != index :: end[i] == s.views[j][i]
  }

  /** A retry scan, target by target: the first free one of `(x + k) mod n`, or `x mod n` if none of the `n` is free. */
  lemma RetryScanMeans(s: RetryScan, index: int, end: seq<Target>)
    requires RetryScanned(s, index, end)
    ensures 0 < s.n && 0 <= index < s.n
    ensures (exists j: nat :: FirstFree(s, j, index, end))
            || (index == s.x % s.n && end == s.views[s.n - 1] && forall k: nat | k < s.n :: !FreeAt(s, k))
  {
    forall k: nat | k < s.n
      ensures FreeAt(s, k) <==> RetryFound(s, k)
    {
      FreeIsFound(s, k);
    }
    RemainderIs(s.x, s.n);
    if j: nat :| RetryEndsAt(s, j, index, end) {
      RemainderIs(s.x + j, s.n);
      assert FirstFree(s, j, index, end);
    }
  }

  lemma NextTurn(x: nat, n: nat)
    requires n > 0
    ensures Turn(x + 1, n) == if Turn(x, n) + 1 == n then 0 else Turn(x, n) + 1
  {
    RemainderIs(x, n);
    RemainderIs(x + 1, n);
    DivSuccessor(x, n);
  }

  lemma {:induction false} CursorStep(cursor: nat, k: nat)
    ensures Wrapped(Wrapped(cursor + k) + 1) == Wrapped(cursor + k + 1)
    decreases cursor + k
  {
    RemainderShift(Wrapped(cursor + k), cursor + k, 1, TWO_TO_THE_64);
  }

  /** Without health, the attempts of one request go to pairwise distinct targets, since `tries` is at most the target count. */
  lemma RetryTargetsDistinct(start: nat, a: nat, b: nat, tries: nat, n: nat)
    requires start < n && a < b < tries <= n
    ensures Turn(start + a, n) != Turn(start + b, n)
  {
    RemainderSpread(start + a, b - a, n);
  }
}
