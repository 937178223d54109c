/**
 Which concurrent claims the health-aware scan tolerates (proxy.go, `nextHealthyTargetIndex`).
 */
module ScanInterference {
  import opened Prelude
  import opened TargetSchedule
  import opened TargetHealth
  import opened ClaimCycles
  import opened TargetSelection

  // ----- Scans under interference

  /** The claims made from the scan's first one up to its `j`-th check, those of others included. */
  function Offset(others: seq<nat>, j: nat): nat
    requires j <= |others|
  {
    if j == 0 then 0 else Offset(others, j - 1) + others[j - 1] + 1
  }

  /** The cursor after claim `c`; a single slot needs no cursor. */
  function NextCursor(slots: seq<int>, c: nat): nat {
    if |slots| == 1 then c else c + 1
  }

  /** A scan begun with claim `c`, during which the cursor does not wrap. */
  ghost predicate Unwrapped(s: Scan, c: nat) {
    && s.Valid() && s.first == Claimed(s.slots, c) && s.cursor == NextCursor(s.slots, c)
    && c + Offset(s.others, |s.others|) + 1 < TWO_TO_THE_64
  }

  lemma {:induction false} OffsetGrows(others: seq<nat>, j: nat, k: nat)
    requires j <= k <= |others|
    ensures Offset(others, j) + (k - j) <= Offset(others, k)
  {
    if j < k {
      OffsetGrows(others, j, k - 1);
    }
  }

  lemma AdvancedUnwrapped(cursor: nat, k: nat)
    requires cursor + k + 1 < TWO_TO_THE_64
    ensures Advanced(cursor, k) == cursor + k + 1
  {
  }

  lemma ClaimedUnwrapped(slots: seq<int>, cursor: nat, k: nat)
    requires |slots| > 0 && cursor + k < TWO_TO_THE_64
    ensures ClaimedAfter(slots, cursor, k) == Claimed(slots, cursor + k)
  {
  }

  lemma {:induction false} DisturbedCursor(s: Scan, c: nat, j: nat)
    requires Unwrapped(s, c) && j <= |s.others|
    ensures CursorAfter(s, j) == s.cursor + Offset(s.others, j)
  {
    if j > 0 {
      DisturbedCursor(s, c, j - 1);
      OffsetGrows(s.others, j, |s.others|);
      AdvancedUnwrapped(s.cursor + Offset(s.others, j - 1), s.others[j - 1]);
    }
  }

  lemma FirstCheck(s: Scan, c: nat)
    requires Unwrapped(s, c)
    ensures Checked(s, 0) == Claimed(s.slots, c + Offset(s.others, 0))
  {
    assert c + Offset(s.others, 0) == c;
  }

  lemma LaterCheck(s: Scan, c: nat, j: nat)
    requires Unwrapped(s, c) && 0 < j < |s.slots|
    ensures Checked(s, j) == Claimed(s.slots, c + Offset(s.others, j))
  {
    DisturbedCursor(s, c, j - 1);
    OffsetGrows(s.others, j, |s.others|);
    CheckedAfter(s, j, c + Offset(s.others, j));
  }

  /** Whatever others claim, check `j` looks at the target of claim `c` plus its offset. */
  lemma DisturbedChecks(s: Scan, c: nat, j: nat)
    requires Unwrapped(s, c) && j < |s.slots|
    ensures Checked(s, j) == Claimed(s.slots, c + Offset(s.others, j))
  {
    if j == 0 {
      FirstCheck(s, c);
    } else {
      LaterCheck(s, c, j);
    }
  }

  lemma CheckedAfter(s: Scan, j: nat, claim: nat)
    requires s.Valid() && 0 < j < |s.slots|
    requires claim == CursorAfter(s, j - 1) + s.others[j - 1] < TWO_TO_THE_64
    ensures Checked(s, j) == Claimed(s.slots, claim)
  {
    ClaimedUnwrapped(s.slots, CursorAfter(s, j - 1), s.others[j - 1]);
  }

  /** The targets of the first `m` checks of a scan that begins with claim `c`. */
  function CheckTargets(slots: seq<int>, c: nat, others: seq<nat>, m: nat): (targets: seq<int>)
    requires |slots| > 0 && m <= |others| + 1
    ensures |targets| == m
  {
    if m == 0 then [] else CheckTargets(slots, c, others, m - 1) + [Claimed(slots, c + Offset(others, m - 1))]
  }

  lemma {:induction false} CheckTargetAt(slots: seq<int>, c: nat, others: seq<nat>, m: nat, j: nat)
    requires |slots| > 0 && j < m <= |others| + 1
    ensures CheckTargets(slots, c, others, m)[j] == Claimed(slots, c + Offset(others, j))
  {
    if j < m - 1 {
      CheckTargetAt(slots, c, others, m - 1, j);
    }
  }

  ghost predicate Covered(slots: seq<int>, c: nat, others: seq<nat>, i: int)
    requires |slots| > 0
  {
    i in CheckTargets(slots, c, others, |others| + 1)
  }

  ghost predicate Covers(slots: seq<int>, c: nat, others: seq<nat>)
    requires |slots| > 0
  {
    forall i | i in slots :: Covered(slots, c, others, i)
  }

  /** Some target with a slot is eligible at every check of the scan. */
  ghost predicate HasEligible(s: Scan) {
    exists i | i in s.slots :: EligibleThroughout(s, i)
  }

  ghost predicate EligibleThroughout(s: Scan, i: int) {
    forall j: nat | j < |s.slots| :: Eligible(s, j, i)
  }

  ghost predicate Finds(s: Scan) {
    exists j: nat :: Found(s, j)
  }

  /** A scan that meets an eligible target returns one that was eligible at its own check. */
  lemma FindsMeansEnds(s: Scan, index: int, after: nat, end: seq<Target>) returns (j: nat)
    requires Scanned(s, index, after, end) && Finds(s)
    ensures EndsAt(s, j, index, after, end)
  {
    var k: nat :| Found(s, k);
    assert !NoneBefore(s, |s.slots|);
    j :| EndsAt(s, j, index, after, end);
  }

  lemma CoveredIsFound(s: Scan, c: nat, i: int)
    requires Unwrapped(s, c) && Covered(s.slots, c, s.others, i) && EligibleThroughout(s, i)
    ensures Finds(s)
  {
    var targets := CheckTargets(s.slots, c, s.others, |s.others| + 1);
    var j: nat :| j < |targets| && targets[j] == i;
    CheckTargetAt(s.slots, c, s.others, |targets|, j);
    DisturbedChecks(s, c, j);
    assert Eligible(s, j, i);
    assert Found(s, j);
  }

  /** A health state in which only target `i` is eligible, at a reading of 0. */
  function OnlyEligible(n: nat, i: int): (view: seq<Target>)
    ensures |view| == n
  {
    seq(n, t => if t == i then HEALTHY else Target(0, Some(1)))
  }

  function OnlyScan(slots: seq<int>, c: nat, others: seq<nat>, n: nat, i: int): (s: Scan)
    requires |slots| > 0 && |others| + 1 == |slots|
  {
    Scan(seq(|slots|, _ => OnlyEligible(n, i)), slots, Claimed(slots, c), NextCursor(slots, c), others, seq(|slots|, _ => 0))
  }

  lemma UncoveredIsMissed(slots: seq<int>, c: nat, others: seq<nat>, n: nat, i: int)
    requires |slots| > 0 && |others| + 1 == |slots| && InRange(slots, n) && i in slots
    requires c + Offset(others, |others|) + 1 < TWO_TO_THE_64 && !Covered(slots, c, others, i)
    ensures var s := OnlyScan(slots, c, others, n, i);
            Unwrapped(s, c) && EligibleThroughout(s, i) && !Finds(s)
  {
    var s := OnlyScan(slots, c, others, n, i);
    forall j: nat | j < |slots|
      ensures !Found(s, j)
    {
      DisturbedChecks(s, c, j);
      CheckTargetAt(slots, c, others, |others| + 1, j);
    }
  }

  /** The scans of these slots from claim `c` on, with these claims of others, over any health and any clock. */
  ghost predicate AlwaysFinds(slots: seq<int>, c: nat, others: seq<nat>) {
    forall s: Scan | Unwrapped(s, c) && s.slots == slots && s.others == others && HasEligible(s) :: Finds(s)
  }

  /**
   Exactly which interference is harmless: whatever the health state, the scan finds an eligible target if there
   is one, if and only if its checks look at the target of every slot.
   */
  lemma FindsExactlyWhenCovered(slots: seq<int>, c: nat, others: seq<nat>, n: nat)
    requires |slots| > 0 && |others| + 1 == |slots| && InRange(slots, n)
    requires c + Offset(others, |others|) + 1 < TWO_TO_THE_64
    ensures AlwaysFinds(slots, c, others) <==> Covers(slots, c, others)
  {
    if Covers(slots, c, others) {
      forall s: Scan | Unwrapped(s, c) && s.slots == slots && s.others == others && HasEligible(s)
        ensures Finds(s)
      {
        var i :| i in s.slots && EligibleThroughout(s, i);
        CoveredIsFound(s, c, i);
      }
    } else {
      var i :| i in slots && !Covered(slots, c, others, i);
      UncoveredIsMissed(slots, c, others, n, i);
      assert HasEligible(OnlyScan(slots, c, others, n, i));
    }
  }

  // ----- The condition for plain round-robin

  /** The slots of the first `m` checks, counted from the scan's own first claim. */
  function Lags(others: seq<nat>, n: nat, m: nat): (lags: seq<int>)
    requires 0 < n && m <= |others| + 1
    ensures |lags| == m
  {
    if m == 0 then [] else Lags(others, n, m - 1) + [Turn(Offset(others, m - 1), n)]
  }

  lemma {:induction false} LagAt(others: seq<nat>, n: nat, m: nat, j: nat)
    requires 0 < n && j < m <= |others| + 1
    ensures Lags(others, n, m)[j] == Turn(Offset(others, j), n)
  {
    if j < m - 1 {
      LagAt(others, n, m - 1, j);
    }
  }

  lemma SameDistinct(s: seq<int>, t: seq<int>)
    requires |s| == |t| && forall a, b | 0 <= a < b < |s| :: s[a] == s[b] <==> t[a] == t[b]
    ensures Distinct(s) <==> Distinct(t)
  {
  }

  lemma CheckIsTurn(n: nat, c: nat, others: seq<nat>, j: nat)
    requires n == |others| + 1 && j < n
    ensures CheckTargets(Slots([], n), c, others, n)[j] == Turn(c + Offset(others, j), n)
  {
    CheckTargetAt(Slots([], n), c, others, n, j);
    ClaimedTurn(n, c + Offset(others, j));
  }

  lemma SameLag(n: nat, c: nat, others: seq<nat>, a: nat, b: nat)
    requires n == |others| + 1 && a < b < n
    ensures var targets, lags := CheckTargets(Slots([], n), c, others, n), Lags(others, n, n);
            targets[a] == targets[b] <==> lags[a] == lags[b]
  {
    CheckIsTurn(n, c, others, a);
    CheckIsTurn(n, c, others, b);
    LagAt(others, n, n, a);
    LagAt(others, n, n, b);
    TurnShift(c, Offset(others, a), Offset(others, b), n);
  }

  lemma ChecksInRange(n: nat, c: nat, others: seq<nat>)
    requires n == |others| + 1
    ensures InRange(CheckTargets(Slots([], n), c, others, n), n)
  {
    forall j: nat | j < n
      ensures 0 <= CheckTargets(Slots([], n), c, others, n)[j] < n
    {
      CheckIsTurn(n, c, others, j);
    }
  }

  /** The checks of a round-robin scan, whatever its first claim, cover every slot exactly when their lags are distinct. */
  lemma CoversExactlyWhenDistinct(n: nat, c: nat, others: seq<nat>)
    requires n == |others| + 1
    ensures Covers(Slots([], n), c, others) <==> Distinct(Lags(others, n, n))
  {
    var slots, targets := Slots([], n), CheckTargets(Slots([], n), c, others, n);
    forall i | 0 <= i < n
      ensures i in slots
    {
      assert slots[i] == i;
    }
    if Covers(slots, c, others) {
      forall i | 0 <= i < n ensures i in targets {
        assert Covered(slots, c, others, i);
      }
      assert HasAll(targets, n);
    }
    ChecksInRange(n, c, others);
    Pigeonhole(targets, n);
    forall a, b | 0 <= a < b < n
      ensures targets[a] == targets[b] <==> Lags(others, n, n)[a] == Lags(others, n, n)[b]
    {
      SameLag(n, c, others, a, b);
    }
    SameDistinct(targets, Lags(others, n, n));
  }

  /**
   For plain round-robin the condition is on the claims of others alone: whatever the health state and whatever the
   first claim, the scan finds an eligible target if and only if the sums of `others[t] + 1` are distinct modulo `n`.
   */
  lemma RoundRobinScanIsExact(n: nat, c: nat, others: seq<nat>)
    requires n == |others| + 1 && c + Offset(others, |others|) + 1 < TWO_TO_THE_64
    ensures AlwaysFinds(Slots([], n), c, others) <==> Distinct(Lags(others, n, n))
  {
    FindsExactlyWhenCovered(Slots([], n), c, others, n);
    CoversExactlyWhenDistinct(n, c, others);
  }

  /** One foreign claim is enough to fail: it takes the only eligible slot out of a scan over two. */
  lemma DisturbedScanCanMiss()
    ensures !Distinct(Lags([1], 2, 2)) && !AlwaysFinds(Slots([], 2), 0, [1])
  {
    var others: seq<nat> := [1];
    assert Offset(others, 0) == 0 && Offset(others, 1) == 2;
    LagAt(others, 2, 2, 0);
    LagAt(others, 2, 2, 1);
    assert Lags(others, 2, 2)[0] == Lags(others, 2, 2)[1];
    RoundRobinScanIsExact(2, 0, others);
  }

  // ----- Scans without interference

  ghost predicate Quiet(others: seq<nat>) {
    forall j | 0 <= j < |others| :: others[j] == 0
  }

  lemma {:induction false} QuietOffset(others: seq<nat>, j: nat)
    requires Quiet(others) && j <= |others|
    ensures Offset(others, j) == j
  {
    if j > 0 {
      QuietOffset(others, j - 1);
    }
  }

  lemma QuietCovers(slots: seq<int>, c: nat, others: seq<nat>, i: int)
    requires |slots| > 0 && |others| + 1 == |slots| && Quiet(others) && i in slots
    ensures Covered(slots, c, others, i)
  {
    var j := SlotOf(slots, c, i);
    QuietOffset(others, j);
    CheckTargetAt(slots, c, others, |others| + 1, j);
  }

  /**
   A scan that no other claim disturbs finds an eligible target if some target with a slot stays eligible: the
   result is the first target that was eligible at its own check, slot by slot from the first claim on.
   */
  lemma ScanFinds(s: Scan, c: nat, index: int, after: nat, end: seq<Target>, i: int)
    requires Unwrapped(s, c) && Quiet(s.others) && Scanned(s, index, after, end)
    requires i in s.slots && EligibleThroughout(s, i)
    ensures s.cursor <= after < s.cursor + |s.slots| && Eligible(s, after - s.cursor, index)
    ensures index == Claimed(s.slots, c + (after - s.cursor))
    ensures forall k: nat | k < after - s.cursor :: PassedOver(s, c, k)
  {
    QuietCovers(s.slots, c, s.others, i);
    CoveredIsFound(s, c, i);
    var j := FindsMeansEnds(s, index, after, end);
    QuietEnd(s, c, j, index, after, end);
  }

  /** The target of claim `c + k` was not eligible at check `k`. */
  ghost predicate PassedOver(s: Scan, c: nat, k: nat) {
    s.Valid() && !Eligible(s, k, Claimed(s.slots, c + k))
  }

  lemma QuietEnd(s: Scan, c: nat, j: nat, index: int, after: nat, end: seq<Target>)
    requires Unwrapped(s, c) && Quiet(s.others) && EndsAt(s, j, index, after, end)
    ensures after == s.cursor + j && index == Claimed(s.slots, c + j)
    ensures forall k: nat | k < j :: PassedOver(s, c, k)
  {
    DisturbedCursor(s, c, j);
    QuietOffset(s.others, j);
    QuietCheck(s, c, j);
    forall k: nat | k < j
      ensures PassedOver(s, c, k)
    {
      QuietCheck(s, c, k);
      assert !Found(s, k);
    }
  }

  lemma QuietCheck(s: Scan, c: nat, j: nat)
    requires Unwrapped(s, c) && Quiet(s.others) && j < |s.slots|
    ensures Checked(s, j) == Claimed(s.slots, c + j)
  {
    QuietOffset(s.others, j);
    DisturbedChecks(s, c, j);
  }

  /** With a health state that no other request changes and a clock that does not go back, eligible once is enough. */
  lemma EligibleStays(s: Scan, i: int)
    requires Eligible(s, 0, i)
    requires forall j: nat | j < |s.slots| :: s.views[j] == s.views[0] && s.readings[0] <= s.readings[j]
    ensures EligibleThroughout(s, i)
  {
    forall j: nat | j < |s.slots|
      ensures Eligible(s, j, i)
    {
      assert s.views[j] == s.views[0];
    }
  }

  /**
   If no check finds its target eligible, the scan has consumed exactly the slots of one whole cycle, returns the
   first one claimed and leaves the health state as it found it.
   */
  lemma ScanExhausts(s: Scan, c: nat, index: int, after: nat, end: seq<Target>)
    requires Unwrapped(s, c) && Quiet(s.others) && Scanned(s, index, after, end)
    requires forall j: nat, i | j < |s.slots| && i in s.slots :: !Eligible(s, j, i)
    ensures index == Claimed(s.slots, c) && after == NextCursor(s.slots, c) + |s.slots| - 1 && end == s.views[|s.others|]
  {
    forall j: nat | j < |s.slots|
      ensures !Found(s, j)
    {
      DisturbedChecks(s, c, j);
      SlotIn(s.slots, c + Offset(s.others, j));
      assert !Eligible(s, j, Checked(s, j));
    }
    QuietOffset(s.others, |s.others|);
    DisturbedCursor(s, c, |s.others|);
  }

  lemma SlotIn(slots: seq<int>, c: nat)
    requires |slots| > 0
    ensures Claimed(slots, c) in slots
  {
  }
}
