/**
 Consecutive claims of schedule slots over a 64-bit cursor that wraps (proxy.go, `nextScheduledTargetIndex`), and
 what full cycles of them visit.
 */
module ClaimCycles {
  import opened Arithmetic
  import opened TargetSchedule

  const TWO_TO_THE_64: nat := 0x1_0000_0000_0000_0000

  /** The target of every slot of one cycle: the weighted schedule, or the targets in order without one. */
  function Slots(schedule: seq<int>, n: nat): (slots: seq<int>)
    ensures |schedule| > 0 || n > 0 ==> |slots| > 0
  {
    if |schedule| > 0 then schedule else seq(n, i => i)
  }

  /** The target of claim number `c`. */
  function Claimed(slots: seq<int>, c: nat): int
    requires |slots| > 0
  {
    slots[Remainder(c, |slots|)]
  }

  /** The targets of `m` consecutive claims from number `c` on. */
  function Claims(slots: seq<int>, c: nat, m: nat): (claims: seq<int>)
    requires |slots| > 0
  {
    seq(m, (j: nat) => Claimed(slots, c + j))
  }

  /** A counter value on the machine. */
  function Wrapped(x: nat): (w: nat)
    ensures w < TWO_TO_THE_64
  {
    Remainder(x, TWO_TO_THE_64)
  }

  /** The same on the machine: the counter wraps at 2^64. */
  function WrappedClaims(slots: seq<int>, c: nat, m: nat): (claims: seq<int>)
    requires |slots| > 0
  {
    seq(m, (j: nat) => Claimed(slots, Wrapped(c + j)))
  }

  // ----- One cycle of claims

  lemma {:induction false} CountPrepend(x: int, s: seq<int>, target: int)
    ensures Count([x] + s, target) == Count(s, target) + if x == target then 1 else 0
  {
    if |s| == 0 {
      assert [x] + s == [] + [x];
      CountAppend([], target, x);
    } else {
      var front := s[..|s| - 1];
      CountPrepend(x, front, target);
      assert ([x] + s)[..|s|] == [x] + front;
    }
  }

  lemma ClaimsShift(slots: seq<int>, c: nat, m: nat)
    requires |slots| > 0 && c > 0 && m > 0
    ensures Claims(slots, c - 1, m) == [Claimed(slots, c - 1)] + Claims(slots, c, m - 1)
    ensures Claims(slots, c, m) == Claims(slots, c, m - 1) + [Claimed(slots, c + m - 1)]
  {
    var before, shorter := Claims(slots, c - 1, m), Claims(slots, c, m - 1);
    forall j | 1 <= j < m ensures before[j] == shorter[j - 1] {
      assert c - 1 + j == c + (j - 1);
    }
  }

  lemma RotateCount(x: int, s: seq<int>, target: int)
    ensures Count([x] + s, target) == Count(s + [x], target)
  {
    CountPrepend(x, s, target);
    CountAppend(s, target, x);
  }

  lemma SlotPeriod(slots: seq<int>, c: nat)
    requires |slots| > 0
    ensures Claimed(slots, c + |slots|) == Claimed(slots, c)
  {
  }

  lemma FirstCycle(slots: seq<int>)
    requires |slots| > 0
    ensures Claims(slots, 0, |slots|) == slots
  {
    var claims := Claims(slots, 0, |slots|);
    forall j: nat | j < |slots|
      ensures claims[j] == slots[j]
    {
      assert claims[j] == Claimed(slots, 0 + j);
    }
  }

  /** Any full cycle of consecutive claims meets every target as often as the schedule holds it. */
  lemma {:induction false} CycleCount(slots: seq<int>, c: nat, target: int)
    requires |slots| > 0
    ensures Count(Claims(slots, c, |slots|), target) == Count(slots, target)
  {
    if c == 0 {
      FirstCycle(slots);
    } else {
      CycleCount(slots, c - 1, target);
      ClaimsShift(slots, c, |slots|);
      SlotPeriod(slots, c - 1);
      RotateCount(Claimed(slots, c - 1), Claims(slots, c, |slots| - 1), target);
    }
  }

  lemma UnwrappedClaims(slots: seq<int>, c: nat, m: nat)
    requires |slots| > 0 && c + m <= TWO_TO_THE_64
    ensures WrappedClaims(slots, c, m) == Claims(slots, c, m)
  {
    var wrapped, plain := WrappedClaims(slots, c, m), Claims(slots, c, m);
    forall j: nat | j < m
      ensures wrapped[j] == plain[j]
    {
      WrappedIs(c + j);
    }
  }

  /** With weights, while the counter does not wrap, a full cycle from any claim on meets target `i` exactly `weights[i]` times. */
  lemma CycleFollowsWeights(weights: seq<int>, slots: seq<int>, c: nat, i: nat)
    requires Positive(weights) && Smooth(weights, slots) && |slots| == Sum(weights) && i < |weights|
    requires |slots| > 0 && c + |slots| <= TWO_TO_THE_64
    ensures Count(WrappedClaims(slots, c, |slots|), i) == weights[i]
  {
    UnwrappedClaims(slots, c, |slots|);
    CycleCount(slots, c, i);
    ExactShares(weights, slots);
  }

  lemma {:induction false} CountZero(s: seq<int>, target: int)
    ensures Count(s, target) == 0 <==> target !in s
  {
    if |s| > 0 {
      CountZero(s[..|s| - 1], target);
    }
  }

  /** A full cycle of claims from any point on reaches every slot. */
  lemma SlotOf(slots: seq<int>, c: nat, i: int) returns (j: nat)
    requires i in slots
    ensures j < |slots| && Claimed(slots, c + j) == i
  {
    CycleCount(slots, c, i);
    CountZero(slots, i);
    CountZero(Claims(slots, c, |slots|), i);
    j :| j < |slots| && Claims(slots, c, |slots|)[j] == i;
  }

  // ----- Weighted cycles across the wrap

  /** Shifting the claim numbers by `d` changes no claim. */
  ghost predicate IsPeriod(slots: seq<int>, d: nat)
    requires |slots| > 0
  {
    forall k: nat :: SameAt(slots, k, d)
  }

  predicate SameAt(slots: seq<int>, k: nat, d: nat)
    requires |slots| > 0
  {
    Claimed(slots, k + d) == Claimed(slots, k)
  }

  lemma {:induction false} CountConcat(a: seq<int>, b: seq<int>, target: int)
    ensures Count(a + b, target) == Count(a, target) + Count(b, target)
  {
    if |b| == 0 {
      assert a + b == a;
    } else {
      var front, x := b[..|b| - 1], b[|b| - 1];
      CountConcat(a, front, target);
      CountAppend(a + front, target, x);
      assert a + b == (a + front) + [x];
    }
  }

  lemma ClaimsSplit(slots: seq<int>, c: nat, a: nat, b: nat)
    requires |slots| > 0
    ensures Claims(slots, c, a + b) == Claims(slots, c, a) + Claims(slots, c + a, b)
  {
    var whole, front, back := Claims(slots, c, a + b), Claims(slots, c, a), Claims(slots, c + a, b);
    forall j: nat | a <= j < a + b
      ensures whole[j] == back[j - a]
    {
      assert c + a + (j - a) == c + j;
    }
  }

  /** A cycle that begins `t` claims before the wrap: those, and then the first claims of all. */
  lemma WrappedSplit(slots: seq<int>, t: nat)
    requires 0 < t <= |slots| <= TWO_TO_THE_64
    ensures WrappedClaims(slots, TWO_TO_THE_64 - t, |slots|)
            == Claims(slots, TWO_TO_THE_64 - t, t) + Claims(slots, 0, |slots| - t)
  {
    var top, n := TWO_TO_THE_64, |slots|;
    var wrapped, front, back := WrappedClaims(slots, top - t, n), Claims(slots, top - t, t), Claims(slots, 0, n - t);
    forall j: nat | j < n
      ensures wrapped[j] == if j < t then front[j] else back[j - t]
    {
      WrappedIs(top - t + j);
    }
  }

  lemma WrappedIs(x: nat)
    requires x < 2 * TWO_TO_THE_64
    ensures Wrapped(x) == if x < TWO_TO_THE_64 then x else x - TWO_TO_THE_64
  {
    if x >= TWO_TO_THE_64 {
      assert Wrapped(x - TWO_TO_THE_64) == x - TWO_TO_THE_64;
    }
  }

  ghost predicate CyclesKeepCounts(slots: seq<int>)
    requires |slots| > 0
  {
    forall c: nat, i | c < TWO_TO_THE_64 :: Count(WrappedClaims(slots, c, |slots|), i) == Count(slots, i)
  }

  /** Cycles that keep their counts across the wrap make the claims before and after it indistinguishable in number. */
  lemma SameAfterTheWrap(slots: seq<int>, m: nat, i: int)
    requires 0 < |slots| <= TWO_TO_THE_64 && m <= |slots| && CyclesKeepCounts(slots)
    ensures Count(Claims(slots, TWO_TO_THE_64, m), i) == Count(Claims(slots, 0, m), i)
  {
    var top, n := TWO_TO_THE_64, |slots|;
    if m == n {
      CycleCount(slots, top, i);
      CycleCount(slots, 0, i);
    } else {
      var t := n - m;
      WrappedSplit(slots, t);
      CountConcat(Claims(slots, top - t, t), Claims(slots, 0, m), i);
      ClaimsSplit(slots, top - t, t, m);
      CountConcat(Claims(slots, top - t, t), Claims(slots, top, m), i);
      CycleCount(slots, top - t, i);
      assert Count(WrappedClaims(slots, top - t, n), i) == Count(slots, i);
    }
  }

  lemma SameClaimAfterTheWrap(slots: seq<int>, m: nat)
    requires 0 < |slots| <= TWO_TO_THE_64 && m < |slots| && CyclesKeepCounts(slots)
    ensures Claimed(slots, TWO_TO_THE_64 + m) == Claimed(slots, m)
  {
    var top, i := TWO_TO_THE_64, Claimed(slots, m);
    SameAfterTheWrap(slots, m, i);
    SameAfterTheWrap(slots, m + 1, i);
    ClaimsSplit(slots, top, m, 1);
    ClaimsSplit(slots, 0, m, 1);
    assert Claims(slots, top + m, 1) == [Claimed(slots, top + m)] && Claims(slots, m, 1) == [i];
    CountAppend(Claims(slots, top, m), i, Claimed(slots, top + m));
    CountAppend(Claims(slots, 0, m), i, i);
  }

  lemma {:induction false} ClaimOfRemainder(slots: seq<int>, k: nat, d: nat)
    requires |slots| > 0
    ensures Claimed(slots, d + Remainder(k, |slots|)) == Claimed(slots, d + k)
    decreases k
  {
    if k >= |slots| {
      ClaimOfRemainder(slots, k - |slots|, d);
      SlotPeriod(slots, d + k - |slots|);
    }
  }

  lemma PeriodHides(slots: seq<int>, c: nat)
    requires 0 < |slots| <= TWO_TO_THE_64 && c < TWO_TO_THE_64 && IsPeriod(slots, TWO_TO_THE_64)
    ensures WrappedClaims(slots, c, |slots|) == Claims(slots, c, |slots|)
  {
    var top, wrapped, plain := TWO_TO_THE_64, WrappedClaims(slots, c, |slots|), Claims(slots, c, |slots|);
    forall j: nat | j < |slots|
      ensures wrapped[j] == plain[j]
    {
      WrappedIs(c + j);
      if c + j >= top {
        assert SameAt(slots, c + j - top, top);
      }
    }
  }

  /** Every cycle, those across the wrap included, keeps every target's count exactly when 2^64 is a period of the claims. */
  lemma WeightedAcrossTheWrap(slots: seq<int>)
    requires 0 < |slots| <= TWO_TO_THE_64
    ensures CyclesKeepCounts(slots) <==> IsPeriod(slots, TWO_TO_THE_64)
  {
    var top := TWO_TO_THE_64;
    if CyclesKeepCounts(slots) {
      forall k: nat
        ensures SameAt(slots, k, top)
      {
        SameClaimAfterTheWrap(slots, Remainder(k, |slots|));
        ClaimOfRemainder(slots, k, top);
        ClaimOfRemainder(slots, k, 0);
      }
    }
    if IsPeriod(slots, top) {
      forall c: nat, i | c < top
        ensures Count(WrappedClaims(slots, c, |slots|), i) == Count(slots, i)
      {
        PeriodHides(slots, c);
        CycleCount(slots, c, i);
      }
    }
  }

  lemma {:induction false} PeriodMultiple(slots: seq<int>, d: nat, q: nat, x: nat, k: nat)
    requires |slots| > 0 && IsPeriod(slots, d) && x == d * q
    ensures SameAt(slots, k, x)
  {
    if q > 0 {
      MulSign(d, q - 1);
      MulDistributes(d, q - 1, 1);
      PeriodMultiple(slots, d, q - 1, x - d, k);
      assert SameAt(slots, k + (x - d), d);
    }
  }

  lemma RemainderIsPeriod(slots: seq<int>, d: nat, q: nat, e: nat, x: nat)
    requires |slots| > 0 && IsPeriod(slots, d) && IsPeriod(slots, x) && x == d * q + e
    ensures IsPeriod(slots, e)
  {
    MulSign(d, q);
    var m: nat := d * q;
    forall k: nat
      ensures SameAt(slots, k, e)
    {
      PeriodMultiple(slots, d, q, m, k + e);
      assert SameAt(slots, k, x);
      assert k + e + m == k + x;
    }
  }

  ghost predicate LeastPeriod(slots: seq<int>, d: nat)
    requires |slots| > 0
  {
    0 < d && IsPeriod(slots, d) && forall e: nat | 0 < e < d :: !IsPeriod(slots, e)
  }

  /** The periods are the multiples of the least one. */
  lemma PeriodsAreMultiples(slots: seq<int>, d: nat, x: nat)
    requires |slots| > 0 && LeastPeriod(slots, d)
    ensures IsPeriod(slots, x) <==> x % d == 0
  {
    var q, e := x / d, x % d;
    if e == 0 {
      forall k: nat
        ensures SameAt(slots, k, x)
      {
        PeriodMultiple(slots, d, q, x, k);
      }
    } else if IsPeriod(slots, x) {
      RemainderIsPeriod(slots, d, q, e, x);
    }
  }

  lemma CycleIsPeriod(slots: seq<int>)
    requires |slots| > 0
    ensures IsPeriod(slots, |slots|)
  {
    forall k: nat ensures SameAt(slots, k, |slots|) {
      SlotPeriod(slots, k);
    }
  }

  /** Every schedule has a least period. */
  lemma SomeLeastPeriod(slots: seq<int>) returns (d: nat)
    requires |slots| > 0
    ensures LeastPeriod(slots, d)
  {
    CycleIsPeriod(slots);
    d := |slots|;
    while exists e: nat :: 0 < e < d && IsPeriod(slots, e)
      invariant 0 < d && IsPeriod(slots, d)
      decreases d
    {
      var e: nat :| 0 < e < d && IsPeriod(slots, e);
      d := e;
    }
  }

  /** A weighted schedule stays exact across the wrap if and only if its least period divides 2^64. */
  lemma WeightedWrapExact(slots: seq<int>, d: nat)
    requires 0 < |slots| <= TWO_TO_THE_64 && LeastPeriod(slots, d)
    ensures CyclesKeepCounts(slots) <==> TWO_TO_THE_64 % d == 0
  {
    WeightedAcrossTheWrap(slots);
    PeriodsAreMultiples(slots, d, TWO_TO_THE_64);
  }

  // ----- Target order

  /** Target order: `x` counts on from a target index, wrapping at the end. */
  function Turn(x: nat, n: nat): (index: nat)
    requires n > 0
    ensures index < n
  {
    Remainder(x, n)
  }

  lemma ClaimedTurn(n: nat, c: nat)
    requires n > 0
    ensures Claimed(Slots([], n), c) == Turn(c, n)
  {
  }

  lemma TurnDrop(x: nat, n: nat)
    requires 0 < n <= x
    ensures Turn(x, n) == Turn(x - n, n)
  {
  }

  lemma TurnSmall(x: nat, n: nat)
    requires 0 < n && x < 2 * n
    ensures Turn(x, n) == if x < n then x else x - n
  {
    if x >= n {
      assert Turn(x - n, n) == x - n;
    }
  }

  lemma {:induction false} TurnBack(c: nat, a: nat, b: nat, n: nat)
    requires n > 0 && Turn(c + a, n) == Turn(c + b, n)
    ensures Turn(a, n) == Turn(b, n)
    decreases c + a + b
  {
    if c >= n {
      TurnDrop(c + a, n);
      TurnDrop(c + b, n);
      assert c + a - n == (c - n) + a && c + b - n == (c - n) + b;
      TurnBack(c - n, a, b, n);
    } else if a >= n {
      TurnDrop(c + a, n);
      assert c + a - n == c + (a - n);
      TurnBack(c, a - n, b, n);
    } else if b >= n {
      TurnDrop(c + b, n);
      assert c + b - n == c + (b - n);
      TurnBack(c, a, b - n, n);
    } else {
      TurnSmall(c + a, n);
      TurnSmall(c + b, n);
      TurnSmall(a, n);
      TurnSmall(b, n);
    }
  }

  lemma TurnShift(c: nat, a: nat, b: nat, n: nat)
    requires n > 0
    ensures Turn(c + a, n) == Turn(c + b, n) <==> Turn(a, n) == Turn(b, n)
  {
    if Turn(a, n) == Turn(b, n) {
      RemainderShift(a, b, c, n);
    }
    if Turn(c + a, n) == Turn(c + b, n) {
      TurnBack(c, a, b, n);
    }
  }

  // ----- Counting up to n

  function Ones(n: nat): (ones: seq<int>)
    ensures |ones| == n && forall i | 0 <= i < n :: ones[i] == 1
  {
    seq(n, _ => 1)
  }

  lemma {:induction false} SumOnes(n: nat, k: nat)
    requires k <= n
    ensures Sum(Ones(n)[..k]) == k
  {
    if k > 0 {
      SumOnes(n, k - 1);
      assert Ones(n)[..k][..k - 1] == Ones(n)[..k - 1];
    }
  }

  lemma {:induction false} AllCounted(s: seq<int>, n: nat, k: nat)
    requires k <= n && forall i | 0 <= i < k :: Count(s, i) >= 1
    ensures CountBelow(s, k) >= k
    ensures CountBelow(s, k) == k ==> forall i | 0 <= i < k :: Count(s, i) == 1
  {
    if k > 0 {
      AllCounted(s, n, k - 1);
    }
  }

  ghost predicate HasAll(s: seq<int>, n: nat) {
    forall i | 0 <= i < n :: i in s
  }

  ghost predicate HasEachOnce(s: seq<int>, n: nat) {
    forall i | 0 <= i < n :: Count(s, i) == 1
  }

  /** Among `n` values below `n`, all occur if and only if each occurs once. */
  lemma OnceEach(s: seq<int>, n: nat)
    requires |s| == n && InRange(s, n)
    ensures HasAll(s, n) <==> HasEachOnce(s, n)
  {
    if HasAll(s, n) {
      forall i | 0 <= i < n ensures Count(s, i) >= 1 {
        CountZero(s, i);
      }
      CountBelowAll(s, n);
      AllCounted(s, n, n);
    }
    if HasEachOnce(s, n) {
      forall i | 0 <= i < n ensures i in s {
        CountZero(s, i);
      }
    }
  }

  ghost predicate Distinct(s: seq<int>) {
    forall a, b | 0 <= a < b < |s| :: s[a] != s[b]
  }

  lemma {:induction false} DistinctCount(s: seq<int>, x: int)
    requires Distinct(s)
    ensures Count(s, x) <= 1
  {
    if |s| > 0 {
      var front := s[..|s| - 1];
      DistinctCount(front, x);
      if s[|s| - 1] == x {
        CountZero(front, x);
      }
    }
  }

  lemma TwiceCounted(s: seq<int>, a: nat, b: nat)
    requires a < b < |s| && s[a] == s[b]
    ensures Count(s, s[a]) >= 2
  {
    var x := s[a];
    assert s == s[..b] + s[b..] && s[..b][a] == x && s[b..][0] == x;
    CountConcat(s[..b], s[b..], x);
    CountZero(s[..b], x);
    CountZero(s[b..], x);
  }

  /** Among `n` values below `n`, all occur if and only if none occurs twice. */
  lemma Pigeonhole(s: seq<int>, n: nat)
    requires |s| == n && InRange(s, n)
    ensures HasAll(s, n) <==> Distinct(s)
  {
    CountBelowAll(s, n);
    if HasAll(s, n) {
      OnceEach(s, n);
      if !Distinct(s) {
        var a, b :| 0 <= a < b < |s| && s[a] == s[b];
        TwiceCounted(s, a, b);
      }
    }
    if Distinct(s) {
      forall i | 0 <= i < n ensures Count(s, i) <= 1 {
        DistinctCount(s, i);
      }
      SumBelow(s, Ones(n), n);
      SumOnes(n, n);
      forall i | 0 <= i < n ensures i in s {
        CountZero(s, i);
      }
    }
  }

  // ----- Plain round-robin

  /** Equal weights leave the selection as it was without weights: claim `c` goes to target `c mod n`. */
  lemma EqualWeightsKeepRoundRobin(weights: seq<int>, slots: seq<int>, c: nat)
    requires Positive(weights) && Equal(weights) && Smooth(weights, slots) && |slots| == Sum(weights) > 0
    ensures Claimed(slots, c) == Claimed(Slots([], |weights|), c)
  {
    var n, w, p := |weights|, weights[0], |slots|;
    EqualSum(weights, n);
    assert weights[..n] == weights;
    RemainderIs(c, p);
    EqualWeightsRotate(weights, slots, Remainder(c, p));
    ModMultiple(c, n, w, p);
    RemainderIs(c, n);
    ClaimedTurn(n, c);
  }

  lemma PlainPeriod(n: nat)
    requires n > 0
    ensures LeastPeriod(Slots([], n), n)
  {
    var slots := Slots([], n);
    CycleIsPeriod(slots);
    forall e: nat | 0 < e < n
      ensures !IsPeriod(slots, e)
    {
      ClaimedTurn(n, 0);
      ClaimedTurn(n, e);
      assert !SameAt(slots, 0, e);
    }
  }

  lemma PlainCounts(n: nat, i: int)
    requires n > 0
    ensures Count(Slots([], n), i) == if 0 <= i < n then 1 else 0
  {
    var slots := Slots([], n);
    forall k | 0 <= k < n ensures k in slots {
      assert slots[k] == k;
    }
    assert HasAll(slots, n);
    OnceEach(slots, n);
    CountZero(slots, i);
  }

  lemma WrappedInRange(n: nat, c: nat)
    requires n > 0
    ensures InRange(WrappedClaims(Slots([], n), c, n), n)
  {
    var claims := WrappedClaims(Slots([], n), c, n);
    forall j: nat | j < n
      ensures 0 <= claims[j] < n
    {
      ClaimedTurn(n, Wrapped(c + j));
    }
  }

  /** A full cycle of machine claims from `c` on meets every target. */
  ghost predicate MeetsAll(n: nat, c: nat)
    requires n > 0
  {
    forall i | 0 <= i < n :: i in WrappedClaims(Slots([], n), c, n)
  }

  lemma MeetsAllCounts(n: nat, c: nat, i: int)
    requires n > 0 && MeetsAll(n, c)
    ensures Count(WrappedClaims(Slots([], n), c, n), i) == Count(Slots([], n), i)
  {
    var claims := WrappedClaims(Slots([], n), c, n);
    WrappedInRange(n, c);
    assert HasAll(claims, n);
    OnceEach(claims, n);
    PlainCounts(n, i);
    CountZero(claims, i);
  }

  /** Plain round-robin keeps meeting every target in every cycle, the wrap included, exactly when `n` divides 2^64. */
  lemma RoundRobinAcrossTheWrap(n: nat)
    requires 0 < n <= TWO_TO_THE_64
    ensures (forall c: nat | c < TWO_TO_THE_64 :: MeetsAll(n, c)) <==> TWO_TO_THE_64 % n == 0
  {
    var slots := Slots([], n);
    PlainPeriod(n);
    WeightedWrapExact(slots, n);
    if CyclesKeepCounts(slots) {
      forall c: nat | c < TWO_TO_THE_64 ensures MeetsAll(n, c) {
        forall i | 0 <= i < n ensures i in WrappedClaims(slots, c, n) {
          PlainCounts(n, i);
          CountZero(WrappedClaims(slots, c, n), i);
        }
      }
    }
    if forall c: nat | c < TWO_TO_THE_64 :: MeetsAll(n, c) {
      forall c: nat, i | c < TWO_TO_THE_64 ensures Count(WrappedClaims(slots, c, n), i) == Count(slots, i) {
        MeetsAllCounts(n, c, i);
      }
    }
  }
}
