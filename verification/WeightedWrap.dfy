/**
 Weighted schedules across the wrap of the 64-bit cursor (proxy.go, `buildTargetSchedule` and
 `nextScheduledTargetIndex`), in terms of the configured weights.

 A schedule repeats itself as often as its weights have a common factor, and no more often.
 */
module WeightedWrap {
  import opened Arithmetic
  import opened TargetSchedule
  import opened ClaimCycles

  // ----- Weights with a common factor

  ghost predicate IsMultiple(weights: seq<int>, g: nat, u: seq<int>) {
    |weights| == |u| && forall i | 0 <= i < |u| :: weights[i] == g * u[i]
  }

  ghost predicate CommonFactor(u: seq<int>, f: nat) {
    0 < f && forall i | 0 <= i < |u| :: u[i] % f == 0
  }

  /** Without a common factor above 1. */
  ghost predicate Reduced(u: seq<int>) {
    forall f: nat | CommonFactor(u, f) :: f == 1
  }

  lemma {:induction false} MultipleSum(weights: seq<int>, g: nat, u: seq<int>, k: nat)
    requires IsMultiple(weights, g, u) && k <= |u|
    ensures Sum(weights[..k]) == g * Sum(u[..k])
  {
    if k > 0 {
      MultipleSum(weights, g, u, k - 1);
      assert weights[..k][..k - 1] == weights[..k - 1] && u[..k][..k - 1] == u[..k - 1];
      MulDistributes(g, Sum(u[..k - 1]), u[k - 1]);
    }
  }

  lemma FactorOut(n: int, g: int, w: int, t: int, count: int)
    ensures n * (g * w) - (g * t) * count + g * w == g * (n * w - t * count + w)
  {
    MulDistributes(g, n * w - t * count, w);
    MulDistributes(g, n * w, t * count);
    Regroup(n, g, w);
    Regroup(count, g, t);
  }

  lemma Regroup(n: int, g: int, w: int)
    ensures n * (g * w) == g * (n * w) == (g * w) * n
  {
  }

  /** What a target lacks scales with the weights, so the choice is the same. */
  lemma MultipleLack(weights: seq<int>, g: nat, u: seq<int>, slots: seq<int>, i: nat)
    requires IsMultiple(weights, g, u) && i < |u|
    ensures Lack(weights, slots, i) == g * Lack(u, slots, i)
  {
    MultipleSum(weights, g, u, |u|);
    assert weights[..|u|] == weights && u[..|u|] == u;
    FactorOut(|slots|, g, u[i], Sum(u), Count(slots, i));
    Regroup(Count(slots, i), 1, Sum(u));
  }

  lemma FactorOrder(g: int, a: int, b: int)
    requires g > 0
    ensures g * a <= g * b <==> a <= b
  {
    MulDistributes(g, a, b);
    MulSign(g, a - b);
  }

  lemma MultipleChosen(weights: seq<int>, g: nat, u: seq<int>, slots: seq<int>, c: int)
    requires 0 < g && IsMultiple(weights, g, u) && Chosen(weights, slots, c)
    ensures Chosen(u, slots, c)
  {
    MultipleLack(weights, g, u, slots, c);
    forall i | 0 <= i < |u|
      ensures Lack(u, slots, i) <= Lack(u, slots, c) && (i < c ==> Lack(u, slots, i) < Lack(u, slots, c))
    {
      MultipleLack(weights, g, u, slots, i);
      FactorOrder(g, Lack(u, slots, i), Lack(u, slots, c));
      FactorOrder(g, Lack(u, slots, c), Lack(u, slots, i));
    }
  }

  lemma MultipleSmooth(weights: seq<int>, g: nat, u: seq<int>, slots: seq<int>)
    requires 0 < g && IsMultiple(weights, g, u) && Smooth(weights, slots)
    ensures Smooth(u, slots)
  {
    forall k | 0 <= k < |slots|
      ensures Chosen(u, slots[..k], slots[k])
    {
      MultipleChosen(weights, g, u, slots[..k], slots[k]);
    }
  }

  // ----- A smooth schedule begins again after each cycle

  lemma AfterACycle(m: int, w: int, t: int, b: int, whole: int, rest: int)
    requires whole == (t + m) * w - t * (w + b) + w && rest == m * w - t * b + w
    ensures whole == rest
  {
    MulDistributes(w, t, m);
    MulDistributes(t, w, b);
  }

  lemma LackAfterACycle(u: seq<int>, cycle: seq<int>, rest: seq<int>, i: nat)
    requires i < |u| && |cycle| == Sum(u) && Count(cycle, i) == u[i]
    ensures Lack(u, cycle + rest, i) == Lack(u, rest, i)
  {
    CountConcat(cycle, rest, i);
    LackIs(u, cycle + rest, i, Sum(u) + |rest|, u[i] + Count(rest, i));
    LackIs(u, rest, i, |rest|, Count(rest, i));
    AfterACycle(|rest|, u[i], Sum(u), Count(rest, i), Lack(u, cycle + rest, i), Lack(u, rest, i));
  }

  lemma LackIs(u: seq<int>, slots: seq<int>, i: nat, n: int, count: int)
    requires i < |u| && n == |slots| && count == Count(slots, i)
    ensures Lack(u, slots, i) == n * u[i] - Sum(u) * count + u[i]
  {
  }

  lemma ChosenAfterACycle(u: seq<int>, cycle: seq<int>, rest: seq<int>, c: int)
    requires |cycle| == Sum(u) && forall i | 0 <= i < |u| :: Count(cycle, i) == u[i]
    requires Chosen(u, cycle + rest, c)
    ensures Chosen(u, rest, c)
  {
    forall i | 0 <= i < |u|
      ensures Lack(u, cycle + rest, i) == Lack(u, rest, i)
    {
      LackAfterACycle(u, cycle, rest, i);
    }
  }

  lemma TailSmooth(u: seq<int>, slots: seq<int>, n: nat)
    requires Positive(u) && Smooth(u, slots) && n == Sum(u) <= |slots|
    ensures Smooth(u, slots[n..])
  {
    var cycle, tail := slots[..n], slots[n..];
    SmoothPrefix(u, slots, n);
    ExactShares(u, cycle);
    forall k | 0 <= k < |tail|
      ensures Chosen(u, tail[..k], tail[k])
    {
      assert slots[..n + k] == cycle + tail[..k] && slots[n + k] == tail[k];
      ChosenAfterACycle(u, cycle, tail[..k], tail[k]);
    }
  }

  lemma RepeatsOnce(u: seq<int>, slots: seq<int>, n: nat, k: nat)
    requires Positive(u) && Smooth(u, slots) && n == Sum(u) && n <= k < |slots|
    ensures slots[k] == slots[k - n]
  {
    var m := |slots| - n;
    TailSmooth(u, slots, n);
    SmoothPrefix(u, slots, m);
    SmoothUnique(u, slots[n..], slots[..m]);
    assert slots[n..][k - n] == slots[..m][k - n];
  }

  lemma {:induction false} Repeats(u: seq<int>, slots: seq<int>, n: nat, k: nat)
    requires Positive(u) && Smooth(u, slots) && 0 < n == Sum(u) && k < |slots|
    ensures slots[k] == slots[Remainder(k, n)]
  {
    if k >= n {
      RepeatsOnce(u, slots, n, k);
      Repeats(u, slots, n, k - n);
    }
  }

  lemma {:induction false} RemainderOfSum(x: nat, n: nat, g: nat, m: nat)
    requires 0 < n && m == n * g
    ensures Remainder(x + m, n) == Remainder(x, n)
  {
    if g > 0 {
      MulSign(n, g - 1);
      MulDistributes(n, g - 1, 1);
      RemainderOfSum(x, n, g - 1, m - n);
      assert x + m - n == x + (m - n);
    }
  }

  lemma {:induction false} RemainderTwice(c: nat, n: nat, g: nat, m: nat)
    requires 0 < n && 0 < m == n * g
    ensures Remainder(Remainder(c, m), n) == Remainder(c, n)
    decreases c
  {
    if c >= m {
      RemainderTwice(c - m, n, g, m);
      RemainderOfSum(c - m, n, g, m);
    }
  }

  /** The claims of a whole schedule are those of its first cycle of the reduced weights. */
  lemma SameClaims(u: seq<int>, slots: seq<int>, n: nat, g: nat, c: nat)
    requires Positive(u) && Smooth(u, slots) && 0 < n == Sum(u) && 0 < |slots| == n * g && n <= |slots|
    ensures Claimed(slots, c) == Claimed(slots[..n], c)
  {
    Repeats(u, slots, n, Remainder(c, |slots|));
    RemainderTwice(c, n, g, |slots|);
  }

  lemma SamePeriods(u: seq<int>, slots: seq<int>, n: nat, g: nat, d: nat)
    requires Positive(u) && Smooth(u, slots) && 0 < n == Sum(u) && 0 < |slots| == n * g && n <= |slots|
    ensures IsPeriod(slots, d) <==> IsPeriod(slots[..n], d)
  {
    forall k: nat
      ensures SameAt(slots, k, d) <==> SameAt(slots[..n], k, d)
    {
      SameClaims(u, slots, n, g, k);
      SameClaims(u, slots, n, g, k + d);
    }
    if IsPeriod(slots, d) {
      forall k: nat ensures SameAt(slots[..n], k, d) {
        assert SameAt(slots, k, d);
      }
    }
    if IsPeriod(slots[..n], d) {
      forall k: nat ensures SameAt(slots, k, d) {
        assert SameAt(slots[..n], k, d);
      }
    }
  }

  // ----- The cycle of reduced weights has no shorter period

  lemma ShiftedClaims(slots: seq<int>, d: nat, q: nat, m: nat)
    requires |slots| > 0 && IsPeriod(slots, d) && m == d * q
    ensures Claims(slots, m, d) == Claims(slots, 0, d)
  {
    var later, first := Claims(slots, m, d), Claims(slots, 0, d);
    forall j: nat | j < d
      ensures later[j] == first[j]
    {
      PeriodMultiple(slots, d, q, m, j);
      assert m + j == j + m;
      assert first[j] == Claimed(slots, 0 + j);
    }
  }

  function Repeated(q: nat, x: int): int {
    if q == 0 then 0 else Repeated(q - 1, x) + x
  }

  lemma {:induction false} RepeatedIs(q: nat, x: int)
    ensures Repeated(q, x) == q * x
  {
    if q > 0 {
      RepeatedIs(q - 1, x);
      MulDistributes(x, q - 1, 1);
    }
  }

  lemma {:induction false} BlockCount(slots: seq<int>, d: nat, q: nat, m: nat, i: int)
    requires |slots| > 0 && IsPeriod(slots, d) && m == d * q
    ensures Count(Claims(slots, 0, m), i) == Repeated(q, Count(Claims(slots, 0, d), i))
  {
    if q > 0 {
      var shorter := m - d;
      MulSign(d, q - 1);
      MulDistributes(d, q - 1, 1);
      BlockCount(slots, d, q - 1, shorter, i);
      ShiftedClaims(slots, d, q - 1, shorter);
      ClaimsSplit(slots, 0, shorter, d);
      assert 0 + shorter == shorter && shorter + d == m;
      CountConcat(Claims(slots, 0, shorter), Claims(slots, shorter, d), i);
    }
  }

  lemma DividesProduct(q: nat, x: int)
    requires q > 0
    ensures (q * x) % q == 0
  {
    DivUnique(q * x, q, x, 0);
  }

  /** A shorter period would be a common factor of the weights. */
  lemma ReducedCycleIsLeast(u: seq<int>, cycle: seq<int>)
    requires Positive(u) && Reduced(u) && Smooth(u, cycle) && |cycle| == Sum(u)
    ensures 0 < |cycle| && LeastPeriod(cycle, |cycle|)
  {
    SumPositive(u);
    var d := SomeLeastPeriod(cycle);
    CycleIsPeriod(cycle);
    PeriodsAreMultiples(cycle, d, |cycle|);
    var q := |cycle| / d;
    assert |cycle| == d * q;
    FirstCycle(cycle);
    ExactShares(u, cycle);
    forall i | 0 <= i < |u|
      ensures u[i] % q == 0
    {
      BlockCount(cycle, d, q, |cycle|, i);
      RepeatedIs(q, Count(Claims(cycle, 0, d), i));
      DividesProduct(q, Count(Claims(cycle, 0, d), i));
    }
    assert CommonFactor(u, q);
  }

  // ----- The condition in the weights

  /**
   For weights `g * u`, where `u` has no common factor: the schedule repeats itself every `Sum(u)` slots and no more
   often, so it stays exact across the wrap if and only if `Sum(u)` divides 2^64.
   */
  lemma WrapExactInTheWeights(weights: seq<int>, g: nat, u: seq<int>, slots: seq<int>)
    requires Positive(u) && Reduced(u) && 0 < g && IsMultiple(weights, g, u)
    requires Smooth(weights, slots) && |slots| == Sum(weights) <= TWO_TO_THE_64
    ensures 0 < Sum(u) && 0 < |slots| && LeastPeriod(slots, Sum(u))
    ensures CyclesKeepCounts(slots) <==> TWO_TO_THE_64 % Sum(u) == 0
  {
    SumPositive(u);
    var n := Sum(u);
    MultipleSum(weights, g, u, |u|);
    assert weights[..|u|] == weights && u[..|u|] == u;
    Regroup(n, 1, g);
    assert |slots| == n * g;
    MulSign(n, g);
    MultipleSmooth(weights, g, u, slots);
    SmoothPrefix(u, slots, n);
    ReducedCycleIsLeast(u, slots[..n]);
    forall d: nat
      ensures IsPeriod(slots, d) <==> IsPeriod(slots[..n], d)
    {
      SamePeriods(u, slots, n, g, d);
    }
    assert LeastPeriod(slots, n);
    WeightedWrapExact(slots, n);
  }

  /** Every weights have such a form. */
  lemma ReducedForm(weights: seq<int>) returns (g: nat, u: seq<int>)
    requires Positive(weights)
    ensures 0 < g && Positive(u) && Reduced(u) && IsMultiple(weights, g, u)
  {
    g := GreatestFactor(weights);
    u := seq(|weights|, i requires 0 <= i < |weights| => weights[i] / g);
    forall i | 0 <= i < |u|
      ensures weights[i] == g * u[i] && u[i] > 0
    {
      assert weights[i] % g == 0;
      ExactQuotient(weights[i], g);
    }
    forall f: nat | CommonFactor(u, f)
      ensures f == 1
    {
      FactorTimes(weights, g, u, f);
      MulSign(g, f);
      MulDistributes(g, f, 1);
      MulSign(g, f - 1);
    }
  }

  lemma ExactQuotient(x: int, g: int)
    requires 0 < g && 0 < x && x % g == 0
    ensures x == g * (x / g) && x / g > 0
  {
    MulSign(g, x / g);
  }

  lemma FactorTimes(weights: seq<int>, g: nat, u: seq<int>, f: nat)
    requires 0 < g && IsMultiple(weights, g, u) && CommonFactor(u, f)
    ensures 0 < g * f && CommonFactor(weights, g * f)
  {
    MulSign(g, f);
    forall i | 0 <= i < |weights|
      ensures weights[i] % (g * f) == 0
    {
      assert u[i] % f == 0;
      assert u[i] == f * (u[i] / f);
      Regroup3(g, f, u[i] / f);
      DividesProduct(g * f, u[i] / f);
    }
  }

  lemma Regroup3(g: int, f: int, x: int)
    ensures g * (f * x) == (g * f) * x
  {
  }

  lemma GreatestFactor(weights: seq<int>) returns (g: nat)
    requires Positive(weights)
    ensures CommonFactor(weights, g) && forall f: nat | CommonFactor(weights, f) :: f <= g
  {
    g := weights[0];
    forall f: nat | CommonFactor(weights, f)
      ensures f <= g
    {
      assert weights[0] % f == 0;
      ExactQuotient(weights[0], f);
      MulSign(f, weights[0] / f);
    }
    assert CommonFactor(weights, 1);
    while !CommonFactor(weights, g)
      invariant 1 <= g && forall f: nat | CommonFactor(weights, f) :: f <= g
      decreases g
    {
      g := g - 1;
    }
  }

  // ----- Where it fails

  /** Over three targets, the cycle that begins with the last counter value meets target 0 twice and target 2 not at all. */
  lemma ThreeTargetsMissOne()
    ensures !MeetsAll(3, TWO_TO_THE_64 - 1)
  {
    var top, slots := TWO_TO_THE_64, Slots([], 3);
    var claims := WrappedClaims(slots, top - 1, 3);
    forall j: nat | j < 3
      ensures claims[j] != 2
    {
      WrappedIs(top - 1 + j);
      ClaimedTurn(3, Wrapped(top - 1 + j));
      RemainderIs(Wrapped(top - 1 + j), 3);
    }
    assert 2 !in claims;
  }

  /** Weights 2 and 1: no schedule of them keeps its counts across the wrap. */
  lemma TwoToOneFails(slots: seq<int>)
    requires Smooth([2, 1], slots) && |slots| == 3
    ensures !CyclesKeepCounts(slots)
  {
    var u := [2, 1];
    assert u[..1] == [2] && u[..1][..0] == [];
    assert Sum(u[..1]) == 2 && Sum(u) == 3;
    forall f: nat | CommonFactor(u, f)
      ensures f == 1
    {
      assert u[1] % f == 0;
      ExactQuotient(1, f);
      MulSign(f, 1 / f);
    }
    WrapExactInTheWeights(u, 1, u, slots);
  }
}
