/**
 The smooth weighted round-robin schedule of a named backend (proxy.go, `validateTargetWeights` and
 `buildTargetSchedule`).

 A schedule is a sequence of target indexes.  Its meaning is given without scores: slot `k` goes to the
 target that is furthest behind its ideal share `(k+1) * weight / total`, the lowest index on a tie.
 */
module TargetSchedule {
  import opened Prelude
  import opened Arithmetic

  const MAX_TARGET_WEIGHT := 1_000
  const MAX_TARGET_WEIGHT_TOTAL := 10_000

  datatype WeightError = Empty | WrongLength | OutOfRange(index: nat) | SumTooLarge

  function Sum(xs: seq<int>): int {
    if |xs| == 0 then 0 else Sum(xs[..|xs| - 1]) + xs[|xs| - 1]
  }

  /** How many of the slots belong to the target. */
  function Count(slots: seq<int>, target: int): nat {
    if |slots| == 0 then 0
    else Count(slots[..|slots| - 1], target) + if slots[|slots| - 1] == target then 1 else 0
  }

  ghost predicate Positive(weights: seq<int>) {
    |weights| > 0 && forall i | 0 <= i < |weights| :: weights[i] > 0
  }

  ghost predicate InRange(slots: seq<int>, n: nat) {
    forall k | 0 <= k < |slots| :: 0 <= slots[k] < n
  }

  /** The distance of a target from its ideal share after the given slots, in units of 1/total. */
  function Score(weights: seq<int>, slots: seq<int>, i: nat): int
    requires i < |weights|
  {
    |slots| * weights[i] - Sum(weights) * Count(slots, i)
  }

  /** What the target lacks if it is not given the next slot either. */
  function Lack(weights: seq<int>, slots: seq<int>, i: nat): int
    requires i < |weights|
  {
    Score(weights, slots, i) + weights[i]
  }

  /** `c` is the lowest of the targets that lack the most. */
  ghost predicate Chosen(weights: seq<int>, slots: seq<int>, c: int) {
    && 0 <= c < |weights|
    && (forall i | 0 <= i < |weights| :: Lack(weights, slots, i) <= Lack(weights, slots, c))
    && (forall i | 0 <= i < c :: Lack(weights, slots, i) < Lack(weights, slots, c))
  }

  /** Every slot of the sequence goes to the target chosen by the slots before it. */
  ghost predicate Smooth(weights: seq<int>, slots: seq<int>) {
    forall k | 0 <= k < |slots| :: Chosen(weights, slots[..k], slots[k])
  }

  lemma {:induction false} SumPositive(weights: seq<int>)
    requires Positive(weights)
    ensures 0 < Sum(weights)
  {
    var last := |weights| - 1;
    if last > 0 {
      SumPositive(weights[..last]);
    } else {
      assert weights[..last] == [];
    }
  }

  lemma {:induction false} SumMonotone(weights: seq<int>, i: nat)
    requires Positive(weights) && i <= |weights|
    ensures Sum(weights[..i]) <= Sum(weights)
  {
    var last := |weights| - 1;
    if i == |weights| {
      assert weights[..i] == weights;
    } else if last > 0 {
      assert weights[..last][..i] == weights[..i];
      SumMonotone(weights[..last], i);
    } else {
      SumPositive(weights);
    }
  }

  ghost predicate AcceptedBefore(weights: seq<int>, k: nat) {
    && k < |weights|
    && (forall i | 0 <= i < k :: 1 <= weights[i] <= MAX_TARGET_WEIGHT)
    && Sum(weights[..k]) <= MAX_TARGET_WEIGHT_TOTAL
  }

  /** What an error says: the first item that is out of range or that takes the sum over the limit. */
  ghost predicate Reports(error: WeightError, weights: seq<int>, targetCount: nat) {
    match error
    case Empty => |weights| == 0
    case WrongLength => 0 < |weights| != targetCount
    case OutOfRange(k) =>
      |weights| == targetCount && AcceptedBefore(weights, k) && !(1 <= weights[k] <= MAX_TARGET_WEIGHT)
    case SumTooLarge =>
      |weights| == targetCount
      && exists k: nat :: AcceptedBefore(weights, k) && 1 <= weights[k] <= MAX_TARGET_WEIGHT
                          && Sum(weights[..k]) + weights[k] > MAX_TARGET_WEIGHT_TOTAL
  }

  /** The weights are accepted exactly when there is one in 1..1000 for each target and they sum to at most 10000. */
  method ValidateTargetWeights(weights: seq<int>, targetCount: nat) returns (r: Result<(), WeightError>)
    ensures r.Ok? <==>
            && |weights| > 0 && |weights| == targetCount
            && (forall i | 0 <= i < |weights| :: 1 <= weights[i] <= 1_000)
            && Sum(weights) <= 10_000
    ensures r.Err? ==> Reports(r.error, weights, targetCount)
  {
    if |weights| == 0 { return Err(Empty); }
    if |weights| != targetCount { return Err(WrongLength); }
    var total := 0;
    for index := 0 to |weights|
      invariant forall i | 0 <= i < index :: 1 <= weights[i] <= MAX_TARGET_WEIGHT
      invariant total == Sum(weights[..index]) <= MAX_TARGET_WEIGHT_TOTAL
    {
      var weight := weights[index];
      assert AcceptedBefore(weights, index);
      if weight < 1 || weight > MAX_TARGET_WEIGHT { return Err(OutOfRange(index)); }
      assert weights[..index + 1][..index] == weights[..index];
      if total > MAX_TARGET_WEIGHT_TOTAL - weight {
        if Positive(weights) {
          SumMonotone(weights, index + 1);
        }
        return Err(SumTooLarge);
      }
      total := total + weight;
    }
    assert weights[..|weights|] == weights;
    return Ok(());
  }

  // ----- No target is ever a full slot ahead

  lemma CountAppend(slots: seq<int>, target: int, c: int)
    ensures Count(slots + [c], target) == Count(slots, target) + if c == target then 1 else 0
  {
    assert (slots + [c])[..|slots|] == slots;
  }

  /** Giving the next slot to `c` moves its score down by a whole total. */
  lemma ScoreAppend(weights: seq<int>, slots: seq<int>, i: nat, c: int)
    requires i < |weights|
    ensures Score(weights, slots + [c], i) == Lack(weights, slots, i) - if c == i then Sum(weights) else 0
  {
    CountAppend(slots, i, c);
    var w, t, k := weights[i], Sum(weights), Count(slots, i);
    assert (|slots| + 1) * w == |slots| * w + w;
    assert t * (k + 1) == t * k + t;
  }

  function CountBelow(slots: seq<int>, n: nat): nat {
    if n == 0 then 0 else CountBelow(slots, n - 1) + Count(slots, n - 1)
  }

  lemma {:induction false} CountBelowStep(slots: seq<int>, n: nat, c: int)
    ensures CountBelow(slots + [c], n) == CountBelow(slots, n) + if 0 <= c < n then 1 else 0
  {
    if n > 0 {
      CountBelowStep(slots, n - 1, c);
      CountAppend(slots, n - 1, c);
    }
  }

  /** Every slot is counted for exactly one target. */
  lemma {:induction false} CountBelowAll(slots: seq<int>, n: nat)
    requires InRange(slots, n)
    ensures CountBelow(slots, n) == |slots|
  {
    if |slots| == 0 {
      CountBelowEmpty(n);
    } else {
      var front, c := slots[..|slots| - 1], slots[|slots| - 1];
      CountBelowAll(front, n);
      CountBelowStep(front, n, c);
      assert front + [c] == slots;
    }
  }

  lemma CountBelowEmpty(n: nat)
    ensures CountBelow([], n) == 0
  {
  }

  function SumLack(weights: seq<int>, slots: seq<int>, n: nat): int
    requires n <= |weights|
  {
    if n == 0 then 0 else SumLack(weights, slots, n - 1) + Lack(weights, slots, n - 1)
  }

  lemma SumLackStep(k: int, t: int, s: int, w: int, b: int, c: int, lack: int)
    requires lack == (k - 1) * w - t * c + w
    ensures k * s - t * b + lack == k * (s + w) - t * (b + c)
  {
    MulDistributes(k, s, w);
    MulDistributes(t, b, c);
    MulDistributes(w, k, 1);
  }

  lemma {:induction false} SumLackIs(weights: seq<int>, slots: seq<int>, n: nat)
    requires n <= |weights|
    ensures SumLack(weights, slots, n) == (|slots| + 1) * Sum(weights[..n]) - Sum(weights) * CountBelow(slots, n)
  {
    if n > 0 {
      SumLackIs(weights, slots, n - 1);
      assert weights[..n][..n - 1] == weights[..n - 1];
      SumLackStep(|slots| + 1, Sum(weights), Sum(weights[..n - 1]), weights[n - 1], CountBelow(slots, n - 1),
                  Count(slots, n - 1), Lack(weights, slots, n - 1));
    }
  }

  lemma {:induction false} SumLackBound(weights: seq<int>, slots: seq<int>, n: nat, most: int)
    requires n <= |weights|
    requires forall i | 0 <= i < n :: Lack(weights, slots, i) <= most
    ensures SumLack(weights, slots, n) <= n * most
  {
    if n > 0 {
      SumLackBound(weights, slots, n - 1, most);
      assert n * most == (n - 1) * most + most;
    }
  }

  /** What all targets lack together is one slot, so the chosen one lacks something. */
  lemma ChosenLacks(weights: seq<int>, slots: seq<int>, c: int)
    requires Positive(weights) && InRange(slots, |weights|) && Chosen(weights, slots, c)
    ensures Lack(weights, slots, c) > 0
  {
    var n, most := |weights|, Lack(weights, slots, c);
    AllLackOne(weights, slots);
    SumPositive(weights);
    SumLackBound(weights, slots, n, most);
    PositiveFactor(n, most);
  }

  lemma AllLackOne(weights: seq<int>, slots: seq<int>)
    requires InRange(slots, |weights|)
    ensures SumLack(weights, slots, |weights|) == Sum(weights)
  {
    SumLackIs(weights, slots, |weights|);
    CountBelowAll(slots, |weights|);
    assert weights[..|weights|] == weights;
    OneMore(Sum(weights), |slots|);
  }

  lemma OneMore(t: int, k: int)
    ensures (k + 1) * t - t * k == t
  {
  }

  lemma PositiveFactor(n: int, x: int)
    requires n > 0 && n * x > 0
    ensures x > 0
  {
    MulSign(n, x);
  }

  lemma SmoothPrefix(weights: seq<int>, slots: seq<int>, k: nat)
    requires Smooth(weights, slots) && k <= |slots|
    ensures Smooth(weights, slots[..k]) && InRange(slots, |weights|)
  {
    forall j | 0 <= j < k
      ensures Chosen(weights, slots[..k][..j], slots[..k][j])
    {
      assert slots[..k][..j] == slots[..j];
    }
  }

  /** After any number of smooth slots, every score is above minus the total: no target is a full slot ahead. */
  lemma {:induction false} NeverAFullSlotAhead(weights: seq<int>, slots: seq<int>, i: nat)
    requires Positive(weights) && Smooth(weights, slots) && i < |weights|
    ensures Score(weights, slots, i) > -Sum(weights)
  {
    SumPositive(weights);
    if |slots| > 0 {
      var k := |slots| - 1;
      var front, c := slots[..k], slots[k];
      SmoothPrefix(weights, slots, k);
      NeverAFullSlotAhead(weights, front, i);
      assert InRange(front, |weights|) && Chosen(weights, front, c);
      ScoreAppend(weights, front, i, c);
      assert front + [c] == slots;
      if c == i {
        ChosenLacks(weights, front, c);
      }
    }
  }

  /** The prefix form of the bound: `total * count < k * weight + total` for every prefix of length `k`. */
  lemma PrefixShare(weights: seq<int>, slots: seq<int>, k: nat, i: nat)
    requires Positive(weights) && Smooth(weights, slots) && k <= |slots| && i < |weights|
    ensures Sum(weights) * Count(slots[..k], i) < k * weights[i] + Sum(weights)
  {
    SmoothPrefix(weights, slots, k);
    NeverAFullSlotAhead(weights, slots[..k], i);
  }

  // ----- Exact shares over a whole cycle

  lemma SlotBound(t: int, w: int, c: int)
    requires t > 0 && t * w - t * c > -t
    ensures c <= w
  {
    MulDistributes(t, w, c);
    MulSign(t, w - c);
  }

  lemma {:induction false} SumBelow(slots: seq<int>, weights: seq<int>, n: nat)
    requires n <= |weights|
    requires forall i | 0 <= i < n :: Count(slots, i) <= weights[i]
    ensures CountBelow(slots, n) <= Sum(weights[..n])
    ensures CountBelow(slots, n) == Sum(weights[..n]) ==> forall i | 0 <= i < n :: Count(slots, i) == weights[i]
  {
    if n > 0 {
      SumBelow(slots, weights, n - 1);
      assert weights[..n][..n - 1] == weights[..n - 1];
    }
  }

  /** One smooth cycle gives every target exactly its weight, and returns every score to zero. */
  lemma ExactShares(weights: seq<int>, slots: seq<int>)
    requires Positive(weights) && Smooth(weights, slots) && |slots| == Sum(weights)
    ensures forall i | 0 <= i < |weights| :: Count(slots, i) == weights[i]
    ensures forall i: nat | i < |weights| :: Score(weights, slots, i) == 0
  {
    var n, t := |weights|, Sum(weights);
    SumPositive(weights);
    forall i: nat | i < n
      ensures Count(slots, i) <= weights[i]
    {
      NeverAFullSlotAhead(weights, slots, i);
      SlotBound(t, weights[i], Count(slots, i));
    }
    SmoothPrefix(weights, slots, |slots|);
    CountBelowAll(slots, n);
    assert weights[..n] == weights;
    SumBelow(slots, weights, n);
  }

  // ----- The schedule is determined by the weights

  lemma {:induction false} SmoothUnique(weights: seq<int>, a: seq<int>, b: seq<int>)
    requires Smooth(weights, a) && Smooth(weights, b) && |a| == |b|
    ensures a == b
  {
    if |a| > 0 {
      var k := |a| - 1;
      SmoothPrefix(weights, a, k);
      SmoothPrefix(weights, b, k);
      SmoothUnique(weights, a[..k], b[..k]);
      assert Chosen(weights, a[..k], a[k]) && Chosen(weights, a[..k], b[k]);
      assert a == a[..k] + [a[k]] && b == b[..k] + [b[k]];
    }
  }

  ghost predicate Equal(weights: seq<int>) {
    forall i | 0 <= i < |weights| :: weights[i] == weights[0]
  }

  lemma {:induction false} EqualSum(weights: seq<int>, i: nat)
    requires |weights| > 0 && Equal(weights) && i <= |weights|
    ensures Sum(weights[..i]) == i * weights[0]
  {
    if i > 0 {
      assert weights[..i][..i - 1] == weights[..i - 1];
      EqualSum(weights, i - 1);
      MulDistributes(weights[0], i, 1);
    }
  }

  ghost predicate Rotates(n: nat, slots: seq<int>) {
    n > 0 && forall k | 0 <= k < |slots| :: slots[k] == k % n
  }

  /** The shares after `q` full rounds and `r` further turns of plain round-robin over `n` targets. */
  lemma {:induction false} RoundRobinCount(n: nat, slots: seq<int>, i: nat, q: nat, r: nat)
    requires i < n && r < n && |slots| == n * q + r
    requires Rotates(n, slots)
    ensures Count(slots, i) == q + if i < r then 1 else 0
  {
    if r > 0 {
      DivUnique(|slots| - 1, n, q, r - 1);
      RoundRobinCount(n, slots[..|slots| - 1], i, q, r - 1);
    } else if q > 0 {
      MulDistributes(n, q, 1);
      MulSign(n, q - 1);
      DivUnique(|slots| - 1, n, q - 1, n - 1);
      RoundRobinCount(n, slots[..|slots| - 1], i, q - 1, n - 1);
    }
  }

  /** After `q` full rounds and `r` further turns, the targets that have not had their turn lack the most. */
  lemma RoundRobinLack(weights: seq<int>, slots: seq<int>, i: nat, q: nat, r: nat)
    requires Equal(weights) && i < |weights| && r < |weights| && |slots| == |weights| * q + r
    requires Rotates(|weights|, slots)
    ensures Lack(weights, slots, i)
            == |slots| * weights[0] + weights[0] - Sum(weights) * q - if i < r then Sum(weights) else 0
  {
    RoundRobinCount(|weights|, slots, i, q, r);
    MulDistributes(Sum(weights), q, 1);
  }

  lemma RoundRobinChosen(weights: seq<int>, slots: seq<int>, q: nat, r: nat)
    requires Positive(weights) && Equal(weights) && r < |weights| && |slots| == |weights| * q + r
    requires Rotates(|weights|, slots)
    ensures Chosen(weights, slots, r)
  {
    SumPositive(weights);
    RoundRobinLack(weights, slots, r, q, r);
    forall i | 0 <= i < |weights|
      ensures Lack(weights, slots, i) == Lack(weights, slots, r) - if i < r then Sum(weights) else 0
    {
      RoundRobinLack(weights, slots, i, q, r);
    }
  }

  /** With equal weights the smooth schedule is plain round-robin: slot `k` is target `k mod n`. */
  lemma {:induction false} EqualWeightsRotate(weights: seq<int>, slots: seq<int>, k: nat)
    requires Positive(weights) && Equal(weights) && Smooth(weights, slots) && k < |slots|
    ensures slots[k] == k % |weights|
  {
    var n, front := |weights|, slots[..k];
    forall j | 0 <= j < k
      ensures front[j] == j % n
    {
      EqualWeightsRotate(weights, slots, j);
    }
    assert k == n * (k / n) + k % n;
    RoundRobinChosen(weights, front, k / n, k % n);
    OnlyChosen(weights, front, k % n, slots[k]);
  }

  lemma OnlyChosen(weights: seq<int>, slots: seq<int>, a: int, b: int)
    requires Chosen(weights, slots, a) && Chosen(weights, slots, b)
    ensures a == b
  {
    assert Lack(weights, slots, a) == Lack(weights, slots, b);
  }

  // ----- The builder

  /** Builds one cycle of the schedule: one slot for each unit of weight, each given to the chosen target. */
  method BuildTargetSchedule(weights: seq<int>) returns (schedule: seq<int>)
    requires Positive(weights)
    ensures |schedule| == Sum(weights)
    ensures Smooth(weights, schedule)
    ensures InRange(schedule, |weights|)
    ensures forall i | 0 <= i < |weights| :: Count(schedule, i) == weights[i]
    ensures forall k, i | 0 <= k <= |schedule| && 0 <= i < |weights| ::
              Sum(weights) * Count(schedule[..k], i) < k * weights[i] + Sum(weights)
    ensures Equal(weights) ==> forall k | 0 <= k < |schedule| :: schedule[k] == k % |weights|
  {
    var total := 0;
    for index := 0 to |weights|
      invariant total == Sum(weights[..index])
    {
      assert weights[..index + 1][..index] == weights[..index];
      total := total + weights[index];
    }
    assert weights[..|weights|] == weights;
    SumPositive(weights);
    var current := new int[|weights|](_ => 0);
    schedule := [];
    for slot := 0 to total
      invariant |schedule| == slot
      invariant Smooth(weights, schedule)
      invariant forall i: nat | i < |weights| :: current[i] == Score(weights, schedule, i)
    {
      var selected := 0;
      for index := 0 to |weights|
        invariant 0 <= selected <= index && selected < |weights|
        invariant forall i: nat | i < index :: current[i] == Lack(weights, schedule, i)
        invariant forall i: nat | index <= i < |weights| :: current[i] == Score(weights, schedule, i)
        invariant forall i | 0 <= i < index :: current[i] <= current[selected]
        invariant forall i | 0 <= i < selected :: current[i] < current[selected]
      {
        current[index] := current[index] + weights[index];
        if index == 0 || current[index] > current[selected] {
          selected := index;
        }
      }
      assert Chosen(weights, schedule, selected);
      current[selected] := current[selected] - total;
      forall i: nat | i < |weights|
        ensures Score(weights, schedule + [selected], i) == current[i]
      {
        ScoreAppend(weights, schedule, i, selected);
      }
      SmoothAppend(weights, schedule, selected);
      schedule := schedule + [selected];
    }
    SmoothPrefix(weights, schedule, |schedule|);
    ExactShares(weights, schedule);
    forall k, i | 0 <= k <= |schedule| && 0 <= i < |weights|
      ensures Sum(weights) * Count(schedule[..k], i) < k * weights[i] + Sum(weights)
    {
      PrefixShare(weights, schedule, k, i);
    }
    if Equal(weights) {
      forall k | 0 <= k < |schedule| ensures schedule[k] == k % |weights| {
        EqualWeightsRotate(weights, schedule, k);
      }
    }
  }

  lemma SmoothAppend(weights: seq<int>, slots: seq<int>, c: int)
    requires Smooth(weights, slots) && Chosen(weights, slots, c)
    ensures Smooth(weights, slots + [c])
  {
    var longer := slots + [c];
    forall k | 0 <= k < |longer|
      ensures Chosen(weights, longer[..k], longer[k])
    {
      assert longer[..k] == slots[..k];
      assert slots[..|slots|] == slots;
    }
  }
}
