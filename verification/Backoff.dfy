/**
 The retry backoff table (proxy.go, `buildBackoffDelays`).  Durations are 64-bit, and the verifier checks every
 operation on them for overflow.
 */
module Backoff {
  newtype Duration = d: int | -0x8000_0000_0000_0000 <= d < 0x8000_0000_0000_0000

  function Doubled(base: int, i: nat): int {
    if i == 0 then base else 2 * Doubled(base, i - 1)
  }

  /** The unbounded definition: doubling from `base`, limited by `cap`. */
  function Delay(base: int, cap: int, i: nat): int {
    if Doubled(base, i) <= cap then Doubled(base, i) else cap
  }

  lemma DoublingGrows(base: int, i: nat)
    requires base > 0
    ensures Doubled(base, i) >= base
  {
  }

  /** Every delay is the unbounded one, although the table is computed in 64 bits and stops doubling at the cap. */
  method BuildBackoffDelays(base: Duration, cap: Duration, tries: nat) returns (delays: seq<Duration>)
    requires 0 < base <= cap && tries >= 1
    ensures |delays| == tries - 1
    ensures forall i | 0 <= i < |delays| :: delays[i] as int == Delay(base as int, cap as int, i)
    ensures forall i | 0 <= i < |delays| :: base <= delays[i] <= cap
    ensures |delays| > 0 ==> delays[0] == base
    ensures forall i | 0 <= i < |delays| - 1 ::
              delays[i + 1] as int == if 2 * (delays[i] as int) <= cap as int then 2 * (delays[i] as int) else cap as int
  {
    delays := [];
    var delay := base;
    for index := 0 to tries - 1
      invariant |delays| == index
      invariant forall i | 0 <= i < index :: delays[i] as int == Delay(base as int, cap as int, i) && base <= delays[i] <= cap
      invariant base <= delay <= cap && delay as int == Delay(base as int, cap as int, index)
    {
      delays := delays + [delay];
      DoublingGrows(base as int, index);
      if delay >= cap { continue; }
      if delay > cap / 2 {
        delay := cap;
        continue;
      }
      delay := delay * 2;
    }
    forall i | 0 <= i < |delays| - 1
      ensures delays[i + 1] as int == if 2 * (delays[i] as int) <= cap as int then 2 * (delays[i] as int) else cap as int
    {
      DoublingGrows(base as int, i);
    }
  }
}
