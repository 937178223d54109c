/** The nonlinear facts the other modules need. */
module Arithmetic {

  lemma MulSign(n: int, d: int)
    ensures n >= 0 && d >= 1 ==> n * d >= n
    ensures n >= 0 && d <= -1 ==> n * d <= -n
    ensures n >= 0 && d <= 0 ==> n * d <= 0
    ensures n >= 0 && d >= 0 ==> n * d >= 0
  {
    if n >= 0 && d >= 1 {
      assert n * d == n + n * (d - 1);
    }
    if n >= 0 && d <= -1 {
      assert n * d == -n + n * (d + 1);
    }
  }

  lemma MulDistributes(t: int, a: int, b: int)
    ensures t * (a + b) == t * a + t * b
    ensures t * (a - b) == t * a - t * b
    ensures (a + b) * t == a * t + b * t
    ensures (a - b) * t == a * t - b * t
  {
  }

  lemma DivUnique(x: int, n: int, q: int, r: int)
    requires x == n * q + r && 0 <= r < n
    ensures x / n == q && x % n == r
  {
    var d := x / n - q;
    MulDistributes(n, x / n, q);
    assert n * (x / n) + x % n == x;
    assert n * d == r - x % n;
    MulSign(n, d);
  }

  /** Division and remainder of the successor. */
  lemma DivSuccessor(k: nat, n: nat)
    requires n > 0
    ensures (k + 1) / n == k / n + if k % n == n - 1 then 1 else 0
    ensures (k + 1) % n == if k % n == n - 1 then 0 else k % n + 1
  {
    var q, r := k / n, k % n;
    if r == n - 1 {
      MulDistributes(n, q, 1);
      DivUnique(k + 1, n, q + 1, 0);
    } else {
      DivUnique(k + 1, n, q, r + 1);
    }
  }

  lemma ModPeriod(x: nat, n: nat)
    requires n > 0
    ensures (x + n) % n == x % n
  {
    MulDistributes(n, x / n, 1);
    DivUnique(x + n, n, x / n + 1, x % n);
  }

  /** A remainder by a multiple of `n` keeps the remainder by `n`. */
  lemma ModMultiple(x: nat, n: nat, w: nat, m: nat)
    requires n > 0 && m == n * w > 0
    ensures (x % m) % n == x % n
  {
    var q, r := x / m, x % m;
    assert m * q == n * (w * q) by {
      assert (n * w) * q == n * (w * q);
    }
    MulDistributes(n, w * q, r / n);
    DivUnique(x, n, w * q + r / n, r % n);
  }

  /** `x % n` by repeated subtraction. */
  function Remainder(x: nat, n: nat): (r: nat)
    requires n > 0
    ensures r < n
  {
    if x < n then x else Remainder(x - n, n)
  }

  lemma {:induction false} RemainderIs(x: nat, n: nat)
    requires n > 0
    ensures Remainder(x, n) == x % n
    decreases x
  {
    if x < n {
      DivUnique(x, n, 0, x);
    } else {
      RemainderIs(x - n, n);
      ModPeriod(x - n, n);
    }
  }

  lemma {:induction false} RemainderShift(a: nat, b: nat, c: nat, n: nat)
    requires n > 0 && Remainder(a, n) == Remainder(b, n)
    ensures Remainder(c + a, n) == Remainder(c + b, n)
    decreases a + b
  {
    if a >= n {
      RemainderShift(a - n, b, c, n);
    } else if b >= n {
      RemainderShift(a, b - n, c, n);
    }
  }

  /** Fewer than `n` further on, the remainder is another one. */
  lemma {:induction false} RemainderSpread(x: nat, d: nat, n: nat)
    requires 0 < d < n
    ensures Remainder(x + d, n) != Remainder(x, n)
    decreases x
  {
    if x >= n {
      RemainderSpread(x - n, d, n);
    }
  }
}
