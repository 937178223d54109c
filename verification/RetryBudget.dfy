/**
 The shared retry budget of a named backend (proxy.go, `retryBudget.reserve`): at most `max` reservations in
 each fixed window, and a window that starts with the first reservation at or after the end of the last one.
 */
module RetryBudget {
  import opened Prelude
  import opened Arithmetic

  datatype Limits = Limits(max: int, window: int) {
    predicate Valid() { max >= 1 && window > 0 }
  }

  datatype Window = Window(started: Option<int>, used: int)

  const INACTIVE := Window(None, 0)

  datatype Answer = Reserved | Exhausted | Ended

  /** The window a reservation at `now` is charged to. */
  function Rolled(w: Window, b: Limits, now: int): Window {
    if w.started.None? || now - w.started.value >= b.window then Window(Some(now), 0) else w
  }

  function Reserving(w: Window, b: Limits, now: int): (Window, bool) {
    var rolled := Rolled(w, b, now);
    if rolled.used >= b.max then (rolled, false) else (rolled.(used := rolled.used + 1), true)
  }

  class RetryBudget {
    const limits: Limits
    var window: Window

    constructor (limits: Limits)
      ensures this.limits == limits && window == INACTIVE
    {
      this.limits := limits;
      window := INACTIVE;
    }

    /** `before` and `inside` are whether the context has ended before and after taking the lock. */
    method Reserve(before: bool, inside: bool, now: int) returns (answer: Answer)
      modifies this
      ensures before || inside ==> answer == Ended && window == old(window)
      ensures !before && !inside ==>
                var (next, ok) := Reserving(old(window), limits, now);
                window == next && answer == if ok then Reserved else Exhausted
    {
      if before { return Ended; }
      if inside { return Ended; }
      if window.started.None? || now - window.started.value >= limits.window {
        window := Window(Some(now), 0);
      }
      if window.used >= limits.max { return Exhausted; }
      window := window.(used := window.used + 1);
      return Reserved;
    }
  }

  // ----- Runs: the reservations that the lock serialises, by their readings

  function After(b: Limits, times: seq<int>, k: nat): Window
    requires k <= |times|
  {
    if k == 0 then INACTIVE else Reserving(After(b, times, k - 1), b, times[k - 1]).0
  }

  predicate Granted(b: Limits, times: seq<int>, k: nat)
    requires k < |times|
  {
    Reserving(After(b, times, k), b, times[k]).1
  }

  function Grants(b: Limits, times: seq<int>, k: nat): nat
    requires k <= |times|
  {
    if k == 0 then 0 else Grants(b, times, k - 1) + if Granted(b, times, k - 1) then 1 else 0
  }

  /** The request finds no window, or one that is over. */
  predicate Starts(b: Limits, times: seq<int>, k: nat)
    requires k < |times|
  {
    var w := After(b, times, k);
    w.started.None? || times[k] - w.started.value >= b.window
  }

  /** How many windows the requests `i..k-1` start. */
  function WindowsStarted(b: Limits, times: seq<int>, i: nat, k: nat): nat
    requires i <= k <= |times|
  {
    if k == i then 0 else WindowsStarted(b, times, i, k - 1) + if Starts(b, times, k - 1) then 1 else 0
  }

  ghost predicate Ordered(times: seq<int>) {
    forall i, j | 0 <= i <= j < |times| :: times[i] <= times[j]
  }

  lemma {:induction false} WindowSound(b: Limits, times: seq<int>, k: nat)
    requires b.Valid() && k <= |times|
    ensures 0 <= After(b, times, k).used <= b.max
    ensures k > 0 ==> After(b, times, k).started.Some?
  {
    if k > 0 {
      WindowSound(b, times, k - 1);
    }
  }

  /** Windows start at least one window length apart. */
  lemma {:induction false} WindowsApart(b: Limits, times: seq<int>, i: nat, k: nat)
    requires b.Valid() && Ordered(times) && i <= k <= |times| && WindowsStarted(b, times, i, k) > 0
    ensures After(b, times, k).started.Some?
    ensures After(b, times, k).started.value >= times[i] + (WindowsStarted(b, times, i, k) - 1) * b.window
    ensures After(b, times, k).started.value <= times[k - 1]
  {
    var n := WindowsStarted(b, times, i, k - 1);
    WindowSound(b, times, k);
    if n > 0 {
      WindowsApart(b, times, i, k - 1);
      MulDistributes(b.window, n - 1, 1);
    }
  }

  /** What the window can still grant; one that has not started grants nothing. */
  function Left(w: Window, b: Limits): int {
    if w.started.None? then 0 else b.max - w.used
  }

  function One(granted: bool): int {
    if granted then 1 else 0
  }

  /** What request `k` does to the count of its window. */
  lemma Charged(b: Limits, times: seq<int>, k: nat)
    requires b.Valid() && k < |times|
    ensures var g := One(Granted(b, times, k));
            && Grants(b, times, k + 1) == Grants(b, times, k) + g
            && After(b, times, k + 1).used == (if Starts(b, times, k) then g else After(b, times, k).used + g)
  {
  }

  /** The most that `n` started windows can have granted, `used` of it in the last one. */
  function Shares(max: int, n: int, left: int, used: int): int {
    left + max * (n - 1) + used
  }

  lemma NextShare(max: int, n: int, left: int, used: int, g: int)
    requires used <= max
    ensures Shares(max, n, left, used) + g <= Shares(max, n + 1, left, g)
  {
    MulDistributes(max, n - 1, 1);
  }

  lemma FirstShare(max: int, left: int, used: int)
    ensures Shares(max, 1, left, used) == left + used
  {
  }

  /** Grants from request `i` on: the rest of the window it finds, full windows, and the current one so far. */
  lemma {:induction false} GrantsByWindow(b: Limits, times: seq<int>, i: nat, k: nat)
    requires b.Valid() && i <= k <= |times|
    ensures var (n, w) := (WindowsStarted(b, times, i, k), After(b, times, i));
            var spent := Grants(b, times, k) - Grants(b, times, i);
            if n == 0 then spent == After(b, times, k).used - w.used && (i < k ==> w.started.Some?)
            else spent <= Shares(b.max, n, Left(w, b), After(b, times, k).used)
  {
    WindowSound(b, times, i);
    if k > i {
      var n, left, used := WindowsStarted(b, times, i, k - 1), Left(After(b, times, i), b), After(b, times, k - 1).used;
      var g := One(Granted(b, times, k - 1));
      GrantsByWindow(b, times, i, k - 1);
      WindowSound(b, times, k - 1);
      Charged(b, times, k - 1);
      if Starts(b, times, k - 1) {
        FirstShare(b.max, left, g);
        NextShare(b.max, n, left, used, g);
      }
    }
  }

  lemma WindowsWithin(n: int, window: int, span: int)
    requires window > 0 && (n - 1) * window <= span
    ensures n <= 1 + span / window
  {
    var q, r := span / window, span % window;
    assert span == window * q + r;
    MulDistributes(window, n - 1, q);
    MulSign(window, n - 1 - q);
  }

  lemma MaxTimes(max: int, n: int, m: int)
    requires max >= 0 && n <= m
    ensures max * n <= max * m
  {
    MulDistributes(max, m, n);
    MulSign(max, m - n);
  }

  lemma WindowsInSpan(b: Limits, times: seq<int>, i: nat, j: nat)
    requires b.Valid() && Ordered(times) && i <= j < |times|
    ensures WindowsStarted(b, times, i, j + 1) <= 1 + (times[j] - times[i]) / b.window
  {
    WindowsWithin(1, b.window, times[j] - times[i]);
    if WindowsStarted(b, times, i, j + 1) > 0 {
      WindowsApart(b, times, i, j + 1);
      WindowsWithin(WindowsStarted(b, times, i, j + 1), b.window, times[j] - times[i]);
    }
  }

  /** Any run of requests `i..j`: at most the windows that fit, plus the one that was already running. */
  lemma GrantsInARun(b: Limits, times: seq<int>, i: nat, j: nat)
    requires b.Valid() && Ordered(times) && i <= j < |times|
    ensures Grants(b, times, j + 1) - Grants(b, times, i) <= b.max * (2 + (times[j] - times[i]) / b.window)
  {
    WindowSound(b, times, i);
    WindowSound(b, times, j + 1);
    GrantsByWindow(b, times, i, j + 1);
    WindowsInSpan(b, times, i, j);
    ChargedTo(b.max, WindowsStarted(b, times, i, j + 1), (times[j] - times[i]) / b.window);
  }

  lemma ChargedTo(max: int, n: int, q: int)
    requires max >= 1 && 0 <= n <= 1 + q
    ensures Shares(max, n, max, max) <= max * (2 + q)
    ensures Shares(max, n, 0, max) <= max * (1 + q)
    ensures max <= max * (2 + q)
  {
    MulDistributes(max, n, 1);
    MulDistributes(max, n, 2);
    MaxTimes(max, n, 1 + q);
    MulDistributes(max, 1 + q, 1);
    MulSign(max, 2 + q);
  }

  /** From the first request on, nothing is already running. */
  lemma GrantsFromTheStart(b: Limits, times: seq<int>, j: nat)
    requires b.Valid() && Ordered(times) && j < |times|
    ensures Grants(b, times, j + 1) <= b.max * (1 + (times[j] - times[0]) / b.window)
  {
    WindowSound(b, times, j + 1);
    GrantsByWindow(b, times, 0, j + 1);
    FirstStarts(b, times, j + 1);
    WindowsInSpan(b, times, 0, j);
    ChargedTo(b.max, WindowsStarted(b, times, 0, j + 1), (times[j] - times[0]) / b.window);
  }

  lemma {:induction false} FirstStarts(b: Limits, times: seq<int>, k: nat)
    requires 0 < k <= |times|
    ensures WindowsStarted(b, times, 0, k) > 0
  {
    if k > 1 {
      FirstStarts(b, times, k - 1);
    }
  }

  lemma ShortSpan(n: int, window: int, span: int)
    requires window > 0 && (n - 1) * window <= span < window
    ensures n <= 1
  {
    MulSign(window, n - 1);
  }

  lemma OneWindow(b: Limits, times: seq<int>, i: nat, j: nat)
    requires b.Valid() && Ordered(times) && i <= j < |times| && times[j] - times[i] < b.window
    ensures WindowsStarted(b, times, i, j + 1) <= 1
  {
    var n := WindowsStarted(b, times, i, j + 1);
    if n > 0 {
      WindowsApart(b, times, i, j + 1);
      ShortSpan(n, b.window, times[j] - times[i]);
    }
  }

  lemma TwoShares(max: int, n: int, left: int, used: int, spent: int, before: int)
    requires 0 <= n <= 1 && left <= max && 0 <= used <= max && 0 <= before
    requires if n == 0 then spent == used - before else spent <= Shares(max, n, left, used)
    ensures spent <= 2 * max
  {
    FirstShare(max, left, used);
  }

  /** In any half-open interval of one window length, wherever it lies, at most twice `max` are granted. */
  lemma GrantsInAnInterval(b: Limits, times: seq<int>, i: nat, j: nat)
    requires b.Valid() && Ordered(times) && i <= j < |times| && times[j] - times[i] < b.window
    ensures Grants(b, times, j + 1) - Grants(b, times, i) <= 2 * b.max
  {
    WindowSound(b, times, i);
    WindowSound(b, times, j + 1);
    GrantsByWindow(b, times, i, j + 1);
    OneWindow(b, times, i, j);
    var w, used := After(b, times, i), After(b, times, j + 1).used;
    TwoShares(b.max, WindowsStarted(b, times, i, j + 1), Left(w, b), used, Grants(b, times, j + 1) - Grants(b, times, i), w.used);
  }

  /** The request whose window request `k` is charged to. */
  function Opener(b: Limits, times: seq<int>, k: nat): (s: nat)
    requires k < |times|
    ensures s <= k
  {
    if k == 0 || Starts(b, times, k) then k else Opener(b, times, k - 1)
  }

  lemma {:induction false} OpenerWindow(b: Limits, times: seq<int>, k: nat)
    requires b.Valid() && k < |times|
    ensures var s := Opener(b, times, k);
            Rolled(After(b, times, k), b, times[k]) == Window(Some(times[s]), Grants(b, times, k) - Grants(b, times, s))
  {
    if k > 0 && !Starts(b, times, k) {
      OpenerWindow(b, times, k - 1);
    }
  }

  /** A reservation is refused exactly when its window, which is not over, has already granted `max`. */
  lemma RefusedExactlyWhenSpent(b: Limits, times: seq<int>, k: nat)
    requires b.Valid() && k < |times|
    ensures var s := Opener(b, times, k);
            && times[k] - times[s] < b.window
            && Grants(b, times, k) - Grants(b, times, s) <= b.max
            && (!Granted(b, times, k) <==> Grants(b, times, k) - Grants(b, times, s) == b.max)
  {
    OpenerWindow(b, times, k);
    WindowSound(b, times, k);
  }
}
