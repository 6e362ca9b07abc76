/**
 Crash-loop throttling: a sliding window of respawn attempts and the delay chosen before each of them.

 The delay also ends when the shutdown channel wakes, but the only thing ever sent on it is a shutdown, so an early wake
 ends the loop and never leads to a further attempt.
 */
module CrashWindow {
  import opened Common

  type Time = nat

  datatype BurstParams = BurstParams(limit: nat, window: nat, minUptime: nat, base: nat, cap: nat) {
    function Backoff(attempt: nat): nat {
      Min(base * Pow2(Min(attempt, 6)), cap)
    }

    /** The attempts one window can hold between two clears. */
    function Burst(): nat
      requires cap > 0
    {
      Max(limit, 1) + window / cap
    }
  }

  /** The window without the attempts that are too old. */
  function Recent(window: seq<Time>, now: Time, length: nat): (r: seq<Time>) {
    if window != [] && now - window[0] > length then Recent(window[1..], now, length) else window
  }

  function Pushed(p: BurstParams, window: seq<Time>, now: Time): seq<Time> {
    Recent(window, now, p.window) + [now]
  }

  /** Immediate for a first healthy attempt, backing off for retries, pinned at the cap in a crash loop. */
  function Delay(p: BurstParams, window: seq<Time>, retry: nat): nat {
    if |window| >= p.limit then p.cap
    else if retry == 0 then 0
    else p.Backoff(retry)
  }

  /**
   One respawn attempt: when it was recorded, how many attempts of this outage failed before it, and, for the first of
   an outage, how long the worker that went away had been up.
   */
  datatype Attempt = Attempt(at: Time, retry: nat, uptime: nat)

  /** A worker that stayed up long enough was healthy: its death clears the window. */
  predicate Clears(p: BurstParams, a: Attempt) {
    a.retry == 0 && a.uptime >= p.minUptime
  }

  /** The window when attempt `k` has been recorded; `start` is the window before the first of them. */
  function WindowAt(p: BurstParams, start: seq<Time>, attempts: seq<Attempt>, k: nat): seq<Time>
    requires k < |attempts|
  {
    var before := if Clears(p, attempts[k]) then [] else if k == 0 then start else WindowAt(p, start, attempts, k - 1);
    Pushed(p, before, attempts[k].at)
  }

  function DelayAt(p: BurstParams, start: seq<Time>, attempts: seq<Attempt>, k: nat): nat
    requires k < |attempts|
  {
    Delay(p, WindowAt(p, start, attempts, k), attempts[k].retry)
  }

  // ----- the supervisor -----

  class Supervisor {
    const burst: BurstParams
    var window: seq<Time>
    var degraded: bool

    constructor (burst: BurstParams)
      ensures this.burst == burst && window == [] && !degraded
    {
      this.burst, window, degraded := burst, [], false;
    }

    method WorkerDied(uptime: nat)
      modifies this`window
      ensures window == if uptime >= burst.minUptime then [] else old(window)
    {
      if uptime >= burst.minUptime {
        window := [];
      }
    }

    method BeginAttempt(now: Time, retry: nat) returns (delay: nat)
      modifies this
      ensures window == Pushed(burst, old(window), now)
      ensures degraded <==> |window| >= burst.limit
      ensures delay == Delay(burst, window, retry)
    {
      while window != [] && now - window[0] > burst.window
        invariant Recent(window, now, burst.window) == Recent(old(window), now, burst.window)
      {
        window := window[1..];
      }
      window := window + [now];
      degraded := |window| >= burst.limit;
      if degraded {
        delay := burst.cap;
      } else if retry == 0 {
        delay := 0;
      } else {
        delay := burst.Backoff(retry);
      }
    }

    /** One attempt, and the death before it when it is the first of an outage. */
    method Respawn(a: Attempt) returns (delay: nat)
      modifies this
      ensures window == Pushed(burst, if Clears(burst, a) then [] else old(window), a.at)
      ensures delay == Delay(burst, window, a.retry)
    {
      if a.retry == 0 {
        WorkerDied(a.uptime);
      }
      delay := BeginAttempt(a.at, a.retry);
    }
  }

  /** The supervisor through any history of deaths and attempts chooses exactly the delays the theorems speak of. */
  method Supervise(p: BurstParams, attempts: seq<Attempt>) returns (delays: seq<nat>)
    ensures |delays| == |attempts| && forall k :: 0 <= k < |attempts| ==> delays[k] == DelayAt(p, [], attempts, k)
  {
    var s := new Supervisor(p);
    delays := [];
    for k := 0 to |attempts|
      invariant s.burst == p && fresh(s) && |delays| == k
      invariant s.window == if k == 0 then [] else WindowAt(p, [], attempts, k - 1)
      invariant forall i :: 0 <= i < k ==> delays[i] == DelayAt(p, [], attempts, i)
    {
      var delay := s.Respawn(attempts[k]);
      assert s.window == WindowAt(p, [], attempts, k);
      delays := delays + [delay];
    }
  }

  // ----- the bound -----

  /** Attempt `k` comes after the delay of the one before it and after the life of the worker in between. */
  predicate WaitedBefore(p: BurstParams, start: seq<Time>, attempts: seq<Attempt>, k: nat)
    requires 0 < k < |attempts|
  {
    && (attempts[k].retry == 0 || attempts[k].retry == attempts[k - 1].retry + 1)
    && attempts[k].at >= attempts[k - 1].at + DelayAt(p, start, attempts, k - 1)
                         + if attempts[k].retry == 0 then attempts[k].uptime else 0
  }

  /** A history the supervisor can have; spawning and booting may take any further time. */
  predicate Waited(p: BurstParams, start: seq<Time>, attempts: seq<Attempt>) {
    forall k :: 0 < k < |attempts| ==> WaitedBefore(p, start, attempts, k)
  }

  /** No death between attempts `i` and `j` clears the window. */
  predicate NoClear(p: BurstParams, attempts: seq<Attempt>, i: nat, j: nat)
    requires j < |attempts|
  {
    forall k :: i < k <= j ==> !Clears(p, attempts[k])
  }

  lemma {:induction false} Ordered(p: BurstParams, start: seq<Time>, attempts: seq<Attempt>, i: nat, j: nat)
    requires Waited(p, start, attempts) && i <= j < |attempts|
    ensures attempts[i].at <= attempts[j].at
  {
    if i < j {
      Ordered(p, start, attempts, i, j - 1);
      assert WaitedBefore(p, start, attempts, j);
    }
  }

  predicate EndsWith(window: seq<Time>, tail: seq<Time>) {
    |tail| <= |window| && window[|window| - |tail|..] == tail
  }

  /** Nothing at the end that is recent enough is dropped. */
  lemma {:induction false} RecentKeeps(window: seq<Time>, now: Time, length: nat, tail: seq<Time>)
    requires EndsWith(window, tail) && forall t :: t in tail ==> now - t <= length
    ensures EndsWith(Recent(window, now, length), tail)
  {
    if window != [] && now - window[0] > length {
      assert tail != [] ==> tail[0] in tail && now - tail[0] <= length;
      assert |tail| == |window| ==> window == tail;
      assert |tail| < |window|;
      assert window[1..][|window| - 1 - |tail|..] == tail;
      RecentKeeps(window[1..], now, length, tail);
    }
  }

  /** The recorded times of attempts `i` up to and including `k`. */
  function Times(attempts: seq<Attempt>, i: nat, k: nat): (t: seq<Time>)
    requires i <= k < |attempts|
    ensures |t| == k - i + 1
  {
    if i == k then [attempts[k].at] else Times(attempts, i, k - 1) + [attempts[k].at]
  }

  lemma {:induction false} TimesAreRecent(p: BurstParams, start: seq<Time>, attempts: seq<Attempt>, i: nat, k: nat)
    requires Waited(p, start, attempts) && i <= k < |attempts|
    ensures forall t :: t in Times(attempts, i, k) ==> attempts[i].at <= t
  {
    Ordered(p, start, attempts, i, k);
    if i < k {
      TimesAreRecent(p, start, attempts, i, k - 1);
    }
  }

  /** All attempts of the last window's length since the last clear are in the window. */
  lemma {:induction false} WindowHolds(p: BurstParams, start: seq<Time>, attempts: seq<Attempt>, i: nat, k: nat)
    requires Waited(p, start, attempts) && i <= k < |attempts| && NoClear(p, attempts, i, k)
    requires attempts[k].at - attempts[i].at <= p.window
    ensures EndsWith(WindowAt(p, start, attempts, k), Times(attempts, i, k))
  {
    if i < k {
      Ordered(p, start, attempts, k - 1, k);
      WindowHolds(p, start, attempts, i, k - 1);
      TimesAreRecent(p, start, attempts, i, k - 1);
      var before, now, tail := WindowAt(p, start, attempts, k - 1), attempts[k].at, Times(attempts, i, k - 1);
      RecentKeeps(before, now, p.window, tail);
      EndsWithBoth(Recent(before, now, p.window), tail, now);
    }
  }

  lemma EndsWithBoth(window: seq<Time>, tail: seq<Time>, now: Time)
    requires EndsWith(window, tail)
    ensures EndsWith(window + [now], tail + [now])
  {
  }

  /** Once enough attempts fall into one window, each further one is a whole cap later. */
  lemma {:induction false} CapsAddUp(p: BurstParams, start: seq<Time>, attempts: seq<Attempt>, i: nat, first: nat,
      j: nat)
    requires Waited(p, start, attempts) && i <= first <= j < |attempts| && NoClear(p, attempts, i, j)
    requires attempts[j].at - attempts[i].at <= p.window && first - i + 1 >= p.limit
    ensures attempts[j].at >= attempts[first].at + (j - first) * p.cap
  {
    if first < j {
      Ordered(p, start, attempts, j - 1, j);
      CapsAddUp(p, start, attempts, i, first, j - 1);
      WindowHolds(p, start, attempts, i, j - 1);
      assert WaitedBefore(p, start, attempts, j);
      OneMore(j - first, p.cap);
    }
  }

  lemma OneMore(n: nat, cap: nat)
    requires n > 0
    ensures n * cap == (n - 1) * cap + cap
  {
  }

  /**
   In any interval of the window's length between two clears there are at most max(limit, 1) + window / cap
   respawn attempts, however the workers die and whatever was in the window before.
   */
  lemma AttemptsAreBounded(p: BurstParams, start: seq<Time>, attempts: seq<Attempt>, i: nat, j: nat)
    requires p.cap > 0 && Waited(p, start, attempts)
    requires i <= j < |attempts| && attempts[j].at - attempts[i].at <= p.window && NoClear(p, attempts, i, j)
    ensures j - i + 1 <= p.Burst()
  {
    var m := Max(p.limit, 1);
    if j - i + 1 > m {
      var first := i + m - 1;
      CapsAddUp(p, start, attempts, i, first, j);
      Ordered(p, start, attempts, i, first);
      DivideBy(j - first, p.cap, p.window);
    }
  }

  lemma DivideBy(extra: nat, cap: nat, window: nat)
    requires cap > 0 && extra * cap <= window
    ensures extra <= window / cap
  {
    var q := window / cap;
    WholePart(window, cap);
    OneMore(q + 1, cap);
    Monotone(q + 1, extra, cap);
  }

  lemma WholePart(window: nat, cap: nat)
    requires cap > 0
    ensures window / cap * cap <= window < window / cap * cap + cap
  {
  }

  lemma Monotone(a: nat, b: nat, c: nat)
    ensures a <= b ==> a * c <= b * c
  {
  }

  // ----- across clears -----

  /** The last attempt in (i, j] whose death cleared the window, or `i` when there is none. */
  function LastClear(p: BurstParams, attempts: seq<Attempt>, i: nat, j: nat): (c: nat)
    requires i <= j < |attempts|
    ensures i <= c <= j && NoClear(p, attempts, c, j) && (c > i ==> Clears(p, attempts[c]))
  {
    if i == j then i else if Clears(p, attempts[j]) then j else LastClear(p, attempts, i, j - 1)
  }

  lemma OneLifeMore(burst: nat, elapsed: nat, earlier: nat, life: nat)
    requires life > 0 && earlier + life <= elapsed
    ensures burst * (earlier / life + 1) + burst <= burst * (elapsed / life + 1)
  {
    WholePart(earlier, life);
    OneMore(earlier / life + 1, life);
    DivideBy(earlier / life + 1, life, elapsed);
    Monotone(earlier / life + 1 + 1, elapsed / life + 1, burst);
    assert burst * (earlier / life + 1) + burst == (earlier / life + 1 + 1) * burst;
  }

  /**
   Clears included: as long as a worker must stay up for some time to count as healthy, any interval of the window's
   length holds at most one burst for each healthy life that fits into it, and one more.
   */
  lemma {:induction false} RespawnsAreBounded(p: BurstParams, start: seq<Time>, attempts: seq<Attempt>, i: nat, j: nat)
    requires p.cap > 0 && p.minUptime > 0 && Waited(p, start, attempts)
    requires i <= j < |attempts| && attempts[j].at - attempts[i].at <= p.window
    ensures attempts[i].at <= attempts[j].at
    ensures j - i + 1 <= p.Burst() * ((attempts[j].at - attempts[i].at) / p.minUptime + 1)
    decreases j - i
  {
    Ordered(p, start, attempts, i, j);
    var c := LastClear(p, attempts, i, j);
    Ordered(p, start, attempts, i, c);
    Ordered(p, start, attempts, c, j);
    AttemptsAreBounded(p, start, attempts, c, j);
    if c > i {
      Ordered(p, start, attempts, i, c - 1);
      Ordered(p, start, attempts, c - 1, c);
      assert WaitedBefore(p, start, attempts, c);
      RespawnsAreBounded(p, start, attempts, i, c - 1);
      OneLifeMore(p.Burst(), attempts[j].at - attempts[i].at, attempts[c - 1].at - attempts[i].at, p.minUptime);
    } else {
      Monotone(1, (attempts[j].at - attempts[i].at) / p.minUptime + 1, p.Burst());
    }
  }

  /** With a limit of at most one every attempt finds the window full, so each is a whole cap after the one before. */
  lemma {:induction false} EveryDelayIsTheCap(p: BurstParams, start: seq<Time>, attempts: seq<Attempt>, i: nat, j: nat)
    requires p.limit <= 1 && Waited(p, start, attempts) && i <= j < |attempts|
    ensures attempts[j].at >= attempts[i].at + (j - i) * p.cap
  {
    if i < j {
      EveryDelayIsTheCap(p, start, attempts, i, j - 1);
      assert WaitedBefore(p, start, attempts, j);
      assert DelayAt(p, start, attempts, j - 1) == p.cap;
      OneMore(j - i, p.cap);
    }
  }

  lemma SmallLimitBounds(p: BurstParams, start: seq<Time>, attempts: seq<Attempt>, i: nat, j: nat)
    requires p.cap > 0 && p.limit <= 1 && WithinWindow(p, start, attempts, i, j)
    ensures j - i + 1 <= p.Burst()
  {
    EveryDelayIsTheCap(p, start, attempts, i, j);
    DivideBy(j - i, p.cap, p.window);
  }

  /** With no uptime demanded every death clears the window, and a limit above one never throttles a crash loop. */
  lemma ZeroUptimeNeverThrottles(p: BurstParams, start: seq<Time>, n: nat)
    requires p.minUptime == 0 && p.limit > 1
    ensures Waited(p, start, AtOnce(n))
  {
    forall k | 0 < k < n
      ensures WaitedBefore(p, start, AtOnce(n), k)
    {
      assert WindowAt(p, start, AtOnce(n), k - 1) == [0];
    }
  }

  /** With no cap there is nothing to be throttled to. */
  lemma ZeroCapNeverThrottles(p: BurstParams, start: seq<Time>, n: nat)
    requires p.cap == 0
    ensures Waited(p, start, AtOnce(n))
  {
    forall k | 0 < k < n
      ensures WaitedBefore(p, start, AtOnce(n), k)
    {
    }
  }

  /** A worker that dies at once, respawned `n` times in one instant. */
  function AtOnce(n: nat): (attempts: seq<Attempt>)
    ensures |attempts| == n
  {
    seq(n, _ => Attempt(0, 0, 0))
  }

  // ----- exactly when respawns are throttled -----

  /** Attempts `i` to `j` of some history fall into one window's length. */
  predicate WithinWindow(p: BurstParams, start: seq<Time>, attempts: seq<Attempt>, i: nat, j: nat) {
    Waited(p, start, attempts) && i <= j < |attempts| && attempts[j].at - attempts[i].at <= p.window
  }

  /** No window's length ever holds more than `bound` attempts, in any history. */
  ghost predicate BoundedBy(p: BurstParams, bound: nat) {
    forall start, attempts, i: nat, j: nat :: WithinWindow(p, start, attempts, i, j) ==> j - i + 1 <= bound
  }

  /** What the configuration must satisfy; it can be read off before the supervisor starts. */
  predicate Throttles(p: BurstParams) {
    p.cap > 0 && (p.minUptime > 0 || p.limit <= 1)
  }

  function RespawnBound(p: BurstParams): nat
    requires Throttles(p)
  {
    if p.minUptime > 0 then p.Burst() * (p.window / p.minUptime + 1) else p.Burst()
  }

  lemma ThrottledWithin(p: BurstParams, start: seq<Time>, attempts: seq<Attempt>, i: nat, j: nat)
    requires Throttles(p) && WithinWindow(p, start, attempts, i, j)
    ensures j - i + 1 <= RespawnBound(p)
  {
    if p.minUptime > 0 {
      RespawnsAreBounded(p, start, attempts, i, j);
      var elapsed := attempts[j].at - attempts[i].at;
      WholePart(elapsed, p.minUptime);
      DivideBy(elapsed / p.minUptime, p.minUptime, p.window);
      Monotone(elapsed / p.minUptime + 1, p.window / p.minUptime + 1, p.Burst());
    } else {
      SmallLimitBounds(p, start, attempts, i, j);
    }
  }

  lemma NotThrottled(p: BurstParams, bound: nat)
    requires !Throttles(p)
    ensures !BoundedBy(p, bound)
  {
    var attempts := AtOnce(bound + 1);
    if p.cap == 0 {
      ZeroCapNeverThrottles(p, [], bound + 1);
    } else {
      ZeroUptimeNeverThrottles(p, [], bound + 1);
    }
    assert WithinWindow(p, [], attempts, 0, bound);
  }

  /**
   The attempts in one window's length are bounded, over all histories, if and only if there is a positive cap and
   either a positive minimum uptime or a limit of at most one; and then by this bound.
   */
  lemma ThrottlesExactly(p: BurstParams)
    ensures (exists bound: nat :: BoundedBy(p, bound)) <==> Throttles(p)
    ensures Throttles(p) ==> BoundedBy(p, RespawnBound(p))
  {
    if Throttles(p) {
      forall start, attempts, i: nat, j: nat | WithinWindow(p, start, attempts, i, j)
        ensures j - i + 1 <= RespawnBound(p)
      {
        ThrottledWithin(p, start, attempts, i, j);
      }
      assert BoundedBy(p, RespawnBound(p));
    } else {
      forall bound: nat
        ensures !BoundedBy(p, bound)
      {
        NotThrottled(p, bound);
      }
    }
  }

  // ----- the bound is reached -----

  /** A worker that dies at once: `limit` attempts at time zero, then one per cap. */
  function Worst(p: BurstParams, n: nat): seq<Attempt> {
    var m := Max(p.limit, 1);
    seq(n, k requires k >= 0 => Attempt(if k < m then 0 else (k - m + 1) * p.cap, 0, 0))
  }

  lemma {:induction false} RecentShrinks(window: seq<Time>, now: Time, length: nat)
    ensures |Recent(window, now, length)| <= |window|
  {
    if window != [] && now - window[0] > length {
      RecentShrinks(window[1..], now, length);
    }
  }

  lemma {:induction false} WindowGrowsByOne(p: BurstParams, attempts: seq<Attempt>, k: nat)
    requires k < |attempts|
    ensures |WindowAt(p, [], attempts, k)| <= k + 1
  {
    if k > 0 {
      WindowGrowsByOne(p, attempts, k - 1);
    }
    var before := if Clears(p, attempts[k]) || k == 0 then [] else WindowAt(p, [], attempts, k - 1);
    RecentShrinks(before, attempts[k].at, p.window);
  }

  lemma WorstWaits(p: BurstParams, n: nat, k: nat)
    requires 0 < k < n
    ensures WaitedBefore(p, [], Worst(p, n), k)
  {
    WindowGrowsByOne(p, Worst(p, n), k - 1);
    if k >= Max(p.limit, 1) {
      OneMore(k - Max(p.limit, 1) + 1, p.cap);
    }
  }

  /**
   The bound between clears is the best possible: this history reaches it inside one window, and no death in it clears.
   */
  lemma BoundIsReached(p: BurstParams)
    requires p.cap > 0
    ensures var attempts := Worst(p, p.Burst());
            && Waited(p, [], attempts) && |attempts| == p.Burst() >= 1
            && attempts[|attempts| - 1].at - attempts[0].at <= p.window
            && (p.minUptime > 0 ==> NoClear(p, attempts, 0, |attempts| - 1))
  {
    var n := p.Burst();
    var attempts := Worst(p, n);
    forall k | 0 < k < n
      ensures WaitedBefore(p, [], attempts, k)
    {
      WorstWaits(p, n, k);
    }
    WholePart(p.window, p.cap);
    assert attempts[n - 1].at == p.window / p.cap * p.cap;
  }

  // ----- what the window holds, and what a retry waits -----

  /** Dropping old times off the front of an ordered list leaves exactly its recent times. */
  lemma {:induction false} RecentCuts(window: seq<Time>, now: Time, length: nat) returns (n: nat)
    requires forall i, j :: 0 <= i < j < |window| ==> window[i] <= window[j]
    ensures n <= |window| && Recent(window, now, length) == window[n..]
    ensures forall i :: 0 <= i < |window| ==> (now - window[i] <= length <==> i >= n)
  {
    if window != [] && now - window[0] > length {
      var m := RecentCuts(window[1..], now, length);
      n := m + 1;
      assert window[1..][m..] == window[n..];
      assert forall i :: 1 <= i < |window| ==> window[i] == window[1..][i - 1];
    } else {
      n := 0;
      assert window[0..] == window;
    }
  }

  lemma {:induction false} TimesAt(attempts: seq<Attempt>, i: nat, k: nat)
    requires i <= k < |attempts|
    ensures forall m :: 0 <= m <= k - i ==> Times(attempts, i, k)[m] == attempts[i + m].at
  {
    if i < k {
      TimesAt(attempts, i, k - 1);
    }
  }

  lemma TimesFrom(attempts: seq<Attempt>, j: nat, n: nat, k: nat)
    requires j < k < |attempts| && j + n <= k
    ensures Times(attempts, j, k - 1)[n..] + [attempts[k].at] == Times(attempts, j + n, k)
  {
    TimesAt(attempts, j, k - 1);
    TimesAt(attempts, j + n, k);
  }

  /** The attempts from `i` on are those since the last clear that are no older than the window when `k` is recorded. */
  predicate WindowStarts(p: BurstParams, attempts: seq<Attempt>, i: nat, k: nat)
    requires i <= k < |attempts|
  {
    var c := LastClear(p, attempts, 0, k);
    c <= i && forall m :: c <= m <= k ==> (attempts[k].at - attempts[m].at <= p.window <==> i <= m)
  }

  /** The window holds exactly the attempts of the last window's length since the last clear, in order. */
  lemma {:induction false} WindowExactly(p: BurstParams, attempts: seq<Attempt>, k: nat) returns (i: nat)
    requires Waited(p, [], attempts) && k < |attempts|
    ensures i <= k && WindowStarts(p, attempts, i, k) && WindowAt(p, [], attempts, k) == Times(attempts, i, k)
  {
    if k == 0 || Clears(p, attempts[k]) {
      i := k;
      assert LastClear(p, attempts, 0, k) == k;
    } else {
      var j := WindowExactly(p, attempts, k - 1);
      i := WindowSlides(p, attempts, j, k);
    }
  }

  lemma WindowSlides(p: BurstParams, attempts: seq<Attempt>, j: nat, k: nat) returns (i: nat)
    requires Waited(p, [], attempts) && 0 < k < |attempts| && !Clears(p, attempts[k]) && j <= k - 1
    requires WindowStarts(p, attempts, j, k - 1) && WindowAt(p, [], attempts, k - 1) == Times(attempts, j, k - 1)
    ensures i <= k && WindowStarts(p, attempts, i, k) && WindowAt(p, [], attempts, k) == Times(attempts, i, k)
  {
    i := RecentTimes(p, attempts, j, k);
    TimesFrom(attempts, j, i - j, k);
    StartsSlide(p, attempts, j, i, k);
  }

  lemma RecentTimes(p: BurstParams, attempts: seq<Attempt>, j: nat, k: nat) returns (i: nat)
    requires Waited(p, [], attempts) && j < k < |attempts|
    ensures j <= i <= k
    ensures Recent(Times(attempts, j, k - 1), attempts[k].at, p.window) == Times(attempts, j, k - 1)[i - j..]
    ensures forall m :: j <= m < k ==> (attempts[k].at - attempts[m].at <= p.window <==> i <= m)
  {
    var before, now := Times(attempts, j, k - 1), attempts[k].at;
    TimesAt(attempts, j, k - 1);
    forall a, b | 0 <= a < b < |before|
      ensures before[a] <= before[b]
    {
      Ordered(p, [], attempts, j + a, j + b);
    }
    var n := RecentCuts(before, now, p.window);
    i := j + n;
    assert forall m :: j <= m < k ==> before[m - j] == attempts[m].at;
  }

  lemma StartsSlide(p: BurstParams, attempts: seq<Attempt>, j: nat, i: nat, k: nat)
    requires Waited(p, [], attempts) && j < k < |attempts| && !Clears(p, attempts[k]) && j <= i <= k
    requires WindowStarts(p, attempts, j, k - 1)
    requires forall m :: j <= m < k ==> (attempts[k].at - attempts[m].at <= p.window <==> i <= m)
    ensures WindowStarts(p, attempts, i, k)
  {
    assert LastClear(p, attempts, 0, k) == LastClear(p, attempts, 0, k - 1);
    Ordered(p, [], attempts, k - 1, k);
  }

  /** Below the limit the first attempt of an outage does not wait, and each retry waits twice as long up to the cap. */
  lemma DelaysDouble(p: BurstParams, start: seq<Time>, attempts: seq<Attempt>, k: nat)
    requires 0 < k < |attempts| && attempts[k].retry == attempts[k - 1].retry + 1
    requires |WindowAt(p, start, attempts, k)| < p.limit && |WindowAt(p, start, attempts, k - 1)| < p.limit
    ensures DelayAt(p, start, attempts, k) ==
            if attempts[k].retry == 1 then Min(2 * p.base, p.cap)
            else if attempts[k].retry <= 6 then Min(2 * DelayAt(p, start, attempts, k - 1), p.cap)
            else DelayAt(p, start, attempts, k - 1)
    ensures attempts[k].retry == 1 ==> DelayAt(p, start, attempts, k - 1) == 0
  {
    DoublesUpTo(p.base, p.cap, attempts[k - 1].retry);
  }

  lemma DoublesUpTo(base: nat, cap: nat, r: nat)
    ensures r < 6 ==> Min(base * Pow2(Min(r + 1, 6)), cap) == Min(2 * Min(base * Pow2(Min(r, 6)), cap), cap)
    ensures base * Pow2(1) == 2 * base
  {
    assert base * Pow2(1) == 2 * base;
    if r < 6 {
      TwiceTheProduct(base, Pow2(r));
    }
  }

  lemma TwiceTheProduct(base: nat, x: nat)
    ensures base * (2 * x) == 2 * (base * x)
  {
  }
}
