/**
 Booting the async workers side by side under one rolling deadline.

 A child is known by its slot number.  What the processes do, when a shutdown is requested and how long
 a polling pass takes come from a `World`, one answer for each pass.
 */
module BatchedBoot {
  import opened Common

  type Slot = nat

  datatype SpawnResult = Spawned | SpawnFailed | NoReadinessPipe

  /** What one poll of a booting child finds. */
  datatype Poll =
    | Running
    | Exited
    | WaitFailed
    | ReadyLine(accepted: bool)
    | EndOfOutput
    | ReadFailed(tooLarge: bool)
    | ReaderGone

  datatype World = World(
    spawn: Slot -> SpawnResult, poll: (nat, Slot) -> Poll, passTime: nat -> nat, shutdown: nat -> bool)

  datatype BootError =
    | CouldNotSpawn | ChildExited | WaitError | BadReadyLine | Disconnected | OutputTooLarge | ReadError | Timeout

  datatype Outcome =
    | Workers(slots: seq<Slot>)
    | Drained
    | Failed(error: BootError)

  function ErrorOf(p: Poll): Option<BootError> {
    match p
    case Running => None
    case Exited => Some(ChildExited)
    case WaitFailed => Some(WaitError)
    case ReadyLine(accepted) => if accepted then None else Some(BadReadyLine)
    case EndOfOutput => Some(Disconnected)
    case ReadFailed(tooLarge) => Some(if tooLarge then OutputTooLarge else ReadError)
    case ReaderGone => Some(Disconnected)
  }

  predicate Distinct(s: seq<Slot>) {
    forall i, j :: 0 <= i < j < |s| ==> s[i] != s[j]
  }

  /** The slots from 0 up to `n`, in order. */
  function InOrder(n: nat): (s: seq<Slot>)
    ensures |s| == n && (forall i :: 0 <= i < n ==> s[i] == i) && forall x: nat :: x in s <==> x < n
  {
    if n == 0 then [] else InOrder(n - 1) + [n - 1]
  }

  ghost function Elements(s: seq<Slot>): set<Slot> {
    set x | x in s
  }

  ghost function Slots(n: nat): set<Slot> {
    Elements(InOrder(n))
  }

  ghost function Taken(ready: seq<Option<Slot>>): set<Slot> {
    set i: nat | i < |ready| && ready[i].Some? :: i
  }

  /** Every slot is either still booting or ready in its own place. */
  ghost predicate Split(n: nat, booting: seq<Slot>, ready: seq<Option<Slot>>) {
    && |ready| == n && Distinct(booting)
    && (forall i :: 0 <= i < n ==> ready[i].None? || ready[i].value == i)
    && (forall x: nat :: x in booting <==> x < n && ready[x].None?)
  }

  /** A ready worker did report ready in some pass. */
  ghost predicate Reported(w: World, ready: seq<Option<Slot>>, passes: nat) {
    forall i :: 0 <= i < |ready| && ready[i].Some? ==> ReportedBy(w, i, passes)
  }

  ghost predicate ReportedBy(w: World, slot: Slot, passes: nat) {
    exists p :: 0 <= p < passes && w.poll(p, slot) == ReadyLine(true)
  }

  ghost predicate EverReported(w: World, slot: Slot) {
    exists p: nat :: w.poll(p, slot) == ReadyLine(true)
  }

  /** Terminates everything that is booting or ready. */
  method TearDown(booting: seq<Slot>, ready: seq<Option<Slot>>) returns (terminated: set<Slot>)
    requires forall i :: 0 <= i < |ready| ==> ready[i].None? || ready[i].value == i
    ensures terminated == Elements(booting) + Taken(ready)
  {
    terminated := {};
    for i := 0 to |booting|
      invariant terminated == Elements(booting[..i])
    {
      assert booting[..i + 1] == booting[..i] + [booting[i]];
      terminated := terminated + {booting[i]};
    }
    assert booting[..|booting|] == booting;
    for i := 0 to |ready|
      invariant terminated == Elements(booting) + Taken(ready[..i])
    {
      assert ready[..i + 1] == ready[..i] + [ready[i]];
      assert Taken(ready[..i + 1]) == Taken(ready[..i]) + if ready[i].Some? then {i} else {};
      if ready[i].Some? {
        terminated := terminated + {ready[i].value};
      }
    }
    assert ready[..|ready|] == ready;
  }

  /** Spawns slot after slot; the first failure stops it. */
  method SpawnAll(n: nat, w: World) returns (booting: seq<Slot>, spawned: set<Slot>, terminated: set<Slot>, ok: bool)
    ensures ok ==> booting == InOrder(n) && spawned == Slots(n) && terminated == {}
    ensures !ok ==> terminated == spawned
    ensures ok <==> forall i: nat :: i < n ==> w.spawn(i) == Spawned
  {
    booting, spawned, terminated := [], {}, {};
    for id := 0 to n
      invariant booting == InOrder(id) && spawned == Slots(id) && terminated == {}
      invariant forall i: nat :: i < id ==> w.spawn(i) == Spawned
    {
      var result := w.spawn(id);
      if result != Spawned {
        terminated := TearDown(booting, []);
        assert Elements(booting) == Slots(id);
        if result == NoReadinessPipe {
          spawned := spawned + {id};
          terminated := terminated + {id};
        }
        return booting, spawned, terminated, false;
      }
      booting := booting + [id];
      assert Elements(booting) == Slots(id) + {id};
      spawned := spawned + {id};
    }
    ok := true;
  }

  lemma RemoveAt(n: nat, booting: seq<Slot>, ready: seq<Option<Slot>>, i: nat)
    requires Split(n, booting, ready) && i < |booting|
    ensures booting[i] < n
    ensures Split(n, booting[..i] + booting[i + 1..], ready[booting[i] := Some(booting[i])])
  {
    var id := booting[i];
    var rest := booting[..i] + booting[i + 1..];
    assert id in booting;
    forall x: nat
      ensures x in rest <==> x in booting && x != id
    {
      if x in booting && x != id {
        var k :| 0 <= k < |booting| && booting[k] == x;
        if k < i {
          assert rest[k] == x;
        } else {
          assert rest[k - 1] == x;
        }
      }
      if x in rest {
        var k :| 0 <= k < |rest| && rest[k] == x;
        assert x == if k < i then booting[k] else booting[k + 1];
      }
    }
  }

  /** One pass over the booting children; ready ones move to their place, the first failure stops it. */
  method Pass(n: nat, w: World, pass: nat, booting0: seq<Slot>, ready0: seq<Option<Slot>>)
      returns (booting: seq<Slot>, ready: seq<Option<Slot>>, failure: Option<BootError>)
    requires Split(n, booting0, ready0) && Reported(w, ready0, pass)
    ensures Split(n, booting, ready) && Reported(w, ready, pass + 1) && |booting| <= |booting0|
    ensures failure.None? ==> forall x :: x in booting ==> w.poll(pass, x) == Running
    ensures failure.Some? ==> exists x: nat :: x < n && ErrorOf(w.poll(pass, x)) == failure
    ensures |booting| == |booting0| ==> booting == booting0 && ready == ready0
  {
    booting, ready, failure := booting0, ready0, None;
    var i := 0;
    while i < |booting|
      invariant i <= |booting| <= |booting0| && Split(n, booting, ready) && Reported(w, ready, pass + 1)
      invariant forall k :: 0 <= k < i ==> w.poll(pass, booting[k]) == Running
      invariant |booting| == |booting0| ==> booting == booting0 && ready == ready0
      decreases |booting| - i
    {
      var id := booting[i];
      var found := w.poll(pass, id);
      var error := ErrorOf(found);
      if error.Some? {
        assert id in booting;
        return booting, ready, error;
      }
      if found == ReadyLine(true) {
        RemoveAt(n, booting, ready, i);
        assert ReportedBy(w, id, pass + 1);
        ready := ready[id := Some(id)];
        booting := booting[..i] + booting[i + 1..];
      } else {
        i := i + 1;
      }
    }
  }

  /** The slots that are filled, in order. */
  function Flatten(ready: seq<Option<Slot>>): seq<Slot> {
    if ready == [] then []
    else if ready[0].Some? then [ready[0].value] + Flatten(ready[1..])
    else Flatten(ready[1..])
  }

  lemma {:induction false} FlattenFull(ready: seq<Option<Slot>>, from: nat)
    requires forall i :: 0 <= i < |ready| ==> ready[i] == Some(from + i)
    ensures |Flatten(ready)| == |ready| && forall i :: 0 <= i < |ready| ==> Flatten(ready)[i] == from + i
  {
    if ready != [] {
      FlattenFull(ready[1..], from + 1);
    }
  }

  lemma SplitCovers(n: nat, booting: seq<Slot>, ready: seq<Option<Slot>>)
    requires Split(n, booting, ready)
    ensures Elements(booting) + Taken(ready) == Slots(n)
  {
  }

  // ----- the rolling deadline -----

  /** What `rounds` rounds of readiness may take, a window and a nap each. */
  function Allowance(rounds: nat, perRound: nat): nat {
    if rounds == 0 then 0 else Allowance(rounds - 1, perRound) + perRound
  }

  lemma {:induction false} AllowanceIsProduct(rounds: nat, perRound: nat)
    ensures Allowance(rounds, perRound) == rounds * perRound
  {
    if rounds > 0 {
      AllowanceIsProduct(rounds - 1, perRound);
      assert rounds * perRound == (rounds - 1) * perRound + perRound;
    }
  }

  lemma {:induction false} AllowanceGrows(rounds: nat, n: nat, perRound: nat)
    requires rounds <= n
    ensures Allowance(rounds, perRound) <= Allowance(n, perRound)
  {
    if rounds < n {
      AllowanceGrows(rounds, n - 1, perRound);
    }
  }

  /** The loop's clock: rounds in which somebody got ready, the deadline, the time, and the part of it spent polling. */
  datatype Clock = Clock(rounds: nat, deadline: nat, elapsed: nat, polling: nat) {
    function Polled(time: nat): Clock {
      this.(elapsed := elapsed + time, polling := polling + time)
    }

    function Progressed(window: nat): Clock {
      this.(rounds := rounds + 1, deadline := elapsed + window)
    }

    function Napped(nap: nat): Clock {
      this.(elapsed := elapsed + nap)
    }
  }

  /** With `waiting` children still booting, `n` in all, the clock is within its allowance. */
  predicate OnTime(c: Clock, n: nat, waiting: nat, window: nat, nap: nat) {
    var spent := Allowance(c.rounds, window + nap) + c.polling;
    && waiting + c.rounds <= n
    && c.deadline <= spent + window
    && c.elapsed <= spent + if waiting == 0 then 0 else window + nap
  }

  /** A pass may fail or time out: the time is still within the allowance for all `n`. */
  lemma PollStaysOnTime(c: Clock, n: nat, waiting: nat, window: nat, nap: nat, time: nat)
    requires OnTime(c, n, waiting, window, nap) && waiting > 0
    ensures c.elapsed <= Allowance(n, window + nap) + c.polling
    ensures c.Polled(time).elapsed <= Allowance(n, window + nap) + c.Polled(time).polling
    ensures OnTime(c.Polled(time), n, waiting, window, nap)
  {
    AllowanceGrows(c.rounds + 1, n, window + nap);
  }

  lemma ProgressStaysOnTime(c: Clock, n: nat, waiting: nat, left: nat, window: nat, nap: nat)
    requires OnTime(c, n, waiting, window, nap) && left < waiting
    ensures OnTime(c.Progressed(window), n, left, window, nap)
  {
  }

  lemma NapStaysOnTime(c: Clock, n: nat, waiting: nat, window: nat, nap: nat)
    requires OnTime(c, n, waiting, window, nap) && waiting > 0 && c.elapsed < c.deadline
    ensures OnTime(c.Napped(nap), n, waiting, window, nap)
  {
  }

  lemma FinishedOnTime(c: Clock, n: nat, window: nat, nap: nat)
    requires OnTime(c, n, 0, window, nap)
    ensures c.elapsed <= Allowance(n, window + nap) + c.polling
  {
    AllowanceGrows(c.rounds, n, window + nap);
  }

  // ----- windows without progress -----

  /** What the passes from `from` up to `to` take, a nap after each. */
  function Lapse(w: World, nap: nat, from: nat, to: nat): nat
    decreases to
  {
    if to <= from then 0 else Lapse(w, nap, from, to - 1) + w.passTime(to - 1) + nap
  }

  ghost predicate SilentFor(w: World, slot: Slot, from: nat, to: nat) {
    forall p :: from <= p < to ==> w.poll(p, slot) == Running
  }

  ghost predicate Silent(w: World, slot: Slot, from: nat, last: nat) {
    SilentFor(w, slot, from, last + 1)
  }

  /**
   From pass `from` to the end of pass `last` at least a window went by in which nobody got ready, although somebody was
   awaited: who had not reported before was silent throughout.
   */
  ghost predicate Quiet(w: World, n: nat, window: nat, nap: nat, from: nat, last: nat) {
    && Lapse(w, nap, from, last) + w.passTime(last) >= window
    && (exists x: nat :: x < n && Silent(w, x, from, last))
    && (forall x: nat :: x < n ==> ReportedBy(w, x, from) || Silent(w, x, from, last))
  }

  ghost predicate QuietWindow(w: World, n: nat, window: nat, nap: nat) {
    exists from: nat, last: nat :: from <= last && Quiet(w, n, window, nap, from, last)
  }

  /** Nothing has happened since pass `from`. */
  ghost predicate Waited(w: World, booting: seq<Slot>, ready: seq<Option<Slot>>, from: nat, pass: nat) {
    from <= pass && Reported(w, ready, from) && forall x :: x in booting ==> SilentFor(w, x, from, pass)
  }

  lemma WaitedOneMore(w: World, booting: seq<Slot>, ready: seq<Option<Slot>>, from: nat, pass: nat)
    requires Waited(w, booting, ready, from, pass) && forall x :: x in booting ==> w.poll(pass, x) == Running
    ensures Waited(w, booting, ready, from, pass + 1)
  {
  }

  lemma WaitedInVain(w: World, n: nat, window: nat, nap: nat, booting: seq<Slot>, ready: seq<Option<Slot>>, from: nat,
      last: nat)
    requires Split(n, booting, ready) && booting != [] && from <= last
    requires Waited(w, booting, ready, from, last + 1)
    requires Lapse(w, nap, from, last) + w.passTime(last) >= window
    ensures QuietWindow(w, n, window, nap)
  {
    assert booting[0] in booting && Silent(w, booting[0], from, last);
    forall x: nat | x < n
      ensures ReportedBy(w, x, from) || Silent(w, x, from, last)
    {
      assert ready[x].None? ==> x in booting;
    }
    assert Quiet(w, n, window, nap, from, last);
  }

  /** Some poll found this error. */
  ghost predicate Erred(w: World, n: nat, error: BootError) {
    exists p: nat, x: nat :: x < n && ErrorOf(w.poll(p, x)) == Some(error)
  }

  // ----- the boot -----

  /** Every exit but success. */
  method Abort(n: nat, booting: seq<Slot>, ready: seq<Option<Slot>>) returns (terminated: set<Slot>)
    requires Split(n, booting, ready)
    ensures terminated == Slots(n)
  {
    SplitCovers(n, booting, ready);
    terminated := TearDown(booting, ready);
  }

  lemma AllReady(n: nat, w: World, ready: seq<Option<Slot>>, pass: nat)
    requires Split(n, [], ready) && Reported(w, ready, pass)
    ensures Flatten(ready) == InOrder(n)
    ensures forall i: nat :: i < n ==> EverReported(w, i)
  {
    assert forall i: nat :: i < n ==> ready[i] == Some(i);
    FlattenFull(ready, 0);
    forall i: nat | i < n
      ensures EverReported(w, i)
    {
      assert ReportedBy(w, i, pass);
    }
  }

  /** The polling loop over children that have all been spawned. */
  method AwaitAll(n: nat, window: nat, nap: nat, w: World, booting0: seq<Slot>)
      returns (outcome: Outcome, terminated: set<Slot>, clock: Clock)
    requires nap > 0 && booting0 == InOrder(n)
    ensures outcome.Workers? ==> outcome.slots == InOrder(n) && terminated == {}
    ensures outcome.Workers? ==> forall i: nat :: i < n ==> EverReported(w, i)
    ensures !outcome.Workers? ==> terminated == Slots(n)
    ensures outcome.Drained? ==> exists p: nat :: w.shutdown(p)
    ensures outcome == Failed(Timeout) ==> QuietWindow(w, n, window, nap)
    ensures outcome.Failed? && outcome.error != Timeout ==> Erred(w, n, outcome.error)
    ensures clock.elapsed <= Allowance(n, window + nap) + clock.polling
  {
    var booting := booting0;
    var ready: seq<Option<Slot>> := seq(n, _ => None);
    var pass: nat := 0;
    ghost var from: nat := 0;
    clock := Clock(0, window, 0, 0);
    terminated := {};
    while booting != []
      invariant Split(n, booting, ready) && Reported(w, ready, pass) && terminated == {}
      invariant OnTime(clock, n, |booting|, window, nap)
      invariant Waited(w, booting, ready, from, pass)
      invariant clock.elapsed + window == clock.deadline + Lapse(w, nap, from, pass)
      decreases |booting|, if clock.deadline + nap > clock.elapsed then clock.deadline + nap - clock.elapsed else 0
    {
      PollStaysOnTime(clock, n, |booting|, window, nap, w.passTime(pass));
      if w.shutdown(pass) {
        terminated := Abort(n, booting, ready);
        return Drained, terminated, clock;
      }
      var waiting := |booting|;
      var failure;
      ghost var booting', ready' := booting, ready;
      booting, ready, failure := Pass(n, w, pass, booting, ready);
      clock := clock.Polled(w.passTime(pass));
      pass := pass + 1;
      if failure.Some? {
        terminated := Abort(n, booting, ready);
        return Failed(failure.value), terminated, clock;
      }
      if |booting| < waiting {
        ProgressStaysOnTime(clock, n, waiting, |booting|, window, nap);
        clock := clock.Progressed(window);
        from := pass;
      } else if clock.elapsed >= clock.deadline {
        WaitedOneMore(w, booting', ready', from, pass - 1);
        WaitedInVain(w, n, window, nap, booting, ready, from, pass - 1);
        terminated := Abort(n, booting, ready);
        return Failed(Timeout), terminated, clock;
      } else {
        WaitedOneMore(w, booting', ready', from, pass - 1);
        NapStaysOnTime(clock, n, waiting, window, nap);
        clock := clock.Napped(nap);
      }
    }
    FinishedOnTime(clock, n, window, nap);
    AllReady(n, w, ready, pass);
    return Workers(Flatten(ready)), terminated, clock;
  }

  /** Every child is spawned, no poll finds an error and no shutdown is requested. */
  ghost predicate Smooth(w: World, n: nat) {
    && (forall i: nat :: i < n ==> w.spawn(i) == Spawned)
    && (forall e :: !Erred(w, n, e))
    && (forall p: nat :: !w.shutdown(p))
  }

  /**
   The whole boot.  On success exactly the `n` workers come back, in slot order, each of which reported ready; on
   every other exit each spawned child has been terminated.  The time spent is at most `n` readiness
   windows, one sleep beyond each, and the polling itself.  A timeout means that a whole window went by without
   progress; without one, a boot that nothing disturbs succeeds.
   */
  method SpawnWorkerPoolBatched(n: nat, window: nat, nap: nat, w: World)
      returns (outcome: Outcome, spawned: set<Slot>, terminated: set<Slot>, elapsed: nat, polling: nat)
    requires nap > 0
    ensures outcome.Workers? ==>
              && outcome.slots == InOrder(n)
              && spawned == Slots(n) && terminated == {}
              && forall i: nat :: i < n ==> EverReported(w, i)
    ensures !outcome.Workers? ==> terminated == spawned
    ensures outcome.Drained? ==> exists p: nat :: w.shutdown(p)
    ensures outcome == Failed(CouldNotSpawn) ==> exists i: nat :: i < n && w.spawn(i) != Spawned
    ensures outcome == Failed(Timeout) ==> QuietWindow(w, n, window, nap)
    ensures Smooth(w, n) && !QuietWindow(w, n, window, nap) ==> outcome.Workers?
    ensures elapsed <= n * (window + nap) + polling
  {
    var booting, ok;
    booting, spawned, terminated, ok := SpawnAll(n, w);
    if !ok {
      return Failed(CouldNotSpawn), spawned, terminated, 0, 0;
    }
    var clock;
    outcome, terminated, clock := AwaitAll(n, window, nap, w, booting);
    AllowanceIsProduct(n, window + nap);
    elapsed, polling := clock.elapsed, clock.polling;
  }
}
