/**
 The lock-free limiters: every thread is a program counter, and one step is one atomic operation.

 A task is one call of the limiter together with the guard it may return.  A run is any sequence of
 labels; a label that does not apply to its task leaves the state alone, so the theorems hold of
 every interleaving, weak compare-and-swap failures included.
 */
module CasLimiter {
  import opened Common

  type Task = nat

  datatype Phase =
    | Fresh
    | Calling                                   // about to load `active`
    | Seen(n: nat)                              // loaded n, below the cap; about to swap
    | Rejecting                                 // loaded a full count; about to bump the rejected total
    | Rejected
    | Won(n: nat)                               // swapped n in; about to bump the accepted total
    | Recording(n: nat)                         // about to load the observed maximum
    | Comparing(n: nat, current: nat)           // comparing n with the maximum it read
    | Holding(completed: bool)                  // the guard is with the caller
    | Dropping(completed: bool)                 // count released; about to bump a total
    | Finished(completed: bool)

  /** The shared atomics. */
  datatype Counters = Counters(active: nat, accepted: nat, rejected: nat, completed: nat, cancelled: nat,
      maxObserved: nat)

  datatype State = State(c: Counters, tasks: map<Task, Phase>)

  datatype Action = Begin | Advance | WeakFailure | Complete | Drop

  datatype Label = Label(t: Task, act: Action)

  const EMPTY := State(Counters(0, 0, 0, 0, 0, 0), map[])

  /** The next atomic operation of a task inside the limiter. */
  function Operate(cap: nat, c: Counters, p: Phase): (Counters, Phase) {
    match p
    case Calling => (c, if c.active >= cap then Rejecting else Seen(c.active))
    case Seen(n) => if c.active == n then (c.(active := n + 1), Won(n + 1)) else (c, Calling)
    case Rejecting => (c.(rejected := c.rejected + 1), Rejected)
    case Won(n) => (c.(accepted := c.accepted + 1), Recording(n))
    case Recording(n) => (c, Comparing(n, c.maxObserved))
    case Comparing(n, current) =>
      if n <= current then (c, Holding(false))
      else if c.maxObserved == current then (c.(maxObserved := n), Holding(false))
      else (c, Comparing(n, c.maxObserved))
    case Dropping(completed) =>
      (if completed then c.(completed := c.completed + 1) else c.(cancelled := c.cancelled + 1), Finished(completed))
    case _ => (c, p)
  }

  /** A weak compare-and-swap may fail although the value is the expected one. */
  function FailWeakly(c: Counters, p: Phase): Phase {
    match p
    case Seen(_) => Calling
    case Comparing(n, current) => if n > current then Comparing(n, c.maxObserved) else p
    case _ => p
  }

  function Move(cap: nat, c: Counters, p: Phase, act: Action): (Counters, Phase) {
    match act
    case Begin => (c, if p.Fresh? then Calling else p)
    case Advance => Operate(cap, c, p)
    case WeakFailure => (c, FailWeakly(c, p))
    case Complete => (c, if p.Holding? then Holding(true) else p)
    case Drop =>
      // the program's subtraction would wrap at zero; `RunInv` shows that it never gets there
      if p.Holding? && c.active > 0 then (c.(active := c.active - 1), Dropping(p.completed)) else (c, p)
  }

  function PhaseOf(tasks: map<Task, Phase>, t: Task): Phase {
    if t in tasks then tasks[t] else Fresh
  }

  function Apply(cap: nat, s: State, l: Label): State {
    var (c, p) := Move(cap, s.c, PhaseOf(s.tasks, l.t), l.act);
    State(c, s.tasks[l.t := p])
  }

  function Run(cap: nat, labels: seq<Label>): State {
    if labels == [] then EMPTY
    else Apply(cap, Run(cap, labels[..|labels| - 1]), labels[|labels| - 1])
  }

  /** The largest value `active` ever had. */
  function Peak(cap: nat, labels: seq<Label>): nat {
    if labels == [] then 0
    else Max(Peak(cap, labels[..|labels| - 1]), Run(cap, labels).c.active)
  }

  // ----- counting tasks -----

  ghost function In(tasks: map<Task, Phase>, p: Phase -> bool): set<Task> {
    set t | t in tasks && p(tasks[t])
  }

  ghost function Count(tasks: map<Task, Phase>, p: Phase -> bool): nat {
    |In(tasks, p)|
  }

  ghost function One(b: bool): nat {
    if b then 1 else 0
  }

  lemma CountMoves(tasks: map<Task, Phase>, t: Task, q: Phase, p: Phase -> bool)
    requires !p(Fresh)
    ensures Count(tasks[t := q], p) + One(p(PhaseOf(tasks, t))) == Count(tasks, p) + One(p(q))
  {
    SameElsewhere(tasks, tasks[t := q], t, p);
  }

  /** When two task tables differ only in `t`, so do their counts. */
  lemma SameElsewhere(tasks: map<Task, Phase>, tasks': map<Task, Phase>, t: Task, p: Phase -> bool)
    requires forall u :: u != t ==> PhaseOf(tasks', u) == PhaseOf(tasks, u)
    requires !p(Fresh)
    ensures Count(tasks', p) + One(p(PhaseOf(tasks, t))) == Count(tasks, p) + One(p(PhaseOf(tasks', t)))
  {
    var before, after := In(tasks, p), In(tasks', p);
    forall u | u != t
      ensures u in before <==> u in after
    {
      assert PhaseOf(tasks', u) == PhaseOf(tasks, u);
    }
    DifferInOne(before, after, t);
  }

  lemma DifferInOne(before: set<Task>, after: set<Task>, t: Task)
    requires forall u :: u != t ==> (u in before <==> u in after)
    ensures |after| + One(t in before) == |before| + One(t in after)
  {
    WithoutOne(before, t);
    WithoutOne(after, t);
    assert before - {t} == after - {t};
  }

  lemma WithoutOne(s: set<Task>, t: Task)
    ensures |s| == |s - {t}| + One(t in s)
  {
    if t in s {
      assert s == (s - {t}) + {t};
    } else {
      assert s == s - {t};
    }
  }

  predicate Holds(p: Phase) {
    p.Won? || p.Recording? || p.Comparing? || p.Holding?
  }

  predicate Counted(p: Phase) {
    p.Recording? || p.Comparing? || p.Holding? || p.Dropping? || p.Finished?
  }

  const isHolding: Phase -> bool := (p: Phase) => Holds(p)
  const isCounted: Phase -> bool := (p: Phase) => Counted(p)
  const isRejected: Phase -> bool := (p: Phase) => p.Rejected?
  const isCompleted: Phase -> bool := (p: Phase) => p == Finished(true)
  const isCancelled: Phase -> bool := (p: Phase) => p == Finished(false)

  ghost predicate CountsAgree(c: Counters, tasks: map<Task, Phase>) {
    && c.active == Count(tasks, isHolding)
    && c.accepted == Count(tasks, isCounted)
    && c.rejected == Count(tasks, isRejected)
    && c.completed == Count(tasks, isCompleted)
    && c.cancelled == Count(tasks, isCancelled)
  }

  /** What the move of one task does to every counter. */
  lemma MoveCounts(cap: nat, c: Counters, p: Phase, act: Action)
    requires Holds(p) ==> c.active > 0
    ensures var (c', p') := Move(cap, c, p, act);
            && c'.active + One(Holds(p)) == c.active + One(Holds(p'))
            && c'.accepted + One(Counted(p)) == c.accepted + One(Counted(p'))
            && c'.rejected + One(p.Rejected?) == c.rejected + One(p'.Rejected?)
            && c'.completed + One(p == Finished(true)) == c.completed + One(p' == Finished(true))
            && c'.cancelled + One(p == Finished(false)) == c.cancelled + One(p' == Finished(false))
  {
  }

  lemma ApplyKeepsCounts(cap: nat, s: State, l: Label)
    requires CountsAgree(s.c, s.tasks)
    ensures CountsAgree(Apply(cap, s, l).c, Apply(cap, s, l).tasks)
  {
    var p := PhaseOf(s.tasks, l.t);
    assert Holds(p) ==> l.t in In(s.tasks, isHolding);
    MoveCounts(cap, s.c, p, l.act);
    var q := Move(cap, s.c, p, l.act).1;
    CountMoves(s.tasks, l.t, q, isHolding);
    CountMoves(s.tasks, l.t, q, isCounted);
    CountMoves(s.tasks, l.t, q, isRejected);
    CountMoves(s.tasks, l.t, q, isCompleted);
    CountMoves(s.tasks, l.t, q, isCancelled);
  }

  predicate BelowCap(cap: nat, p: Phase) {
    p.Seen? ==> p.n < cap
  }

  ghost predicate Inv(cap: nat, s: State) {
    && CountsAgree(s.c, s.tasks)
    && s.c.active <= cap
    && forall t :: t in s.tasks ==> BelowCap(cap, s.tasks[t])
  }

  lemma ApplyKeepsInv(cap: nat, s: State, l: Label)
    requires Inv(cap, s)
    ensures Inv(cap, Apply(cap, s, l))
  {
    ApplyKeepsCounts(cap, s, l);
    var p := PhaseOf(s.tasks, l.t);
    assert BelowCap(cap, p);
    MoveStaysBelow(cap, s.c, p, l.act);
  }

  lemma MoveStaysBelow(cap: nat, c: Counters, p: Phase, act: Action)
    requires c.active <= cap && BelowCap(cap, p)
    ensures var (c', p') := Move(cap, c, p, act); c'.active <= cap && BelowCap(cap, p')
  {
  }

  // ----- the observed maximum -----

  /** A swapped-in count the maximum may not reflect yet. */
  predicate Pending(p: Phase) {
    p.Won? || p.Recording? || p.Comparing?
  }

  predicate UpTo(maxObserved: nat, peak: nat, p: Phase) {
    (Pending(p) ==> p.n <= peak) && (p.Comparing? ==> p.current <= maxObserved)
  }

  predicate Owes(p: Phase, peak: nat) {
    Pending(p) && p.n == peak
  }

  /** `peak` is covered by the recorded maximum or by a task still on its way to record it. */
  ghost predicate PeakTracked(s: State, peak: nat) {
    && s.c.active <= peak && s.c.maxObserved <= peak
    && (forall t :: t in s.tasks ==> UpTo(s.c.maxObserved, peak, s.tasks[t]))
    && (s.c.maxObserved == peak || exists t :: t in s.tasks && Owes(s.tasks[t], peak))
  }

  lemma MoveTracksPeak(cap: nat, c: Counters, p: Phase, act: Action, peak: nat)
    requires c.active <= peak && c.maxObserved <= peak && UpTo(c.maxObserved, peak, p)
    ensures var (c', p') := Move(cap, c, p, act);
            var peak' := Max(peak, c'.active);
            && c.maxObserved <= c'.maxObserved <= peak' && UpTo(c'.maxObserved, peak', p')
            && (peak' > peak ==> Owes(p', peak'))
            && (Owes(p, peak) ==> c'.maxObserved == peak' || Owes(p', peak'))
  {
  }

  lemma ApplyTracksPeak(cap: nat, s: State, l: Label, peak: nat)
    requires PeakTracked(s, peak)
    ensures PeakTracked(Apply(cap, s, l), Max(peak, Apply(cap, s, l).c.active))
  {
    var s', t := Apply(cap, s, l), l.t;
    var peak' := Max(peak, s'.c.active);
    MoveTracksPeak(cap, s.c, PhaseOf(s.tasks, t), l.act, peak);
    forall u | u in s'.tasks
      ensures UpTo(s'.c.maxObserved, peak', s'.tasks[u])
    {
      if u != t {
        assert UpTo(s.c.maxObserved, peak, s.tasks[u]);
      }
    }
    if peak' == peak && s'.c.maxObserved != peak {
      var u :| u in s.tasks && Owes(s.tasks[u], peak);
      assert Owes(s'.tasks[u], peak);
    } else if peak' > peak {
      assert Owes(s'.tasks[t], peak');
    }
  }

  // ----- every run -----

  /**
   In every reachable state `active` is the number of live guards, at most the cap, and each total counts its tasks.
   */
  lemma {:induction false} RunInv(cap: nat, labels: seq<Label>)
    ensures Inv(cap, Run(cap, labels))
  {
    if labels != [] {
      RunInv(cap, labels[..|labels| - 1]);
      ApplyKeepsInv(cap, Run(cap, labels[..|labels| - 1]), labels[|labels| - 1]);
    }
  }

  lemma {:induction false} RunTracksPeak(cap: nat, labels: seq<Label>)
    ensures PeakTracked(Run(cap, labels), Peak(cap, labels))
  {
    if labels != [] {
      RunTracksPeak(cap, labels[..|labels| - 1]);
      ApplyTracksPeak(cap, Run(cap, labels[..|labels| - 1]), labels[|labels| - 1], Peak(cap, labels[..|labels| - 1]));
    }
  }

  /** `Peak` is the maximum of `active` over every instant of the run. */
  lemma {:induction false} PeakIsMaximum(cap: nat, labels: seq<Label>)
    ensures forall i :: 0 <= i <= |labels| ==> Run(cap, labels[..i]).c.active <= Peak(cap, labels)
    ensures exists i :: 0 <= i <= |labels| && Run(cap, labels[..i]).c.active == Peak(cap, labels)
  {
    assert labels[..|labels|] == labels;
    if labels != [] {
      var before := labels[..|labels| - 1];
      PeakIsMaximum(cap, before);
      forall i | 0 <= i <= |labels|
        ensures Run(cap, labels[..i]).c.active <= Peak(cap, labels)
      {
        if i < |labels| {
          assert before[..i] == labels[..i];
        }
      }
      if Peak(cap, labels) == Peak(cap, before) {
        var i :| 0 <= i <= |before| && Run(cap, before[..i]).c.active == Peak(cap, before);
        assert before[..i] == labels[..i];
      }
    } else {
      assert labels[..0] == [];
    }
  }

  /** No call and no drop is under way. */
  predicate Quiescent(s: State) {
    forall t :: t in s.tasks ==> Settled(s.tasks[t])
  }

  predicate Settled(p: Phase) {
    p.Fresh? || p.Holding? || p.Rejected? || p.Finished?
  }

  lemma AcceptedSplits(s: State)
    requires Quiescent(s)
    ensures Count(s.tasks, isCounted) ==
            Count(s.tasks, isHolding) + Count(s.tasks, isCompleted) + Count(s.tasks, isCancelled)
  {
    var held, completed, cancelled := In(s.tasks, isHolding), In(s.tasks, isCompleted), In(s.tasks, isCancelled);
    forall t
      ensures t in In(s.tasks, isCounted) <==> t in held || t in completed || t in cancelled
      ensures !(t in held && t in completed) && !(t in held && t in cancelled) && !(t in completed && t in cancelled)
    {
    }
    ThreeParts(In(s.tasks, isCounted), held, completed, cancelled);
  }

  lemma ThreeParts(all: set<Task>, a: set<Task>, b: set<Task>, c: set<Task>)
    requires forall t :: t in all <==> t in a || t in b || t in c
    requires forall t :: !(t in a && t in b) && !(t in a && t in c) && !(t in b && t in c)
    ensures |all| == |a| + |b| + |c|
  {
    assert all == a + b + c;
    assert a !! b && (a + b) !! c;
  }

  /** With no call under way the recorded maximum is the true one and every accepted guard is accounted for. */
  lemma QuiescentTotals(cap: nat, labels: seq<Label>)
    requires Quiescent(Run(cap, labels))
    ensures var s := Run(cap, labels);
            s.c.maxObserved == Peak(cap, labels) && s.c.accepted == s.c.active + s.c.completed + s.c.cancelled
  {
    RunInv(cap, labels);
    RunTracksPeak(cap, labels);
    AcceptedSplits(Run(cap, labels));
  }

  predicate Refused(p: Phase) {
    p.Rejecting? || p.Rejected?
  }

  /** At this instant task `t` is inside its call and every slot is held. */
  ghost predicate FullDuring(cap: nat, s: State, t: Task) {
    PhaseOf(s.tasks, t).Calling? && s.c.active == cap == Count(s.tasks, isHolding)
  }

  lemma MoveRefuses(cap: nat, c: Counters, p: Phase, act: Action)
    requires c.active <= cap
    ensures Refused(Move(cap, c, p, act).1) ==> Refused(p) || (p.Calling? && c.active == cap)
  {
  }

  lemma StepRefuses(cap: nat, s: State, l: Label, t: Task)
    requires Inv(cap, s) && Refused(PhaseOf(Apply(cap, s, l).tasks, t))
    ensures Refused(PhaseOf(s.tasks, t)) || FullDuring(cap, s, t)
  {
    MoveRefuses(cap, s.c, PhaseOf(s.tasks, t), l.act);
  }

  /** A call is refused only if, at some instant inside that call, every slot was held. */
  lemma {:induction false} RefusalNeedsFullCap(cap: nat, labels: seq<Label>, t: Task)
    requires Refused(PhaseOf(Run(cap, labels).tasks, t))
    ensures exists i :: 0 <= i < |labels| && FullDuring(cap, Run(cap, labels[..i]), t)
  {
    var before := labels[..|labels| - 1];
    var s := Run(cap, before);
    RunInv(cap, before);
    StepRefuses(cap, s, labels[|labels| - 1], t);
    if FullDuring(cap, s, t) {
      assert before == labels[..|labels| - 1];
    } else {
      RefusalNeedsFullCap(cap, before, t);
      FullDuringLonger(cap, before, labels, t);
    }
  }

  lemma FullDuringLonger(cap: nat, before: seq<Label>, labels: seq<Label>, t: Task)
    requires before <= labels && exists i :: 0 <= i < |before| && FullDuring(cap, Run(cap, before[..i]), t)
    ensures exists i :: 0 <= i < |labels| && FullDuring(cap, Run(cap, labels[..i]), t)
  {
    var i :| 0 <= i < |before| && FullDuring(cap, Run(cap, before[..i]), t);
    assert before[..i] == labels[..i];
  }

  /** The release never wraps: dropping a guard always finds its own slot in the count. */
  lemma DropReleases(cap: nat, labels: seq<Label>, t: Task)
    requires PhaseOf(Run(cap, labels).tasks, t).Holding?
    ensures var s := Run(cap, labels);
            s.c.active >= 1 && Apply(cap, s, Label(t, Drop)) ==
                State(s.c.(active := s.c.active - 1), s.tasks[t := Dropping(s.tasks[t].completed)])
  {
    RunInv(cap, labels);
    HolderIsCounted(cap, Run(cap, labels), t);
    DropMoves(cap, Run(cap, labels), t);
  }

  lemma HolderIsCounted(cap: nat, s: State, t: Task)
    requires Inv(cap, s)
    ensures PhaseOf(s.tasks, t).Holding? ==> s.c.active >= 1
  {
    if PhaseOf(s.tasks, t).Holding? {
      assert t in In(s.tasks, isHolding);
    }
  }

  lemma DropMoves(cap: nat, s: State, t: Task)
    requires PhaseOf(s.tasks, t).Holding? && s.c.active >= 1
    ensures Apply(cap, s, Label(t, Drop)) ==
            State(s.c.(active := s.c.active - 1), s.tasks[t := Dropping(s.tasks[t].completed)])
  {
  }

  // ----- a task that runs alone -----

  predicate InCall(p: Phase) {
    p.Calling? || p.Seen? || p.Rejecting? || Pending(p)
  }

  /** Counters and phase after `k` steps of one task with no other task moving and no weak failure. */
  function Onward(cap: nat, c: Counters, p: Phase, k: nat): (Counters, Phase) {
    if k == 0 then (c, p)
    else
      var (c', p') := Onward(cap, c, p, k - 1);
      Operate(cap, c', p')
  }

  function Advances(t: Task, k: nat): seq<Label> {
    if k == 0 then [] else Advances(t, k - 1) + [Label(t, Advance)]
  }

  lemma {:induction false} RunOnward(cap: nat, labels: seq<Label>, s: State, t: Task, k: nat)
    requires Run(cap, labels) == s && t in s.tasks
    ensures var (c, p) := Onward(cap, s.c, s.tasks[t], k);
            Run(cap, labels + Advances(t, k)) == State(c, s.tasks[t := p])
  {
    if k == 0 {
      assert labels + [] == labels;
    } else {
      RunOnward(cap, labels, s, t, k - 1);
      var (c, p) := Onward(cap, s.c, s.tasks[t], k - 1);
      RunAdvance(cap, labels, t, k - 1, s.tasks, c, p);
    }
  }

  lemma RunAdvance(cap: nat, labels: seq<Label>, t: Task, k: nat, tasks: map<Task, Phase>, c: Counters, p: Phase)
    requires Run(cap, labels + Advances(t, k)) == State(c, tasks[t := p])
    ensures var (c', p') := Operate(cap, c, p);
            Run(cap, labels + Advances(t, k + 1)) == State(c', tasks[t := p'])
  {
    var longer := labels + Advances(t, k);
    assert labels + Advances(t, k + 1) == longer + [Label(t, Advance)];
    RunSnoc(cap, longer, Label(t, Advance));
    ApplyAdvance(cap, tasks, t, c, p);
  }

  lemma RunSnoc(cap: nat, labels: seq<Label>, l: Label)
    ensures Run(cap, labels + [l]) == Apply(cap, Run(cap, labels), l)
  {
    assert (labels + [l])[..|labels|] == labels;
  }

  lemma ApplyAdvance(cap: nat, tasks: map<Task, Phase>, t: Task, c: Counters, p: Phase)
    ensures var (c', p') := Operate(cap, c, p);
            Apply(cap, State(c, tasks[t := p]), Label(t, Advance)) == State(c', tasks[t := p'])
  {
    var p' := Operate(cap, c, p).1;
    assert tasks[t := p][t := p'] == tasks[t := p'];
  }

  /** The counters and the phase a call ends in when nothing else moves. */
  function Decided(cap: nat, c: Counters): (Counters, Phase) {
    if c.active < cap
    then (c.(active := c.active + 1, accepted := c.accepted + 1, maxObserved := Max(c.maxObserved, c.active + 1)),
          Holding(false))
    else (c.(rejected := c.rejected + 1), Rejected)
  }

  lemma FiveStepsDecide(cap: nat, c: Counters)
    ensures Onward(cap, c, Calling, 5) == Decided(cap, c)
  {
    assert Onward(cap, c, Calling, 1) == (c, if c.active >= cap then Rejecting else Seen(c.active));
    if c.active < cap {
      var c2 := c.(active := c.active + 1);
      var c3 := c2.(accepted := c.accepted + 1);
      assert Onward(cap, c, Calling, 2) == (c2, Won(c.active + 1));
      assert Onward(cap, c, Calling, 3) == (c3, Recording(c.active + 1));
      assert Onward(cap, c, Calling, 4) == (c3, Comparing(c.active + 1, c.maxObserved));
    } else {
      var c2 := c.(rejected := c.rejected + 1);
      assert Onward(cap, c, Calling, 2) == (c2, Rejected);
      assert Onward(cap, c, Calling, 3) == (c2, Rejected);
      assert Onward(cap, c, Calling, 4) == (c2, Rejected);
    }
  }

  /**
   From every reachable state a new call that runs alone is decided in six steps: below the cap it returns the guard
   with one slot and one admission more, at the cap it is refused and counted; nothing else changes.
   */
  lemma AloneIsDecided(cap: nat, labels: seq<Label>, t: Task)
    requires PhaseOf(Run(cap, labels).tasks, t).Fresh?
    ensures var s := Run(cap, labels);
            var (c, p) := Decided(cap, s.c);
            Run(cap, labels + [Label(t, Begin)] + Advances(t, 5)) == State(c, s.tasks[t := p])
  {
    var s, begun := Run(cap, labels), labels + [Label(t, Begin)];
    RunSnoc(cap, labels, Label(t, Begin));
    assert Run(cap, begun) == State(s.c, s.tasks[t := Calling]);
    RunOnward(cap, begun, State(s.c, s.tasks[t := Calling]), t, 5);
    FiveStepsDecide(cap, s.c);
    assert s.tasks[t := Calling][t := Decided(cap, s.c).1] == s.tasks[t := Decided(cap, s.c).1];
  }

  /**
   A guard that is dropped gives its slot back at once and is then counted, as completed if the stream was marked so and
   as cancelled otherwise; nothing else changes.
   */
  lemma DropIsCounted(cap: nat, labels: seq<Label>, t: Task)
    requires PhaseOf(Run(cap, labels).tasks, t).Holding?
    ensures var s := Run(cap, labels);
            var done := s.tasks[t].completed;
            var c := s.c;
            s.c.active >= 1 && Run(cap, labels + [Label(t, Drop)] + [Label(t, Advance)]) ==
                State(Counters(c.active - 1, c.accepted, c.rejected, c.completed + One(done), c.cancelled + One(!done),
                               c.maxObserved),
                      s.tasks[t := Finished(done)])
  {
    var s := Run(cap, labels);
    DropReleases(cap, labels, t);
    RunSnoc(cap, labels, Label(t, Drop));
    RunSnoc(cap, labels + [Label(t, Drop)], Label(t, Advance));
    ApplyAdvance(cap, s.tasks, t, s.c.(active := s.c.active - 1), Dropping(s.tasks[t].completed));
  }

  /** A guard whose stream was completed before the drop counts as completed. */
  lemma CompletedIsCounted(cap: nat, labels: seq<Label>, t: Task)
    requires PhaseOf(Run(cap, labels).tasks, t).Holding?
    ensures var s := Run(cap, labels);
            var marked := labels + [Label(t, Complete)];
            s.c.active >= 1 && Run(cap, marked + [Label(t, Drop)] + [Label(t, Advance)]) ==
                State(s.c.(active := s.c.active - 1, completed := s.c.completed + 1), s.tasks[t := Finished(true)])
  {
    var s, marked := Run(cap, labels), labels + [Label(t, Complete)];
    RunSnoc(cap, labels, Label(t, Complete));
    assert Run(cap, marked) == State(s.c, s.tasks[t := Holding(true)]);
    DropIsCounted(cap, marked, t);
    assert s.tasks[t := Holding(true)][t := Finished(true)] == s.tasks[t := Finished(true)];
  }

  predicate Returned(p: Phase) {
    p == Holding(false) || p == Rejected
  }

  lemma {:induction false} OnwardAdds(cap: nat, c: Counters, p: Phase, j: nat, k: nat)
    ensures var (c', p') := Onward(cap, c, p, j);
            Onward(cap, c, p, j + k) == Onward(cap, c', p', k)
  {
    if k > 0 {
      OnwardAdds(cap, c, p, j, k - 1);
    }
  }

  lemma {:induction false} ReturnedStays(cap: nat, c: Counters, p: Phase, k: nat)
    requires Returned(p)
    ensures Onward(cap, c, p, k) == (c, p)
  {
    if k > 0 {
      ReturnedStays(cap, c, p, k - 1);
    }
  }

  /** How many steps a call can still need when nothing else moves. */
  function StepsLeft(p: Phase): nat {
    match p
    case Seen(_) => 6
    case Calling => 5
    case Won(_) => 4
    case Recording(_) => 3
    case Comparing(_, _) => 2
    case Rejecting => 1
    case _ => 0
  }

  lemma SoonReturns(cap: nat, c: Counters, p: Phase)
    requires InCall(p)
    ensures Returned(Onward(cap, c, p, StepsLeft(p)).1)
  {
    match p
    case Calling =>
      FiveStepsDecide(cap, c);
    case Seen(n) =>
      var (c', p') := Operate(cap, c, p);
      OnwardAdds(cap, c, p, 1, 5);
      assert Onward(cap, c, p, 1) == (c', p') by {
        assert Onward(cap, c, p, 0) == (c, p);
      }
      if p'.Calling? {
        FiveStepsDecide(cap, c');
      } else {
        WonReturns(cap, c', p');
        OnwardAdds(cap, c', p', 4, 1);
        ReturnedStays(cap, Onward(cap, c', p', 4).0, Onward(cap, c', p', 4).1, 1);
      }
    case Won(n) =>
      WonReturns(cap, c, p);
    case Recording(n) =>
      assert Onward(cap, c, p, 1) == (c, Comparing(n, c.maxObserved));
      assert Returned(Onward(cap, c, p, 2).1);
      OnwardAdds(cap, c, p, 2, 1);
    case Comparing(n, current) =>
      assert Onward(cap, c, p, 0) == (c, p);
      var (c', p') := Onward(cap, c, p, 1);
      assert Returned(p') || (c' == c && p' == Comparing(n, c.maxObserved));
    case Rejecting =>
  }

  lemma WonReturns(cap: nat, c: Counters, p: Phase)
    requires p.Won?
    ensures Returned(Onward(cap, c, p, 4).1)
  {
    var c' := c.(accepted := c.accepted + 1);
    assert Onward(cap, c, p, 1) == (c', Recording(p.n));
    assert Onward(cap, c, p, 2) == (c', Comparing(p.n, c.maxObserved));
    assert Returned(Onward(cap, c, p, 3).1);
  }

  /** Wherever its call stands and whatever others did to it, a task that runs alone returns within six steps. */
  lemma AloneReturns(cap: nat, labels: seq<Label>, t: Task)
    requires InCall(PhaseOf(Run(cap, labels).tasks, t))
    ensures Returned(PhaseOf(Run(cap, labels + Advances(t, 6)).tasks, t))
  {
    var s := Run(cap, labels);
    var p := s.tasks[t];
    RunOnward(cap, labels, s, t, 6);
    SoonReturns(cap, s.c, p);
    var (c', p') := Onward(cap, s.c, p, StepsLeft(p));
    OnwardAdds(cap, s.c, p, StepsLeft(p), 6 - StepsLeft(p));
    ReturnedStays(cap, c', p', 6 - StepsLeft(p));
  }
}
