/** The per-identity limiter: one lock, one map from identity to live guards. */
module IdentityFairness {
  import opened Common

  type Identity = string
  type Active = map<Identity, nat>

  function Current(active: Active, id: Identity): nat {
    if id in active then active[id] else 0
  }

  /** The map after a guard for `id` is given out; nothing when the identity is saturated. */
  function Acquired(cap: nat, active: Active, id: Identity): Option<Active> {
    if Current(active, id) >= cap then None else Some(active[id := Current(active, id) + 1])
  }

  /** The map after a guard for `id` is dropped; the last one removes the entry. */
  function Released(active: Active, id: Identity): Active {
    if id !in active then active
    else if active[id] > 1 then active[id := active[id] - 1]
    else map k | k in active && k != id :: active[k]
  }

  /** No identity is tracked without a guard. */
  predicate NoIdle(active: Active) {
    forall id :: id in active ==> active[id] > 0
  }

  lemma AcquiredCounts(cap: nat, active: Active, id: Identity)
    requires NoIdle(active) && Acquired(cap, active, id).Some?
    ensures var after := Acquired(cap, active, id).value;
            NoIdle(after) && forall k :: Current(after, k) == Current(active, k) + if k == id then 1 else 0
  {
  }

  lemma ReleasedCounts(active: Active, id: Identity)
    requires NoIdle(active)
    ensures var after := Released(active, id);
            && NoIdle(after)
            && forall k :: Current(after, k) == Current(active, k) - if k == id && id in active then 1 else 0
  {
  }

  lemma SameCounts(a: Active, b: Active)
    requires NoIdle(a) && NoIdle(b) && forall id :: Current(a, id) == Current(b, id)
    ensures a == b
  {
    forall id
      ensures (id in a <==> id in b) && (id in a ==> a[id] == b[id])
    {
      assert Current(a, id) == Current(b, id);
    }
  }

  class IdentityFairnessLimiter {
    const maxPerIdentity: Option<nat>
    var active: Active
    var admittedTotal: nat
    var saturationTotal: nat

    constructor (cap: Option<nat>)
      ensures maxPerIdentity == cap && active == map[] && admittedTotal == 0 && saturationTotal == 0
    {
      maxPerIdentity, active, admittedTotal, saturationTotal := cap, map[], 0, 0;
    }

    /** Err is saturation; Ok(false) means that no limit is configured and there is no guard. */
    method Acquire(id: Identity) returns (r: Result<bool, ()>)
      modifies this
      ensures r == Ok(true) <==> maxPerIdentity.Some? && old(Current(active, id)) < maxPerIdentity.value
      ensures r == Ok(false) <==> maxPerIdentity.None?
      ensures if r == Ok(true) then Some(active) == Acquired(maxPerIdentity.value, old(active), id)
              else active == old(active)
      ensures admittedTotal == old(admittedTotal) + if r == Ok(true) then 1 else 0
      ensures saturationTotal == old(saturationTotal) + if r.Err? then 1 else 0
    {
      if maxPerIdentity.None? {
        return Ok(false);
      }
      var current := if id in active then active[id] else 0;
      if current >= maxPerIdentity.value {
        saturationTotal := saturationTotal + 1;
        return Err(());
      }
      active := active[id := current + 1];
      admittedTotal := admittedTotal + 1;
      return Ok(true);
    }

    method DropGuard(id: Identity)
      modifies this`active
      ensures active == Released(old(active), id)
    {
      if id in active {
        if active[id] > 1 {
          active := active[id := active[id] - 1];
        } else {
          active := map k | k in active && k != id :: active[k];
        }
      }
    }
  }
}

/** The admission pipeline of every route: three limiters taken in order, guards released on every way out. */
module Admission {
  import opened Common
  import opened IdentityFairness
  import Cas = CasLimiter

  type Task = Cas.Task

  /** The long-lived limiter is always configured; the other two may be absent. */
  datatype Config = Config(globalCap: Option<nat>, identityCap: Option<nat>, longLivedCap: nat)

  datatype Stage =
    | Fresh
    | AtGlobal
    | AtIdentity
    | AtLongLived
    | Serving
    | Leaving(admitted: bool)
    | Done(admitted: bool)

  datatype Request = Request(stage: Stage, wantLongLived: bool, held: Option<Identity>)

  datatype State = State(global: Cas.State, longLived: Cas.State, active: Active, requests: map<Task, Request>)

  datatype Action =
    | Enter(want: bool)
    | StepGlobal(weak: bool)
    | RefuseIdentity                     // the client address could not be resolved
    | AcquireIdentity(id: Identity)
    | StepLongLived(weak: bool)
    | CompleteStream
    | Leave
    | DropGlobal
    | DropIdentity
    | DropLongLived
    | CountDrop                          // the second half of the long-lived guard's drop
    | Return

  datatype Label = Label(t: Task, act: Action)

  const EMPTY := State(Cas.EMPTY, Cas.EMPTY, map[], map[])

  function RequestOf(requests: map<Task, Request>, t: Task): Request {
    if t in requests then requests[t] else Request(Fresh, false, None)
  }

  /** The operation on the global limiter that an action performs, if any. */
  function GlobalAction(r: Request, p: Cas.Phase, act: Action): Option<Cas.Action> {
    match act
    case StepGlobal(weak) => if r.stage.AtGlobal? then Some(Call(p, weak)) else None
    case DropGlobal => if r.stage.Leaving? then Some(Cas.Drop) else None
    case _ => None
  }

  function LongLivedAction(r: Request, p: Cas.Phase, act: Action): Option<Cas.Action> {
    match act
    case StepLongLived(weak) => if r.stage.AtLongLived? then Some(Call(p, weak)) else None
    case CompleteStream => if r.stage.Serving? then Some(Cas.Complete) else None
    case DropLongLived => if r.stage.Leaving? then Some(Cas.Drop) else None
    case CountDrop => if r.stage.Leaving? then Some(Cas.Advance) else None
    case _ => None
  }

  function Call(p: Cas.Phase, weak: bool): Cas.Action {
    if p.Fresh? then Cas.Begin else if weak then Cas.WeakFailure else Cas.Advance
  }

  function PastIdentity(r: Request): Stage {
    if r.wantLongLived then AtLongLived else Serving
  }

  /** The request and the identity map after an action; `g` and `l` are its limiter phases after it. */
  function NextRequest(cfg: Config, r: Request, g: Cas.Phase, l: Cas.Phase, active: Active, act: Action)
    : (Request, Active)
  {
    match act
    case Enter(want) =>
      if r.stage.Fresh? then (Request(if cfg.globalCap.Some? then AtGlobal else AtIdentity, want, None), active)
          else (r, active)
    case StepGlobal(_) =>
      if r.stage.AtGlobal? && g.Holding? then (r.(stage := AtIdentity), active)
      else if r.stage.AtGlobal? && g.Rejected? then (r.(stage := Leaving(false)), active)
      else (r, active)
    case RefuseIdentity => if r.stage.AtIdentity? then (r.(stage := Leaving(false)), active) else (r, active)
    case AcquireIdentity(id) =>
      if !r.stage.AtIdentity? then (r, active)
      else if cfg.identityCap.None? then (r.(stage := PastIdentity(r)), active)
      else (match Acquired(cfg.identityCap.value, active, id)
            case None => (r.(stage := Leaving(false)), active)
            case Some(after) => (r.(stage := PastIdentity(r), held := Some(id)), after))
    case StepLongLived(_) =>
      if r.stage.AtLongLived? && l.Holding? then (r.(stage := Serving), active)
      else if r.stage.AtLongLived? && l.Rejected? then (r.(stage := Leaving(false)), active)
      else (r, active)
    case Leave => if r.stage.Serving? then (r.(stage := Leaving(true)), active) else (r, active)
    case DropIdentity =>
      if r.stage.Leaving? && r.held.Some? then (r.(held := None), Released(active, r.held.value)) else (r, active)
    case Return =>
      if r.stage.Leaving? && r.held.None? && !Cas.Holds(g) && !Cas.Holds(l) && !l.Dropping?
      then (r.(stage := Done(r.stage.admitted)), active) else (r, active)
    case _ => (r, active)
  }

  function Limit(cap: Option<nat>): nat {
    if cap.Some? then cap.value else 0
  }

  function Operated(cap: nat, s: Cas.State, t: Task, act: Option<Cas.Action>): Cas.State {
    if act.Some? then Cas.Apply(cap, s, Cas.Label(t, act.value)) else s
  }

  function Apply(cfg: Config, s: State, l: Label): State {
    var r := RequestOf(s.requests, l.t);
    var global := Operated(Limit(cfg.globalCap), s.global, l.t,
        GlobalAction(r, Cas.PhaseOf(s.global.tasks, l.t), l.act));
    var longLived := Operated(cfg.longLivedCap, s.longLived, l.t,
        LongLivedAction(r, Cas.PhaseOf(s.longLived.tasks, l.t), l.act));
    var (r', active) := NextRequest(cfg, r, Cas.PhaseOf(global.tasks, l.t), Cas.PhaseOf(longLived.tasks, l.t),
        s.active, l.act);
    State(global, longLived, active, s.requests[l.t := r'])
  }

  function Run(cfg: Config, s: State, labels: seq<Label>): State {
    if labels == [] then s
    else Apply(cfg, Run(cfg, s, labels[..|labels| - 1]), labels[|labels| - 1])
  }

  // ----- what a request holds at each stage -----

  predicate InCall(p: Cas.Phase) {
    p.Fresh? || p.Calling? || p.Seen? || p.Rejecting? || Cas.Pending(p)
  }

  predicate Left(p: Cas.Phase) {
    p.Fresh? || p.Rejected? || p.Holding? || p.Dropping? || p.Finished?
  }

  /** A guard is with the request exactly when the limiter is configured. */
  predicate HasGuard(p: Cas.Phase, wanted: bool) {
    if wanted then p.Holding? else p.Fresh?
  }

  predicate Consistent(cfg: Config, r: Request, g: Cas.Phase, l: Cas.Phase) {
    match r.stage
    case Fresh => g.Fresh? && l.Fresh? && r.held.None?
    case AtGlobal => cfg.globalCap.Some? && InCall(g) && l.Fresh? && r.held.None?
    case AtIdentity => HasGuard(g, cfg.globalCap.Some?) && l.Fresh? && r.held.None?
    case AtLongLived => r.wantLongLived && HasGuard(g, cfg.globalCap.Some?) && InCall(l)
        && (r.held.Some? <==> cfg.identityCap.Some?)
    case Serving => HasGuard(g, cfg.globalCap.Some?) && HasGuard(l, r.wantLongLived)
        && (r.held.Some? <==> cfg.identityCap.Some?)
    case Leaving(_) => Left(g) && Left(l)
    case Done(_) => Left(g) && !g.Holding? && Left(l) && !l.Holding? && r.held.None?
  }

  lemma StepStaysConsistent(cfg: Config, r: Request, gc: Cas.Counters, g: Cas.Phase, lc: Cas.Counters, l: Cas.Phase,
      active: Active, act: Action)
    requires Consistent(cfg, r, g, l)
    ensures var ga, la := GlobalAction(r, g, act), LongLivedAction(r, l, act);
            var g' := if ga.Some? then Cas.Move(Limit(cfg.globalCap), gc, g, ga.value).1 else g;
            var l' := if la.Some? then Cas.Move(cfg.longLivedCap, lc, l, la.value).1 else l;
            Consistent(cfg, NextRequest(cfg, r, g', l', active, act).0, g', l')
  {
  }

  // ----- the identity map counts guards -----

  ghost function Holders(requests: map<Task, Request>, id: Identity): set<Task> {
    set t | t in requests && requests[t].held == Some(id)
  }

  ghost predicate MapCountsGuards(cfg: Config, active: Active, requests: map<Task, Request>) {
    && NoIdle(active)
    && (forall id :: Current(active, id) == |Holders(requests, id)|)
    && (forall id :: id in active ==> active[id] <= Limit(cfg.identityCap))
  }

  lemma HoldersMove(requests: map<Task, Request>, requests': map<Task, Request>, t: Task, id: Identity)
    requires forall u :: u != t ==> RequestOf(requests', u) == RequestOf(requests, u)
    ensures |Holders(requests', id)| + Cas.One(RequestOf(requests, t).held == Some(id)) ==
            |Holders(requests, id)| + Cas.One(RequestOf(requests', t).held == Some(id))
  {
    var before, after := Holders(requests, id), Holders(requests', id);
    forall u | u != t
      ensures u in before <==> u in after
    {
      assert RequestOf(requests', u) == RequestOf(requests, u);
    }
    Cas.DifferInOne(before, after, t);
  }

  /** The count of `id` moves by what moves in one request's guard. */
  predicate MovedCount(active: Active, active': Active, held: Option<Identity>, held': Option<Identity>, id: Identity) {
    var before, after := if held == Some(id) then 1 else 0, if held' == Some(id) then 1 else 0;
    Current(active', id) + before == Current(active, id) + after
  }

  /** An action changes one identity's count by what it changes in the request's own guard. */
  lemma StepMovesCounts(cfg: Config, r: Request, g: Cas.Phase, l: Cas.Phase, active: Active, act: Action)
    requires NoIdle(active) && (r.held.Some? ==> Current(active, r.held.value) > 0)
             && (r.stage.AtIdentity? ==> r.held.None?) && (r.stage.Fresh? ==> r.held.None?)
    ensures var (r', active') := NextRequest(cfg, r, g, l, active, act);
            && NoIdle(active')
            && (forall id :: MovedCount(active, active', r.held, r'.held, id))
            && (forall id :: id in active' ==>
                  active'[id] <= Limit(cfg.identityCap) || (id in active && active'[id] <= active[id]))
  {
    match act
    case AcquireIdentity(id) =>
      if r.stage.AtIdentity? && cfg.identityCap.Some? && Acquired(cfg.identityCap.value, active, id).Some? {
        AcquiredCounts(cfg.identityCap.value, active, id);
      }
    case DropIdentity =>
      if r.held.Some? {
        ReleasedCounts(active, r.held.value);
      }
    case _ =>
  }

  lemma ApplyKeepsMap(cfg: Config, s: State, l: Label)
    requires Inv(cfg, s)
    ensures MapCountsGuards(cfg, Apply(cfg, s, l).active, Apply(cfg, s, l).requests)
  {
    var r, s' := RequestOf(s.requests, l.t), Apply(cfg, s, l);
    assert ConsistentTask(cfg, s, l.t);
    if r.held.Some? {
      assert l.t in Holders(s.requests, r.held.value);
    }
    StepMovesCounts(cfg, r, Cas.PhaseOf(s'.global.tasks, l.t), Cas.PhaseOf(s'.longLived.tasks, l.t), s.active, l.act);
    forall id
      ensures Current(s'.active, id) == |Holders(s'.requests, id)|
    {
      assert MovedCount(s.active, s'.active, r.held, s'.requests[l.t].held, id);
      HoldersMove(s.requests, s'.requests, l.t, id);
    }
  }

  ghost predicate ConsistentTask(cfg: Config, s: State, t: Task) {
    Consistent(cfg, RequestOf(s.requests, t), Cas.PhaseOf(s.global.tasks, t), Cas.PhaseOf(s.longLived.tasks, t))
  }

  ghost predicate Inv(cfg: Config, s: State) {
    && Cas.Inv(Limit(cfg.globalCap), s.global)
    && Cas.Inv(cfg.longLivedCap, s.longLived)
    && MapCountsGuards(cfg, s.active, s.requests)
    && forall t :: ConsistentTask(cfg, s, t)
  }

  lemma ApplyKeepsInv(cfg: Config, s: State, l: Label)
    requires Inv(cfg, s)
    ensures Inv(cfg, Apply(cfg, s, l))
  {
    ApplyKeepsMap(cfg, s, l);
    var r, g, p := RequestOf(s.requests, l.t), Cas.PhaseOf(s.global.tasks, l.t), Cas.PhaseOf(s.longLived.tasks, l.t);
    OperatedKeepsInv(Limit(cfg.globalCap), s.global, l.t, GlobalAction(r, g, l.act));
    OperatedKeepsInv(cfg.longLivedCap, s.longLived, l.t, LongLivedAction(r, p, l.act));
    forall u
      ensures ConsistentTask(cfg, Apply(cfg, s, l), u)
    {
      TaskStaysConsistent(cfg, s, l, u);
    }
  }

  lemma TaskStaysConsistent(cfg: Config, s: State, l: Label, u: Task)
    requires Inv(cfg, s)
    ensures ConsistentTask(cfg, Apply(cfg, s, l), u)
  {
    assert ConsistentTask(cfg, s, u);
    var r, g, p := RequestOf(s.requests, l.t), Cas.PhaseOf(s.global.tasks, l.t), Cas.PhaseOf(s.longLived.tasks, l.t);
    OperatedPhase(Limit(cfg.globalCap), s.global, l.t, GlobalAction(r, g, l.act), u);
    OperatedPhase(cfg.longLivedCap, s.longLived, l.t, LongLivedAction(r, p, l.act), u);
    if u == l.t {
      StepStaysConsistent(cfg, r, s.global.c, g, s.longLived.c, p, s.active, l.act);
    }
  }

  lemma OperatedPhase(cap: nat, s: Cas.State, t: Task, act: Option<Cas.Action>, u: Task)
    ensures Cas.PhaseOf(Operated(cap, s, t, act).tasks, u) ==
            if u == t && act.Some? then Cas.Move(cap, s.c, Cas.PhaseOf(s.tasks, t), act.value).1
                else Cas.PhaseOf(s.tasks, u)
  {
  }

  lemma OperatedKeepsInv(cap: nat, s: Cas.State, t: Task, act: Option<Cas.Action>)
    requires Cas.Inv(cap, s)
    ensures Cas.Inv(cap, Operated(cap, s, t, act))
  {
    if act.Some? {
      Cas.ApplyKeepsInv(cap, s, Cas.Label(t, act.value));
    }
  }

  lemma EmptyInv(cfg: Config)
    ensures Inv(cfg, EMPTY)
  {
    forall id
      ensures Current(EMPTY.active, id) == |Holders(EMPTY.requests, id)|
    {
      assert Holders(EMPTY.requests, id) == {};
    }
  }

  /** In every reachable state the three limiters count exactly the guards alive, within their caps. */
  lemma {:induction false} RunInv(cfg: Config, s: State, labels: seq<Label>)
    requires Inv(cfg, s)
    ensures Inv(cfg, Run(cfg, s, labels))
  {
    if labels != [] {
      RunInv(cfg, s, labels[..|labels| - 1]);
      ApplyKeepsInv(cfg, Run(cfg, s, labels[..|labels| - 1]), labels[|labels| - 1]);
    }
  }

  /** A request that returned holds nothing; one being served holds exactly the configured guards. */
  ghost predicate HoldsAsConfigured(cfg: Config, s: State, t: Task) {
    var r, g, l := RequestOf(s.requests, t), Cas.PhaseOf(s.global.tasks, t), Cas.PhaseOf(s.longLived.tasks, t);
    && (r.stage.Done? ==> !Cas.Holds(g) && !Cas.Holds(l) && r.held.None?)
    && (r.stage.Serving? ==>
          && (Cas.Holds(g) <==> cfg.globalCap.Some?)
          && (Cas.Holds(l) <==> r.wantLongLived)
          && (r.held.Some? <==> cfg.identityCap.Some?))
  }

  lemma HoldsAllOrNothing(cfg: Config, labels: seq<Label>, t: Task)
    ensures HoldsAsConfigured(cfg, Run(cfg, EMPTY, labels), t)
  {
    EmptyInv(cfg);
    RunInv(cfg, EMPTY, labels);
    ConsistentHolds(cfg, Run(cfg, EMPTY, labels), t);
  }

  lemma ConsistentHolds(cfg: Config, s: State, t: Task)
    requires Inv(cfg, s)
    ensures HoldsAsConfigured(cfg, s, t)
  {
    assert ConsistentTask(cfg, s, t);
  }

  // ----- one call, start to end -----

  ghost predicate SameForOthers(s: State, s': State, t: Task) {
    && (forall u :: u != t ==> Cas.PhaseOf(s'.global.tasks, u) == Cas.PhaseOf(s.global.tasks, u))
    && (forall u :: u != t ==> Cas.PhaseOf(s'.longLived.tasks, u) == Cas.PhaseOf(s.longLived.tasks, u))
    && (forall u :: u != t ==> RequestOf(s'.requests, u) == RequestOf(s.requests, u))
  }

  lemma {:induction false} OthersUntouched(cfg: Config, s: State, labels: seq<Label>, t: Task)
    requires forall i :: 0 <= i < |labels| ==> labels[i].t == t
    ensures SameForOthers(s, Run(cfg, s, labels), t)
  {
    if labels != [] {
      OthersUntouched(cfg, s, labels[..|labels| - 1], t);
    }
  }

  /** What the counts and the map become when only `t` moved. */
  ghost predicate MovedBy(s: State, s': State, t: Task) {
    var g, l, held := Cas.PhaseOf(s'.global.tasks, t), Cas.PhaseOf(s'.longLived.tasks, t),
        RequestOf(s'.requests, t).held;
    && s'.global.c.active == s.global.c.active + Cas.One(Cas.Holds(g))
    && s'.longLived.c.active == s.longLived.c.active + Cas.One(Cas.Holds(l))
    && s'.active == WithGuard(s.active, held)
  }

  ghost function WithGuard(active: Active, held: Option<Identity>): Active {
    if held.Some? then active[held.value := Current(active, held.value) + 1] else active
  }

  ghost predicate Unchanged(s: State, s': State) {
    s'.global.c.active == s.global.c.active && s'.longLived.c.active == s.longLived.c.active && s'.active == s.active
  }

  /** Each configured limiter is up by exactly one, the identity map at one identity. */
  ghost predicate Raised(cfg: Config, s: State, s': State, r: Request) {
    && s'.global.c.active == s.global.c.active + Cas.One(cfg.globalCap.Some?)
    && s'.longLived.c.active == s.longLived.c.active + Cas.One(r.wantLongLived)
    && (r.held.Some? <==> cfg.identityCap.Some?) && s'.active == WithGuard(s.active, r.held)
  }

  /**
   One request going through admission: turned away at any stage it leaves every count and the
   identity map as they were; admitted it has raised each configured limiter by exactly one.
   */
  lemma AdmitAllOrNothing(cfg: Config, s: State, labels: seq<Label>, t: Task)
    requires Inv(cfg, s) && RequestOf(s.requests, t).stage.Fresh?
    requires forall i :: 0 <= i < |labels| ==> labels[i].t == t
    ensures var s' := Run(cfg, s, labels);
            var r := RequestOf(s'.requests, t);
            && (r.stage.Done? ==> Unchanged(s, s'))
            && (r.stage.Serving? ==> Raised(cfg, s, s', r))
  {
    var s' := Run(cfg, s, labels);
    CallMoves(cfg, s, labels, t);
    RunInv(cfg, s, labels);
    ConsistentHolds(cfg, s', t);
    MovedAsConfigured(cfg, s, s', t);
  }

  lemma MovedAsConfigured(cfg: Config, s: State, s': State, t: Task)
    requires MovedBy(s, s', t) && HoldsAsConfigured(cfg, s', t)
    ensures var r := RequestOf(s'.requests, t);
            (r.stage.Done? ==> Unchanged(s, s')) && (r.stage.Serving? ==> Raised(cfg, s, s', r))
  {
  }

  lemma CallMoves(cfg: Config, s: State, labels: seq<Label>, t: Task)
    requires Inv(cfg, s) && RequestOf(s.requests, t).stage.Fresh?
    requires forall i :: 0 <= i < |labels| ==> labels[i].t == t
    ensures MovedBy(s, Run(cfg, s, labels), t)
  {
    RunInv(cfg, s, labels);
    OthersUntouched(cfg, s, labels, t);
    OneMoves(cfg, s, Run(cfg, s, labels), t);
  }

  lemma OneMoves(cfg: Config, s: State, s': State, t: Task)
    requires Inv(cfg, s) && Inv(cfg, s') && SameForOthers(s, s', t) && RequestOf(s.requests, t).stage.Fresh?
    ensures MovedBy(s, s', t)
  {
    FreshHoldsNothing(cfg, s, t);
    CountsMove(s, s', t);
    MapMoves(cfg, s, s', t);
  }

  lemma FreshHoldsNothing(cfg: Config, s: State, t: Task)
    requires Inv(cfg, s) && RequestOf(s.requests, t).stage.Fresh?
    ensures Cas.PhaseOf(s.global.tasks, t).Fresh? && Cas.PhaseOf(s.longLived.tasks, t).Fresh?
            && RequestOf(s.requests, t).held.None?
  {
    assert ConsistentTask(cfg, s, t);
  }

  lemma CountsMove(s: State, s': State, t: Task)
    requires Cas.CountsAgree(s.global.c, s.global.tasks) && Cas.CountsAgree(s'.global.c, s'.global.tasks)
    requires Cas.CountsAgree(s.longLived.c, s.longLived.tasks) && Cas.CountsAgree(s'.longLived.c, s'.longLived.tasks)
    requires SameForOthers(s, s', t)
    requires Cas.PhaseOf(s.global.tasks, t).Fresh? && Cas.PhaseOf(s.longLived.tasks, t).Fresh?
    ensures s'.global.c.active == s.global.c.active + Cas.One(Cas.Holds(Cas.PhaseOf(s'.global.tasks, t)))
    ensures s'.longLived.c.active == s.longLived.c.active + Cas.One(Cas.Holds(Cas.PhaseOf(s'.longLived.tasks, t)))
  {
    Cas.SameElsewhere(s.global.tasks, s'.global.tasks, t, Cas.isHolding);
    Cas.SameElsewhere(s.longLived.tasks, s'.longLived.tasks, t, Cas.isHolding);
  }

  lemma MapMoves(cfg: Config, s: State, s': State, t: Task)
    requires MapCountsGuards(cfg, s.active, s.requests) && MapCountsGuards(cfg, s'.active, s'.requests)
    requires SameForOthers(s, s', t) && RequestOf(s.requests, t).held.None?
    ensures var held := RequestOf(s'.requests, t).held;
            s'.active == if held.Some? then s.active[held.value := Current(s.active, held.value) + 1] else s.active
  {
    var held := RequestOf(s'.requests, t).held;
    var expected := if held.Some? then s.active[held.value := Current(s.active, held.value) + 1] else s.active;
    forall id
      ensures Current(s'.active, id) == Current(expected, id)
    {
      HoldersMove(s.requests, s'.requests, t, id);
    }
    SameCounts(s'.active, expected);
  }

  // ----- at rest -----

  predicate AtRest(s: State) {
    forall t :: t in s.requests ==>
        s.requests[t].stage.Fresh? || s.requests[t].stage.Serving? || s.requests[t].stage.Done?
  }

  ghost function Served(s: State): set<Task> {
    set t | t in s.requests && s.requests[t].stage.Serving?
  }

  ghost function Streaming(s: State): set<Task> {
    set t | t in s.requests && s.requests[t].stage.Serving? && s.requests[t].wantLongLived
  }

  /** With nobody between stages the limiters count the requests being served and nothing else. */
  lemma CountsAtRest(cfg: Config, labels: seq<Label>)
    requires AtRest(Run(cfg, EMPTY, labels))
    ensures var s := Run(cfg, EMPTY, labels);
            && s.global.c.active == (if cfg.globalCap.Some? then |Served(s)| else 0)
            && s.longLived.c.active == |Streaming(s)|
            && forall id :: Current(s.active, id) == |set t | t in Served(s) && s.requests[t].held == Some(id)|
  {
    EmptyInv(cfg);
    RunInv(cfg, EMPTY, labels);
    var s := Run(cfg, EMPTY, labels);
    GuardsAtRest(cfg, s);
    forall id
      ensures Current(s.active, id) == |set t | t in Served(s) && s.requests[t].held == Some(id)|
    {
      HoldersAtRest(cfg, s, id);
    }
  }

  lemma GuardsAtRest(cfg: Config, s: State)
    requires Inv(cfg, s) && AtRest(s)
    ensures s.global.c.active == if cfg.globalCap.Some? then |Served(s)| else 0
    ensures s.longLived.c.active == |Streaming(s)|
  {
    forall t
      ensures t in Cas.In(s.global.tasks, Cas.isHolding) <==> cfg.globalCap.Some? && t in Served(s)
      ensures t in Cas.In(s.longLived.tasks, Cas.isHolding) <==> t in Streaming(s)
    {
      TaskAtRest(cfg, s, t);
    }
    assert Cas.In(s.global.tasks, Cas.isHolding) == if cfg.globalCap.Some? then Served(s) else {};
    assert Cas.In(s.longLived.tasks, Cas.isHolding) == Streaming(s);
  }

  lemma TaskAtRest(cfg: Config, s: State, t: Task)
    requires Inv(cfg, s) && AtRest(s)
    ensures Cas.Holds(Cas.PhaseOf(s.global.tasks, t)) <==> cfg.globalCap.Some? && t in Served(s)
    ensures Cas.Holds(Cas.PhaseOf(s.longLived.tasks, t)) <==> t in Streaming(s)
  {
    assert ConsistentTask(cfg, s, t);
  }

  lemma HoldersAtRest(cfg: Config, s: State, id: Identity)
    requires Inv(cfg, s) && AtRest(s)
    ensures Current(s.active, id) == |set t | t in Served(s) && s.requests[t].held == Some(id)|
  {
    forall t | t in s.requests
      ensures s.requests[t].held == Some(id) ==> s.requests[t].stage.Serving?
    {
      assert ConsistentTask(cfg, s, t);
    }
    assert Holders(s.requests, id) == set t | t in Served(s) && s.requests[t].held == Some(id);
  }

  // ----- runs as traces -----

  function Stepper(cfg: Config): (State, Label) -> State {
    (s, l) => Apply(cfg, s, l)
  }

  lemma {:induction false} RunIsFold(cfg: Config, s: State, labels: seq<Label>)
    ensures Run(cfg, s, labels) == Fold(Stepper(cfg), s, labels)
  {
    if labels != [] {
      RunIsFold(cfg, s, labels[..|labels| - 1]);
    }
  }

  lemma RunConcat(cfg: Config, s: State, a: seq<Label>, b: seq<Label>)
    ensures Run(cfg, s, a + b) == Run(cfg, Run(cfg, s, a), b)
  {
    RunIsFold(cfg, s, a + b);
    RunIsFold(cfg, s, a);
    RunIsFold(cfg, Run(cfg, s, a), b);
    FoldConcat(Stepper(cfg), s, a, b);
  }

  lemma RunTrace(cfg: Config, states: seq<State>, labels: seq<Label>)
    requires |states| == |labels| + 1
    requires forall i :: 0 <= i < |labels| ==> Stepper(cfg)(states[i], labels[i]) == states[i + 1]
    ensures Run(cfg, states[0], labels) == states[|labels|]
  {
    RunIsFold(cfg, states[0], labels);
    FoldTrace(Stepper(cfg), states, labels);
  }

  lemma RunOne(cfg: Config, s: State, l: Label)
    ensures Run(cfg, s, [l]) == Apply(cfg, s, l)
  {
    RunTrace(cfg, [s, Apply(cfg, s, l)], [l]);
  }

  // ----- a request that runs alone -----

  function Repeat(t: Task, act: Action): seq<Label> {
    [Label(t, act), Label(t, act), Label(t, act), Label(t, act), Label(t, act), Label(t, act)]
  }

  /** The calls of one request, in order, with as many steps in each limiter as a call can need. */
  function Arrival(t: Task, want: bool, id: Identity): seq<Label> {
    [Label(t, Enter(want))] + Repeat(t, StepGlobal(false))
    + ([Label(t, AcquireIdentity(id))] + Repeat(t, StepLongLived(false)))
  }

  predicate InCas(p: Cas.Phase) {
    Cas.InCall(p) || Cas.Returned(p)
  }

  /** Where a request stands when its call of a limiter is in phase `p`. */
  function StageAfter(p: Cas.Phase, inside: Stage, passed: Stage): Stage {
    if p.Holding? then passed else if p.Rejected? then Leaving(false) else inside
  }

  function WithTask(s: Cas.State, t: Task, c: Cas.Counters, p: Cas.Phase): Cas.State {
    Cas.State(c, s.tasks[t := p])
  }

  function AtGlobalPhase(s: State, t: Task, r: Request, c: Cas.Counters, p: Cas.Phase): State {
    State(WithTask(s.global, t, c, p), s.longLived, s.active,
        s.requests[t := r.(stage := StageAfter(p, AtGlobal, AtIdentity))])
  }

  function AtLongLivedPhase(s: State, t: Task, r: Request, c: Cas.Counters, p: Cas.Phase): State {
    State(s.global, WithTask(s.longLived, t, c, p), s.active,
        s.requests[t := r.(stage := StageAfter(p, AtLongLived, Serving))])
  }

  lemma StepInGlobal(cfg: Config, s: State, t: Task, r: Request, c: Cas.Counters, p: Cas.Phase)
    requires cfg.globalCap.Some? && InCas(p)
    ensures var (c', p') := Cas.Operate(cfg.globalCap.value, c, p);
            && InCas(p')
            && Apply(cfg, AtGlobalPhase(s, t, r, c, p), Label(t, StepGlobal(false))) == AtGlobalPhase(s, t, r, c', p')
  {
    var (c', p') := Cas.Operate(cfg.globalCap.value, c, p);
    assert s.global.tasks[t := p][t := p'] == s.global.tasks[t := p'];
    var now := r.(stage := StageAfter(p, AtGlobal, AtIdentity));
    var next := r.(stage := StageAfter(p', AtGlobal, AtIdentity));
    assert s.requests[t := now][t := next] == s.requests[t := next];
  }

  lemma StepInLongLived(cfg: Config, s: State, t: Task, r: Request, c: Cas.Counters, p: Cas.Phase)
    requires InCas(p)
    ensures var (c', p') := Cas.Operate(cfg.longLivedCap, c, p);
            && InCas(p')
            && Apply(cfg, AtLongLivedPhase(s, t, r, c, p), Label(t, StepLongLived(false))) ==
               AtLongLivedPhase(s, t, r, c', p')
  {
    var (c', p') := Cas.Operate(cfg.longLivedCap, c, p);
    assert s.longLived.tasks[t := p][t := p'] == s.longLived.tasks[t := p'];
    var now := r.(stage := StageAfter(p, AtLongLived, Serving));
    var next := r.(stage := StageAfter(p', AtLongLived, Serving));
    assert s.requests[t := now][t := next] == s.requests[t := next];
  }

  lemma BeginGlobal(cfg: Config, s: State, t: Task, r: Request)
    requires RequestOf(s.requests, t) == r && r.stage.AtGlobal? && Cas.PhaseOf(s.global.tasks, t).Fresh?
    ensures Apply(cfg, s, Label(t, StepGlobal(false))) == AtGlobalPhase(s, t, r, s.global.c, Cas.Calling)
  {
  }

  lemma BeginLongLived(cfg: Config, s: State, t: Task, r: Request)
    requires RequestOf(s.requests, t) == r && r.stage.AtLongLived? && Cas.PhaseOf(s.longLived.tasks, t).Fresh?
    ensures Apply(cfg, s, Label(t, StepLongLived(false))) == AtLongLivedPhase(s, t, r, s.longLived.c, Cas.Calling)
  {
  }

  lemma {:induction false} StaysInCas(cap: nat, c: Cas.Counters, k: nat)
    ensures InCas(Cas.Onward(cap, c, Cas.Calling, k).1)
  {
    if k > 0 {
      StaysInCas(cap, c, k - 1);
      OperateStaysInCas(cap, Cas.Onward(cap, c, Cas.Calling, k - 1).0, Cas.Onward(cap, c, Cas.Calling, k - 1).1);
    }
  }

  lemma OperateStaysInCas(cap: nat, c: Cas.Counters, p: Cas.Phase)
    requires InCas(p)
    ensures InCas(Cas.Operate(cap, c, p).1)
  {
  }

  function GlobalAfter(cap: nat, s: State, t: Task, r: Request, k: nat): State {
    var (c, p) := Cas.Onward(cap, s.global.c, Cas.Calling, k);
    AtGlobalPhase(s, t, r, c, p)
  }

  function LongLivedAfter(cap: nat, s: State, t: Task, r: Request, k: nat): State {
    var (c, p) := Cas.Onward(cap, s.longLived.c, Cas.Calling, k);
    AtLongLivedPhase(s, t, r, c, p)
  }

  lemma GlobalAdvances(cfg: Config, s: State, t: Task, r: Request, k: nat)
    requires cfg.globalCap.Some?
    ensures Stepper(cfg)(GlobalAfter(cfg.globalCap.value, s, t, r, k), Label(t, StepGlobal(false))) ==
            GlobalAfter(cfg.globalCap.value, s, t, r, k + 1)
  {
    var (c, p) := Cas.Onward(cfg.globalCap.value, s.global.c, Cas.Calling, k);
    StaysInCas(cfg.globalCap.value, s.global.c, k);
    StepInGlobal(cfg, s, t, r, c, p);
  }

  function GlobalStates(cap: nat, s: State, t: Task, r: Request): nat -> State {
    (k: nat) => GlobalAfter(cap, s, t, r, k)
  }

  lemma GlobalFollow(cfg: Config, s: State, t: Task, r: Request)
    requires cfg.globalCap.Some?
    ensures var after := GlobalStates(cfg.globalCap.value, s, t, r);
            forall k: nat :: Stepper(cfg)(after(k), Label(t, StepGlobal(false))) == after(k + 1)
  {
    forall k: nat
      ensures Stepper(cfg)(GlobalAfter(cfg.globalCap.value, s, t, r, k), Label(t, StepGlobal(false))) ==
              GlobalAfter(cfg.globalCap.value, s, t, r, k + 1)
    {
      GlobalAdvances(cfg, s, t, r, k);
    }
  }

  lemma LongLivedAdvances(cfg: Config, s: State, t: Task, r: Request, k: nat)
    ensures Stepper(cfg)(LongLivedAfter(cfg.longLivedCap, s, t, r, k), Label(t, StepLongLived(false))) ==
            LongLivedAfter(cfg.longLivedCap, s, t, r, k + 1)
  {
    var (c, p) := Cas.Onward(cfg.longLivedCap, s.longLived.c, Cas.Calling, k);
    StaysInCas(cfg.longLivedCap, s.longLived.c, k);
    StepInLongLived(cfg, s, t, r, c, p);
  }

  function LongLivedStates(cap: nat, s: State, t: Task, r: Request): nat -> State {
    (k: nat) => LongLivedAfter(cap, s, t, r, k)
  }

  lemma LongLivedFollow(cfg: Config, s: State, t: Task, r: Request)
    ensures var after := LongLivedStates(cfg.longLivedCap, s, t, r);
            forall k: nat :: Stepper(cfg)(after(k), Label(t, StepLongLived(false))) == after(k + 1)
  {
    forall k: nat
      ensures Stepper(cfg)(LongLivedAfter(cfg.longLivedCap, s, t, r, k), Label(t, StepLongLived(false))) ==
              LongLivedAfter(cfg.longLivedCap, s, t, r, k + 1)
    {
      LongLivedAdvances(cfg, s, t, r, k);
    }
  }

  lemma SixSteps(cfg: Config, s: State, t: Task, act: Action, after: nat -> State)
    requires Stepper(cfg)(s, Label(t, act)) == after(0)
    requires forall k: nat :: Stepper(cfg)(after(k), Label(t, act)) == after(k + 1)
    ensures Run(cfg, s, Repeat(t, act)) == after(5)
  {
    RunIsFold(cfg, s, Repeat(t, act));
    FoldSix(Stepper(cfg), s, Label(t, act), after);
  }

  /** The global limiter decides a request that runs alone on the count it finds. */
  lemma GlobalDecides(cfg: Config, s: State, t: Task, r: Request)
    requires cfg.globalCap.Some? && RequestOf(s.requests, t) == r && r.stage.AtGlobal?
    requires Cas.PhaseOf(s.global.tasks, t).Fresh?
    ensures var (c, p) := Cas.Decided(cfg.globalCap.value, s.global.c);
            Run(cfg, s, Repeat(t, StepGlobal(false))) == AtGlobalPhase(s, t, r, c, p)
  {
    BeginGlobal(cfg, s, t, r);
    GlobalFollow(cfg, s, t, r);
    SixSteps(cfg, s, t, StepGlobal(false), GlobalStates(cfg.globalCap.value, s, t, r));
    Cas.FiveStepsDecide(cfg.globalCap.value, s.global.c);
  }

  lemma LongLivedDecides(cfg: Config, s: State, t: Task, r: Request)
    requires RequestOf(s.requests, t) == r && r.stage.AtLongLived? && Cas.PhaseOf(s.longLived.tasks, t).Fresh?
    ensures var (c, p) := Cas.Decided(cfg.longLivedCap, s.longLived.c);
            Run(cfg, s, Repeat(t, StepLongLived(false))) == AtLongLivedPhase(s, t, r, c, p)
  {
    BeginLongLived(cfg, s, t, r);
    LongLivedFollow(cfg, s, t, r);
    SixSteps(cfg, s, t, StepLongLived(false), LongLivedStates(cfg.longLivedCap, s, t, r));
    Cas.FiveStepsDecide(cfg.longLivedCap, s.longLived.c);
  }

  /** A request that is elsewhere takes no step in a limiter. */
  lemma Idles(cfg: Config, s: State, t: Task)
    requires t in s.requests
    ensures !s.requests[t].stage.AtGlobal? ==> Run(cfg, s, Repeat(t, StepGlobal(false))) == s
    ensures !s.requests[t].stage.AtLongLived? ==> Run(cfg, s, Repeat(t, StepLongLived(false))) == s
  {
    IdleStep(cfg, s, t);
    var stay := (k: nat) => s;
    if !s.requests[t].stage.AtGlobal? {
      SixSteps(cfg, s, t, StepGlobal(false), stay);
    }
    if !s.requests[t].stage.AtLongLived? {
      SixSteps(cfg, s, t, StepLongLived(false), stay);
    }
  }

  lemma IdleStep(cfg: Config, s: State, t: Task)
    requires t in s.requests
    ensures !s.requests[t].stage.AtGlobal? ==> Apply(cfg, s, Label(t, StepGlobal(false))) == s
    ensures !s.requests[t].stage.AtLongLived? ==> Apply(cfg, s, Label(t, StepLongLived(false))) == s
  {
    assert s.requests[t := s.requests[t]] == s.requests;
  }

  // ----- the arrival, stage by stage -----

  predicate GlobalRoom(cfg: Config, s: State) {
    cfg.globalCap.Some? ==> s.global.c.active < cfg.globalCap.value
  }

  predicate IdentityRoom(cfg: Config, s: State, id: Identity) {
    cfg.identityCap.Some? ==> Current(s.active, id) < cfg.identityCap.value
  }

  predicate LongLivedRoom(cfg: Config, s: State, want: bool) {
    want ==> s.longLived.c.active < cfg.longLivedCap
  }

  /** Request `t` stands at `stage`; the counts the later limiters look at are those of `s`. */
  ghost predicate Stands(s: State, s': State, t: Task, want: bool, stage: Stage) {
    && t in s'.requests && s'.requests[t].stage == stage && s'.requests[t].wantLongLived == want
    && s'.longLived == s.longLived
  }

  lemma Enters(cfg: Config, s: State, t: Task, want: bool)
    requires RequestOf(s.requests, t).stage.Fresh?
    ensures var s' := Apply(cfg, s, Label(t, Enter(want)));
            && Stands(s, s', t, want, if cfg.globalCap.Some? then AtGlobal else AtIdentity)
            && s'.active == s.active && s'.global == s.global
  {
  }

  lemma PassesGlobal(cfg: Config, s: State, t: Task, want: bool)
    requires RequestOf(s.requests, t).stage.Fresh? && Cas.PhaseOf(s.global.tasks, t).Fresh?
    ensures var s' := Run(cfg, s, [Label(t, Enter(want))] + Repeat(t, StepGlobal(false)));
            && Stands(s, s', t, want, if GlobalRoom(cfg, s) then AtIdentity else Leaving(false))
            && s'.active == s.active
  {
    var s1 := Apply(cfg, s, Label(t, Enter(want)));
    Enters(cfg, s, t, want);
    RunOne(cfg, s, Label(t, Enter(want)));
    RunConcat(cfg, s, [Label(t, Enter(want))], Repeat(t, StepGlobal(false)));
    if cfg.globalCap.Some? {
      GlobalDecides(cfg, s1, t, s1.requests[t]);
    } else {
      Idles(cfg, s1, t);
    }
  }

  lemma PassesIdentity(cfg: Config, s: State, t: Task, want: bool, id: Identity, room: bool)
    requires Stands(s, s, t, want, if room then AtIdentity else Leaving(false))
    ensures var s' := Apply(cfg, s, Label(t, AcquireIdentity(id)));
            Stands(s, s', t, want,
                if !(room && IdentityRoom(cfg, s, id)) then Leaving(false) else if want then AtLongLived else Serving)
  {
  }

  lemma PassesLongLived(cfg: Config, s: State, t: Task, want: bool, room: bool)
    requires Stands(s, s, t, want, if !room then Leaving(false) else if want then AtLongLived else Serving)
    requires Cas.PhaseOf(s.longLived.tasks, t).Fresh?
    ensures var s' := Run(cfg, s, Repeat(t, StepLongLived(false)));
            RequestOf(s'.requests, t).stage == if room && LongLivedRoom(cfg, s, want) then Serving else Leaving(false)
  {
    if room && want {
      LongLivedDecides(cfg, s, t, s.requests[t]);
    } else {
      Idles(cfg, s, t);
    }
  }

  /** Every limiter that is configured and asked for has a slot for a request of `id`. */
  predicate Room(cfg: Config, s: State, want: bool, id: Identity) {
    GlobalRoom(cfg, s) && IdentityRoom(cfg, s, id) && LongLivedRoom(cfg, s, want)
  }

  lemma ArrivalDecides(cfg: Config, s: State, t: Task, want: bool, id: Identity)
    requires Inv(cfg, s) && RequestOf(s.requests, t).stage.Fresh?
    ensures RequestOf(Run(cfg, s, Arrival(t, want, id)).requests, t).stage ==
            if Room(cfg, s, want, id) then Serving else Leaving(false)
  {
    FreshHoldsNothing(cfg, s, t);
    var first := [Label(t, Enter(want))] + Repeat(t, StepGlobal(false));
    var s1 := Run(cfg, s, first);
    PassesGlobal(cfg, s, t, want);
    var second := [Label(t, AcquireIdentity(id))] + Repeat(t, StepLongLived(false));
    RunConcat(cfg, s, first, second);
    RunConcat(cfg, s1, [Label(t, AcquireIdentity(id))], Repeat(t, StepLongLived(false)));
    RunOne(cfg, s1, Label(t, AcquireIdentity(id)));
    var s2 := Apply(cfg, s1, Label(t, AcquireIdentity(id)));
    PassesIdentity(cfg, s1, t, want, id, GlobalRoom(cfg, s));
    PassesLongLived(cfg, s2, t, want, GlobalRoom(cfg, s) && IdentityRoom(cfg, s, id));
  }

  // ----- the way out -----

  function FirstOut(t: Task, k: nat): seq<Label> {
    if k == 0 then [] else FirstOut(t, k - 1) + [Label(t, Out(k - 1))]
  }

  function Departure(t: Task): seq<Label> {
    FirstOut(t, 6)
  }

  /** What the step of a request sees and changes of its own: the request and its two limiter phases. */
  datatype Own = Own(r: Request, g: Cas.Phase, l: Cas.Phase)

  function OwnOf(s: State, t: Task): Own {
    Own(RequestOf(s.requests, t), Cas.PhaseOf(s.global.tasks, t), Cas.PhaseOf(s.longLived.tasks, t))
  }

  function NextOwn(cfg: Config, gc: Cas.Counters, lc: Cas.Counters, active: Active, o: Own, act: Action): Own {
    var ga, la := GlobalAction(o.r, o.g, act), LongLivedAction(o.r, o.l, act);
    var g := if ga.Some? then Cas.Move(Limit(cfg.globalCap), gc, o.g, ga.value).1 else o.g;
    var l := if la.Some? then Cas.Move(cfg.longLivedCap, lc, o.l, la.value).1 else o.l;
    Own(NextRequest(cfg, o.r, g, l, active, act).0, g, l)
  }

  lemma ApplyIsOwn(cfg: Config, s: State, t: Task, act: Action)
    ensures OwnOf(Apply(cfg, s, Label(t, act)), t) ==
            NextOwn(cfg, s.global.c, s.longLived.c, s.active, OwnOf(s, t), act)
  {
    var o := OwnOf(s, t);
    OperatedPhase(Limit(cfg.globalCap), s.global, t, GlobalAction(o.r, o.g, act), t);
    OperatedPhase(cfg.longLivedCap, s.longLived, t, LongLivedAction(o.r, o.l, act), t);
  }

  /** What holds of a request after the first `k` steps of its way out. */
  predicate OnTheWayOut(o: Own, admitted: bool, k: nat) {
    if k == 0 then o.r.stage == if admitted then Serving else Leaving(false)
    else if k == 6 then o.r.stage == Done(admitted)
    else
      && o.r.stage == Leaving(admitted)
      && (k >= 2 ==> !o.l.Holding?)
      && (k >= 3 ==> !o.l.Dropping?)
      && (k >= 4 ==> o.r.held.None?)
      && (k >= 5 ==> !o.g.Holding?)
  }

  lemma OwnStepOut(cfg: Config, gc: Cas.Counters, lc: Cas.Counters, active: Active, o: Own, admitted: bool, k: nat)
    requires k < 6 && OnTheWayOut(o, admitted, k) && Consistent(cfg, o.r, o.g, o.l)
    requires (o.g.Holding? ==> gc.active > 0) && (o.l.Holding? ==> lc.active > 0)
    ensures OnTheWayOut(NextOwn(cfg, gc, lc, active, o, Out(k)), admitted, k + 1)
  {
  }

  /** The actions of a request that leaves. */
  function Out(k: nat): Action {
    match k
    case 0 => Leave
    case 1 => DropLongLived
    case 2 => CountDrop
    case 3 => DropIdentity
    case 4 => DropGlobal
    case _ => Return
  }

  ghost predicate LeavingSoundly(cfg: Config, s: State, t: Task, admitted: bool, k: nat) {
    Inv(cfg, s) && OnTheWayOut(OwnOf(s, t), admitted, k)
  }

  lemma OneStepOut(cfg: Config, s: State, t: Task, admitted: bool, k: nat)
    requires k < 6 && LeavingSoundly(cfg, s, t, admitted, k)
    ensures LeavingSoundly(cfg, Apply(cfg, s, Label(t, Out(k))), t, admitted, k + 1)
  {
    ApplyKeepsInv(cfg, s, Label(t, Out(k)));
    ApplyIsOwn(cfg, s, t, Out(k));
    Cas.HolderIsCounted(Limit(cfg.globalCap), s.global, t);
    Cas.HolderIsCounted(cfg.longLivedCap, s.longLived, t);
    assert ConsistentTask(cfg, s, t);
    OwnStepOut(cfg, s.global.c, s.longLived.c, s.active, OwnOf(s, t), admitted, k);
  }

  lemma {:induction false} StepsOut(cfg: Config, s: State, t: Task, admitted: bool, k: nat)
    requires k <= 6 && LeavingSoundly(cfg, s, t, admitted, 0)
    ensures LeavingSoundly(cfg, Run(cfg, s, FirstOut(t, k)), t, admitted, k)
  {
    if k > 0 {
      StepsOut(cfg, s, t, admitted, k - 1);
      OneStepOut(cfg, Run(cfg, s, FirstOut(t, k - 1)), t, admitted, k - 1);
      RunSnoc(cfg, s, FirstOut(t, k - 1), Label(t, Out(k - 1)));
    }
  }

  lemma RunSnoc(cfg: Config, s: State, labels: seq<Label>, l: Label)
    ensures Run(cfg, s, labels + [l]) == Apply(cfg, Run(cfg, s, labels), l)
  {
    assert (labels + [l])[..|labels|] == labels;
  }

  /** A request that was served or turned away and then runs alone returns. */
  lemma DepartureReturns(cfg: Config, s: State, t: Task, admitted: bool)
    requires Inv(cfg, s)
    requires RequestOf(s.requests, t).stage == if admitted then Serving else Leaving(false)
    ensures RequestOf(Run(cfg, s, Departure(t)).requests, t).stage == Done(admitted)
  {
    StepsOut(cfg, s, t, admitted, 6);
  }

  /** A request that arrives alone is served exactly when there is room, with each configured limiter up by one. */
  ghost predicate Arrives(cfg: Config, s: State, t: Task, room: bool, s': State) {
    var r := RequestOf(s'.requests, t);
    r.stage == (if room then Serving else Leaving(false)) && (room ==> Raised(cfg, s, s', r))
  }

  /** It has returned with that verdict and every count is back. */
  ghost predicate ComesBack(s: State, t: Task, room: bool, s': State) {
    RequestOf(s'.requests, t).stage == Done(room) && Unchanged(s, s')
  }

  lemma ArrivalRaises(cfg: Config, s: State, t: Task, want: bool, id: Identity)
    requires Inv(cfg, s) && RequestOf(s.requests, t).stage.Fresh?
    ensures Arrives(cfg, s, t, Room(cfg, s, want, id), Run(cfg, s, Arrival(t, want, id)))
  {
    ArrivalDecides(cfg, s, t, want, id);
    OwnLabels(t, want, id);
    AdmitAllOrNothing(cfg, s, Arrival(t, want, id), t);
  }

  lemma DepartureRestores(cfg: Config, s: State, t: Task, want: bool, id: Identity)
    requires Inv(cfg, s) && RequestOf(s.requests, t).stage.Fresh?
    ensures ComesBack(s, t, Room(cfg, s, want, id), Run(cfg, s, Arrival(t, want, id) + Departure(t)))
  {
    var s1 := Run(cfg, s, Arrival(t, want, id));
    RunInv(cfg, s, Arrival(t, want, id));
    ArrivalDecides(cfg, s, t, want, id);
    DepartureReturns(cfg, s1, t, Room(cfg, s, want, id));
    OwnLabels(t, want, id);
    Restores(cfg, s, t, Arrival(t, want, id), Departure(t), Room(cfg, s, want, id));
  }

  lemma OwnLabels(t: Task, want: bool, id: Identity)
    ensures forall i :: 0 <= i < |Arrival(t, want, id)| ==> Arrival(t, want, id)[i].t == t
    ensures forall i :: 0 <= i < |Departure(t)| ==> Departure(t)[i].t == t
  {
    OwnSteps(t, 6);
  }

  lemma {:induction false} OwnSteps(t: Task, k: nat)
    ensures forall i :: 0 <= i < |FirstOut(t, k)| ==> FirstOut(t, k)[i].t == t
  {
    if k > 0 {
      OwnSteps(t, k - 1);
    }
  }

  lemma Restores(cfg: Config, s: State, t: Task, a: seq<Label>, b: seq<Label>, admitted: bool)
    requires Inv(cfg, s) && RequestOf(s.requests, t).stage.Fresh?
    requires forall i :: 0 <= i < |a| ==> a[i].t == t
    requires forall i :: 0 <= i < |b| ==> b[i].t == t
    requires RequestOf(Run(cfg, Run(cfg, s, a), b).requests, t).stage == Done(admitted)
    ensures ComesBack(s, t, admitted, Run(cfg, s, a + b))
  {
    RunConcat(cfg, s, a, b);
    AdmitAllOrNothing(cfg, s, a + b, t);
  }

  /**
   From every reachable state, a request that runs alone is served if and only if every limiter in its way has room, and
   is turned away otherwise; served, each configured limiter is up by one; and once it has left, all counts are back.
   */
  lemma AloneIsServedExactly(cfg: Config, labels: seq<Label>, t: Task, want: bool, id: Identity)
    requires RequestOf(Run(cfg, EMPTY, labels).requests, t).stage.Fresh?
    ensures var s := Run(cfg, EMPTY, labels);
            && Arrives(cfg, s, t, Room(cfg, s, want, id), Run(cfg, s, Arrival(t, want, id)))
            && ComesBack(s, t, Room(cfg, s, want, id), Run(cfg, s, Arrival(t, want, id) + Departure(t)))
  {
    EmptyInv(cfg);
    RunInv(cfg, EMPTY, labels);
    ArrivalRaises(cfg, Run(cfg, EMPTY, labels), t, want, id);
    DepartureRestores(cfg, Run(cfg, EMPTY, labels), t, want, id);
  }
}
