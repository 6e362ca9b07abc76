/**
 The service as a whole: supervisor, edge, renewal child and whatever outlives a crash, interleaved step by step.
 */
module CertService {
  import opened Common
  import opened AcmeBackoff
  import opened AcmeState
  import opened CertReload
  import Renewal

  /** Where the supervisor is. */
  datatype Stage =
    | Down
    | JustBooted(bootEpoch: nat)                   // the edge is up, the marker has not been looked at yet
    | Monitoring
    | Restarting(tries: nat)                       // the edge is drained; so many starts on the live pair have failed
    | Reloaded                                     // the live pair booted, the marker is still there
    | RollingBack(rest: seq<Op>)                   // what is left of the rollback; then one more start

  /**
   A renewal is the list of file operations it has still to perform.  `child` is the supervisor's own; `outside` is an
   issuing process the supervisor does not know about: a renewal whose service crashed, which lives on in its own
   process group, or a manual issuance.  The issuance lock keeps the two from issuing at the same time.  `stray` is what
   an edge loaded that outlived its service and still holds the address; readiness is a connection to that address, so
   while there is one any start can look ready.  `committed` remembers whether an outside process renamed a half of the
   pair since the edge last started.
   */
  datatype Service = Service(
    disk: Disk, edge: Option<Pair>, child: Option<seq<Op>>, outside: seq<Op>, stray: Option<Pair>, stage: Stage,
    committed: bool)

  datatype Label =
    | Boot(bootEpoch: nat)
    | ReconcileMarker
    | SpawnRenewal(call: Renewal.Call)
    | ChildStep
    | Reap                                         // the child exited or was killed, wherever it was
    | TryStart(start: Start)
    | Consume
    | ConsumeFails                                 // the service ends over it and leaves the edge behind
    | BeginRollback(now: u64)
    | RollbackOp
    | RollbackFault                                // the next write of the rollback fails
    | LastStart(start: Start)
    | Exit                                         // orderly: edge and child are terminated with the rest
    | Crash                                        // edge and child live on
    | ManualIssue(issued: Issued, now: u64)
    | OutsideStep
    | OutsideDies
    | StrayDies

  /** The edge starts on what is on disk now. */
  function Started(v: Service, stage: Stage): Service {
    v.(edge := Some(Live(v.disk)), stage := stage, committed := false)
  }

  function Stopped(v: Service): Service {
    v.(edge := None, child := None, stage := Down)
  }

  function Drained(v: Service): Service {
    v.(edge := None, child := None, stage := Restarting(0))
  }

  /** The service is gone and its edge is not; an older stray keeps the address. */
  function Abandoned(v: Service): Service {
    Stopped(v).(stray := if v.stray.Some? then v.stray else v.edge)
  }

  predicate LockFree(v: Service) {
    v.outside == [] && (v.child.None? || v.child.value == [])
  }

  predicate IsCommit(op: Op) {
    op.CommitCert? || op.CommitKey?
  }

  /** An edge started now may be taken for ready. */
  predicate LooksReady(o: Oracle, v: Service) {
    Boots(o, v.disk) || v.stray.Some?
  }

  function Tried(o: Oracle, v: Service, start: Start): Service
    requires v.stage.Restarting?
  {
    match start
    case ShutdownRequested => Stopped(v)
    case SpawnError => Stopped(v)
    case NotReady => v.(stage := Restarting(v.stage.tries + 1))
    case Ready => if LooksReady(o, v) then Started(v, Reloaded) else v.(stage := Restarting(v.stage.tries + 1))
  }

  ghost function RollbackBegun(o: Oracle, v: Service, now: u64): Service {
    var newest := Newest(v.disk);
    if newest.None? || !MayRollBack(o, v.disk, newest.value) then Stopped(v)
    else v.(stage := RollingBack(RollbackScript(v.disk, newest.value, now)))
  }

  function ChildStepped(v: Service): Service
    requires v.child.Some? && v.child.value != []
  {
    v.(disk := Exec(v.disk, v.child.value[0]), child := Some(v.child.value[1..]))
  }

  function OutsideStepped(v: Service): Service
    requires v.outside != []
  {
    v.(disk := Exec(v.disk, v.outside[0]), outside := v.outside[1..],
       committed := v.committed || IsCommit(v.outside[0]))
  }

  function Reconciled(v: Service): Service
    requires v.stage.JustBooted?
  {
    if v.disk.marker.None? then v.(stage := Monitoring)
    else if v.disk.marker.value <= v.stage.bootEpoch then v.(disk := Exec(v.disk, RemoveMarker), stage := Monitoring)
    else Drained(v)
  }

  /** A manual issuance does not look at the configured policy. */
  function ManualScript(s: Renewal.Settings, issued: Issued, now: u64): seq<Op>
    requires NotAfter(s.o, issued).Ok?
  {
    Renewal.IssueScript(s.(policy := DEFAULT_POLICY), issued, now)
  }

  ghost function Apply(s: Renewal.Settings, v: Service, l: Label): Service {
    match l
    case Boot(bootEpoch) => if v.stage.Down? && LooksReady(s.o, v) then Started(v, JustBooted(bootEpoch)) else v
    case ReconcileMarker => if v.stage.JustBooted? then Reconciled(v) else v
    case SpawnRenewal(call) =>
      if v.stage.Monitoring? && v.child.None? then
        v.(child := Some(Renewal.AttemptOf(s, v.disk, if LockFree(v) then call else call.(lockBusy := true)).script))
      else v
    case ChildStep => if v.child.Some? && v.child.value != [] then ChildStepped(v) else v
    case Reap =>
      if !v.stage.Monitoring? || v.child.None? then v
      else if v.disk.marker.None? then v.(child := None)
      else Drained(v)
    case TryStart(start) => if v.stage.Restarting? && v.stage.tries < 2 then Tried(s.o, v, start) else v
    case Consume => if v.stage.Reloaded? then v.(disk := Exec(v.disk, RemoveMarker), stage := Monitoring) else v
    case ConsumeFails => if v.stage.Reloaded? then Abandoned(v) else v
    case BeginRollback(now) => if v.stage.Restarting? && v.stage.tries >= 2 then RollbackBegun(s.o, v, now) else v
    case RollbackOp =>
      if v.stage.RollingBack? && v.stage.rest != []
      then v.(disk := Exec(v.disk, v.stage.rest[0]), stage := RollingBack(v.stage.rest[1..])) else v
    case RollbackFault =>
      if !v.stage.RollingBack? || v.stage.rest == [] then v
      else if v.stage.rest[0].RemoveIssue? then v.(stage := RollingBack(v.stage.rest[1..]))
      else Stopped(v)
    case LastStart(start) =>
      if !v.stage.RollingBack? || v.stage.rest != [] then v
      else if start.Ready? && LooksReady(s.o, v) then Started(v, Monitoring)
      else Stopped(v)
    case Exit => Stopped(v)
    case Crash => Abandoned(v).(outside := if v.child.Some? && v.child.value != [] then v.child.value else v.outside)
    case ManualIssue(issued, now) =>
      if LockFree(v) && NotAfter(s.o, issued).Ok? then v.(outside := ManualScript(s, issued, now)) else v
    case OutsideStep => if v.outside != [] then OutsideStepped(v) else v
    case OutsideDies => v.(outside := [])
    case StrayDies => v.(stray := None)
  }

  ghost function Run(s: Renewal.Settings, v: Service, labels: seq<Label>): Service
    decreases |labels|
  {
    if labels == [] then v else Apply(s, Run(s, v, labels[..|labels| - 1]), labels[|labels| - 1])
  }

  /** The service before its first boot on this disk. */
  function Fresh(d: Disk): Service {
    Service(d, None, None, [], None, Down, false)
  }

  // ----- the marker is written first -----

  /** An operation that leaves the pair and the marker alone. */
  predicate Harmless(op: Op) {
    !IsCommit(op) && !op.WriteMarker? && !op.RemoveMarker?
  }

  /** Nothing touches the pair before the marker is written. */
  predicate MarkerFirst(script: seq<Op>) {
    script == [] || script[0].WriteMarker? || (Harmless(script[0]) && MarkerFirst(script[1..]))
  }

  /** The marker is never removed, and written at the very beginning or not at all. */
  predicate KeepsMarker(script: seq<Op>) {
    && (forall i :: 0 <= i < |script| ==> !script[i].RemoveMarker?)
    && (forall i :: 0 < i < |script| ==> !script[i].WriteMarker?)
  }

  predicate SparesMarker(script: seq<Op>) {
    forall i :: 0 <= i < |script| ==> !script[i].RemoveMarker? && !script[i].WriteMarker?
  }

  /** What a renewal under way may still do, given the marker. */
  predicate Guarded(marker: Option<nat>, script: seq<Op>) {
    KeepsMarker(script) && (marker.None? ==> MarkerFirst(script))
  }

  lemma RenewalWritesMarkerFirst(s: Renewal.Settings, d: Disk, call: Renewal.Call)
    ensures MarkerFirst(Renewal.AttemptOf(s, d, call).script) && KeepsMarker(Renewal.AttemptOf(s, d, call).script)
  {
    if call.answer.Ok? && NotAfter(s.o, call.answer.value).Ok? {
      IssueWritesMarkerFirst(s, call.answer.value, call.now, call.ioErrorAt,
          Renewal.RecordOps(s, d, call, call.message));
    }
    OneFailureIsHarmless(Renewal.AttemptOf(s, d, call).script);
  }

  lemma OneFailureIsHarmless(script: seq<Op>)
    ensures |script| <= 1 && (script != [] ==> script[0].WriteFailure?) ==> MarkerFirst(script) && KeepsMarker(script)
  {
    assert |script| == 1 ==> script[1..] == [];
  }

  lemma IssueWritesMarkerFirst(s: Renewal.Settings, issued: Issued, now: u64, failAt: Option<nat>, record: seq<Op>)
    requires NotAfter(s.o, issued).Ok? && |record| <= 1 && (record != [] ==> record[0].WriteFailure?)
    ensures var script := Renewal.IssueScript(s, issued, now);
            && MarkerFirst(script) && KeepsMarker(script)
            && (Faults(script, failAt) ==>
                  MarkerFirst(Reached(script, failAt) + record) && KeepsMarker(Reached(script, failAt) + record))
  {
    var done := Reached(Renewal.IssueScript(s, issued, now), failAt);
    OneFailureIsHarmless(record);
    assert done == [] ==> done + record == record;
  }

  lemma ExecEffects(d: Disk, op: Op)
    ensures !IsCommit(op) ==> Live(Exec(d, op)) == Live(d)
    ensures !op.WriteMarker? && !op.RemoveMarker? ==> Exec(d, op).marker == d.marker
    ensures op.WriteMarker? ==> Exec(d, op).marker.Some?
    ensures op.RemoveMarker? ==> Exec(d, op).marker.None?
  {
  }

  /** One operation of a guarded renewal: it stays guarded, and changes the pair only under a marker. */
  lemma GuardedStep(d: Disk, script: seq<Op>)
    requires script != [] && Guarded(d.marker, script)
    ensures var d' := Exec(d, script[0]);
            && Guarded(d'.marker, script[1..])
            && (d'.marker.None? ==> d.marker.None? && Live(d') == Live(d))
            && (d.marker.Some? ==> d'.marker.Some?)
  {
    ExecEffects(d, script[0]);
  }

  // ----- every run -----

  predicate NoEdge(stage: Stage) {
    stage.Down? || stage.Restarting? || stage.RollingBack?
  }

  /** Every running edge, also one that outlived its service, has loaded the pair on disk when there is no marker. */
  predicate Loaded(v: Service) {
    v.disk.marker.None? ==>
      && (v.edge.Some? ==> v.edge.value == Live(v.disk))
      && (v.stray.Some? ==> v.stray.value == Live(v.disk))
  }

  predicate Inv(v: Service) {
    && Loaded(v)
    && (v.edge.Some? && v.child.None? && !v.committed ==> v.edge.value == Live(v.disk))
    && (v.child.Some? ==> v.stage.Monitoring? && Guarded(v.disk.marker, v.child.value))
    && Guarded(v.disk.marker, v.outside)
    && (NoEdge(v.stage) <==> v.edge.None?)
    && (v.stage.RollingBack? ==> SparesMarker(v.stage.rest))
    && (v.stage.Restarting? || v.stage.RollingBack? ==> v.disk.marker.Some?)
    && (v.child.Some? && v.child.value != [] ==> v.outside == [])
  }

  /** This label takes the marker away in this state. */
  predicate Consumes(v: Service, l: Label) {
    || (l.ReconcileMarker? && v.stage.JustBooted? && v.disk.marker.Some? && v.disk.marker.value <= v.stage.bootEpoch)
    || (l.Consume? && v.stage.Reloaded?)
  }

  /**
   The marker is taken away although an edge of an earlier service is still running, or an outside process renamed
   something after the edge started, or will still do so without writing a marker first.
   */
  predicate Harmful(v: Service, l: Label) {
    Consumes(v, l) && (v.stray.Some? || v.committed || !MarkerFirst(v.outside))
  }

  lemma ConsumptionKeepsInv(s: Renewal.Settings, v: Service, l: Label)
    requires Inv(v) && Consumes(v, l) && !Harmful(v, l)
    ensures Inv(Apply(s, v, l))
  {
    ExecEffects(v.disk, RemoveMarker);
  }

  lemma StepsKeepInv(s: Renewal.Settings, v: Service, l: Label)
    requires Inv(v) && (l.ChildStep? || l.OutsideStep? || l.RollbackOp?)
    ensures Inv(Apply(s, v, l))
  {
    if l.ChildStep? && v.child.Some? && v.child.value != [] {
      GuardedStep(v.disk, v.child.value);
    } else if l.OutsideStep? && v.outside != [] {
      GuardedStep(v.disk, v.outside);
      ExecEffects(v.disk, v.outside[0]);
    } else if l.RollbackOp? && v.stage.RollingBack? && v.stage.rest != [] {
      RollbackOpKeepsInv(s, v);
    }
  }

  lemma RollbackOpKeepsInv(s: Renewal.Settings, v: Service)
    requires Inv(v) && v.stage.RollingBack? && v.stage.rest != []
    ensures Inv(Apply(s, v, RollbackOp))
  {
    ExecEffects(v.disk, v.stage.rest[0]);
  }

  lemma StartsKeepInv(s: Renewal.Settings, v: Service, l: Label)
    requires Inv(v) && (l.SpawnRenewal? || l.ManualIssue? || l.BeginRollback?)
    ensures Inv(Apply(s, v, l))
  {
    match l
    case SpawnRenewal(call) =>
      RenewalWritesMarkerFirst(s, v.disk, if LockFree(v) then call else call.(lockBusy := true));
    case ManualIssue(issued, now) =>
      if NotAfter(s.o, issued).Ok? {
        IssueWritesMarkerFirst(s.(policy := DEFAULT_POLICY), issued, now, None, []);
      }
    case _ =>
  }

  lemma EdgesKeepInv(s: Renewal.Settings, v: Service, l: Label)
    requires Inv(v) && (l.Boot? || l.TryStart? || l.LastStart?)
    ensures Inv(Apply(s, v, l))
  {
  }

  lemma EndsKeepInv(s: Renewal.Settings, v: Service, l: Label)
    requires Inv(v) && (l.ConsumeFails? || l.RollbackFault? || l.Exit? || l.Crash? || l.OutsideDies? || l.StrayDies?)
    ensures Inv(Apply(s, v, l))
  {
  }

  lemma LooksKeepInv(s: Renewal.Settings, v: Service, l: Label)
    requires Inv(v) && (l.ReconcileMarker? || l.Reap? || l.Consume?) && !Consumes(v, l)
    ensures Inv(Apply(s, v, l))
  {
  }

  lemma ApplyKeepsInv(s: Renewal.Settings, v: Service, l: Label)
    requires Inv(v) && !Harmful(v, l)
    ensures Inv(Apply(s, v, l))
  {
    if Consumes(v, l) {
      ConsumptionKeepsInv(s, v, l);
    } else if l.ChildStep? || l.OutsideStep? || l.RollbackOp? {
      StepsKeepInv(s, v, l);
    } else if l.SpawnRenewal? || l.ManualIssue? || l.BeginRollback? {
      StartsKeepInv(s, v, l);
    } else if l.Boot? || l.TryStart? || l.LastStart? {
      EdgesKeepInv(s, v, l);
    } else if l.ReconcileMarker? || l.Reap? || l.Consume? {
      LooksKeepInv(s, v, l);
    } else {
      EndsKeepInv(s, v, l);
    }
  }

  ghost predicate HarmFree(s: Renewal.Settings, d: Disk, labels: seq<Label>) {
    forall i :: 0 <= i < |labels| ==> !Harmful(Run(s, Fresh(d), labels[..i]), labels[i])
  }

  /**
   From any disk, through any number of boots, renewals and manual issuances killed at any operation, restarts that fail
   or roll back, orderly exits and crashes that leave an edge and a renewal running: every running edge without a marker
   has loaded the pair that is on disk, and so has the supervisor's edge while no renewal of its own is under way and
   nobody else renamed anything since it started.  The one condition is that the marker is not taken away while an edge
   of an earlier service still runs, in between an outside issuance's marker and its renames, or over renames it made
   since the edge started.
   */
  lemma {:induction false} EdgeRunsWhatIsOnDisk(s: Renewal.Settings, d: Disk, labels: seq<Label>)
    requires HarmFree(s, d, labels)
    ensures var v := Run(s, Fresh(d), labels);
            Inv(v) && Loaded(v) && (v.edge.Some? && v.child.None? && !v.committed ==> v.edge.value == Live(v.disk))
    decreases |labels|
  {
    if labels != [] {
      var before := labels[..|labels| - 1];
      forall i | 0 <= i < |before|
        ensures !Harmful(Run(s, Fresh(d), before[..i]), before[i])
      {
        assert before[..i] == labels[..i];
        assert !Harmful(Run(s, Fresh(d), labels[..i]), labels[i]);
      }
      EdgeRunsWhatIsOnDisk(s, d, before);
      assert !Harmful(Run(s, Fresh(d), labels[..|labels| - 1]), labels[|labels| - 1]);
      ApplyKeepsInv(s, Run(s, Fresh(d), before), labels[|labels| - 1]);
    }
  }

  /** Steps of a service that neither crashes nor fails to remove its marker, with renewals of its own only. */
  predicate Orderly(l: Label) {
    !l.Crash? && !l.ConsumeFails? && !l.ManualIssue?
  }

  predicate Alone(v: Service) {
    v.outside == [] && v.stray.None? && !v.committed
  }

  lemma OrderlyStep(s: Renewal.Settings, v: Service, l: Label)
    requires Orderly(l) && Alone(v)
    ensures Alone(Apply(s, v, l))
  {
  }

  lemma {:induction false} NobodyOutside(s: Renewal.Settings, d: Disk, labels: seq<Label>)
    requires forall i :: 0 <= i < |labels| ==> Orderly(labels[i])
    ensures Alone(Run(s, Fresh(d), labels))
    decreases |labels|
  {
    if labels != [] {
      NobodyOutside(s, d, labels[..|labels| - 1]);
      OrderlyStep(s, Run(s, Fresh(d), labels[..|labels| - 1]), labels[|labels| - 1]);
    }
  }

  /** Such a service needs no condition. */
  lemma OrderlyRunsAreHarmFree(s: Renewal.Settings, d: Disk, labels: seq<Label>)
    requires forall i :: 0 <= i < |labels| ==> Orderly(labels[i])
    ensures HarmFree(s, d, labels)
  {
    forall i | 0 <= i < |labels|
      ensures !Harmful(Run(s, Fresh(d), labels[..i]), labels[i])
    {
      NobodyOutside(s, d, labels[..i]);
    }
  }

  // ----- runs -----

  lemma {:induction false} RunConcat(s: Renewal.Settings, v: Service, a: seq<Label>, b: seq<Label>)
    ensures Run(s, v, a + b) == Run(s, Run(s, v, a), b)
    decreases |b|
  {
    if b == [] {
      assert a + b == a;
    } else {
      assert (a + b)[..|a + b| - 1] == a + b[..|b| - 1];
      RunConcat(s, v, a, b[..|b| - 1]);
    }
  }

  lemma RunOne(s: Renewal.Settings, v: Service, l: Label)
    ensures Run(s, v, [l]) == Apply(s, v, l)
  {
    assert [l][..0] == [];
    assert Run(s, v, []) == v;
  }

  function Times(n: nat, l: Label): seq<Label> {
    seq(n, _ => l)
  }

  lemma RunTwo(s: Renewal.Settings, v: Service, a: Label, b: Label)
    ensures Run(s, v, [a, b]) == Apply(s, Apply(s, v, a), b)
  {
    RunOne(s, v, a);
    assert [a, b][..1] == [a];
  }

  lemma RunThree(s: Renewal.Settings, v: Service, v1: Service, v2: Service, a: seq<Label>, b: seq<Label>, c: seq<Label>)
    requires Run(s, v, a) == v1 && Run(s, v1, b) == v2
    ensures Run(s, v, a + b + c) == Run(s, v2, c)
  {
    RunConcat(s, v, a, b);
    RunConcat(s, v, a + b, c);
  }

  lemma {:induction false} ChildSteps(s: Renewal.Settings, v: Service, n: nat)
    requires v.child.Some? && n <= |v.child.value|
    ensures Run(s, v, Times(n, ChildStep)) ==
            v.(disk := After(v.disk, v.child.value, n), child := Some(v.child.value[n..]))
  {
    if n > 0 {
      ChildSteps(s, v, n - 1);
      assert Times(n, ChildStep)[..n - 1] == Times(n - 1, ChildStep);
    }
  }

  /** The outside process runs to its end while everything else stands still. */
  lemma {:induction false} OutsideRuns(s: Renewal.Settings, v: Service, n: nat)
    requires n <= |v.outside|
    ensures var v' := Run(s, v, Times(n, OutsideStep));
            v' == v.(disk := After(v.disk, v.outside, n), outside := v.outside[n..], committed := v'.committed)
  {
    if n > 0 {
      OutsideRuns(s, v, n - 1);
      assert Times(n, OutsideStep)[..n - 1] == Times(n - 1, OutsideStep);
    }
  }

  lemma {:induction false} MarkerStays(d: Disk, script: seq<Op>, n: nat)
    requires n <= |script| && SparesMarker(script)
    ensures After(d, script, n).marker == d.marker
  {
    if n > 0 {
      MarkerStays(d, script, n - 1);
      ExecEffects(After(d, script, n - 1), script[n - 1]);
    }
  }

  // ----- the condition is exact -----

  /**
   Taking the marker away is right at that moment if and only if both the supervisor's edge and one left from an earlier
   service have the pair on disk.
   */
  lemma ConsumedOverRenames(s: Renewal.Settings, v: Service, l: Label)
    requires Inv(v) && Consumes(v, l)
    ensures Loaded(Apply(s, v, l)) <==>
            v.edge.value == Live(v.disk) && (v.stray.Some? ==> v.stray.value == Live(v.disk))
  {
    ExecEffects(v.disk, RemoveMarker);
  }

  /**
   Taking the marker away from an issuance that is past its marker but not past its renames: when that issuance ends,
   there is no marker left, and all is well if and only if the issuance put back the very pair the edges had loaded.
   */
  lemma ConsumedBeforeRenames(s: Renewal.Settings, v: Service, l: Label)
    requires Inv(v) && Consumes(v, l) && !MarkerFirst(v.outside)
    ensures var end := Run(s, Apply(s, v, l), Times(|v.outside|, OutsideStep));
            var live := Live(Final(Exec(v.disk, RemoveMarker), v.outside));
            && end.disk.marker.None? && end.edge == v.edge
            && (Loaded(end) <==> v.edge.value == live && (v.stray.Some? ==> v.stray.value == live))
  {
    var v' := Apply(s, v, l);
    ExecEffects(v.disk, RemoveMarker);
    assert SparesMarker(v.outside);
    OutsideRuns(s, v', |v.outside|);
    MarkerStays(v'.disk, v.outside, |v.outside|);
  }

  // ----- a renewal under way, from the first boot -----

  /** Boot on this disk, spawn a renewal and let it perform `n` operations. */
  function RenewalLabels(call: Renewal.Call, n: nat): seq<Label> {
    [Boot(0), ReconcileMarker] + [SpawnRenewal(call)] + Times(n, ChildStep)
  }

  lemma RenewalUnderWay(s: Renewal.Settings, d0: Disk, call: Renewal.Call, n: nat)
    requires Boots(s.o, d0) && d0.marker.None? && n <= 10
    requires Renewal.AttemptOf(s, d0, call).outcome == Renewal.Renewed
    ensures var script := Renewal.IssueScript(s, call.answer.value, call.now);
            && |script| == 10
            && Run(s, Fresh(d0), RenewalLabels(call, n)) ==
               Service(After(d0, script, n), Some(Live(d0)), Some(script[n..]), [], None, Monitoring, false)
  {
    var script := Renewal.IssueScript(s, call.answer.value, call.now);
    var running := Service(d0, Some(Live(d0)), None, [], None, Monitoring, false);
    var spawned := running.(child := Some(script));
    RunTwo(s, Fresh(d0), Boot(0), ReconcileMarker);
    RunOne(s, running, SpawnRenewal(call));
    RunThree(s, Fresh(d0), running, spawned, [Boot(0), ReconcileMarker], [SpawnRenewal(call)], Times(n, ChildStep));
    ChildSteps(s, spawned, n);
  }

  /** The next boot takes the marker for an old one. */
  lemma MarkerForgotten(s: Renewal.Settings, v: Service, bootEpoch: nat)
    requires v.stage.Down? && v.child.None? && LooksReady(s.o, v)
    requires v.disk.marker.Some? && v.disk.marker.value <= bootEpoch
    ensures Run(s, v, [Boot(bootEpoch), ReconcileMarker]) ==
            v.(disk := Exec(v.disk, RemoveMarker), edge := Some(Live(v.disk)), stage := Monitoring, committed := false)
  {
    RunTwo(s, v, Boot(bootEpoch), ReconcileMarker);
  }

  /**
   A run that ends stale: a renewal writes its marker, its service crashes, the next service boots no earlier than the
   marker and consumes it, and the renewal, still running, installs its pair.  From then on there is no marker, and the
   edge runs a pair that is not the one on disk.
   */
  lemma OrphanGoesUnnoticed(s: Renewal.Settings, d0: Disk, call: Renewal.Call, bootEpoch: nat)
    requires Boots(s.o, d0) && d0.marker.None? && call.now <= bootEpoch
    requires Renewal.AttemptOf(s, d0, call).outcome == Renewal.Renewed
    ensures var issued := call.answer.value;
            var end := Run(s, Fresh(d0), OrphanRun(call, bootEpoch));
            && end.stage.Monitoring? && end.disk.marker.None? && end.edge == Some(Live(d0))
            && Live(end.disk) == Pair(Some(issued.cert), Some(issued.key))
            && (Loaded(end) <==> d0.cert == Some(issued.cert) && d0.key == Some(issued.key))
  {
    var issued := call.answer.value;
    OrphanSetup(s, d0, call, bootEpoch);
    var v := Run(s, Fresh(d0), OrphanStart(call, bootEpoch));
    RunConcat(s, Fresh(d0), OrphanStart(call, bootEpoch), Times(9, OutsideStep));
    OutsideRuns(s, v, 9);
    IssueEnds(s, d0, issued, call.now);
  }

  function OrphanStart(call: Renewal.Call, bootEpoch: nat): seq<Label> {
    RenewalLabels(call, 1) + [Crash, StrayDies] + [Boot(bootEpoch), ReconcileMarker]
  }

  function OrphanRun(call: Renewal.Call, bootEpoch: nat): seq<Label> {
    OrphanStart(call, bootEpoch) + Times(9, OutsideStep)
  }

  lemma OrphanSetup(s: Renewal.Settings, d0: Disk, call: Renewal.Call, bootEpoch: nat)
    requires Boots(s.o, d0) && d0.marker.None? && call.now <= bootEpoch
    requires Renewal.AttemptOf(s, d0, call).outcome == Renewal.Renewed
    ensures var rest := Renewal.IssueScript(s, call.answer.value, call.now)[1..];
            Run(s, Fresh(d0), OrphanStart(call, bootEpoch)) ==
            Service(d0, Some(Live(d0)), None, rest, None, Monitoring, false)
  {
    RenewalUnderWay(s, d0, call, 1);
    MarkerWritten(s, d0, call.answer.value, call.now);
    var rest := Renewal.IssueScript(s, call.answer.value, call.now)[1..];
    OrphanFrom(s, Fresh(d0), RenewalLabels(call, 1), d0, call.now, rest, bootEpoch);
  }

  lemma OrphanFrom(s: Renewal.Settings, start: Service, a: seq<Label>, d0: Disk, at: nat, rest: seq<Op>, bootEpoch: nat)
    requires Boots(s.o, d0) && d0.marker.None? && at <= bootEpoch && rest != []
    requires Run(s, start, a) ==
             Service(d0.(marker := Some(at)), Some(Live(d0)), Some(rest), [], None, Monitoring, false)
    ensures Run(s, start, a + [Crash, StrayDies] + [Boot(bootEpoch), ReconcileMarker]) ==
            Service(d0, Some(Live(d0)), None, rest, None, Monitoring, false)
  {
    var renewing := Run(s, start, a);
    var orphaned := Service(d0.(marker := Some(at)), None, None, rest, None, Down, false);
    RunTwo(s, renewing, Crash, StrayDies);
    RunThree(s, start, renewing, orphaned, a, [Crash, StrayDies], [Boot(bootEpoch), ReconcileMarker]);
    MarkerForgotten(s, orphaned, bootEpoch);
  }

  lemma MarkerWritten(s: Renewal.Settings, d0: Disk, issued: Issued, now: u64)
    requires NotAfter(s.o, issued).Ok?
    ensures After(d0, Renewal.IssueScript(s, issued, now), 1) == d0.(marker := Some(now))
  {
    var script := Renewal.IssueScript(s, issued, now);
    assert After(d0, script, 0) == d0 && script[0] == WriteMarker(now);
  }

  /** What the nine operations after the marker do. */
  lemma IssueEnds(s: Renewal.Settings, d0: Disk, issued: Issued, now: u64)
    requires NotAfter(s.o, issued).Ok?
    ensures var script := Renewal.IssueScript(s, issued, now)[1..];
            && |script| == 9
            && After(d0, script, 9).marker == d0.marker
            && Live(After(d0, script, 9)) == Pair(Some(issued.cert), Some(issued.key))
  {
    var meta := IssueOf(issued, NotAfter(s.o, issued).value, s.policy.renewBefore);
    var script := Renewal.IssueScript(s, issued, now)[1..];
    var retain, pair := RetainScript(now), PairScript(issued.cert, issued.key);
    var rest := [WriteIssue(meta), RemoveFailure];
    assert script == retain + pair + rest;
    MarkerStays(d0, script, 9);
    AfterConcat(d0, retain + pair, rest, 2);
    AfterConcat(d0, retain, pair, 4);
    PairMeans(Final(d0, retain), issued.cert, issued.key, 4);
    PairKept(Final(d0, retain + pair), meta);
  }

  lemma PairKept(d: Disk, meta: Issue)
    ensures Live(After(d, [WriteIssue(meta), RemoveFailure], 2)) == Live(d)
  {
    var rest := [WriteIssue(meta), RemoveFailure];
    assert After(d, rest, 0) == d && After(d, rest, 1) == Exec(d, WriteIssue(meta));
  }

  /**
   Another such run: a renewal completes, its service crashes, and the edge it leaves behind keeps the address.  The
   next boot takes that edge for its own, consumes the marker, and the old pair is served on with no marker left.
   */
  lemma StrayGoesUnnoticed(s: Renewal.Settings, d0: Disk, call: Renewal.Call, bootEpoch: nat)
    requires Boots(s.o, d0) && d0.marker.None? && call.now <= bootEpoch
    requires Renewal.AttemptOf(s, d0, call).outcome == Renewal.Renewed
    ensures var issued := call.answer.value;
            var end := Run(s, Fresh(d0), RenewalLabels(call, 10) + [Crash] + [Boot(bootEpoch), ReconcileMarker]);
            && end.disk.marker.None? && end.stray == Some(Live(d0)) && end.outside == []
            && Live(end.disk) == Pair(Some(issued.cert), Some(issued.key))
            && (Loaded(end) <==> d0.cert == Some(issued.cert) && d0.key == Some(issued.key))
  {
    var issued := call.answer.value;
    var script := Renewal.IssueScript(s, issued, call.now);
    var renewed := Run(s, Fresh(d0), RenewalLabels(call, 10));
    var left := Service(renewed.disk, None, None, [], Some(Live(d0)), Down, false);
    RenewalUnderWay(s, d0, call, 10);
    WholeIssue(s, d0, issued, call.now);
    RunOne(s, renewed, Crash);
    RunThree(s, Fresh(d0), renewed, left, RenewalLabels(call, 10), [Crash], [Boot(bootEpoch), ReconcileMarker]);
    MarkerForgotten(s, left, bootEpoch);
    ExecEffects(left.disk, RemoveMarker);
  }

  lemma WholeIssue(s: Renewal.Settings, d0: Disk, issued: Issued, now: u64)
    requires NotAfter(s.o, issued).Ok?
    ensures var d := After(d0, Renewal.IssueScript(s, issued, now), 10);
            d.marker == Some(now) && Live(d) == Pair(Some(issued.cert), Some(issued.key))
  {
    var script := Renewal.IssueScript(s, issued, now);
    MarkerWritten(s, d0, issued, now);
    IssueEnds(s, d0.(marker := Some(now)), issued, now);
    assert script == [script[0]] + script[1..];
    AfterConcat(d0, [script[0]], script[1..], 9);
    AfterPrefix(d0, [script[0]], script[1..], 1);
  }

  // ----- a mismatched pair and no supervisor -----

  /**
   Rollback is reached only from a restart, and a restart only with an edge that was up.  A service that is down over a
   pair no edge boots on stays down, whatever is tried, until somebody issues by hand.
   */
  lemma {:induction false} MismatchStaysDown(s: Renewal.Settings, v: Service, labels: seq<Label>)
    requires v.stage.Down? && v.edge.None? && v.child.None? && v.outside == [] && v.stray.None? && !Boots(s.o, v.disk)
    requires forall i :: 0 <= i < |labels| ==> !labels[i].ManualIssue?
    ensures Run(s, v, labels) == v
    decreases |labels|
  {
    if labels != [] {
      MismatchStaysDown(s, v, labels[..|labels| - 1]);
    }
  }

  /** A service, its edge and its renewal die together between the two renames. */
  function DeathLabels(call: Renewal.Call): seq<Label> {
    RenewalLabels(call, CERT_RENAMED) + [Crash, OutsideDies] + [StrayDies]
  }

  /**
   From the first boot: such a death leaves a disk that no later boot recovers, although the previous pair is complete
   under `retained`.
   */
  lemma DeathBetweenRenames(s: Renewal.Settings, d0: Disk, call: Renewal.Call, labels: seq<Label>)
    requires Boots(s.o, d0) && d0.marker.None? && Renewal.AttemptOf(s, d0, call).outcome == Renewal.Renewed
    requires !s.o.boots(call.answer.value.cert, d0.key.value)
    requires forall i :: 0 <= i < |labels| ==> !labels[i].ManualIssue?
    ensures var end := Run(s, Fresh(d0), DeathLabels(call) + labels);
            end.edge.None? && end.stray.None? && end.stage.Down? && RetainedAt(end.disk, d0, call.now)
  {
    RenewalUnderWay(s, d0, call, CERT_RENAMED);
    HalfIssued(s, d0, call.answer.value, call.now);
    DeathFrom(s, Fresh(d0), RenewalLabels(call, CERT_RENAMED), labels);
  }

  lemma DeathFrom(s: Renewal.Settings, start: Service, a: seq<Label>, labels: seq<Label>)
    requires !Boots(s.o, Run(s, start, a).disk)
    requires forall i :: 0 <= i < |labels| ==> !labels[i].ManualIssue?
    ensures var v := Run(s, start, a);
            Run(s, start, a + [Crash, OutsideDies] + [StrayDies] + labels) ==
            Service(v.disk, None, None, [], None, Down, v.committed)
  {
    var v := Run(s, start, a);
    var dead := Service(v.disk, None, None, [], None, Down, v.committed);
    EverythingDies(s, v);
    RunThree(s, start, v, Run(s, v, [Crash, OutsideDies]), a, [Crash, OutsideDies], [StrayDies]);
    RunConcat(s, start, a + [Crash, OutsideDies] + [StrayDies], labels);
    MismatchStaysDown(s, dead, labels);
  }

  lemma EverythingDies(s: Renewal.Settings, v: Service)
    ensures Run(s, Run(s, v, [Crash, OutsideDies]), [StrayDies]) ==
            Service(v.disk, None, None, [], None, Down, v.committed)
  {
    RunTwo(s, v, Crash, OutsideDies);
    RunOne(s, Run(s, v, [Crash, OutsideDies]), StrayDies);
  }

  lemma HalfIssued(s: Renewal.Settings, d0: Disk, issued: Issued, now: u64)
    requires NotAfter(s.o, issued).Ok?
    ensures var d := After(d0, Renewal.IssueScript(s, issued, now), CERT_RENAMED);
            PairIs(d, Some(issued.cert), d0.key) && RetainedAt(d, d0, now)
  {
    var meta := IssueOf(issued, NotAfter(s.o, issued).value, s.policy.renewBefore);
    AfterPrefix(d0, PersistScript(issued, meta, now), [RemoveFailure], CERT_RENAMED);
    CrashPoints(d0, issued, meta, now, CERT_RENAMED);
  }

  // ----- the restart, step by step -----

  /** The supervisor's labels in a restart, as the starts and writes turn out. */
  ghost function RestartLabels(o: Oracle, d: Disk, starts: Starts, now: u64): seq<Label> {
    if Decided(o, d, starts.first) then TryLabels(o, d, starts.first, starts.consumeFails)
    else [TryStart(starts.first)] + AgainLabels(o, d, starts, now)
  }

  ghost function AgainLabels(o: Oracle, d: Disk, starts: Starts, now: u64): seq<Label> {
    if Decided(o, d, starts.second) then TryLabels(o, d, starts.second, starts.consumeFails)
    else [TryStart(starts.second)] + RollbackLabels(o, d, starts, now)
  }

  /** A start that ends the tries on the live pair. */
  predicate Decided(o: Oracle, d: Disk, start: Start) {
    start.ShutdownRequested? || start.SpawnError? || (start.Ready? && Boots(o, d))
  }

  function TryLabels(o: Oracle, d: Disk, start: Start, consumeFails: bool): seq<Label> {
    if start.Ready? && Boots(o, d) then [TryStart(start), if consumeFails then ConsumeFails else Consume]
    else [TryStart(start)]
  }

  ghost function RollbackLabels(o: Oracle, d: Disk, starts: Starts, now: u64): seq<Label> {
    if Newest(d).None? || !MayRollBack(o, d, Newest(d).value) then [BeginRollback(now)]
    else [BeginRollback(now)] + OpLabels(RollbackScript(d, Newest(d).value, now), starts.rollbackFault, starts.third)
  }

  /** The writes of a rollback, the failing one among them, and the start after them. */
  function OpLabels(script: seq<Op>, fault: Option<nat>, third: Start): seq<Label>
    requires |script| == 7
  {
    if !Faults(script, fault) then Times(7, RollbackOp) + [LastStart(third)]
    else if RollbackStops(script, fault) then Times(fault.value, RollbackOp) + [RollbackFault]
    else Times(4, RollbackOp) + [RollbackFault] + (Times(2, RollbackOp) + [LastStart(third)])
  }

  /** The edge that runs in the end, under the service or without it. */
  function Running(v: Service): Option<Pair> {
    if v.edge.Some? then v.edge else v.stray
  }

  predicate EndsAs(v: Service, r: Restarted) {
    v.disk == r.disk && Running(v) == r.edge && v.child.None?
  }

  predicate Idle(v: Service) {
    v.edge.None? && v.child.None? && v.stray.None?
  }

  lemma TryRefines(s: Renewal.Settings, v: Service, start: Start, consumeFails: bool)
    requires v.stage.Restarting? && v.stage.tries < 2 && Idle(v)
    ensures if !Decided(s.o, v.disk, start)
            then Run(s, v, [TryStart(start)]) == v.(stage := Restarting(v.stage.tries + 1))
            else var end := Run(s, v, TryLabels(s.o, v.disk, start, consumeFails));
                 if start.Ready? then EndsAs(end, CertReload.Booted(v.disk, consumeFails))
                 else end.disk == v.disk && Idle(end)
  {
    RunOne(s, v, TryStart(start));
    RunTwo(s, v, TryStart(start), if consumeFails then ConsumeFails else Consume);
  }

  lemma {:induction false} RollbackOps(s: Renewal.Settings, v: Service, n: nat)
    requires v.stage.RollingBack? && n <= |v.stage.rest|
    ensures Run(s, v, Times(n, RollbackOp)) ==
            v.(disk := After(v.disk, v.stage.rest, n), stage := RollingBack(v.stage.rest[n..]))
  {
    if n > 0 {
      RollbackOps(s, v, n - 1);
      assert Times(n, RollbackOp)[..n - 1] == Times(n - 1, RollbackOp);
    }
  }

  /** All writes of what is left, and then the last start. */
  lemma RestRefines(s: Renewal.Settings, v: Service, rest: seq<Op>, third: Start)
    requires v.stage == RollingBack(rest) && Idle(v)
    ensures var end := Run(s, v, Times(|rest|, RollbackOp) + [LastStart(third)]);
            EndsAfter(s.o, end, Final(v.disk, rest), third.Ready?)
  {
    RollbackOps(s, v, |rest|);
    assert rest[|rest|..] == [];
    var rolled := v.(disk := Final(v.disk, rest), stage := RollingBack([]));
    RunConcat(s, v, Times(|rest|, RollbackOp), [LastStart(third)]);
    RunOne(s, rolled, LastStart(third));
  }

  /** Up to a failing write. */
  lemma FaultRefines(s: Renewal.Settings, v: Service, script: seq<Op>, k: nat)
    requires v.stage == RollingBack(script) && Idle(v) && k < |script|
    ensures Run(s, v, Times(k, RollbackOp) + [RollbackFault]) ==
            if script[k].RemoveIssue? then v.(disk := After(v.disk, script, k), stage := RollingBack(script[k + 1..]))
            else v.(disk := After(v.disk, script, k), stage := Down)
  {
    RollbackOps(s, v, k);
    var stuck := v.(disk := After(v.disk, script, k), stage := RollingBack(script[k..]));
    RunConcat(s, v, Times(k, RollbackOp), [RollbackFault]);
    RunOne(s, stuck, RollbackFault);
    assert script[k..][0] == script[k] && script[k..][1..] == script[k + 1..];
  }

  predicate EndsAfter(o: Oracle, end: Service, d: Disk, starts: bool) {
    && end.disk == d && end.child.None? && end.stray.None?
    && end.edge == if starts && Boots(o, d) then Some(Live(d)) else None
  }

  lemma SkipRefines(s: Renewal.Settings, v: Service, script: seq<Op>, third: Start)
    requires |script| == 7 && v.stage == RollingBack(script) && Idle(v) && script[4].RemoveIssue?
    ensures var end := Run(s, v, Times(4, RollbackOp) + [RollbackFault] + (Times(2, RollbackOp) + [LastStart(third)]));
            EndsAfter(s.o, end, Final(v.disk, script[..4] + script[5..]), third.Ready?)
  {
    var done, rest := script[..4], script[5..];
    var skipped := v.(disk := After(v.disk, script, 4), stage := RollingBack(rest));
    FaultRefines(s, v, script, 4);
    RunConcat(s, v, Times(4, RollbackOp) + [RollbackFault], Times(2, RollbackOp) + [LastStart(third)]);
    RestRefines(s, skipped, rest, third);
    AfterPrefix(v.disk, done, script[4..], 4);
    assert done + script[4..] == script;
    AfterConcat(v.disk, done, rest, 2);
  }

  lemma StopRefines(s: Renewal.Settings, v: Service, script: seq<Op>, k: nat)
    requires v.stage == RollingBack(script) && Idle(v) && k < |script| && !script[k].RemoveIssue?
    ensures var end := Run(s, v, Times(k, RollbackOp) + [RollbackFault]);
            EndsAfter(s.o, end, Final(v.disk, script[..k]), false)
  {
    FaultRefines(s, v, script, k);
    AfterPrefix(v.disk, script[..k], script[k..], k);
    assert script[..k] + script[k..] == script;
  }

  lemma OpsRefine(s: Renewal.Settings, v: Service, script: seq<Op>, fault: Option<nat>, third: Start)
    requires |script| == 7 && v.stage == RollingBack(script) && Idle(v)
    requires forall i :: 0 <= i < 7 && script[i].RemoveIssue? ==> i == 4
    ensures var end := Run(s, v, OpLabels(script, fault, third));
            EndsAfter(s.o, end, Final(v.disk, RollbackDone(script, fault)),
                      !RollbackStops(script, fault) && third.Ready?)
  {
    if !Faults(script, fault) {
      RestRefines(s, v, script, third);
    } else if RollbackStops(script, fault) {
      StopRefines(s, v, script, fault.value);
    } else {
      SkipRefines(s, v, script, third);
    }
  }

  lemma RollbackRefines(s: Renewal.Settings, v: Service, starts: Starts, now: u64)
    requires v.stage == Restarting(2) && Idle(v)
    ensures EndsAs(Run(s, v, RollbackLabels(s.o, v.disk, starts, now)),
                   RollBack(s.o, v.disk, Newest(v.disk), starts, now))
  {
    var newest := Newest(v.disk);
    RunOne(s, v, BeginRollback(now));
    if newest.Some? && MayRollBack(s.o, v.disk, newest.value) {
      var script := RollbackScript(v.disk, newest.value, now);
      var begun := v.(stage := RollingBack(script));
      RunConcat(s, v, [BeginRollback(now)], OpLabels(script, starts.rollbackFault, starts.third));
      OpsRefine(s, begun, script, starts.rollbackFault, starts.third);
    }
  }

  /** Undisturbed, the step-by-step restart does what the supervisor's method is specified to do, errors included. */
  lemma RestartRefines(s: Renewal.Settings, v: Service, starts: Starts, now: u64)
    requires v.stage == Restarting(0) && Idle(v)
    ensures EndsAs(Run(s, v, RestartLabels(s.o, v.disk, starts, now)),
                   Restart(s.o, v.disk, Newest(v.disk), starts, now))
  {
    TryRefines(s, v, starts.first, starts.consumeFails);
    if !Decided(s.o, v.disk, starts.first) {
      var once := v.(stage := Restarting(1));
      RunConcat(s, v, [TryStart(starts.first)], AgainLabels(s.o, v.disk, starts, now));
      AgainRefines(s, once, starts, now);
    }
  }

  lemma AgainRefines(s: Renewal.Settings, v: Service, starts: Starts, now: u64)
    requires v.stage == Restarting(1) && Idle(v)
    ensures EndsAs(Run(s, v, AgainLabels(s.o, v.disk, starts, now)),
                   TryAgain(s.o, v.disk, Newest(v.disk), starts, now))
  {
    TryRefines(s, v, starts.second, starts.consumeFails);
    if !Decided(s.o, v.disk, starts.second) {
      var twice := v.(stage := Restarting(2));
      RunConcat(s, v, [TryStart(starts.second)], RollbackLabels(s.o, v.disk, starts, now));
      RollbackRefines(s, twice, starts, now);
    }
  }

  /** The supervisor's labels when its renewal child is gone. */
  ghost function ReapLabels(o: Oracle, d: Disk, starts: Starts, now: u64): seq<Label> {
    if d.marker.None? then [Reap] else [Reap] + RestartLabels(o, d, starts, now)
  }

  /** Undisturbed, the steps after a reap do what the supervisor's method is specified to do. */
  lemma ReapRefines(s: Renewal.Settings, v: Service, starts: Starts, now: u64)
    requires v.stage.Monitoring? && v.edge.Some? && v.child.Some? && v.stray.None?
    ensures EndsAs(Run(s, v, ReapLabels(s.o, v.disk, starts, now)),
                   MaybeReload(s.o, v.disk, v.edge, Newest(v.disk), starts, now))
  {
    RunOne(s, v, Reap);
    if v.disk.marker.Some? {
      RunConcat(s, v, [Reap], RestartLabels(s.o, v.disk, starts, now));
      RestartRefines(s, Drained(v), starts, now);
    }
  }

  /** The supervisor's labels at boot; when removing an old marker fails there is no step before the service ends. */
  ghost function ReconcileLabels(o: Oracle, v: Service, starts: Starts, now: u64): seq<Label>
    requires v.stage.JustBooted?
  {
    if NewerThanBoot(v.disk, v.stage.bootEpoch) then [ReconcileMarker] + RestartLabels(o, v.disk, starts, now)
    else if v.disk.marker.Some? && starts.consumeFails then []
    else [ReconcileMarker]
  }

  /** Undisturbed, the steps after a boot do what the supervisor's method is specified to do with the marker. */
  lemma ReconcileRefines(s: Renewal.Settings, v: Service, starts: Starts, now: u64)
    requires v.stage.JustBooted? && v.edge.Some? && v.child.None? && v.stray.None?
    ensures EndsAs(Run(s, v, ReconcileLabels(s.o, v, starts, now)),
                   Reconcile(s.o, v.disk, v.edge, Newest(v.disk), v.stage.bootEpoch, starts, now))
  {
    RunOne(s, v, ReconcileMarker);
    if NewerThanBoot(v.disk, v.stage.bootEpoch) {
      var drained := Drained(v);
      RunConcat(s, v, [ReconcileMarker], RestartLabels(s.o, v.disk, starts, now));
      RestartRefines(s, drained, starts, now);
    }
  }

  lemma SpawnedAndKilled(s: Renewal.Settings, v: Service, call: Renewal.Call, n: nat)
    requires v.stage.Monitoring? && v.child.None? && v.outside == [] && v.stray.None?
    requires Renewal.AttemptOf(s, v.disk, call).outcome == Renewal.Renewed && 1 <= n <= 9
    ensures var issued := call.answer.value;
            var meta := IssueOf(issued, NotAfter(s.o, issued).value, s.policy.renewBefore);
            Run(s, v, [SpawnRenewal(call)] + Times(n, ChildStep) + [Reap]) ==
            Service(KilledAfter(v.disk, issued, meta, call.now, n), None, None, [], None, Restarting(0), v.committed)
  {
    var issued := call.answer.value;
    var meta := IssueOf(issued, NotAfter(s.o, issued).value, s.policy.renewBefore);
    var persist := PersistScript(issued, meta, call.now);
    var spawned := v.(child := Some(persist + [RemoveFailure]));
    var stepped := spawned.(disk := KilledAfter(v.disk, issued, meta, call.now, n),
        child := Some(spawned.child.value[n..]));
    RunOne(s, v, SpawnRenewal(call));
    ChildSteps(s, spawned, n);
    AfterPrefix(v.disk, persist, [RemoveFailure], n);
    PersistedAt(v.disk, issued, meta, call.now, n);
    RunOne(s, stepped, Reap);
    RunThree(s, v, spawned, stepped, [SpawnRenewal(call)], Times(n, ChildStep), [Reap]);
  }

  /** As a run of the service: spawn a renewal that would succeed, kill it after `n` operations, reap it, restart. */
  lemma KilledRenewalRun(s: Renewal.Settings, v: Service, call: Renewal.Call, n: nat, now: u64)
    requires v.stage.Monitoring? && v.child.None? && v.outside == [] && v.stray.None?
    requires Renewal.AttemptOf(s, v.disk, call).outcome == Renewal.Renewed && 1 <= n <= 9
    requires CanGoBack(s.o, v.disk, s.fqdn) && !s.o.boots(call.answer.value.cert, v.disk.key.value)
    requires forall e: nat :: Retained(v.disk, e) ==> e <= call.now
    ensures var issued := call.answer.value;
            var reaped := Run(s, v, [SpawnRenewal(call)] + Times(n, ChildStep) + [Reap]);
            var end := Run(s, reaped, RestartLabels(s.o, reaped.disk, ALL_READY, now));
            var renewed := n >= KEY_RENAMED && s.o.boots(issued.cert, issued.key);
            && end.child.None?
            && Running(end) == Some(if renewed then Pair(Some(issued.cert), Some(issued.key)) else Live(v.disk))
            && Running(end) == Some(Live(end.disk))
  {
    var issued := call.answer.value;
    var meta := IssueOf(issued, NotAfter(s.o, issued).value, s.policy.renewBefore);
    SpawnedAndKilled(s, v, call, n);
    var reaped := Run(s, v, [SpawnRenewal(call)] + Times(n, ChildStep) + [Reap]);
    RestartRefines(s, reaped, ALL_READY, now);
    KilledRenewalEndsServing(s.o, v.disk, issued, meta, call.now, n, now);
    PersistedAt(v.disk, issued, meta, call.now, n);
  }

  // ----- the latch, in the service -----

  /** No renewal is under way that could still write the failure record; a rollback or a manual issuance may. */
  predicate Quiet(v: Service) {
    && (v.child.None? || v.child.value == [])
    && (forall i :: 0 <= i < |v.outside| ==> !v.outside[i].WriteFailure?)
    && (v.stage.RollingBack? ==> forall i :: 0 <= i < |v.stage.rest| ==> LiftsOrSpares(v.stage.rest[i]))
  }

  predicate LiftsOrSpares(op: Op) {
    !op.RemoveFailure? && (op.WriteFailure? ==> op.failure.kind == ReloadRolledBack)
  }

  /** A rollback writes its own failure record, or a manual issuance ends and removes the record. */
  predicate Lifts(v: Service, l: Label) {
    || (l.RollbackOp? && v.stage.RollingBack? && v.stage.rest != [] && v.stage.rest[0].WriteFailure?)
    || (l.OutsideStep? && v.outside != [] && v.outside[0].RemoveFailure?)
  }

  lemma LatchedScript(s: Renewal.Settings, d: Disk, call: Renewal.Call)
    requires Renewal.Latched(d)
    ensures Renewal.AttemptOf(s, d, call).script == [] && !Renewal.AttemptOf(s, d, call).contacted
  {
  }

  lemma IssueWritesNoFailure(s: Renewal.Settings, issued: Issued, now: u64)
    requires NotAfter(s.o, issued).Ok?
    ensures forall i :: 0 <= i < |ManualScript(s, issued, now)| ==> !ManualScript(s, issued, now)[i].WriteFailure?
  {
  }

  predicate StartsSomething(l: Label) {
    l.SpawnRenewal? || l.ManualIssue? || l.BeginRollback?
  }

  lemma LatchedStart(s: Renewal.Settings, v: Service, l: Label)
    requires Quiet(v) && Renewal.Latched(v.disk) && StartsSomething(l)
    ensures Quiet(Apply(s, v, l)) && Apply(s, v, l).disk.failure == v.disk.failure
  {
    match l
    case SpawnRenewal(call) =>
      LatchedScript(s, v.disk, if LockFree(v) then call else call.(lockBusy := true));
    case ManualIssue(issued, now) =>
      if NotAfter(s.o, issued).Ok? {
        IssueWritesNoFailure(s, issued, now);
      }
    case _ =>
  }

  /** Steps that neither start anything nor perform a file operation of somebody's script. */
  lemma LatchIdleStep(s: Renewal.Settings, v: Service, l: Label)
    requires Quiet(v) && !StartsSomething(l) && !l.ChildStep? && !l.OutsideStep? && !l.RollbackOp?
    ensures Quiet(Apply(s, v, l)) && Apply(s, v, l).disk.failure == v.disk.failure
  {
  }

  /** One step keeps the latch and its record, or lifts the latch by rewriting the record. */
  lemma LatchStep(s: Renewal.Settings, v: Service, l: Label)
    requires Quiet(v) && Renewal.Latched(v.disk)
    ensures if Lifts(v, l) then !Renewal.Latched(Apply(s, v, l).disk)
            else Quiet(Apply(s, v, l)) && Apply(s, v, l).disk.failure == v.disk.failure
  {
    if l.OutsideStep? {
      if v.outside != [] {
        Renewal.ExecSpares(v.disk, v.outside[0]);
      }
    } else if l.RollbackOp? {
      if v.stage.RollingBack? && v.stage.rest != [] {
        Renewal.ExecSpares(v.disk, v.stage.rest[0]);
      }
    } else if StartsSomething(l) {
      LatchedStart(s, v, l);
    } else if !l.ChildStep? {
      LatchIdleStep(s, v, l);
    }
  }

  ghost predicate NeverLifted(s: Renewal.Settings, v: Service, labels: seq<Label>) {
    forall i :: 0 <= i < |labels| ==> !Lifts(Run(s, v, labels[..i]), labels[i])
  }

  /**
   In every run of the service a latched record stays as it is, and no renewal that is spawned contacts the issuer,
   exactly until a rollback or a manual issuance rewrites the record: that very step lifts the latch.
   */
  lemma {:induction false} LatchHoldsUntilRewritten(s: Renewal.Settings, v: Service, labels: seq<Label>, l: Label)
    requires Quiet(v) && Renewal.Latched(v.disk) && NeverLifted(s, v, labels)
    ensures var w := Run(s, v, labels);
            && Quiet(w) && w.disk.failure == v.disk.failure && Renewal.Latched(w.disk)
            && (forall call :: !Renewal.AttemptOf(s, w.disk, call).contacted)
            && (Renewal.Latched(Apply(s, w, l).disk) <==> !Lifts(w, l))
    decreases |labels|
  {
    if labels != [] {
      var before, last := labels[..|labels| - 1], labels[|labels| - 1];
      forall i | 0 <= i < |before|
        ensures !Lifts(Run(s, v, before[..i]), before[i])
      {
        assert before[..i] == labels[..i];
        assert !Lifts(Run(s, v, labels[..i]), labels[i]);
      }
      LatchHoldsUntilRewritten(s, v, before, last);
      assert !Lifts(Run(s, v, labels[..|labels| - 1]), labels[|labels| - 1]);
      LatchStep(s, Run(s, v, before), last);
    }
    LatchStep(s, Run(s, v, labels), l);
    forall call
      ensures !Renewal.AttemptOf(s, Run(s, v, labels).disk, call).contacted
    {
      LatchedScript(s, Run(s, v, labels).disk, call);
    }
  }
}
