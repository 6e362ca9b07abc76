/** The supervisor's side of a renewal: restart the edge on new material, retry, roll back, consume the marker. */
module CertReload {
  import opened Common
  import opened AcmeBackoff
  import opened AcmeState
  import Renewal

  /** What an edge loaded when it started. */
  datatype Pair = Pair(cert: Option<Pem>, key: Option<Pem>)

  function Live(d: Disk): Pair {
    Pair(d.cert, d.key)
  }

  predicate Boots(o: Oracle, d: Disk) {
    Present(d) && o.boots(d.cert.value, d.key.value)
  }

  /** What else can happen when the supervisor starts an edge; `Ready` still needs a pair the edge boots on. */
  datatype Start = ShutdownRequested | SpawnError | NotReady | Ready

  datatype Restarted = Restarted(disk: Disk, edge: Option<Pair>, ok: bool)

  /** How the starts of a restart turn out, whether removing the marker fails, and which write of a rollback fails. */
  datatype Starts = Starts(
    first: Start, second: Start, third: Start, consumeFails: bool, rollbackFault: Option<nat>)

  function RollBack(o: Oracle, d: Disk, epoch: Option<nat>, starts: Starts, now: u64): Restarted
    requires epoch.Some? ==> Retained(d, epoch.value)
  {
    if epoch.None? || !MayRollBack(o, d, epoch.value) then Restarted(d, None, false)
    else
      var script := RollbackScript(d, epoch.value, now);
      var d' := Final(d, RollbackDone(script, starts.rollbackFault));
      if RollbackStops(script, starts.rollbackFault) then Restarted(d', None, false)
      else if starts.third.ShutdownRequested? then Restarted(d', None, true)
      else if starts.third.Ready? && Boots(o, d') then Restarted(d', Some(Live(d')), true)
      else Restarted(d', None, false)
  }

  /** The live pair booted; the marker is removed, unless that fails and the error ends the service. */
  function Booted(d: Disk, consumeFails: bool): Restarted {
    Restarted(if consumeFails then d else Exec(d, RemoveMarker), Some(Live(d)), !consumeFails)
  }

  /** The second try on the pair that is there, then the newest retained pair. */
  function TryAgain(o: Oracle, d: Disk, epoch: Option<nat>, starts: Starts, now: u64): Restarted
    requires epoch.Some? ==> Retained(d, epoch.value)
  {
    if starts.second.ShutdownRequested? then Restarted(d, None, true)
    else if starts.second.SpawnError? then Restarted(d, None, false)
    else if starts.second.Ready? && Boots(o, d) then Booted(d, starts.consumeFails)
    else RollBack(o, d, epoch, starts, now)
  }

  /** Two tries on the pair that is there, then the newest retained pair. */
  function Restart(o: Oracle, d: Disk, epoch: Option<nat>, starts: Starts, now: u64): Restarted
    requires epoch.Some? ==> Retained(d, epoch.value)
  {
    if starts.first.ShutdownRequested? then Restarted(d, None, true)
    else if starts.first.SpawnError? then Restarted(d, None, false)
    else if starts.first.Ready? && Boots(o, d) then Booted(d, starts.consumeFails)
    else TryAgain(o, d, epoch, starts, now)
  }

  function MaybeReload(o: Oracle, d: Disk, edge: Option<Pair>, epoch: Option<nat>, starts: Starts, now: u64): Restarted
    requires epoch.Some? ==> Retained(d, epoch.value)
  {
    if d.marker.None? then Restarted(d, edge, true) else Restart(o, d, epoch, starts, now)
  }

  /** A marker no newer than the boot is already satisfied by the edge that just booted. */
  function Reconcile(o: Oracle, d: Disk, edge: Option<Pair>, epoch: Option<nat>, bootEpoch: nat, starts: Starts,
      now: u64): Restarted
    requires epoch.Some? ==> Retained(d, epoch.value)
  {
    if d.marker.None? then Restarted(d, edge, true)
    else if d.marker.value <= bootEpoch then
      Restarted(if starts.consumeFails then d else Exec(d, RemoveMarker), edge, !starts.consumeFails)
    else Restart(o, d, epoch, starts, now)
  }

  predicate NewerThanBoot(d: Disk, bootEpoch: nat) {
    d.marker.Some? && d.marker.value > bootEpoch
  }

  /**
   What a boot makes of the marker.  One that is no newer than the boot never restarts the edge and is gone afterwards,
   unless removing it failed.  After a newer one no old edge runs on: the edge that is up has loaded what is on disk,
   and the marker is gone exactly if the pair is the one that was there.
   */
  predicate Settles(d: Disk, edge: Option<Pair>, bootEpoch: nat, d': Disk, edge': Option<Pair>, ok: bool) {
    if NewerThanBoot(d, bootEpoch) then
      && (edge'.Some? ==> edge' == Some(Live(d')))
      && (d'.marker.None? ==> edge'.Some? && Live(d') == Live(d))
      && (ok && edge'.Some? && d'.marker.Some? ==> d'.marker == d.marker)
    else edge' == edge && (if ok then d' == d.(marker := None) else d' == d)
  }

  /** An edge that a restart leaves running has loaded what is on disk. */
  lemma RestartLoadsDisk(o: Oracle, d: Disk, epoch: Option<nat>, starts: Starts, now: u64)
    requires epoch.Some? ==> Retained(d, epoch.value)
    ensures var r := Restart(o, d, epoch, starts, now);
            && (r.edge.Some? ==> r.edge == Some(Live(r.disk)))
            && (d.marker.Some? && r.disk.marker.None? ==> r.edge.Some? && Live(r.disk) == Live(d))
            && (r.disk.marker.Some? ==> r.disk.marker == d.marker)
  {
    if epoch.Some? && MayRollBack(o, d, epoch.value) {
      RollbackKeepsMarker(d, epoch.value, now, starts.rollbackFault);
    }
  }

  lemma RollbackKeepsMarker(d: Disk, epoch: nat, now: u64, fault: Option<nat>)
    requires Retained(d, epoch)
    ensures Final(d, RollbackDone(RollbackScript(d, epoch, now), fault)).marker == d.marker
  {
    var done := RollbackDone(RollbackScript(d, epoch, now), fault);
    SparedMarkerStays(d, done, |done|);
  }

  lemma {:induction false} SparedMarkerStays(d: Disk, script: seq<Op>, n: nat)
    requires n <= |script| && forall i :: 0 <= i < |script| ==> !script[i].WriteMarker? && !script[i].RemoveMarker?
    ensures After(d, script, n).marker == d.marker
  {
    if n > 0 {
      SparedMarkerStays(d, script, n - 1);
      SparesMarker(After(d, script, n - 1), script[n - 1]);
    }
  }

  lemma SparesMarker(d: Disk, op: Op)
    requires !op.WriteMarker? && !op.RemoveMarker?
    ensures Exec(d, op).marker == d.marker
  {
  }

  lemma ReconcileSettles(o: Oracle, d: Disk, edge: Option<Pair>, epoch: Option<nat>, bootEpoch: nat, starts: Starts,
      now: u64)
    requires epoch.Some? ==> Retained(d, epoch.value)
    ensures var r := Reconcile(o, d, edge, epoch, bootEpoch, starts, now);
            Settles(d, edge, bootEpoch, r.disk, r.edge, r.ok)
  {
    RestartLoadsDisk(o, d, epoch, starts, now);
  }

  // ----- the supervisor's methods -----

  class Supervisor {
    const o: Oracle
    const dir: StateDir
    var edge: Option<Pair>

    constructor (o: Oracle, dir: StateDir)
      ensures this.o == o && this.dir == dir && edge == None
    {
      this.o, this.dir, edge := o, dir, None;
    }

    method ConsumeMarker(fails: bool) returns (ok: bool)
      requires dir.Valid()
      modifies dir
      ensures dir.Valid() && ok == !fails
      ensures dir.disk == if fails then old(dir.disk) else Exec(old(dir.disk), RemoveMarker)
    {
      if !fails {
        dir.Do(RemoveMarker);
      }
      return !fails;
    }

    /** Drains the edge, then fills the slot again; `entries` lists the retained certificates. */
    method RestartEdge(starts: Starts, entries: seq<nat>, now: u64) returns (ok: bool)
      requires dir.Valid() && forall e :: e in entries <==> e in dir.disk.retainedCert
      modifies this, dir
      ensures dir.Valid()
      ensures forall epoch :: IsNewest(old(dir.disk), epoch) ==>
              Restarted(dir.disk, edge, ok) == Restart(o, old(dir.disk), epoch, starts, now)
    {
      edge := None;
      for i := 0 to 2
        invariant dir.Valid() && dir.disk == old(dir.disk) && edge == None
        invariant i >= 1 ==> starts.first.NotReady? || (starts.first.Ready? && !Boots(o, dir.disk))
        invariant i >= 2 ==> starts.second.NotReady? || (starts.second.Ready? && !Boots(o, dir.disk))
      {
        var start := if i == 0 then starts.first else starts.second;
        if start.ShutdownRequested? {
          return true;
        }
        if start.SpawnError? {
          return false;
        }
        if start.Ready? && Boots(o, dir.disk) {
          edge := Some(Live(dir.disk));
          ok := ConsumeMarker(starts.consumeFails);
          return;
        }
      }
      var rolledBack, _ := dir.RollbackToRetainedPair(o, entries, now, starts.rollbackFault);
      if !rolledBack {
        return false;
      }
      if starts.third.ShutdownRequested? {
        return true;
      }
      if starts.third.Ready? && Boots(o, dir.disk) {
        edge := Some(Live(dir.disk));
        return true;
      }
      return false;
    }

    method MaybeReloadEdge(starts: Starts, entries: seq<nat>, now: u64) returns (ok: bool)
      requires dir.Valid() && forall e :: e in entries <==> e in dir.disk.retainedCert
      modifies this, dir
      ensures dir.Valid()
      ensures forall epoch :: IsNewest(old(dir.disk), epoch) ==>
              Restarted(dir.disk, edge, ok) == MaybeReload(o, old(dir.disk), old(edge), epoch, starts, now)
      ensures old(dir.disk).marker.None? ==> ok && edge == old(edge) && dir.disk == old(dir.disk)
      ensures old(dir.disk).marker.Some? ==>
              && (edge.Some? ==> edge == Some(Live(dir.disk)))
              && (dir.disk.marker.None? ==> edge.Some? && Live(dir.disk) == old(Live(dir.disk)))
    {
      RestartLoadsDisk(o, dir.disk, Newest(dir.disk), starts, now);
      if dir.disk.marker.None? {
        return true;
      }
      ok := RestartEdge(starts, entries, now);
    }

    method ReconcileBootMarker(bootEpoch: nat, starts: Starts, entries: seq<nat>, now: u64) returns (ok: bool)
      requires dir.Valid() && forall e :: e in entries <==> e in dir.disk.retainedCert
      modifies this, dir
      ensures dir.Valid()
      ensures forall epoch :: IsNewest(old(dir.disk), epoch) ==>
              Restarted(dir.disk, edge, ok) == Reconcile(o, old(dir.disk), old(edge), epoch, bootEpoch, starts, now)
      ensures Settles(old(dir.disk), old(edge), bootEpoch, dir.disk, edge, ok)
    {
      ghost var newest := Newest(dir.disk);
      ReconcileSettles(o, dir.disk, edge, newest, bootEpoch, starts, now);
      if dir.disk.marker.None? {
        return true;
      }
      if dir.disk.marker.value <= bootEpoch {
        ok := ConsumeMarker(starts.consumeFails);
        return;
      }
      ok := RestartEdge(starts, entries, now);
    }
  }

  // ----- the newest retained pair -----

  lemma {:induction false} MaxExists(s: set<nat>)
    requires s != {}
    ensures exists m :: m in s && forall f :: f in s ==> f <= m
  {
    var x :| x in s;
    if s == {x} {
      assert x in s;
    } else {
      var rest := s - {x};
      assert s == rest + {x};
      MaxExists(rest);
      var m :| m in rest && forall f :: f in rest ==> f <= m;
      var top := if m > x then m else x;
      assert top in s && forall f :: f in s ==> f <= top;
    }
  }

  ghost function Newest(d: Disk): (newest: Option<nat>)
    ensures IsNewest(d, newest)
  {
    var epochs := set e: nat | e in d.retainedCert && Retained(d, e);
    if epochs == {} then
      assert forall f: nat :: Retained(d, f) ==> f in epochs;
      None
    else
      MaxExists(epochs);
      assert forall f: nat :: Retained(d, f) ==> f in epochs;
      var m :| m in epochs && forall f :: f in epochs ==> f <= m;
      Some(m)
  }

  // ----- a renewal killed anywhere -----

  lemma NewestIs(d: Disk, epoch: nat)
    requires Retained(d, epoch) && forall f: nat :: Retained(d, f) ==> f <= epoch
    ensures Newest(d) == Some(epoch)
  {
    var newest := Newest(d);
    assert newest.Some? ==> Retained(d, newest.value);
  }

  /** The state the supervisor finds when it reaps a renewal that performed `n` operations. */
  function KilledAfter(d0: Disk, issued: Issued, meta: Issue, now: nat, n: nat): Disk
    requires n <= |PersistScript(issued, meta, now)|
  {
    After(d0, PersistScript(issued, meta, now), n)
  }

  /** The pair from before, good enough to go back to. */
  predicate CanGoBack(o: Oracle, d0: Disk, fqdn: string) {
    && Boots(o, d0) && d0.issue.Some?
    && o.valid(d0.cert.value, d0.key.value, d0.issue.value.fqdn)
    && o.valid(d0.cert.value, d0.key.value, fqdn)
  }

  const ALL_READY := Starts(Ready, Ready, Ready, false, None)

  /**
   Wherever a renewal is killed, the restart that follows ends with an edge serving a whole pair, which is the one on
   disk: the new pair once both renames are done and the edge boots on it, the previous pair otherwise.
   */
  lemma KilledRenewalEndsServing(o: Oracle, d0: Disk, issued: Issued, meta: Issue, renewedAt: nat, n: nat, now: u64)
    requires n <= |PersistScript(issued, meta, renewedAt)| && n >= 1
    requires CanGoBack(o, d0, issued.fqdn) && meta.fqdn == issued.fqdn
    requires !o.boots(issued.cert, d0.key.value)
    requires forall e: nat :: Retained(d0, e) ==> e <= renewedAt
    ensures var d := KilledAfter(d0, issued, meta, renewedAt, n);
            var r := MaybeReload(o, d, Some(Live(d0)), Newest(d), ALL_READY, now);
            var renewed := n >= KEY_RENAMED && o.boots(issued.cert, issued.key);
            && r.ok
            && r.edge == Some(if renewed then Pair(Some(issued.cert), Some(issued.key)) else Live(d0))
            && r.edge == Some(Live(r.disk))
            && (n < CERT_RENAMED || renewed ==> r.disk.marker.None?)
            && (n >= CERT_RENAMED && !renewed ==> r.disk.marker == Some(renewedAt) && r.disk.issue == d0.issue)
  {
    var d := KilledAfter(d0, issued, meta, renewedAt, n);
    PersistedAt(d0, issued, meta, renewedAt, n);
    if n >= CERT_RENAMED {
      forall f: nat | Retained(d, f)
        ensures f <= renewedAt
      {
        assert f == renewedAt || Retained(d0, f);
      }
      NewestIs(d, renewedAt);
      RolledBackAt(d, renewedAt, now, |RollbackScript(d, renewedAt, now)|);
    }
  }

  /**
   The rollback takes the largest retained time stamp, so a clock that stepped back between two renewals makes it skip
   the pair just retained.  Whenever it comes to a rollback then, the previous pair is served if and only if the
   largest stamp happens to hold that very pair.
   */
  lemma ClockMustNotRunBack(o: Oracle, d0: Disk, issued: Issued, meta: Issue, renewedAt: nat, n: nat, newest: nat,
      now: u64)
    requires CERT_RENAMED <= n <= |PersistScript(issued, meta, renewedAt)|
    requires CanGoBack(o, d0, issued.fqdn) && meta.fqdn == issued.fqdn
    requires !o.boots(issued.cert, if n >= KEY_RENAMED then issued.key else d0.key.value)
    requires IsNewest(d0, Some(newest)) && newest > renewedAt
    ensures var d := KilledAfter(d0, issued, meta, renewedAt, n);
            var r := MaybeReload(o, d, Some(Live(d0)), Newest(d), ALL_READY, now);
            r.edge == Some(Live(d0)) <==>
                d0.retainedCert[newest] == d0.cert.value && d0.retainedKey[newest] == d0.key.value
  {
    var d := KilledAfter(d0, issued, meta, renewedAt, n);
    PersistedAt(d0, issued, meta, renewedAt, n);
    forall f: nat | Retained(d, f)
      ensures f <= newest
    {
      assert f == renewedAt || Retained(d0, f);
    }
    NewestIs(d, newest);
    RolledBackAt(d, newest, now, |RollbackScript(d, newest, now)|);
  }
}
