/**
 The certificate state directory: a fixed set of files, each replaced by one atomic rename.

 Every writer is a script of such operations, and a crash or an I/O error can stop it after any number of them.  A
 temporary file carries the writer's process number and nobody else reads it, so staging changes none of the files
 modelled here.  A single-file write is staged and renamed in one operation; the two halves of a certificate pair are
 staged first and renamed afterwards.
 */
module AcmeState {
  import opened Common
  import opened AcmeBackoff

  type Pem = string

  datatype Issued = Issued(fqdn: string, cert: Pem, key: Pem, notAfter: Option<u64>)

  /** last-issue.json */
  datatype Issue = Issue(fqdn: string, notAfter: Option<u64>, nextRenewal: Option<u64>)

  datatype Disk = Disk(
    cert: Option<Pem>, key: Option<Pem>, issue: Option<Issue>, failure: Option<Failure>,
    marker: Option<nat>,                       // reload-required.json, with its time stamp
    reloadFailure: bool,
    retainedCert: map<nat, Pem>, retainedKey: map<nat, Pem>, retainedIssue: map<nat, Issue>)

  /** What the model does not look into: certificate parsing, pair validation and whether an edge boots on a pair. */
  datatype Oracle = Oracle(
    parse: Pem -> Result<Option<u64>, ()>,
    valid: (Pem, Pem, string) -> bool,
    boots: (Pem, Pem) -> bool)

  datatype Op =
    | WriteMarker(at: nat)
    | RemoveMarker
    | RetainCert(epoch: nat)
    | RetainKey(epoch: nat)
    | RetainIssue(epoch: nat)
    | StageCert(pem: Pem)
    | StageKey(pem: Pem)
    | CommitCert(pem: Pem)
    | CommitKey(pem: Pem)
    | WriteIssue(issue: Issue)
    | RemoveIssue
    | WriteReloadFailure
    | WriteFailure(failure: Failure)
    | RemoveFailure

  /** A copy into `retained`, when there is something to copy. */
  function Copied<T>(m: map<nat, T>, epoch: nat, file: Option<T>): map<nat, T> {
    if file.Some? then m[epoch := file.value] else m
  }

  /** Nothing is retained when there is neither a certificate nor a key. */
  predicate HasMaterial(d: Disk) {
    d.cert.Some? || d.key.Some?
  }

  function Exec(d: Disk, op: Op): Disk {
    match op
    case WriteMarker(at) => d.(marker := Some(at))
    case RemoveMarker => d.(marker := None)
    case RetainCert(epoch) => d.(retainedCert := Copied(d.retainedCert, epoch, d.cert))
    case RetainKey(epoch) => d.(retainedKey := Copied(d.retainedKey, epoch, d.key))
    case RetainIssue(epoch) =>
      if HasMaterial(d) then d.(retainedIssue := Copied(d.retainedIssue, epoch, d.issue)) else d
    case StageCert(_) => d
    case StageKey(_) => d
    case CommitCert(pem) => d.(cert := Some(pem))
    case CommitKey(pem) => d.(key := Some(pem))
    case WriteIssue(issue) => d.(issue := Some(issue))
    case RemoveIssue => d.(issue := None)
    case WriteReloadFailure => d.(reloadFailure := true)
    case WriteFailure(failure) => d.(failure := Some(failure))
    case RemoveFailure => d.(failure := None)
  }

  /** The disk when a writer stops after the first `n` operations. */
  function After(d: Disk, script: seq<Op>, n: nat): Disk
    requires n <= |script|
  {
    if n == 0 then d else Exec(After(d, script, n - 1), script[n - 1])
  }

  function Final(d: Disk, script: seq<Op>): Disk {
    After(d, script, |script|)
  }

  // ----- issuance -----

  function IssueOf(issued: Issued, notAfter: Option<u64>, renewBefore: u64): Issue {
    Issue(issued.fqdn, notAfter, if notAfter.Some? then Some(SaturatingSub(notAfter.value, renewBefore)) else None)
  }

  /** The marker comes first, then what is there is retained, then the pair is swapped, then it is described. */
  function PersistScript(issued: Issued, meta: Issue, now: nat): seq<Op> {
    [WriteMarker(now), RetainCert(now), RetainKey(now), RetainIssue(now),
     StageCert(issued.cert), StageKey(issued.key), CommitCert(issued.cert), CommitKey(issued.key), WriteIssue(meta)]
  }

  function NotAfter(o: Oracle, issued: Issued): Result<Option<u64>, ()> {
    if issued.notAfter.Some? then Ok(issued.notAfter) else o.parse(issued.cert)
  }

  // ----- crash points -----

  const CERT_RENAMED := 7
  const KEY_RENAMED := 8

  /** The live files after `n` operations. */
  predicate PersistedLive(d0: Disk, d: Disk, issued: Issued, meta: Issue, now: nat, n: nat) {
    && d.marker == (if n >= 1 then Some(now) else d0.marker)
    && d.cert == (if n >= CERT_RENAMED then Some(issued.cert) else d0.cert)
    && d.key == (if n >= KEY_RENAMED then Some(issued.key) else d0.key)
    && d.issue == (if n >= 9 then Some(meta) else d0.issue)
    && d.failure == d0.failure && d.reloadFailure == d0.reloadFailure
  }

  /** The retained files after `n` operations. */
  predicate PersistedCopies(d0: Disk, d: Disk, now: nat, n: nat) {
    && d.retainedCert == (if n >= 2 then Copied(d0.retainedCert, now, d0.cert) else d0.retainedCert)
    && d.retainedKey == (if n >= 3 then Copied(d0.retainedKey, now, d0.key) else d0.retainedKey)
    && d.retainedIssue ==
       (if n >= 4 && HasMaterial(d0) then Copied(d0.retainedIssue, now, d0.issue) else d0.retainedIssue)
  }

  /** The disk after `n` operations, file by file. */
  predicate Persisted(d0: Disk, d: Disk, issued: Issued, meta: Issue, now: nat, n: nat) {
    PersistedLive(d0, d, issued, meta, now, n) && PersistedCopies(d0, d, now, n)
  }

  lemma {:induction false} PersistedAt(d0: Disk, issued: Issued, meta: Issue, now: nat, n: nat)
    requires n <= |PersistScript(issued, meta, now)|
    ensures Persisted(d0, After(d0, PersistScript(issued, meta, now), n), issued, meta, now, n)
  {
    if n > 0 {
      PersistedAt(d0, issued, meta, now, n - 1);
      var d := After(d0, PersistScript(issued, meta, now), n - 1);
      LiveStep(d0, d, issued, meta, now, n - 1);
      CopiesStep(d0, d, issued, meta, now, n - 1);
    }
  }

  lemma LiveStep(d0: Disk, d: Disk, issued: Issued, meta: Issue, now: nat, n: nat)
    requires n < 9 && PersistedLive(d0, d, issued, meta, now, n)
    ensures PersistedLive(d0, Exec(d, PersistScript(issued, meta, now)[n]), issued, meta, now, n + 1)
  {
  }

  lemma CopiesStep(d0: Disk, d: Disk, issued: Issued, meta: Issue, now: nat, n: nat)
    requires n < 9 && PersistedCopies(d0, d, now, n)
             && (n < 4 ==> d.cert == d0.cert && d.key == d0.key && d.issue == d0.issue)
    ensures PersistedCopies(d0, Exec(d, PersistScript(issued, meta, now)[n]), now, n + 1)
  {
  }

  predicate PairIs(d: Disk, cert: Option<Pem>, key: Option<Pem>) {
    d.cert == cert && d.key == key
  }

  /** The old material is complete under `retained`. */
  predicate RetainedAt(d: Disk, d0: Disk, epoch: nat) {
    && (d0.cert.Some? ==> epoch in d.retainedCert && d.retainedCert[epoch] == d0.cert.value)
    && (d0.key.Some? ==> epoch in d.retainedKey && d.retainedKey[epoch] == d0.key.value)
    && (d0.issue.Some? && HasMaterial(d0) ==> epoch in d.retainedIssue && d.retainedIssue[epoch] == d0.issue.value)
  }

  /**
   At every point where issuance can stop: changed material has its marker; new metadata has the whole
   new pair; and the pair is the old one or the new one, except at the one point between the
   two renames, where everything old is complete under `retained`.
   */
  lemma CrashPoints(d0: Disk, issued: Issued, meta: Issue, now: nat, n: nat)
    requires n <= |PersistScript(issued, meta, now)|
    ensures var d := After(d0, PersistScript(issued, meta, now), n);
            && (!PairIs(d, d0.cert, d0.key) ==> d.marker == Some(now))
            && (d.issue != d0.issue ==> PairIs(d, Some(issued.cert), Some(issued.key)))
            && (if n == CERT_RENAMED then PairIs(d, Some(issued.cert), d0.key) && RetainedAt(d, d0, now)
                else if n < CERT_RENAMED then PairIs(d, d0.cert, d0.key) && d.issue == d0.issue
                else PairIs(d, Some(issued.cert), Some(issued.key)) && RetainedAt(d, d0, now))
            && d.failure == d0.failure
  {
    PersistedAt(d0, issued, meta, now, n);
  }

  // ----- status -----

  function FirstOf<T>(a: Option<T>, b: Option<T>): Option<T> {
    if a.Some? then a else b
  }

  function Present(d: Disk): bool {
    d.cert.Some? && d.key.Some?
  }

  function StatusNotAfter(o: Oracle, d: Disk): Option<nat> {
    FirstOf(if d.issue.Some? then d.issue.value.notAfter else None,
            if Present(d) && o.parse(d.cert.value).Ok? then o.parse(d.cert.value).value else None)
  }

  function NextRenewal(o: Oracle, d: Disk, renewBefore: nat): Option<nat> {
    FirstOf(if d.issue.Some? then d.issue.value.nextRenewal else None,
            if StatusNotAfter(o, d).Some? then Some(SaturatingSub(StatusNotAfter(o, d).value, renewBefore)) else None)
  }

  function RenewalDue(o: Oracle, d: Disk, now: nat, renewBefore: nat): bool {
    !Present(d) || (NextRenewal(o, d, renewBefore).Some? ==> now >= NextRenewal(o, d, renewBefore).value)
  }

  /** When the metadata itself says to renew; no certificate needs to be parsed then. */
  function Schedule(issue: Option<Issue>, renewBefore: nat): Option<nat> {
    if issue.None? then None
    else
      var Issue(_, notAfter, next) := issue.value;
      FirstOf(next, if notAfter.Some? then Some(SaturatingSub(notAfter.value, renewBefore)) else None)
  }

  predicate CertDue(o: Oracle, cert: Pem, now: nat, renewBefore: nat) {
    o.parse(cert).Ok? && o.parse(cert).value.Some? ==> now >= SaturatingSub(o.parse(cert).value.value, renewBefore)
  }

  /** Whether a half-installed pair, the new certificate beside the old key, still counts as due. */
  predicate HalfDue(o: Oracle, d0: Disk, cert: Pem, later: nat, renewBefore: nat) {
    d0.key.Some? ==>
      match Schedule(d0.issue, renewBefore)
      case Some(next) => later >= next
      case None => CertDue(o, cert, later, renewBefore)
  }

  /**
   A due renewal that stops anywhere is either complete, with its marker, or still due at every later
   time, when the metadata describes every pair there was.  Without that assumption the
   only stop that can hide the renewal is the one between the renames, exactly when the half-installed pair is not due.
   */
  lemma StoppedRenewalStaysDue(o: Oracle, d0: Disk, issued: Issued, meta: Issue, now: nat, n: nat, later: nat,
      renewBefore: nat)
    requires n <= |PersistScript(issued, meta, now)|
    requires RenewalDue(o, d0, now, renewBefore) && now <= later
    ensures var d := After(d0, PersistScript(issued, meta, now), n);
            var complete := PairIs(d, Some(issued.cert), Some(issued.key)) && d.marker == Some(now);
            && (n != CERT_RENAMED ==> complete || RenewalDue(o, d, later, renewBefore))
            && (n == CERT_RENAMED ==> (RenewalDue(o, d, later, renewBefore) <==>
               HalfDue(o, d0, issued.cert, later, renewBefore)))
            && ((d0.key.Some? ==> d0.cert.Some? && Schedule(d0.issue, renewBefore).Some?) ==>
               complete || RenewalDue(o, d, later, renewBefore))
  {
    PersistedAt(d0, issued, meta, now, n);
  }

  /**
   Such a hidden renewal: no metadata, an old certificate that is due, a new one that is not.  Stopped between its two
   renames, the renewal leaves a mismatched pair that the status does not report as due.
   */
  lemma StoppedRenewalCanHide(o: Oracle, d0: Disk, issued: Issued, meta: Issue, now: u64, renewBefore: u64)
    requires Present(d0) && d0.issue.None?
    requires o.parse(d0.cert.value) == Ok(Some(now)) && o.parse(issued.cert) == Ok(Some(U64_MAX))
             && now + renewBefore < U64_MAX
    ensures RenewalDue(o, d0, now, renewBefore)
    ensures var d := After(d0, PersistScript(issued, meta, now), CERT_RENAMED);
            PairIs(d, Some(issued.cert), d0.key) && !RenewalDue(o, d, now, renewBefore)
  {
    PersistedAt(d0, issued, meta, now, CERT_RENAMED);
  }

  // ----- rollback -----

  predicate Retained(d: Disk, epoch: nat) {
    epoch in d.retainedCert && epoch in d.retainedKey
  }

  ghost predicate IsNewest(d: Disk, newest: Option<nat>) {
    match newest
    case Some(e) => Retained(d, e) && forall f: nat :: Retained(d, f) ==> f <= e
    case None => forall f: nat :: !Retained(d, f)
  }

  function RolledBackIssue(d: Disk, epoch: nat): Op {
    if epoch in d.retainedIssue then WriteIssue(d.retainedIssue[epoch]) else RemoveIssue
  }

  function RollbackScript(d: Disk, epoch: nat, now: u64): seq<Op>
    requires Retained(d, epoch)
  {
    var cert, key := d.retainedCert[epoch], d.retainedKey[epoch];
    [StageCert(cert), StageKey(key), CommitCert(cert), CommitKey(key), RolledBackIssue(d, epoch),
     WriteReloadFailure, WriteFailure(NextFailure(d.failure, now, DEFAULT_POLICY, ReloadRolledBack))]
  }

  /** The retained pair is checked against the name in the metadata that is live at the time. */
  predicate MayRollBack(o: Oracle, d: Disk, epoch: nat)
    requires Retained(d, epoch)
  {
    o.valid(d.retainedCert[epoch], d.retainedKey[epoch], if d.issue.Some? then d.issue.value.fqdn else "")
  }

  /** The disk after `n` operations of a rollback. */
  predicate RolledBack(d0: Disk, d: Disk, epoch: nat, n: nat)
    requires Retained(d0, epoch)
  {
    && d.marker == d0.marker
    && d.retainedCert == d0.retainedCert && d.retainedKey == d0.retainedKey && d.retainedIssue == d0.retainedIssue
    && d.cert == (if n >= 3 then Some(d0.retainedCert[epoch]) else d0.cert)
    && d.key == (if n >= 4 then Some(d0.retainedKey[epoch]) else d0.key)
    && d.issue ==
       (if n < 5 then d0.issue else if epoch in d0.retainedIssue then Some(d0.retainedIssue[epoch]) else None)
    && (n >= 7 ==> d.failure.Some? && d.failure.value.kind == ReloadRolledBack)
  }

  lemma {:induction false} RolledBackAt(d0: Disk, epoch: nat, now: u64, n: nat)
    requires Retained(d0, epoch) && n <= |RollbackScript(d0, epoch, now)|
    ensures RolledBack(d0, After(d0, RollbackScript(d0, epoch, now), n), epoch, n)
  {
    if n > 0 {
      RolledBackAt(d0, epoch, now, n - 1);
      RollbackStep(d0, After(d0, RollbackScript(d0, epoch, now), n - 1), epoch, now, n - 1);
    }
  }

  lemma RollbackStep(d0: Disk, d: Disk, epoch: nat, now: u64, n: nat)
    requires Retained(d0, epoch) && n < 7 && RolledBack(d0, d, epoch, n)
    ensures RolledBack(d0, Exec(d, RollbackScript(d0, epoch, now)[n]), epoch, n + 1)
  {
  }

  /** Rolling back right after a completed issuance undoes it: pair and metadata are the ones from before. */
  lemma RollbackUndoesIssuance(d0: Disk, issued: Issued, meta: Issue, now: nat, later: u64)
    requires Present(d0)
    ensures var d := Final(d0, PersistScript(issued, meta, now));
            && Retained(d, now)
            && var back := Final(d, RollbackScript(d, now, later));
               && PairIs(back, d0.cert, d0.key) && back.marker == Some(now)
               && (d0.issue.Some? || now !in d0.retainedIssue ==> back.issue == d0.issue)
  {
    var script := PersistScript(issued, meta, now);
    var d := Final(d0, script);
    PersistedAt(d0, issued, meta, now, |script|);
    RolledBackAt(d, now, later, |RollbackScript(d, now, later)|);
  }

  // ----- the directory as the program changes it -----

  lemma {:induction false} AfterConcat(d: Disk, a: seq<Op>, b: seq<Op>, n: nat)
    requires n <= |b|
    ensures After(d, a + b, |a| + n) == After(Final(d, a), b, n)
  {
    if n == 0 {
      AfterPrefix(d, a, b, |a|);
    } else {
      AfterConcat(d, a, b, n - 1);
    }
  }

  lemma {:induction false} AfterPrefix(d: Disk, a: seq<Op>, b: seq<Op>, n: nat)
    requires n <= |a|
    ensures After(d, a + b, n) == After(d, a, n)
  {
    if n > 0 {
      AfterPrefix(d, a, b, n - 1);
    }
  }

  /** What is performed of a script when its operation number `failAt` reports an error. */
  function Reached(script: seq<Op>, failAt: Option<nat>): seq<Op> {
    if failAt.Some? && failAt.value < |script| then script[..failAt.value] else script
  }

  predicate Faults(script: seq<Op>, failAt: Option<nat>) {
    failAt.Some? && failAt.value < |script|
  }

  /** The same fault, counted from the operation after the first `n`. */
  function Beyond(failAt: Option<nat>, n: nat): Option<nat> {
    if failAt.Some? && failAt.value >= n then Some(failAt.value - n) else None
  }

  function RetainScript(now: nat): seq<Op> {
    [RetainCert(now), RetainKey(now), RetainIssue(now)]
  }

  function PairScript(cert: Pem, key: Pem): seq<Op> {
    [StageCert(cert), StageKey(key), CommitCert(cert), CommitKey(key)]
  }

  lemma RetainMeans(d: Disk, now: nat, n: nat)
    requires n <= 3
    ensures var d' := After(d, RetainScript(now), n);
            && PairIs(d', d.cert, d.key) && d'.issue == d.issue && d'.marker == d.marker && d'.failure == d.failure
            && (n == 3 ==> RetainedAt(d', d, now))
  {
    var script := RetainScript(now);
    assert After(d, script, 0) == d;
    assert n >= 1 ==> After(d, script, 1) == Exec(d, RetainCert(now));
    assert n >= 2 ==> After(d, script, 2) == Exec(After(d, script, 1), RetainKey(now));
  }

  lemma PairMeans(d: Disk, cert: Pem, key: Pem, n: nat)
    requires n <= 4
    ensures After(d, PairScript(cert, key), n) ==
            d.(cert := if n >= 3 then Some(cert) else d.cert, key := if n >= 4 then Some(key) else d.key)
  {
    var script := PairScript(cert, key);
    assert After(d, script, 0) == d;
    assert n >= 1 ==> After(d, script, 1) == d;
    assert n >= 2 ==> After(d, script, 2) == d;
    assert n >= 3 ==> After(d, script, 3) == d.(cert := Some(cert));
  }

  /** How far a fault lets four scripts in a row come. */
  lemma FourParts(before: seq<Op>, a: seq<Op>, b: seq<Op>, c: seq<Op>, e: seq<Op>, failAt: Option<nat>)
    ensures var all := a + b + c + e;
            var inB, inC, inE := Beyond(failAt, |a|), Beyond(failAt, |a| + |b|), Beyond(failAt, |a| + |b| + |c|);
            var done := before + Reached(all, failAt);
            if Faults(a, failAt) then Faults(all, failAt) && done == before + Reached(a, failAt)
            else if Faults(b, inB) then Faults(all, failAt) && done == before + a + Reached(b, inB)
            else if Faults(c, inC) then Faults(all, failAt) && done == before + a + b + Reached(c, inC)
            else && (Faults(all, failAt) <==> Faults(e, inE))
                 && done == before + a + b + c + Reached(e, inE)
  {
    TwoParts(before, a, b, failAt);
    TwoParts(before, a + b, c, failAt);
    TwoParts(before, a + b + c, e, failAt);
    assert before + (a + b) == before + a + b;
    assert before + (a + b + c) == before + a + b + c;
  }

  lemma TwoParts(before: seq<Op>, a: seq<Op>, b: seq<Op>, failAt: Option<nat>)
    ensures Faults(a + b, failAt) <==> Faults(a, failAt) || Faults(b, Beyond(failAt, |a|))
    ensures before + Reached(a + b, failAt) ==
            if Faults(a, failAt) then before + Reached(a, failAt) else before + a + Reached(b, Beyond(failAt, |a|))
  {
    assert Faults(a, failAt) ==> Reached(a + b, failAt) == Reached(a, failAt);
    assert !Faults(a, failAt) ==> Reached(a + b, failAt) == a + Reached(b, Beyond(failAt, |a|));
  }

  lemma PersistIs(issued: Issued, meta: Issue, now: nat)
    ensures PersistScript(issued, meta, now) ==
            [WriteMarker(now)] + RetainScript(now) + PairScript(issued.cert, issued.key) + [WriteIssue(meta)]
  {
  }

  /** Removing the metadata may fail without consequence; any other failing write ends a rollback. */
  predicate RollbackStops(script: seq<Op>, failAt: Option<nat>)
    requires |script| == 7
  {
    Faults(script, failAt) && !(failAt == Some(4) && script[4].RemoveIssue?)
  }

  /** What is performed of a rollback when its operation number `failAt` reports an error. */
  function RollbackDone(script: seq<Op>, failAt: Option<nat>): seq<Op>
    requires |script| == 7
  {
    if failAt == Some(4) && script[4].RemoveIssue? then script[..4] + script[5..] else Reached(script, failAt)
  }

  lemma RollbackIs(d: Disk, epoch: nat, now: u64)
    requires Retained(d, epoch)
    ensures RollbackScript(d, epoch, now) ==
            PairScript(d.retainedCert[epoch], d.retainedKey[epoch]) + [RolledBackIssue(d, epoch)]
            + [WriteReloadFailure, WriteFailure(NextFailure(d.failure, now, DEFAULT_POLICY, ReloadRolledBack))]
  {
  }

  lemma RollbackParts(before: seq<Op>, pair: seq<Op>, op: Op, rest: seq<Op>, failAt: Option<nat>)
    requires |pair| == 4 && |rest| == 2
    ensures var script := pair + [op] + rest;
            var done, stops := before + RollbackDone(script, failAt), RollbackStops(script, failAt);
            if Faults(pair, failAt) then stops && done == before + Reached(pair, failAt)
            else if failAt != Some(4) then
              && (stops <==> Faults(rest, Beyond(failAt, 5)))
              && done == before + pair + [op] + Reached(rest, Beyond(failAt, 5))
            else if op.RemoveIssue? then !stops && done == before + pair + Reached(rest, Beyond(failAt, 5))
            else stops && done == before + pair
  {
    var script := pair + [op] + rest;
    TwoParts(before, pair + [op], rest, failAt);
    TwoParts(before, pair, [op], failAt);
    assert before + (pair + [op]) == before + pair + [op];
    assert script[4] == op && script[..4] == pair && script[5..] == rest;
    assert failAt == Some(4) && op.RemoveIssue? ==> RollbackDone(script, failAt) == pair + rest;
  }

  class StateDir {
    var disk: Disk
    /** Every operation so far; a crash leaves the disk after some prefix of it. */
    ghost var trail: seq<Op>
    ghost const start: Disk

    ghost predicate Valid()
      reads this
    {
      disk == Final(start, trail)
    }

    constructor (d: Disk)
      ensures disk == d && start == d && trail == [] && Valid()
    {
      disk, start, trail := d, d, [];
    }

    method Do(op: Op)
      requires Valid()
      modifies this
      ensures Valid() && disk == Exec(old(disk), op) && trail == old(trail) + [op]
    {
      AfterPrefix(start, trail, [op], |trail|);
      disk := Exec(disk, op);
      trail := trail + [op];
    }

    /** The writes one after the other, up to the first that reports an error. */
    method Perform(script: seq<Op>, failAt: Option<nat>) returns (ok: bool)
      requires Valid()
      modifies this
      ensures Valid() && (ok <==> !Faults(script, failAt))
      ensures trail == old(trail) + Reached(script, failAt)
      ensures disk == After(old(disk), script, |Reached(script, failAt)|)
    {
      for i := 0 to |script|
        invariant Valid() && trail == old(trail) + script[..i] && disk == After(old(disk), script, i)
        invariant failAt.Some? ==> i <= failAt.value
      {
        if failAt == Some(i) {
          return false;
        }
        Do(script[i]);
      }
      return true;
    }

    /**
     Copies what is there; on success all of it is complete under `retained`, and no live file changes in any case.
     */
    method RetainExisting(now: nat, failAt: Option<nat>) returns (ok: bool)
      requires Valid()
      modifies this
      ensures Valid() && (ok <==> !Faults(RetainScript(now), failAt))
      ensures trail == old(trail) + Reached(RetainScript(now), failAt)
      ensures ok ==> RetainedAt(disk, old(disk), now)
      ensures PairIs(disk, old(disk).cert, old(disk).key) && disk.issue == old(disk).issue
              && disk.marker == old(disk).marker
    {
      ok := Perform(RetainScript(now), failAt);
      RetainMeans(old(disk), now, |Reached(RetainScript(now), failAt)|);
    }

    /**
     Installs both halves.  An error while staging or at the first rename leaves the pair untouched; only an error at
     the second rename leaves the new certificate beside the old key.  No other file changes.
     */
    method WriteCertKeyPair(cert: Pem, key: Pem, failAt: Option<nat>) returns (ok: bool)
      requires Valid()
      modifies this
      ensures Valid() && (ok <==> !Faults(PairScript(cert, key), failAt))
      ensures trail == old(trail) + Reached(PairScript(cert, key), failAt)
      ensures ok ==> PairIs(disk, Some(cert), Some(key))
      ensures !ok ==> PairIs(disk, if failAt == Some(3) then Some(cert) else old(disk).cert, old(disk).key)
      ensures disk == old(disk).(cert := disk.cert, key := disk.key)
    {
      ok := Perform(PairScript(cert, key), failAt);
      PairMeans(old(disk), cert, key, |Reached(PairScript(cert, key), failAt)|);
    }

    /** Issuance; `failAt` is the operation that reports an error, if one does. */
    method Persist(o: Oracle, issued: Issued, renewBefore: u64, now: nat, failAt: Option<nat>)
        returns (r: Result<(), ()>)
      requires Valid()
      modifies this
      ensures Valid()
      ensures NotAfter(o, issued).Err? ==> r.Err? && trail == old(trail) && disk == old(disk)
      ensures NotAfter(o, issued).Ok? ==>
                var script := PersistScript(issued, IssueOf(issued, NotAfter(o, issued).value, renewBefore), now);
                && (r.Ok? <==> !Faults(script, failAt))
                && trail == old(trail) + Reached(script, failAt) && disk == Final(old(disk), Reached(script, failAt))
    {
      var notAfter: Option<u64>;
      if issued.notAfter.Some? {
        notAfter := issued.notAfter;
      } else {
        notAfter :- o.parse(issued.cert);
      }
      var meta := IssueOf(issued, notAfter, renewBefore);
      var ok := PersistAs(issued, meta, now, failAt);
      ghost var done := Reached(PersistScript(issued, meta, now), failAt);
      AfterConcat(start, old(trail), done, |done|);
      return if ok then Ok(()) else Err(());
    }

    method PersistAs(issued: Issued, meta: Issue, now: nat, failAt: Option<nat>) returns (ok: bool)
      requires Valid()
      modifies this
      ensures Valid() && (ok <==> !Faults(PersistScript(issued, meta, now), failAt))
      ensures trail == old(trail) + Reached(PersistScript(issued, meta, now), failAt)
    {
      PersistIs(issued, meta, now);
      FourParts(trail, [WriteMarker(now)], RetainScript(now), PairScript(issued.cert, issued.key), [WriteIssue(meta)],
          failAt);
      ok := Perform([WriteMarker(now)], failAt);
      if ok {
        ok := RetainExisting(now, Beyond(failAt, 1));
        if ok {
          ok := WriteCertKeyPair(issued.cert, issued.key, Beyond(failAt, 4));
          if ok {
            ok := Perform([WriteIssue(meta)], Beyond(failAt, 8));
          }
        }
      }
    }

    /** `entries` are the epochs of the retained certificates in the order the directory lists them. */
    method NewestRetainedEpoch(entries: seq<nat>) returns (newest: Option<nat>)
      requires forall e :: e in entries <==> e in disk.retainedCert
      ensures IsNewest(disk, newest)
    {
      newest := None;
      for i := 0 to |entries|
        invariant match newest
                  case Some(e) => Retained(disk, e) && forall f :: f in entries[..i] && Retained(disk, f) ==> f <= e
                  case None => forall f :: f in entries[..i] ==> !Retained(disk, f)
      {
        var epoch := entries[i];
        assert entries[..i + 1] == entries[..i] + [epoch];
        if epoch in disk.retainedKey && (newest.None? || epoch > newest.value) {
          newest := Some(epoch);
        }
      }
      assert entries[..|entries|] == entries;
    }

    /** Puts the retained material of one epoch back and records the failure; `failAt` is the write that fails. */
    method Restore(epoch: nat, now: u64, failAt: Option<nat>) returns (ok: bool)
      requires Valid() && Retained(disk, epoch)
      modifies this
      ensures Valid() && (ok <==> !RollbackStops(RollbackScript(old(disk), epoch, now), failAt))
      ensures var done := RollbackDone(RollbackScript(old(disk), epoch, now), failAt);
              trail == old(trail) + done && disk == Final(old(disk), done)
    {
      ghost var done := RollbackDone(RollbackScript(disk, epoch, now), failAt);
      ok := RestoreWrites(epoch, now, failAt);
      AfterConcat(start, old(trail), done, |done|);
    }

    method RestoreWrites(epoch: nat, now: u64, failAt: Option<nat>) returns (ok: bool)
      requires Valid() && Retained(disk, epoch)
      modifies this
      ensures Valid() && (ok <==> !RollbackStops(RollbackScript(old(disk), epoch, now), failAt))
      ensures trail == old(trail) + RollbackDone(RollbackScript(old(disk), epoch, now), failAt)
    {
      var cert, key := disk.retainedCert[epoch], disk.retainedKey[epoch];
      var rest := [WriteReloadFailure, WriteFailure(NextFailure(disk.failure, now, DEFAULT_POLICY, ReloadRolledBack))];
      var issueOp := RolledBackIssue(disk, epoch);
      RollbackIs(disk, epoch, now);
      RollbackParts(trail, PairScript(cert, key), issueOp, rest, failAt);
      ok := WriteCertKeyPair(cert, key, failAt);
      if ok {
        if failAt == Some(4) {
          ok := issueOp.RemoveIssue?;
        } else {
          Do(issueOp);
        }
      }
      if ok {
        ok := Perform(rest, Beyond(failAt, 5));
      }
    }

    /** Rolls back to the epoch it answers, up to a failing write, or answers none and touches nothing. */
    method RollbackToRetainedPair(o: Oracle, entries: seq<nat>, now: u64, failAt: Option<nat>)
        returns (ok: bool, epoch: Option<nat>)
      requires Valid() && forall e :: e in entries <==> e in disk.retainedCert
      modifies this
      ensures Valid()
      ensures match epoch
              case Some(e) =>
                && IsNewest(old(disk), Some(e)) && MayRollBack(o, old(disk), e)
                && var script := RollbackScript(old(disk), e, now);
                   && (ok <==> !RollbackStops(script, failAt))
                   && trail == old(trail) + RollbackDone(script, failAt)
                   && disk == Final(old(disk), RollbackDone(script, failAt))
              case None =>
                && !ok && trail == old(trail) && disk == old(disk)
                && forall e: nat :: IsNewest(old(disk), Some(e)) ==> !MayRollBack(o, old(disk), e)
    {
      var newest := NewestRetainedEpoch(entries);
      if newest.None? {
        return false, None;
      }
      var fqdn := if disk.issue.Some? then disk.issue.value.fqdn else "";
      if !o.valid(disk.retainedCert[newest.value], disk.retainedKey[newest.value], fqdn) {
        return false, None;
      }
      ok := Restore(newest.value, now, failAt);
      epoch := newest;
    }
  }
}
