/** Renewal calls: when they contact the issuer, and what they leave on disk. */
module Renewal {
  import opened Common
  import opened AcmeBackoff
  import opened AcmeState
  import opened HeaderText

  datatype Settings = Settings(o: Oracle, policy: Policy, fqdn: string)

  /**
   One renewal call: the clock, whether another process holds the lock, whether the challenge server starts, what the
   issuer answers, the operation at which issuance fails to write (if any), whether writing the failure record fails,
   the message of an error that is not the issuer's own, and the number of file operations after which the process is
   killed.
   */
  datatype Call = Call(
    now: u64, lockBusy: bool, serverStarts: bool, answer: Result<Issued, string>, ioErrorAt: Option<nat>,
    recordFails: bool, message: string, killedAfter: nat)

  datatype Outcome = Renewed | NotDue | Deferred | Failed

  /** What one call does: its answer, whether the issuer was contacted, and the operations it performs. */
  datatype Attempt = Attempt(outcome: Outcome, contacted: bool, script: seq<Op>)

  predicate BackedOff(d: Disk, now: u64) {
    d.failure.Some? && d.failure.value.nextAttempt > now
  }

  predicate Latched(d: Disk) {
    d.failure.Some? && d.failure.value.kind == InvalidCertificate && d.failure.value.count >= 3
  }

  function FailureOp(s: Settings, d: Disk, now: u64, message: string): Op {
    WriteFailure(NextFailure(d.failure, now, s.policy, Classify(message)))
  }

  /** What a failed call still writes. */
  function RecordOps(s: Settings, d: Disk, call: Call, message: string): seq<Op> {
    if call.recordFails then [] else [FailureOp(s, d, call.now, message)]
  }

  function AttemptOf(s: Settings, d: Disk, call: Call): Attempt {
    if BackedOff(d, call.now) then Attempt(Deferred, false, [])
    else if Latched(d) then Attempt(Deferred, false, [])
    else if !RenewalDue(s.o, d, call.now, s.policy.renewBefore) then Attempt(NotDue, false, [])
    else if call.lockBusy then Attempt(Deferred, false, [])
    else if !call.serverStarts then Attempt(Failed, false, RecordOps(s, d, call, call.message))
    else
      match call.answer
      case Err(message) => Attempt(Failed, true, RecordOps(s, d, call, message))
      case Ok(issued) =>
        if issued.fqdn != s.fqdn || NotAfter(s.o, issued).Err?
        then Attempt(Failed, true, RecordOps(s, d, call, call.message))
        else
          var script := IssueScript(s, issued, call.now);
          if Faults(script, call.ioErrorAt)
          then Attempt(Failed, true, Reached(script, call.ioErrorAt) + RecordOps(s, d, call, call.message))
          else Attempt(Renewed, true, script)
  }

  /** Issuance and then the removal of the failure record; any of these operations may report an error. */
  function IssueScript(s: Settings, issued: Issued, now: u64): seq<Op>
    requires NotAfter(s.o, issued).Ok?
  {
    PersistScript(issued, IssueOf(issued, NotAfter(s.o, issued).value, s.policy.renewBefore), now) + [RemoveFailure]
  }

  function AfterCall(s: Settings, d: Disk, call: Call): Disk {
    var script := AttemptOf(s, d, call).script;
    After(d, script, Min(call.killedAfter, |script|))
  }

  function Run(s: Settings, d: Disk, calls: seq<Call>): Disk
    decreases |calls|
  {
    if calls == [] then d else Run(s, AfterCall(s, d, calls[0]), calls[1..])
  }

  // ----- the failure record -----

  predicate SparesFailure(op: Op) {
    !op.WriteFailure? && !op.RemoveFailure?
  }

  lemma ExecSpares(d: Disk, op: Op)
    ensures SparesFailure(op) ==> Exec(d, op).failure == d.failure
  {
  }

  lemma {:induction false} FailureSpared(d: Disk, script: seq<Op>, n: nat)
    requires n <= |script| && forall i :: 0 <= i < n ==> SparesFailure(script[i])
    ensures After(d, script, n).failure == d.failure
  {
    if n > 0 {
      FailureSpared(d, script, n - 1);
      ExecSpares(After(d, script, n - 1), script[n - 1]);
    }
  }

  /** Only the last operation of a call touches the failure record, and this is how. */
  lemma LastTouchesFailure(s: Settings, d: Disk, call: Call)
    ensures var a := AttemptOf(s, d, call);
            && (forall i :: 0 <= i < |a.script| - 1 ==> SparesFailure(a.script[i]))
            && (a.outcome == NotDue || a.outcome == Deferred ==> a.script == [])
            && (a.outcome == Renewed || a.outcome == Failed ==> !BackedOff(d, call.now) && !Latched(d))
            && (a.outcome == Renewed ==> a.script != [] && a.script[|a.script| - 1] == RemoveFailure)
            && (a.outcome == Failed && call.recordFails ==>
                  forall i :: 0 <= i < |a.script| ==> SparesFailure(a.script[i]))
            && (a.outcome == Failed && !call.recordFails ==>
                  && a.script != []
                  && var last := a.script[|a.script| - 1];
                  last.WriteFailure? && last.failure == NextFailure(d.failure, call.now, s.policy, last.failure.kind))
  {
    if call.answer.Ok? && NotAfter(s.o, call.answer.value).Ok? {
      IssueSparesFailure(s, call.answer.value, call.now, call.ioErrorAt);
    }
  }

  lemma IssueSparesFailure(s: Settings, issued: Issued, now: u64, failAt: Option<nat>)
    requires NotAfter(s.o, issued).Ok?
    ensures var script := IssueScript(s, issued, now);
            && |script| == 10 && script[9] == RemoveFailure && (forall i :: 0 <= i < 9 ==> SparesFailure(script[i]))
            && (Faults(script, failAt) ==>
                  forall i :: 0 <= i < |Reached(script, failAt)| ==> SparesFailure(Reached(script, failAt)[i]))
  {
  }

  /** The record after a script whose last operation alone touches it. */
  lemma RecordAfterScript(d: Disk, script: seq<Op>, n: nat)
    requires n <= |script| && forall i :: 0 <= i < |script| - 1 ==> SparesFailure(script[i])
    ensures After(d, script, n).failure ==
            if n < |script| || n == 0 then d.failure
            else match script[n - 1]
                 case WriteFailure(g) => Some(g)
                 case RemoveFailure => None
                 case _ => d.failure
  {
    if n < |script| || n == 0 {
      FailureSpared(d, script, n);
    } else {
      FailureSpared(d, script, n - 1);
      ExecSpares(After(d, script, n - 1), script[n - 1]);
    }
  }

  /** A call keeps the record, replaces it by a later one with the count raised, or removes it on success. */
  lemma RecordAfterCall(s: Settings, d: Disk, call: Call, f: Failure)
    requires d.failure == Some(f)
    ensures match AfterCall(s, d, call).failure
            case Some(g) =>
              g == f || (g.nextAttempt >= call.now >= f.nextAttempt && g.count == SaturatingAdd(f.count, 1))
            case None => AttemptOf(s, d, call).outcome == Renewed
  {
    var a := AttemptOf(s, d, call);
    LastTouchesFailure(s, d, call);
    RecordAfterScript(d, a.script, Min(call.killedAfter, |a.script|));
    if a.outcome == Failed && !call.recordFails {
      var kind := a.script[|a.script| - 1].failure.kind;
      NextAttemptBounds(call.now, SaturatingAdd(f.count, 1), s.policy, kind, None);
    }
  }

  /** The record stays in place through these calls. */
  predicate KeepsRecord(s: Settings, d: Disk, calls: seq<Call>)
    decreases |calls|
  {
    d.failure.Some? && (calls != [] ==> KeepsRecord(s, AfterCall(s, d, calls[0]), calls[1..]))
  }

  lemma {:induction false} RecordOnlyMovesOn(s: Settings, d: Disk, calls: seq<Call>)
    requires KeepsRecord(s, d, calls)
    ensures var d' := Run(s, d, calls);
            && d'.failure.Some?
            && d'.failure.value.nextAttempt >= d.failure.value.nextAttempt
            && d'.failure.value.count >= d.failure.value.count
    decreases |calls|, 0
  {
    if calls != [] {
      RecordAfterCall(s, d, calls[0], d.failure.value);
      StepMovesOn(s, d, AfterCall(s, d, calls[0]), calls[1..]);
    }
  }

  lemma {:induction false} StepMovesOn(s: Settings, d: Disk, d1: Disk, rest: seq<Call>)
    requires d.failure.Some? && KeepsRecord(s, d1, rest)
    requires d1.failure.value.nextAttempt >= d.failure.value.nextAttempt
             && d1.failure.value.count >= d.failure.value.count
    ensures var d' := Run(s, d1, rest);
            && d'.failure.Some?
            && d'.failure.value.nextAttempt >= d.failure.value.nextAttempt
            && d'.failure.value.count >= d.failure.value.count
    decreases |rest|, 1
  {
    RecordOnlyMovesOn(s, d1, rest);
  }

  /**
   After the failure that brought the count to k, whatever calls follow without a success in between,
   the issuer is not contacted before the k-th wait is over, nor before the floor for the kinds that have one.
   */
  lemma ContactsAreSpaced(s: Settings, before: Disk, failedAt: u64, kind: FailureKind, d: Disk, calls: seq<Call>,
      next: Call)
    requires d.failure == Some(NextFailure(before.failure, failedAt, s.policy, kind)) && KeepsRecord(s, d, calls)
    ensures AttemptOf(s, Run(s, d, calls), next).contacted ==>
              && next.now >= Min(failedAt + Wait(d.failure.value.count, s.policy), U64_MAX)
              && (Floored(kind) ==> next.now >= Min(failedAt + s.policy.rateLimitFloor, U64_MAX))
  {
    var count := d.failure.value.count;
    NextAttemptBounds(failedAt, count, s.policy, kind, None);
    RecordOnlyMovesOn(s, d, calls);
  }

  /**
   A failed call that is not killed leaves the next failure on record, one more than before; when writing the record
   fails too, the old record stays.
   */
  lemma FailuresAreCounted(s: Settings, d: Disk, call: Call)
    requires AttemptOf(s, d, call).outcome == Failed && call.killedAfter >= |AttemptOf(s, d, call).script|
    ensures call.recordFails ==> AfterCall(s, d, call).failure == d.failure
    ensures !call.recordFails ==>
              && AfterCall(s, d, call).failure.Some?
              && (exists kind ::
                    AfterCall(s, d, call).failure.value == NextFailure(d.failure, call.now, s.policy, kind))
              && AfterCall(s, d, call).failure.value.count == SaturatingAdd(CountOf(d), 1)
  {
    var a := AttemptOf(s, d, call);
    LastTouchesFailure(s, d, call);
    RecordAfterScript(d, a.script, |a.script|);
  }

  /** The failures on record. */
  function CountOf(d: Disk): u64 {
    if d.failure.Some? then d.failure.value.count else 0
  }

  // ----- failures in a row -----

  /** The call fails, is not killed and gets its failure on record. */
  predicate FailsOnRecord(s: Settings, d: Disk, call: Call) {
    var a := AttemptOf(s, d, call);
    a.outcome == Failed && !call.recordFails && call.killedAfter >= |a.script|
  }

  predicate FailsTo(s: Settings, d: Disk, call: Call, d': Disk) {
    FailsOnRecord(s, d, call) && d' == AfterCall(s, d, call)
  }

  /** Calls that all fail, and the disks before, between and after them. */
  predicate FailingRun(s: Settings, disks: seq<Disk>, calls: seq<Call>) {
    |disks| == |calls| + 1 && forall i :: 0 <= i < |calls| ==> FailsTo(s, disks[i], calls[i], disks[i + 1])
  }

  function TimesOf(calls: seq<Call>): (times: seq<u64>)
    ensures |times| == |calls| && forall i :: 0 <= i < |calls| ==> times[i] == calls[i].now
  {
    seq(|calls|, i requires 0 <= i < |calls| => calls[i].now)
  }

  /** The waits after the failures numbered `first` and following. */
  function SumOfWaits(policy: Policy, first: nat, n: nat): nat
    decreases n
  {
    if n == 0 then 0 else Wait(first, policy) + SumOfWaits(policy, first + 1, n - 1)
  }

  /** Each of these times is a wait after the one before, the waits numbered from `count` + 1 on. */
  predicate Spaced(policy: Policy, count: nat, times: seq<u64>)
    decreases |times|
  {
    |times| <= 1 ||
    (times[1] >= Min(times[0] + Wait(count + 1, policy), U64_MAX) && Spaced(policy, count + 1, times[1..]))
  }

  /** The last of these times is at least all the waits after the first. */
  predicate SpreadOut(policy: Policy, count: nat, times: seq<u64>)
    requires times != []
  {
    times[|times| - 1] >= Min(times[0] + SumOfWaits(policy, count + 1, |times| - 1), U64_MAX)
  }

  lemma {:induction false} SpacedAddsUp(policy: Policy, count: nat, times: seq<u64>)
    requires times != [] && Spaced(policy, count, times)
    ensures SpreadOut(policy, count, times)
    decreases |times|
  {
    if |times| > 1 {
      SpacedAddsUp(policy, count + 1, times[1..]);
    }
  }

  lemma NextFailingCall(s: Settings, d: Disk, call: Call, next: Call)
    requires FailsOnRecord(s, d, call) && CountOf(d) < U64_MAX
    ensures CountOf(AfterCall(s, d, call)) == CountOf(d) + 1
    ensures FailsOnRecord(s, AfterCall(s, d, call), next) ==>
              next.now >= Min(call.now + Wait(CountOf(d) + 1, s.policy), U64_MAX)
  {
    var d1 := AfterCall(s, d, call);
    FailuresAreCounted(s, d, call);
    var kind :| d1.failure.value == NextFailure(d.failure, call.now, s.policy, kind);
    NextAttemptBounds(call.now, CountOf(d) + 1, s.policy, kind, None);
    LastTouchesFailure(s, d1, next);
  }

  lemma {:induction false} FailuresAreSpaced(s: Settings, disks: seq<Disk>, calls: seq<Call>)
    requires FailingRun(s, disks, calls) && CountOf(disks[0]) + |calls| <= U64_MAX
    ensures Spaced(s.policy, CountOf(disks[0]), TimesOf(calls))
    decreases |calls|
  {
    if |calls| > 1 {
      assert FailsTo(s, disks[0], calls[0], disks[0 + 1]) && FailsTo(s, disks[1], calls[1], disks[1 + 1]);
      NextFailingCall(s, disks[0], calls[0], calls[1]);
      FailingTail(s, disks, calls);
      FailuresAreSpaced(s, disks[1..], calls[1..]);
      assert TimesOf(calls)[1..] == TimesOf(calls[1..]);
    }
  }

  lemma FailingTail(s: Settings, disks: seq<Disk>, calls: seq<Call>)
    requires FailingRun(s, disks, calls) && calls != []
    ensures FailingRun(s, disks[1..], calls[1..])
  {
    forall i | 0 <= i < |calls[1..]|
      ensures FailsTo(s, disks[1..][i], calls[1..][i], disks[1..][i + 1])
    {
      assert FailsTo(s, disks[i + 1], calls[i + 1], disks[i + 1 + 1]);
    }
  }

  /** Failures in a row spread out: the last comes no sooner after the first than the sum of all waits between them. */
  lemma FailuresSpreadOut(s: Settings, disks: seq<Disk>, calls: seq<Call>)
    requires calls != [] && FailingRun(s, disks, calls) && CountOf(disks[0]) + |calls| <= U64_MAX
    ensures SpreadOut(s.policy, CountOf(disks[0]), TimesOf(calls))
  {
    FailuresAreSpaced(s, disks, calls);
    SpacedAddsUp(s.policy, CountOf(disks[0]), TimesOf(calls));
  }

  lemma {:induction false} SumSnoc(policy: Policy, first: nat, n: nat)
    ensures SumOfWaits(policy, first, n + 1) == SumOfWaits(policy, first, n) + Wait(first + n, policy)
    decreases n
  {
    if n > 0 {
      SumSnoc(policy, first + 1, n - 1);
    }
  }

  lemma Doubled(base: nat, p: nat)
    requires p >= 1
    ensures base * (2 * p) == 2 * (base * p) && base * (2 * p - 1) == base * (p - 1) + base * p
  {
  }

  /** While the waits are below their maximum they double, and their sum is the base times all powers of two so far. */
  lemma {:induction false} WaitsDoubleUp(policy: Policy, k: nat)
    requires 1 <= k <= 21 && policy.retryBase * Pow2(k - 1) <= policy.retryMax
    ensures Wait(k, policy) == policy.retryBase * Pow2(k - 1)
    ensures SumOfWaits(policy, 1, k) == policy.retryBase * (Pow2(k) - 1)
  {
    SumSnoc(policy, 1, k - 1);
    Doubled(policy.retryBase, Pow2(k - 1));
    if k == 1 {
      WaitDoubles(1, policy);
      assert SumOfWaits(policy, 1, 0) == 0 && Pow2(0) == 1 && Pow2(1) == 2;
    } else {
      Doubled(policy.retryBase, Pow2(k - 2));
      assert Pow2(k - 1) == 2 * Pow2(k - 2);
      WaitsDoubleUp(policy, k - 1);
      WaitDoubles(k - 1, policy);
    }
  }

  /** From a clean record, `k` more failures after the first take at least base * (2^k - 1) seconds. */
  lemma FailuresDoubleUp(s: Settings, disks: seq<Disk>, calls: seq<Call>, k: nat)
    requires 1 <= k <= 21 && |calls| == k + 1 && FailingRun(s, disks, calls) && disks[0].failure.None?
    requires s.policy.retryBase * Pow2(k - 1) <= s.policy.retryMax
    ensures calls[k].now >= Min(calls[0].now + s.policy.retryBase * (Pow2(k) - 1), U64_MAX)
  {
    FailuresAreSpaced(s, disks, calls);
    DoubleUpFrom(s.policy, k, TimesOf(calls));
  }

  lemma DoubleUpFrom(policy: Policy, k: nat, times: seq<u64>)
    requires 1 <= k <= 21 && policy.retryBase * Pow2(k - 1) <= policy.retryMax
    requires |times| == k + 1 && Spaced(policy, 0, times)
    ensures times[k] >= Min(times[0] + policy.retryBase * (Pow2(k) - 1), U64_MAX)
  {
    SpacedAddsUp(policy, 0, times);
    WaitsDoubleUp(policy, k);
  }

  // ----- the latch -----

  /**
   Once the last recorded failure is a rejected certificate and the count is at least three, no later call reaches the
   issuer or changes a file.
   */
  lemma {:induction false} LatchHolds(s: Settings, d: Disk, calls: seq<Call>)
    requires Latched(d)
    ensures Run(s, d, calls) == d
    ensures forall i :: 0 <= i < |calls| ==> !AttemptOf(s, Run(s, d, calls[..i]), calls[i]).contacted
    decreases |calls|
  {
    if calls != [] {
      assert AfterCall(s, d, calls[0]) == d;
      LatchHolds(s, d, calls[1..]);
      forall i | 0 <= i < |calls|
        ensures !AttemptOf(s, Run(s, d, calls[..i]), calls[i]).contacted
      {
        if i > 0 {
          assert calls[..i][1..] == calls[1..][..i - 1];
        }
      }
    }
  }

  /**
   The count is over failures of every kind: a failed call latches exactly when it is a rejected certificate and at
   least two failures of any kind stand on record.
   */
  lemma LatchesExactly(s: Settings, d: Disk, call: Call)
    requires AttemptOf(s, d, call).outcome == Failed && call.killedAfter >= |AttemptOf(s, d, call).script|
    ensures !call.recordFails ==> AfterCall(s, d, call).failure.Some?
    ensures Latched(AfterCall(s, d, call)) <==>
            !call.recordFails && AfterCall(s, d, call).failure.value.kind == InvalidCertificate && CountOf(d) >= 2
  {
    FailuresAreCounted(s, d, call);
    LastTouchesFailure(s, d, call);
  }

  /** So two transient failures and then one rejected certificate latch just as three rejected certificates do. */
  lemma MixedFailuresLatch(policy: Policy, first: u64, second: u64, third: u64, d: Disk)
    ensures var one := NextFailure(None, first, policy, Transient);
            var two := NextFailure(Some(one), second, policy, Transient);
            Latched(d.(failure := Some(NextFailure(Some(two), third, policy, InvalidCertificate))))
  {
  }

  // ----- contacts are made when they may be -----

  /** The latest time a failure of this kind can put the next attempt off to. */
  function PutOff(now: nat, count: nat, policy: Policy, kind: FailureKind): nat {
    now + Max(Wait(count, policy) + policy.retryJitter, if Floored(kind) then policy.rateLimitFloor else 0)
  }

  lemma NextAttemptAtMost(now: u64, count: u64, policy: Policy, kind: FailureKind)
    ensures NextAttempt(now, count, policy, kind, None) <= PutOff(now, count, policy, kind)
  {
  }

  /** A due renewal that nothing keeps from the issuer: no other process, a challenge server, no latch. */
  predicate Unhindered(s: Settings, d: Disk, call: Call) {
    RenewalDue(s.o, d, call.now, s.policy.renewBefore) && !call.lockBusy && call.serverStarts && !Latched(d)
  }

  /** The issuer is contacted exactly by unhindered calls from the recorded time on. */
  lemma ContactsExactly(s: Settings, d: Disk, call: Call)
    ensures AttemptOf(s, d, call).contacted <==>
            Unhindered(s, d, call) && (d.failure.Some? ==> call.now >= d.failure.value.nextAttempt)
  {
  }

  /** A failure puts the issuer off for a bounded time: the first unhindered call after that contacts it again. */
  lemma RetryComes(s: Settings, d: Disk, call: Call, again: Call)
    requires AttemptOf(s, d, call).outcome == Failed && call.killedAfter >= |AttemptOf(s, d, call).script|
    requires !call.recordFails
    ensures var d' := AfterCall(s, d, call);
            && d'.failure.Some? && d'.failure.value.count == SaturatingAdd(CountOf(d), 1)
            && (Unhindered(s, d', again)
                && again.now >= PutOff(call.now, SaturatingAdd(CountOf(d), 1), s.policy, d'.failure.value.kind) ==>
                  AttemptOf(s, d', again).contacted)
  {
    var a := AttemptOf(s, d, call);
    LastTouchesFailure(s, d, call);
    RecordAfterScript(d, a.script, |a.script|);
    var f := a.script[|a.script| - 1].failure;
    NextAttemptAtMost(call.now, SaturatingAdd(CountOf(d), 1), s.policy, f.kind);
    ContactsExactly(s, AfterCall(s, d, call), again);
  }

  /** Everything goes well: the issuer answers with a certificate for this name and no file operation fails. */
  predicate GoesWell(s: Settings, call: Call) {
    && call.answer.Ok? && call.answer.value.fqdn == s.fqdn && NotAfter(s.o, call.answer.value).Ok?
    && (call.ioErrorAt.Some? ==> call.ioErrorAt.value >= 10)
  }

  /** A call that contacts the issuer and goes well installs the new pair under its marker and clears the record. */
  lemma RenewsExactly(s: Settings, d: Disk, call: Call)
    ensures AttemptOf(s, d, call).outcome == Renewed <==> AttemptOf(s, d, call).contacted && GoesWell(s, call)
    ensures AttemptOf(s, d, call).outcome == Renewed && call.killedAfter >= |AttemptOf(s, d, call).script| ==>
            var d' := AfterCall(s, d, call);
            && PairIs(d', Some(call.answer.value.cert), Some(call.answer.value.key))
            && d'.marker == Some(call.now) && d'.failure.None?
  {
    if AttemptOf(s, d, call).outcome == Renewed {
      var issued := call.answer.value;
      var meta := IssueOf(issued, NotAfter(s.o, issued).value, s.policy.renewBefore);
      var persist := PersistScript(issued, meta, call.now);
      PersistedAt(d, issued, meta, call.now, 9);
      AfterPrefix(d, persist, [RemoveFailure], 9);
      assert After(d, persist + [RemoveFailure], 10) == Exec(After(d, persist, 9), RemoveFailure);
    }
  }

  // ----- what the record says, and when the next renewal is due -----

  /** Somewhere in the message stands this word, in any case. */
  ghost predicate SaysWord(message: string, word: string) {
    exists i, j :: 0 <= i <= j <= |message| && Spells(message[i..j], word)
  }

  lemma MentionsExactly(message: string, word: string)
    ensures Mentions(message, word) <==> SaysWord(message, word)
  {
    if i :| 0 <= i <= |message| && ContainsAt(message, word, i) {
      var part := message[i..i + |word|];
      assert forall k :: 0 <= k < |word| ==> part[k] == message[i + k];
      assert Spells(part, word);
    }
    if i, j :| 0 <= i <= j <= |message| && Spells(message[i..j], word) {
      var part := message[i..j];
      assert forall k :: 0 <= k < j - i ==> part[k] == message[i + k];
      assert ContainsAt(message, word, i);
    }
  }

  /** The message a failed call goes by: the issuer's own when it was the issuer who refused. */
  function Complaint(call: Call): string {
    if call.serverStarts && call.answer.Err? then call.answer.error else call.message
  }

  /** The kind on record follows from the message, in any case; a rejected certificate comes before a rate limit. */
  lemma KindFollowsMessage(s: Settings, d: Disk, call: Call)
    requires AttemptOf(s, d, call).outcome == Failed && call.killedAfter >= |AttemptOf(s, d, call).script|
    requires !call.recordFails
    ensures var record, said := AfterCall(s, d, call).failure, Complaint(call);
            && record.Some?
            && record.value.kind ==
               if SaysWord(said, "invalid issued certificate") then InvalidCertificate
               else if SaysWord(said, "rate") || SaysWord(said, "429") then RateLimited
               else Transient
  {
    var a, said := AttemptOf(s, d, call), Complaint(call);
    LastTouchesFailure(s, d, call);
    RecordAfterScript(d, a.script, |a.script|);
    MentionsExactly(said, "invalid issued certificate");
    MentionsExactly(said, "rate");
    MentionsExactly(said, "429");
    LastIsComplaint(s, d, call);
  }

  lemma LastIsComplaint(s: Settings, d: Disk, call: Call)
    requires AttemptOf(s, d, call).outcome == Failed && !call.recordFails
    ensures var script := AttemptOf(s, d, call).script;
            script != [] && script[|script| - 1] == FailureOp(s, d, call.now, Complaint(call))
  {
  }

  /**
   After a completed renewal the status names a renewal due exactly from `renewBefore` seconds before the expiry of the
   new certificate on, and at all times when that has none.
   */
  lemma RenewalSchedulesNext(s: Settings, d: Disk, call: Call, later: u64)
    requires AttemptOf(s, d, call).outcome == Renewed && call.killedAfter >= |AttemptOf(s, d, call).script|
    ensures var d' := AfterCall(s, d, call);
            RenewalDue(s.o, d', later, s.policy.renewBefore) <==>
            match NotAfter(s.o, call.answer.value).value
            case Some(expiry) => later + s.policy.renewBefore >= expiry
            case None => true
  {
    var issued := call.answer.value;
    var meta := IssueOf(issued, NotAfter(s.o, issued).value, s.policy.renewBefore);
    var persist := PersistScript(issued, meta, call.now);
    PersistedAt(d, issued, meta, call.now, 9);
    AfterPrefix(d, persist, [RemoveFailure], 9);
    assert After(d, persist + [RemoveFailure], 10) == Exec(After(d, persist, 9), RemoveFailure);
  }

  // ----- the call as the program runs it -----

  method RenewOnce(s: Settings, dir: StateDir, call: Call) returns (outcome: Outcome, contacted: bool)
    requires dir.Valid()
    modifies dir
    ensures dir.Valid()
    ensures var a := AttemptOf(s, old(dir.disk), call);
            && outcome == a.outcome && contacted == a.contacted
            && dir.trail == old(dir.trail) + a.script && dir.disk == Final(old(dir.disk), a.script)
  {
    contacted := false;
    if dir.disk.failure.Some? && dir.disk.failure.value.nextAttempt > call.now {
      return Deferred, false;
    }
    if Latched(dir.disk) {
      return Deferred, false;
    }
    if !RenewalDue(s.o, dir.disk, call.now, s.policy.renewBefore) {
      return NotDue, false;
    }
    if call.lockBusy {
      return Deferred, false;
    }
    var failed := RecordOps(s, dir.disk, call, call.message);
    if call.serverStarts {
      contacted := true;
      match call.answer {
        case Err(said) =>
          failed := RecordOps(s, dir.disk, call, said);
        case Ok(issued) =>
          if issued.fqdn == s.fqdn && NotAfter(s.o, issued).Ok? {
            outcome := IssueAndRecord(s, dir, issued, call.now, call.ioErrorAt, failed);
            return;
          }
      }
    }
    var _ := dir.Perform(failed, None);
    outcome := Failed;
  }

  /** Issuance under the lock; when a write reports an error the failure is recorded instead. */
  method IssueAndRecord(s: Settings, dir: StateDir, issued: Issued, now: u64, failAt: Option<nat>, failed: seq<Op>)
      returns (outcome: Outcome)
    requires dir.Valid() && NotAfter(s.o, issued).Ok?
    modifies dir
    ensures dir.Valid()
    ensures outcome == if Faults(IssueScript(s, issued, now), failAt) then Failed else Renewed
    ensures var script := IssueScript(s, issued, now);
            var done := if Faults(script, failAt) then Reached(script, failAt) + failed else script;
            dir.trail == old(dir.trail) + done && dir.disk == Final(old(dir.disk), done)
  {
    var ok := IssueUpToFault(s, dir, issued, now, failAt);
    ghost var done := Reached(IssueScript(s, issued, now), failAt);
    outcome := Renewed;
    if !ok {
      var _ := dir.Perform(failed, None);
      assert dir.trail == old(dir.trail) + (done + failed);
      done := done + failed;
      outcome := Failed;
    }
    AfterConcat(dir.start, old(dir.trail), done, |done|);
  }

  method IssueUpToFault(s: Settings, dir: StateDir, issued: Issued, now: u64, failAt: Option<nat>) returns (ok: bool)
    requires dir.Valid() && NotAfter(s.o, issued).Ok?
    modifies dir
    ensures dir.Valid() && (ok <==> !Faults(IssueScript(s, issued, now), failAt))
    ensures dir.trail == old(dir.trail) + Reached(IssueScript(s, issued, now), failAt)
  {
    ghost var meta := IssueOf(issued, NotAfter(s.o, issued).value, s.policy.renewBefore);
    TwoParts(dir.trail, PersistScript(issued, meta, now), [RemoveFailure], failAt);
    var persisted := dir.Persist(s.o, issued, s.policy.renewBefore, now, failAt);
    ok := persisted.Ok?;
    if ok {
      ok := dir.Perform([RemoveFailure], Beyond(failAt, 9));
    }
  }
}
