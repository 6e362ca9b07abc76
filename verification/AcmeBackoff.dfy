/** When a failed renewal may contact the issuer again. */
module AcmeBackoff {
  import opened Common

  const U64_MAX: nat := 0xFFFF_FFFF_FFFF_FFFF
  type u64 = x: nat | x <= U64_MAX

  datatype FailureKind = Transient | RateLimited | InvalidCertificate | ReloadRolledBack

  /** last-failure.json */
  datatype Failure = Failure(kind: FailureKind, count: u64, nextAttempt: u64)

  datatype Policy = Policy(renewBefore: u64, retryBase: u64, retryMax: u64, retryJitter: u64, rateLimitFloor: u64)

  const DEFAULT_POLICY := Policy(30 * 24 * 60 * 60, 60, 6 * 60 * 60, 300, 60 * 60)

  function SaturatingAdd(a: nat, b: nat): u64 {
    Min(a + b, U64_MAX)
  }

  function SaturatingSub(a: nat, b: nat): nat {
    if a >= b then a - b else 0
  }

  function SaturatingMul(a: nat, b: nat): u64 {
    Min(a * b, U64_MAX)
  }

  function Jitter(now: u64, count: u64, jitterSeconds: u64): nat {
    if jitterSeconds == 0 then 0
    else (now * 6364136223846793005 + count * 1442695040888963407) % 0x1_0000_0000_0000_0000 % (jitterSeconds + 1)
  }

  predicate Floored(kind: FailureKind) {
    kind.RateLimited? || kind.InvalidCertificate?
  }

  /** The wait after the failure that brings the count to `count`. */
  function Wait(count: nat, policy: Policy): nat {
    Min(policy.retryBase * Pow2(Min(SaturatingSub(count, 1), 20)), policy.retryMax)
  }

  function NextAttempt(now: u64, count: u64, policy: Policy, kind: FailureKind, retryAfter: Option<u64>): u64 {
    var base := Min(SaturatingMul(policy.retryBase, Pow2(Min(SaturatingSub(count, 1), 20))), policy.retryMax);
    var next := SaturatingAdd(SaturatingAdd(now, base), Jitter(now, count, policy.retryJitter));
    var floored := if Floored(kind) then Max(next, SaturatingAdd(now, policy.rateLimitFloor)) else next;
    if retryAfter.Some? then Max(floored, retryAfter.value) else floored
  }

  /** The record written by a failure, over the record that was there. */
  function NextFailure(previous: Option<Failure>, now: u64, policy: Policy, kind: FailureKind): Failure {
    var count := SaturatingAdd(if previous.Some? then previous.value.count else 0, 1);
    Failure(kind, count, NextAttempt(now, count, policy, kind, None))
  }

  /**
   The next attempt is at least the doubled and capped wait away, and the floor for the kinds that have
   one; without a floor or a server's own date it is no further than the jitter beyond the wait.
   */
  lemma NextAttemptBounds(now: u64, count: u64, policy: Policy, kind: FailureKind, retryAfter: Option<u64>)
    ensures var next := NextAttempt(now, count, policy, kind, retryAfter);
            && next >= Min(now + Wait(count, policy), U64_MAX)
            && (Floored(kind) ==> next >= Min(now + policy.rateLimitFloor, U64_MAX))
            && (retryAfter.Some? ==> next >= retryAfter.value)
            && next >= now
            && (!Floored(kind) && retryAfter.None? ==> next <= now + Wait(count, policy) + policy.retryJitter)
  {
  }

  /** The wait doubles with every failure until it reaches the maximum, for the first twenty doublings. */
  lemma WaitDoubles(count: nat, policy: Policy)
    requires 1 <= count <= 20
    ensures Wait(count + 1, policy) == Min(2 * Wait(count, policy), policy.retryMax)
    ensures Wait(1, policy) == Min(policy.retryBase, policy.retryMax)
  {
    assert Pow2(count) == 2 * Pow2(count - 1) && Pow2(0) == 1;
    Twice(policy.retryBase, Pow2(count - 1));
  }

  lemma Twice(base: nat, p: nat)
    ensures base * (2 * p) == 2 * (base * p)
  {
  }

  // ----- failure classes -----

  predicate ContainsAt(s: string, word: string, i: nat) {
    && i + |word| <= |s|
    && forall j :: 0 <= j < |word| ==> LowerChar(s[i + j]) == word[j]
  }

  predicate Mentions(s: string, word: string) {
    exists i :: 0 <= i <= |s| && ContainsAt(s, word, i)
  }

  function Classify(message: string): FailureKind {
    if Mentions(message, "invalid issued certificate") then InvalidCertificate
    else if Mentions(message, "rate") || Mentions(message, "429") then RateLimited
    else Transient
  }
}
