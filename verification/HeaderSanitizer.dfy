/**
 What the edge forwards to a worker: connection-nominated stripping as in section 7.6.1 of RFC 9110, and the fixed
 denylists.
 */
module HeaderSanitizer {
  import opened Common
  import opened HeaderText

  /** `lowered` is absent when the name has no upper-case letter. */
  datatype LoweredHeader = LoweredHeader(name: string, value: string, lowered: Option<string>) {
    function Lower(): string {
      if lowered.Some? then lowered.value else name
    }

    predicate Valid() {
      lowered == if HasUpper(name) then Some(HeaderText.Lower(name)) else None
    }
  }

  function NewHeader(name: string, value: string): (h: LoweredHeader)
    ensures h.Valid() && h.name == name && h.value == value && h.Lower() == HeaderText.Lower(name)
  {
    var h := LoweredHeader(name, value, if HasUpper(name) then Some(HeaderText.Lower(name)) else None);
    assert !HasUpper(name) ==> HeaderText.Lower(name) == name;
    h
  }

  predicate AllValid(hs: seq<LoweredHeader>) {
    forall i :: 0 <= i < |hs| ==> hs[i].Valid()
  }

  lemma LowerOf(h: LoweredHeader)
    requires h.Valid()
    ensures h.Lower() == HeaderText.Lower(h.name) && HeaderText.Lower(h.Lower()) == h.Lower()
  {
    assert h == NewHeader(h.name, h.value);
    LowerIsIdempotent(h.name);
  }

  datatype Rejection = UpgradeUnsupported | GrpcUnsupported | StreamingUnsupported

  // ----- the rules -----

  function MediaType(value: string): string {
    Lower(Trim(Head(value, ';')))
  }

  predicate IsGrpc(value: string) {
    var m := MediaType(value);
    || m == "application/grpc" || StartsWith(m, "application/grpc+")
    || m == "application/grpc-web" || StartsWith(m, "application/grpc-web+")
  }

  predicate AcceptsEventStream(value: string) {
    var parts := Split(Lower(value), ',');
    exists i :: 0 <= i < |parts| && Trim(Head(parts[i], ';')) == "text/event-stream"
  }

  function RejectionOf(h: LoweredHeader, sse: bool): Option<Rejection> {
    var lower := h.Lower();
    if lower == "upgrade" || StartsWith(lower, "sec-websocket-") then Some(UpgradeUnsupported)
    else if lower == "content-type" && IsGrpc(h.value) then Some(GrpcUnsupported)
    else if !sse && ((lower == "accept" && AcceptsEventStream(h.value)) || lower == "last-event-id")
            then Some(StreamingUnsupported)
    else None
  }

  predicate HopByHop(lower: string) {
    lower in ["connection", "keep-alive", "proxy-authenticate", "proxy-authorization", "proxy-connection", "te",
              "trailer", "transfer-encoding", "upgrade", "x-request-id"]
  }

  predicate ClientForwarding(lower: string) {
    || lower in ["forwarded", "x-real-ip", "client-ip", "true-client-ip", "cf-connecting-ip", "cf-pseudo-ipv4",
                 "x-client-ip", "fastly-client-ip", "fly-client-ip", "x-cluster-client-ip", "x-original-forwarded-for",
                 "x-original-for",
                 "x-appengine-user-ip", "x-azure-clientip", "x-azure-socketip", "x-proxyuser-ip", "x-forwarded"]
    || StartsWith(lower, "x-forwarded-")
  }

  predicate NeverForwarded(lower: string) {
    HopByHop(lower) || ClientForwarding(lower) || StartsWith(lower, "x-oxo-")
  }

  // ----- what the result means -----

  predicate IsConnection(h: LoweredHeader) {
    h.Lower() == "connection"
  }

  /** Some token of this header value, trimmed and lowered, is `name`. */
  predicate NamedIn(value: string, name: string) {
    name != "" && exists j :: 0 <= j < |Split(value, ',')| && Lower(Trim(Split(value, ',')[j])) == name
  }

  /** A Connection header of the request nominates `name`. */
  predicate Nominated(hs: seq<LoweredHeader>, name: string) {
    exists i :: 0 <= i < |hs| && IsConnection(hs[i]) && NamedIn(hs[i].value, name)
  }

  predicate Stripped(hs: seq<LoweredHeader>, lower: string) {
    NeverForwarded(lower) || Nominated(hs, lower)
  }

  type Strip = LoweredHeader -> bool
  type Reject = LoweredHeader -> Option<Rejection>

  function StripFor(hs: seq<LoweredHeader>): Strip {
    (h: LoweredHeader) => Stripped(hs, h.Lower())
  }

  function RejectFor(sse: bool): Reject {
    (h: LoweredHeader) => RejectionOf(h, sse)
  }

  /** The survivors among the first `n` headers, in order, and the names of the others. */
  function Kept(strip: Strip, hs: seq<LoweredHeader>, n: nat): seq<LoweredHeader>
    requires n <= |hs|
  {
    if n == 0 then []
    else if strip(hs[n - 1]) then Kept(strip, hs, n - 1)
    else Kept(strip, hs, n - 1) + [hs[n - 1]]
  }

  function Dropped(strip: Strip, hs: seq<LoweredHeader>, n: nat): seq<string>
    requires n <= |hs|
  {
    if n == 0 then []
    else if strip(hs[n - 1]) then Dropped(strip, hs, n - 1) + [hs[n - 1].name]
    else Dropped(strip, hs, n - 1)
  }

  /** The refusal of the first header that has one, in order. */
  function FirstRejection(reject: Reject, hs: seq<LoweredHeader>, n: nat): Option<Rejection>
    requires n <= |hs|
  {
    if n == 0 then None
    else if FirstRejection(reject, hs, n - 1).Some? then FirstRejection(reject, hs, n - 1)
    else reject(hs[n - 1])
  }

  function Survivors(hs: seq<LoweredHeader>): seq<LoweredHeader> {
    Kept(StripFor(hs), hs, |hs|)
  }

  function Losses(hs: seq<LoweredHeader>): seq<string> {
    Dropped(StripFor(hs), hs, |hs|)
  }

  function Verdict(hs: seq<LoweredHeader>, sse: bool): Option<Rejection> {
    if Nominated(hs, "upgrade") then Some(UpgradeUnsupported) else FirstRejection(RejectFor(sse), hs, |hs|)
  }

  predicate HasHost(hs: seq<LoweredHeader>) {
    exists i :: 0 <= i < |hs| && hs[i].Lower() == "host"
  }

  lemma {:induction false} RejectionSticks(reject: Reject, hs: seq<LoweredHeader>, m: nat, n: nat)
    requires m <= n <= |hs| && FirstRejection(reject, hs, m).Some?
    ensures FirstRejection(reject, hs, n) == FirstRejection(reject, hs, m)
  {
    if m < n {
      RejectionSticks(reject, hs, m, n - 1);
    }
  }

  // ----- the owned form -----

  datatype SanitizedWorkerRequest = SanitizedWorkerRequest(headers: seq<LoweredHeader>, stripped: seq<string>)

  ghost predicate TokensOf(tokens: set<string>, hs: seq<LoweredHeader>, n: nat)
    requires n <= |hs|
  {
    forall name :: name in tokens <==> Nominated(hs[..n], name)
  }

  predicate NamedBefore(parts: seq<string>, j: nat, name: string)
    requires j <= |parts|
  {
    name != "" && exists k :: 0 <= k < j && Lower(Trim(parts[k])) == name
  }

  lemma NominatedStep(hs: seq<LoweredHeader>, n: nat, name: string)
    requires n < |hs|
    ensures Nominated(hs[..n + 1], name) <==>
            Nominated(hs[..n], name) || (IsConnection(hs[n]) && NamedIn(hs[n].value, name))
  {
    assert hs[..n + 1] == hs[..n] + [hs[n]];
    if Nominated(hs[..n], name) {
      var i :| 0 <= i < n && IsConnection(hs[..n][i]) && NamedIn(hs[..n][i].value, name);
      assert hs[..n + 1][i] == hs[..n][i];
    }
    if IsConnection(hs[n]) && NamedIn(hs[n].value, name) {
      assert hs[..n + 1][n] == hs[n];
    }
  }

  /** The tokens of one Connection value; none of them is "upgrade" unless it says so. */
  method ConnectionTokens(value: string, before: set<string>) returns (tokens: set<string>, upgrade: bool)
    ensures upgrade <==> NamedIn(value, "upgrade")
    ensures !upgrade ==> forall name :: name in tokens <==> name in before || NamedIn(value, name)
  {
    var parts := Split(value, ',');
    tokens, upgrade := before, false;
    for j := 0 to |parts|
      invariant !NamedBefore(parts, j, "upgrade")
      invariant forall name :: name in tokens <==> name in before || NamedBefore(parts, j, name)
    {
      var token := Lower(Trim(parts[j]));
      if token != "" {
        if token == "upgrade" {
          return tokens, true;
        }
        tokens := tokens + {token};
      }
    }
  }

  method OwnedTokens(hs: seq<LoweredHeader>) returns (tokens: set<string>, upgrade: bool)
    ensures upgrade <==> Nominated(hs, "upgrade")
    ensures !upgrade ==> TokensOf(tokens, hs, |hs|)
  {
    tokens, upgrade := {}, false;
    for i := 0 to |hs|
      invariant TokensOf(tokens, hs, i) && !Nominated(hs[..i], "upgrade")
    {
      forall name
        ensures Nominated(hs[..i + 1], name) <==>
                Nominated(hs[..i], name) || (IsConnection(hs[i]) && NamedIn(hs[i].value, name))
      {
        NominatedStep(hs, i, name);
      }
      if hs[i].Lower() == "connection" {
        tokens, upgrade := ConnectionTokens(hs[i].value, tokens);
        if upgrade {
          return tokens, true;
        }
      }
    }
    assert hs[..|hs|] == hs;
  }

  predicate ShouldStrip(lower: string, tokens: set<string>) {
    NeverForwarded(lower) || lower in tokens
  }

  function StripByTokens(tokens: set<string>): Strip {
    (h: LoweredHeader) => ShouldStrip(h.Lower(), tokens)
  }

  lemma TokensAreStrip(tokens: set<string>, hs: seq<LoweredHeader>)
    requires TokensOf(tokens, hs, |hs|)
    ensures SameStrip(StripByTokens(tokens), StripFor(hs), hs)
  {
    assert hs[..|hs|] == hs;
  }

  /** Two strip tests that agree on these headers. */
  ghost predicate SameStrip(a: Strip, b: Strip, hs: seq<LoweredHeader>) {
    forall i :: 0 <= i < |hs| ==> a(hs[i]) == b(hs[i])
  }

  lemma {:induction false} SameKept(a: Strip, b: Strip, hs: seq<LoweredHeader>, n: nat)
    requires SameStrip(a, b, hs) && n <= |hs|
    ensures Kept(a, hs, n) == Kept(b, hs, n) && Dropped(a, hs, n) == Dropped(b, hs, n)
  {
    if n > 0 {
      SameKept(a, b, hs, n - 1);
    }
  }

  /** The second pass: refuse, strip or clone each header in turn. */
  method CloneSurvivors(strip: Strip, reject: Reject, hs: seq<LoweredHeader>)
      returns (r: Result<SanitizedWorkerRequest, Rejection>)
    ensures match FirstRejection(reject, hs, |hs|)
            case Some(e) => r == Err(e)
            case None => r == Ok(SanitizedWorkerRequest(Kept(strip, hs, |hs|), Dropped(strip, hs, |hs|)))
  {
    var clean: seq<LoweredHeader>, stripped: seq<string> := [], [];
    for i := 0 to |hs|
      invariant FirstRejection(reject, hs, i).None? && clean == Kept(strip, hs, i) && stripped == Dropped(strip, hs, i)
    {
      var rejection := reject(hs[i]);
      if rejection.Some? {
        RejectionSticks(reject, hs, i + 1, |hs|);
        return Err(rejection.value);
      }
      if strip(hs[i]) {
        stripped := stripped + [hs[i].name];
      } else {
        clean := clean + [hs[i]];
      }
    }
    return Ok(SanitizedWorkerRequest(clean, stripped));
  }

  /** The form the HTTP hop uses: token set, cloned survivors. */
  method SanitizeOwned(hs: seq<LoweredHeader>, sse: bool) returns (r: Result<SanitizedWorkerRequest, Rejection>)
    ensures match Verdict(hs, sse)
            case Some(e) => r == Err(e)
            case None => r == Ok(SanitizedWorkerRequest(Survivors(hs), Losses(hs)))
  {
    var tokens, upgrade := OwnedTokens(hs);
    if upgrade {
      return Err(UpgradeUnsupported);
    }
    var strip := StripByTokens(tokens);
    r := CloneSurvivors(strip, RejectFor(sse), hs);
    TokensAreStrip(tokens, hs);
    SameKept(strip, StripFor(hs), hs, |hs|);
  }

  // ----- the frame form -----

  /** Bit `k` of a word, and the word with that bit set. */
  predicate Bit(w: nat, k: nat) {
    if k == 0 then w % 2 == 1 else Bit(w / 2, k - 1)
  }

  function WithBit(w: nat, k: nat): nat {
    if k == 0 then w / 2 * 2 + 1 else WithBit(w / 2, k - 1) * 2 + w % 2
  }

  lemma {:induction false} WithBitSets(w: nat, k: nat, j: nat)
    ensures Bit(WithBit(w, k), j) <==> j == k || Bit(w, j)
  {
    if k > 0 {
      assert WithBit(w, k) / 2 == WithBit(w / 2, k - 1);
      if j > 0 {
        WithBitSets(w / 2, k - 1, j - 1);
      }
    } else {
      assert WithBit(w, 0) / 2 == w / 2;
    }
  }

  lemma {:induction false} NoBits(k: nat)
    ensures !Bit(0, k)
  {
    if k > 0 {
      NoBits(k - 1);
    }
  }

  /** Setting a bit below the width stays inside the word. */
  lemma {:induction false} WithBitFits(w: nat, k: nat, width: nat)
    requires k < width && w < Pow2(width)
    ensures WithBit(w, k) < Pow2(width)
  {
    assert Pow2(width) == 2 * Pow2(width - 1) && w / 2 < Pow2(width - 1);
    if k > 0 {
      WithBitFits(w / 2, k - 1, width - 1);
    }
  }

  const WORD_BITS := 64
  const PLAN_HEADERS := 128

  datatype FrameHeaderPlan = FrameHeaderPlan(low: nat, high: nat, survivorCount: nat, hasHost: bool) {
    predicate Keeps(index: nat) {
      index < PLAN_HEADERS && if index / WORD_BITS == 0 then Bit(low, index % WORD_BITS)
          else Bit(high, index % WORD_BITS)
    }

    predicate FitsWords() {
      low < Pow2(WORD_BITS) && high < Pow2(WORD_BITS)
    }

    function Keeping(index: nat): FrameHeaderPlan
      requires index < PLAN_HEADERS
    {
      if index / WORD_BITS == 0 then this.(low := WithBit(low, index % WORD_BITS))
          else this.(high := WithBit(high, index % WORD_BITS))
    }
  }

  lemma KeepingSets(plan: FrameHeaderPlan, index: nat, j: nat)
    requires index < PLAN_HEADERS
    ensures plan.Keeping(index).Keeps(j) <==> j == index || plan.Keeps(j)
  {
    var word, bit, word', bit' := index / WORD_BITS, index % WORD_BITS, j / WORD_BITS, j % WORD_BITS;
    assert j == index <==> word == word' && bit == bit';
    if word == 0 {
      WithBitSets(plan.low, bit, bit');
    } else {
      WithBitSets(plan.high, bit, bit');
    }
  }

  lemma KeepingFits(plan: FrameHeaderPlan, index: nat)
    requires index < PLAN_HEADERS && plan.FitsWords()
    ensures plan.Keeping(index).FitsWords()
  {
    WithBitFits(plan.low, index % WORD_BITS, WORD_BITS);
    WithBitFits(plan.high, index % WORD_BITS, WORD_BITS);
  }

  /** The headers a plan selects. */
  function Selected(plan: FrameHeaderPlan, hs: seq<LoweredHeader>, n: nat): seq<LoweredHeader>
    requires n <= |hs|
  {
    if n == 0 then []
    else if plan.Keeps(n - 1) then Selected(plan, hs, n - 1) + [hs[n - 1]]
    else Selected(plan, hs, n - 1)
  }

  /** The frame form rescans the Connection values instead of building a set. */
  predicate NamesMatch(hs: seq<LoweredHeader>, candidate: string) {
    exists i :: 0 <= i < |hs| && hs[i].Lower() == "connection" && TokenMatches(hs[i].value, candidate)
  }

  predicate TokenMatches(value: string, candidate: string) {
    exists j :: 0 <= j < |Split(value, ',')| && Trim(Split(value, ',')[j]) != ""
        && EqIgnoreCase(Trim(Split(value, ',')[j]), candidate)
  }

  lemma TokenMatchIsNaming(value: string, candidate: string)
    requires Lower(candidate) == candidate
    ensures TokenMatches(value, candidate) <==> NamedIn(value, candidate)
  {
    var parts := Split(value, ',');
    forall j | 0 <= j < |parts|
      ensures Trim(parts[j]) != "" && EqIgnoreCase(Trim(parts[j]), candidate) <==>
              candidate != "" && Lower(Trim(parts[j])) == candidate
    {
      EqIgnoreCaseIsLower(Trim(parts[j]), candidate);
    }
  }

  lemma NamesMatchIsNominated(hs: seq<LoweredHeader>, candidate: string)
    requires Lower(candidate) == candidate
    ensures NamesMatch(hs, candidate) <==> Nominated(hs, candidate)
  {
    forall i | 0 <= i < |hs|
      ensures TokenMatches(hs[i].value, candidate) <==> NamedIn(hs[i].value, candidate)
    {
      TokenMatchIsNaming(hs[i].value, candidate);
    }
  }

  predicate ShouldStripScan(hs: seq<LoweredHeader>, lower: string) {
    NeverForwarded(lower) || NamesMatch(hs, lower)
  }

  /** The first pass: does any Connection token ask for an upgrade? */
  method UpgradeRequested(hs: seq<LoweredHeader>) returns (upgrade: bool)
    ensures upgrade <==> NamesMatch(hs, "upgrade")
  {
    for i := 0 to |hs|
      invariant forall k :: 0 <= k < i && hs[k].Lower() == "connection" ==> !TokenMatches(hs[k].value, "upgrade")
    {
      if hs[i].Lower() == "connection" {
        var parts := Split(hs[i].value, ',');
        for j := 0 to |parts|
          invariant forall k :: 0 <= k < j ==> !(Trim(parts[k]) != "" && EqIgnoreCase(Trim(parts[k]), "upgrade"))
        {
          var token := Trim(parts[j]);
          if token != "" && EqIgnoreCase(token, "upgrade") {
            return true;
          }
        }
      }
    }
    return false;
  }

  /** The plan so far describes the first `n` headers. */
  ghost predicate Describes(plan: FrameHeaderPlan, strip: Strip, hs: seq<LoweredHeader>, n: nat)
    requires n <= |hs|
  {
    && plan.FitsWords()
    && (forall j: nat :: plan.Keeps(j) <==> j < n && !strip(hs[j]))
    && plan.survivorCount == |Kept(strip, hs, n)|
    && (plan.hasHost <==> HasHost(Kept(strip, hs, n)))
  }

  lemma HasHostStep(kept: seq<LoweredHeader>, h: LoweredHeader)
    ensures HasHost(kept + [h]) <==> HasHost(kept) || h.Lower() == "host"
  {
    var all := kept + [h];
    assert all[|kept|] == h;
    if HasHost(kept) {
      var i :| 0 <= i < |kept| && kept[i].Lower() == "host";
      assert all[i] == kept[i];
    }
  }

  lemma DescribesStep(plan: FrameHeaderPlan, plan': FrameHeaderPlan, strip: Strip, hs: seq<LoweredHeader>, n: nat)
    requires n < |hs| <= PLAN_HEADERS && Describes(plan, strip, hs, n)
    requires plan' == if strip(hs[n]) then plan else
                        plan.Keeping(n).(survivorCount := plan.survivorCount + 1,
                                         hasHost := plan.hasHost || hs[n].Lower() == "host")
    ensures Describes(plan', strip, hs, n + 1)
  {
    if !strip(hs[n]) {
      HasHostStep(Kept(strip, hs, n), hs[n]);
      forall j: nat
        ensures plan'.Keeps(j) <==> j == n || plan.Keeps(j)
      {
        KeepingSets(plan, n, j);
      }
      KeepingFits(plan, n);
    }
  }

  lemma {:induction false} SelectedIsKept(plan: FrameHeaderPlan, strip: Strip, hs: seq<LoweredHeader>, n: nat)
    requires n <= |hs| && forall j: nat :: j < |hs| ==> (plan.Keeps(j) <==> !strip(hs[j]))
    ensures Selected(plan, hs, n) == Kept(strip, hs, n)
  {
    if n > 0 {
      SelectedIsKept(plan, strip, hs, n - 1);
    }
  }

  /** The form the frame hop uses: a keep-mask over the caller's headers, nothing copied. */
  method SanitizeFrame(hs: seq<LoweredHeader>, sse: bool) returns (r: Result<FrameHeaderPlan, Rejection>)
    requires AllValid(hs)
    ensures |hs| > PLAN_HEADERS ==> r == Err(UpgradeUnsupported)
    ensures |hs| <= PLAN_HEADERS && Verdict(hs, sse).Some? ==> r == Err(Verdict(hs, sse).value)
    ensures |hs| <= PLAN_HEADERS && Verdict(hs, sse).None? ==>
              && r.Ok? && r.value.FitsWords()
              && Selected(r.value, hs, |hs|) == Survivors(hs)
              && r.value.survivorCount == |Survivors(hs)|
              && (r.value.hasHost <==> HasHost(Survivors(hs)))
  {
    if |hs| > PLAN_HEADERS {
      return Err(UpgradeUnsupported);
    }
    var upgrade := UpgradeRequested(hs);
    NamesMatchIsNominated(hs, "upgrade");
    if upgrade {
      return Err(UpgradeUnsupported);
    }
    var strip := StripByScan(hs);
    r := PlanFrom(strip, RejectFor(sse), hs);
    if r.Ok? {
      ScanIsStrip(hs);
      SelectedIsKept(r.value, strip, hs, |hs|);
      SameKept(strip, StripFor(hs), hs, |hs|);
    }
  }

  function StripByScan(hs: seq<LoweredHeader>): Strip {
    (h: LoweredHeader) => ShouldStripScan(hs, h.Lower())
  }

  /** The second pass: refuse, skip or mark each header in turn. */
  method PlanFrom(strip: Strip, reject: Reject, hs: seq<LoweredHeader>) returns (r: Result<FrameHeaderPlan, Rejection>)
    requires |hs| <= PLAN_HEADERS
    ensures match FirstRejection(reject, hs, |hs|)
            case Some(e) => r == Err(e)
            case None => r.Ok? && Describes(r.value, strip, hs, |hs|)
  {
    var plan := FrameHeaderPlan(0, 0, 0, false);
    EmptyPlan(strip, hs);
    for i := 0 to |hs|
      invariant FirstRejection(reject, hs, i).None? && Describes(plan, strip, hs, i)
    {
      var rejection := reject(hs[i]);
      if rejection.Some? {
        RejectionSticks(reject, hs, i + 1, |hs|);
        return Err(rejection.value);
      }
      ghost var before := plan;
      if !strip(hs[i]) {
        plan := plan.Keeping(i).(survivorCount := plan.survivorCount + 1,
                                 hasHost := plan.hasHost || hs[i].Lower() == "host");
      }
      DescribesStep(before, plan, strip, hs, i);
    }
    return Ok(plan);
  }

  lemma ScanIsStrip(hs: seq<LoweredHeader>)
    requires AllValid(hs)
    ensures SameStrip(StripByScan(hs), StripFor(hs), hs)
  {
    forall i | 0 <= i < |hs|
      ensures StripByScan(hs)(hs[i]) == StripFor(hs)(hs[i])
    {
      LowerOf(hs[i]);
      NamesMatchIsNominated(hs, hs[i].Lower());
    }
  }

  lemma EmptyPlan(strip: Strip, hs: seq<LoweredHeader>)
    ensures Describes(FrameHeaderPlan(0, 0, 0, false), strip, hs, 0)
  {
    forall j: nat
      ensures !FrameHeaderPlan(0, 0, 0, false).Keeps(j)
    {
      NoBits(j % WORD_BITS);
    }
    assert Kept(strip, hs, 0) == [];
  }

  /** For up to 128 headers both forms refuse alike or keep the same headers in the same order. */
  method SanitizersAgree(hs: seq<LoweredHeader>, sse: bool)
      returns (owned: Result<SanitizedWorkerRequest, Rejection>, frame: Result<FrameHeaderPlan, Rejection>)
    requires AllValid(hs) && |hs| <= PLAN_HEADERS
    ensures match owned
            case Err(e) => frame == Err(e)
            case Ok(clean) =>
              && frame.Ok?
              && Selected(frame.value, hs, |hs|) == clean.headers
              && frame.value.survivorCount == |clean.headers|
              && (frame.value.hasHost <==> HasHost(clean.headers))
  {
    owned := SanitizeOwned(hs, sse);
    frame := SanitizeFrame(hs, sse);
  }

  // ----- what survives -----

  lemma {:induction false} KeptExactly(strip: Strip, hs: seq<LoweredHeader>, n: nat)
    requires n <= |hs|
    ensures forall h :: h in Kept(strip, hs, n) <==> h in hs[..n] && !strip(h)
    ensures |Kept(strip, hs, n)| + |Dropped(strip, hs, n)| == n
  {
    if n > 0 {
      KeptExactly(strip, hs, n - 1);
      assert hs[..n] == hs[..n - 1] + [hs[n - 1]];
    }
  }

  lemma {:induction false} DroppedExactly(strip: Strip, hs: seq<LoweredHeader>, n: nat, name: string)
    requires n <= |hs|
    ensures name in Dropped(strip, hs, n) <==> exists i :: 0 <= i < n && strip(hs[i]) && hs[i].name == name
  {
    if n > 0 {
      DroppedExactly(strip, hs, n - 1, name);
    }
  }

  /** The survivors are exactly the headers that are neither denied nor nominated; every header is kept or reported. */
  lemma SurvivorsExactly(hs: seq<LoweredHeader>)
    ensures forall h :: h in Survivors(hs) <==> h in hs && !NeverForwarded(h.Lower()) && !Nominated(hs, h.Lower())
    ensures forall name :: name in Losses(hs) <==>
              exists i :: 0 <= i < |hs| && Stripped(hs, hs[i].Lower()) && hs[i].name == name
    ensures |Survivors(hs)| + |Losses(hs)| == |hs|
  {
    KeptExactly(StripFor(hs), hs, |hs|);
    assert hs[..|hs|] == hs;
    forall name
      ensures name in Losses(hs) <==> exists i :: 0 <= i < |hs| && StripFor(hs)(hs[i]) && hs[i].name == name
    {
      DroppedExactly(StripFor(hs), hs, |hs|, name);
    }
  }

  lemma {:induction false} NothingRejected(reject: Reject, hs: seq<LoweredHeader>, n: nat)
    requires n <= |hs|
    ensures FirstRejection(reject, hs, n).None? <==> forall i :: 0 <= i < n ==> reject(hs[i]).None?
  {
    if n > 0 {
      NothingRejected(reject, hs, n - 1);
    }
  }

  lemma {:induction false} KeepsAll(strip: Strip, hs: seq<LoweredHeader>, n: nat)
    requires n <= |hs| && forall i :: 0 <= i < n ==> !strip(hs[i])
    ensures Kept(strip, hs, n) == hs[..n] && Dropped(strip, hs, n) == []
  {
    if n > 0 {
      KeepsAll(strip, hs, n - 1);
      assert hs[..n] == hs[..n - 1] + [hs[n - 1]];
    }
  }

  /** Sanitizing what survived changes nothing: no refusal, every header kept, in order. */
  lemma SanitizingIsIdempotent(hs: seq<LoweredHeader>, sse: bool)
    requires Verdict(hs, sse).None?
    ensures var kept := Survivors(hs); Verdict(kept, sse).None? && Survivors(kept) == kept && Losses(kept) == []
  {
    var kept := Survivors(hs);
    SurvivorsExactly(hs);
    forall h | h in kept
      ensures !IsConnection(h) && !NeverForwarded(h.Lower())
    {
    }
    assert forall name :: !Nominated(kept, name);
    NothingRejected(RejectFor(sse), hs, |hs|);
    forall i | 0 <= i < |kept|
      ensures RejectFor(sse)(kept[i]).None?
    {
      assert kept[i] in hs;
    }
    NothingRejected(RejectFor(sse), kept, |kept|);
    forall i | 0 <= i < |kept|
      ensures !StripFor(kept)(kept[i])
    {
      assert kept[i] in kept;
    }
    KeepsAll(StripFor(kept), kept, |kept|);
    assert kept[..|kept|] == kept;
  }

  // ----- the rules on the characters of the request -----

  /** Some header named Connection, in any case, says `name` between two commas, with only blanks around it. */
  ghost predicate NominatedOnTheWire(hs: seq<LoweredHeader>, name: string) {
    exists i :: 0 <= i < |hs| && Spells(hs[i].name, "connection") && Says(hs[i].value, ',', name)
  }

  /** Nomination as the sanitizers compute it is nomination on the wire. */
  lemma NominatedExactly(hs: seq<LoweredHeader>, name: string)
    requires AllValid(hs)
    ensures Nominated(hs, name) <==> name != "" && NominatedOnTheWire(hs, name)
  {
    forall i | 0 <= i < |hs|
      ensures IsConnection(hs[i]) <==> Spells(hs[i].name, "connection")
      ensures NamedIn(hs[i].value, name) <==> name != "" && Says(hs[i].value, ',', name)
    {
      LowerOf(hs[i]);
      SpellsExactly(hs[i].name, "connection");
      if name != "" {
        SaysExactly(hs[i].value, ',', name);
      }
    }
  }

  /** A header survives if and only if its name is on no list and no Connection header of the request says it. */
  lemma SurvivorsOnTheWire(hs: seq<LoweredHeader>)
    requires AllValid(hs)
    ensures forall h :: h in Survivors(hs) <==>
              && h in hs && !NeverForwarded(Lower(h.name))
              && (h.name == "" || !NominatedOnTheWire(hs, Lower(h.name)))
  {
    SurvivorsExactly(hs);
    forall h | h in hs
      ensures h.Lower() == Lower(h.name)
      ensures Nominated(hs, h.Lower()) <==> h.name != "" && NominatedOnTheWire(hs, Lower(h.name))
    {
      LowerOf(h);
      NominatedExactly(hs, h.Lower());
    }
  }

  /** The media type is what stands before the first semicolon without the blanks around it, in lower case. */
  lemma MediaTypeExactly(value: string) returns (a: nat, b: nat, e: nat)
    ensures a <= b <= e <= |value| && Between(value, ';', 0, e)
    ensures Blank(value, 0, a) && Blank(value, b, e) && Tight(value, a, b)
    ensures Spells(value[a..b], MediaType(value))
  {
    e := HeadCuts(value, ';');
    a, b := TrimExactly(value[0..e]);
    BlanksOfSlice(value, 0, e, a, b);
    SliceOfSlice(value, 0, e, a, b);
    SpellsExactly(value[a..b], MediaType(value));
  }

  lemma HeadCuts(s: string, sep: char) returns (e: nat)
    ensures Between(s, sep, 0, e) && Head(s, sep) == s[0..e]
  {
    HeadIsFirstPart(s, sep);
    var i, j := PartIsBetween(s, sep, 0);
    e := j;
  }

  /** Up to the first semicolon, `part` is `token` and nothing else but blanks. */
  predicate Leads(part: string, token: string, e: nat, a: nat, b: nat) {
    && Between(part, ';', 0, e) && a <= b <= e
    && Blank(part, 0, a) && Blank(part, b, e) && part[a..b] == token
  }

  predicate Solid(token: string) {
    token != "" && Tight(token, 0, |token|)
  }

  lemma LeadsExactly(part: string, token: string)
    requires Solid(token)
    ensures Trim(Head(part, ';')) == token <==> exists e: nat, a: nat, b: nat :: Leads(part, token, e, a, b)
  {
    if Trim(Head(part, ';')) == token {
      var e := HeadCuts(part, ';');
      var a, b := TrimExactly(part[0..e]);
      BlanksOfSlice(part, 0, e, a, b);
      SliceOfSlice(part, 0, e, a, b);
      assert Leads(part, token, e, a, b);
    }
    if e: nat, a: nat, b: nat :| Leads(part, token, e, a, b) {
      LeadingIsTrimmed(part, token, e, a, b);
    }
  }

  lemma LeadingIsTrimmed(part: string, token: string, e: nat, a: nat, b: nat)
    requires Solid(token) && Leads(part, token, e, a, b)
    ensures Trim(Head(part, ';')) == token
  {
    var k := BetweenIsPart(part, ';', 0, e);
    HeadIsFirstPart(part, ';');
    assert part[a] == token[0] && part[b - 1] == token[|token| - 1];
    BlanksOfSlice(part, 0, e, a, b);
    SliceOfSlice(part, 0, e, a, b);
    TrimIsUnique(part[0..e], a, b);
  }

  /** The same, said of the stretch `i..j` of a value. */
  predicate LeadsIn(s: string, token: string, i: nat, j: nat, e: nat, a: nat, b: nat)
    requires i <= j <= |s|
  {
    && i <= a <= b <= e <= j && Without(s, ';', i, e) && (e == j || s[e] == ';')
    && Blank(s, i, a) && Blank(s, b, e) && s[a..b] == token
  }

  lemma LeadsInSlice(s: string, token: string, i: nat, j: nat, e: nat, a: nat, b: nat)
    requires i <= j <= |s| && a <= b <= e <= j - i
    ensures Leads(s[i..j], token, e, a, b) <==> LeadsIn(s, token, i, j, i + e, i + a, i + b)
  {
    assert forall m :: 0 <= m < j - i ==> s[i..j][m] == s[i + m];
    assert forall m :: i <= m < j ==> s[m] == s[i..j][m - i];
    SliceOfSlice(s, i, j, a, b);
  }

  predicate ListsToken(s: string, token: string, i: nat, j: nat, e: nat, a: nat, b: nat) {
    Between(s, ',', i, j) && LeadsIn(s, token, i, j, e, a, b)
  }

  lemma ListsExactly(s: string, token: string)
    requires Solid(token)
    ensures (exists k :: 0 <= k < |Split(s, ',')| && Trim(Head(Split(s, ',')[k], ';')) == token) <==>
            exists i: nat, j: nat, e: nat, a: nat, b: nat :: ListsToken(s, token, i, j, e, a, b)
  {
    if k :| 0 <= k < |Split(s, ',')| && Trim(Head(Split(s, ',')[k], ';')) == token {
      PartLists(s, token, k);
    }
    if i: nat, j: nat, e: nat, a: nat, b: nat :| ListsToken(s, token, i, j, e, a, b) {
      var k := ListedIsPart(s, token, i, j, e, a, b);
    }
  }

  lemma PartLists(s: string, token: string, k: nat)
    requires Solid(token) && k < |Split(s, ',')| && Trim(Head(Split(s, ',')[k], ';')) == token
    ensures exists i: nat, j: nat, e: nat, a: nat, b: nat :: ListsToken(s, token, i, j, e, a, b)
  {
    var i, j := PartIsBetween(s, ',', k);
    LeadsExactly(s[i..j], token);
    var e: nat, a: nat, b: nat :| Leads(s[i..j], token, e, a, b);
    LeadsInSlice(s, token, i, j, e, a, b);
    assert ListsToken(s, token, i, j, i + e, i + a, i + b);
  }

  lemma ListedIsPart(s: string, token: string, i: nat, j: nat, e: nat, a: nat, b: nat) returns (k: nat)
    requires Solid(token) && ListsToken(s, token, i, j, e, a, b)
    ensures k < |Split(s, ',')| && Trim(Head(Split(s, ',')[k], ';')) == token
  {
    k := BetweenIsPart(s, ',', i, j);
    LeadsInSlice(s, token, i, j, e - i, a - i, b - i);
    LeadsExactly(s[i..j], token);
  }

  /**
   From `i` to `j` the value lies between commas; up to `e`, the first semicolon there, it says `token`, in any case,
   and nothing else but blanks.
   */
  predicate Accepts(value: string, token: string, i: nat, j: nat, e: nat, a: nat, b: nat) {
    && Between(value, ',', i, j) && i <= a <= b <= e <= j
    && Without(value, ';', i, e) && (e == j || value[e] == ';')
    && Blank(value, i, a) && Blank(value, b, e) && Spells(value[a..b], token)
  }

  ghost predicate AcceptsOnTheWire(value: string, token: string) {
    exists i: nat, j: nat, e: nat, a: nat, b: nat :: Accepts(value, token, i, j, e, a, b)
  }

  /** Case does not move commas, semicolons or blanks. */
  lemma ListsInAnyCase(value: string, token: string, i: nat, j: nat, e: nat, a: nat, b: nat)
    ensures ListsToken(Lower(value), token, i, j, e, a, b) <==> Accepts(value, token, i, j, e, a, b)
  {
    var w := Lower(value);
    assert forall k :: 0 <= k < |w| ==>
        && (w[k] == ',' <==> value[k] == ',') && (w[k] == ';' <==> value[k] == ';')
        && (IsSpace(w[k]) <==> IsSpace(value[k]));
    if i <= a <= b <= e <= j <= |w| {
      assert w[a..b] == Lower(value[a..b]);
      SpellsExactly(value[a..b], token);
    }
  }

  /** A request asks for an event stream exactly when its Accept value says so between two commas. */
  lemma AcceptsExactly(value: string)
    ensures AcceptsEventStream(value) <==> AcceptsOnTheWire(value, "text/event-stream")
  {
    var token := "text/event-stream";
    assert Solid(token);
    ListsExactly(Lower(value), token);
    forall i: nat, j: nat, e: nat, a: nat, b: nat
      ensures ListsToken(Lower(value), token, i, j, e, a, b) <==> Accepts(value, token, i, j, e, a, b)
    {
      ListsInAnyCase(value, token, i, j, e, a, b);
    }
  }

  /** The name begins with `prefix`, in any case. */
  predicate BeginsSpelling(name: string, prefix: string) {
    |prefix| <= |name| && Spells(name[..|prefix|], prefix)
  }

  lemma BeginsExactly(name: string, prefix: string)
    ensures StartsWith(Lower(name), prefix) <==> BeginsSpelling(name, prefix)
  {
    if |prefix| <= |name| {
      assert Lower(name)[..|prefix|] == Lower(name[..|prefix|]);
      SpellsExactly(name[..|prefix|], prefix);
    }
  }

  /** A header that no worker is sent, on the characters of its name and value. */
  ghost predicate RefusedOnTheWire(name: string, value: string, sse: bool) {
    || Spells(name, "upgrade") || BeginsSpelling(name, "sec-websocket-")
    || (Spells(name, "content-type") && IsGrpc(value))
    || (!sse && Spells(name, "accept") && AcceptsOnTheWire(value, "text/event-stream"))
    || (!sse && Spells(name, "last-event-id"))
  }

  lemma RejectionExactly(h: LoweredHeader, sse: bool)
    requires h.Valid()
    ensures RejectionOf(h, sse).Some? <==> RefusedOnTheWire(h.name, h.value, sse)
  {
    LowerOf(h);
    SpellsExactly(h.name, "upgrade");
    SpellsExactly(h.name, "content-type");
    SpellsExactly(h.name, "accept");
    SpellsExactly(h.name, "last-event-id");
    BeginsExactly(h.name, "sec-websocket-");
    AcceptsExactly(h.value);
  }

  /** A request is turned away if and only if a Connection header says "upgrade" or some header is one of these. */
  lemma VerdictExactly(hs: seq<LoweredHeader>, sse: bool)
    requires AllValid(hs)
    ensures Verdict(hs, sse).Some? <==>
            || NominatedOnTheWire(hs, "upgrade")
            || exists i :: 0 <= i < |hs| && RefusedOnTheWire(hs[i].name, hs[i].value, sse)
  {
    NominatedExactly(hs, "upgrade");
    NothingRejected(RejectFor(sse), hs, |hs|);
    forall i | 0 <= i < |hs|
      ensures RejectFor(sse)(hs[i]).Some? <==> RefusedOnTheWire(hs[i].name, hs[i].value, sse)
    {
      RejectionExactly(hs[i], sse);
    }
  }
}
