/**
 What the edge's decoders answer to every frame its encoders can write: the value, or the error of the first thing that
 is wrong with it.
 */
module FrameRefusals {
  import opened Common
  import opened HopFrame
  import opened HopFrameTheorems
  import opened FrameText

  /** The value with the bytes behind it, or the refusal. */
  function Answer<T>(refusal: Option<FrameError>, v: T, rest: Bytes): Parse<T> {
    if refusal.Some? then Err(refusal.value) else Ok(Parsed(v, rest))
  }

  // ----- strings -----

  ghost function TextRefusal(v: Bytes): Option<FrameError> {
    if IsText(v) then None else Some(NotUtf8)
  }

  lemma ShortAnswer(v: Bytes, rest: Bytes)
    requires Short(v)
    ensures ParseShort(PutShort(v, rest)) == Answer(TextRefusal(v), v, rest)
  {
    ShortIsText(PutShort(v, rest), v, rest);
    NotTextIsRefused(v, rest);
  }

  lemma LongAnswer(v: Bytes, rest: Bytes)
    requires Long(v)
    ensures ParseLong(PutLong(v, rest)) == Answer(TextRefusal(v), v, rest)
  {
    LongIsText(PutLong(v, rest), v, rest);
    NotTextIsRefused(v, rest);
  }

  ghost function FirstRefusal(a: Option<FrameError>, b: Option<FrameError>): Option<FrameError> {
    if a.Some? then a else b
  }

  // ----- the request line -----

  ghost function TargetRefusal(l: RequestLine): Option<FrameError> {
    FirstRefusal(TextRefusal(l.method_), FirstRefusal(TextRefusal(l.path), TextRefusal(l.query)))
  }

  lemma TargetAnswer(l: RequestLine, rest: Bytes)
    requires LineFits(l)
    ensures ParseTarget(PutShort(l.method_, PutLong(l.path, PutLong(l.query, rest)))) ==
            Answer(TargetRefusal(l), (l.method_, l.path, l.query), rest)
  {
    ShortAnswer(l.method_, PutLong(l.path, PutLong(l.query, rest)));
    LongAnswer(l.path, PutLong(l.query, rest));
    LongAnswer(l.query, rest);
  }

  lemma ServerAnswer(l: RequestLine, rest: Bytes)
    requires LineFits(l)
    ensures ParseServer(PutShort(l.serverName, PutU16(l.serverPort, rest))) ==
            Answer(TextRefusal(l.serverName), (l.serverName, l.serverPort), rest)
  {
    ShortAnswer(l.serverName, PutU16(l.serverPort, rest));
    U16Exact(PutU16(l.serverPort, rest), l.serverPort, rest);
  }

  lemma PeerAnswer(l: RequestLine, rest: Bytes)
    requires LineFits(l)
    ensures ParsePeer([SchemeByte(l.scheme)] + PutShort(l.remoteAddr, rest)) ==
            Answer(TextRefusal(l.remoteAddr), (l.scheme, l.remoteAddr), rest)
  {
    SchemeExact([SchemeByte(l.scheme)] + PutShort(l.remoteAddr, rest), l.scheme, PutShort(l.remoteAddr, rest));
    ShortAnswer(l.remoteAddr, rest);
  }

  ghost function LineRefusal(l: RequestLine): Option<FrameError> {
    if IsText(l.method_) && IsText(l.path) && IsText(l.query) && IsText(l.serverName) && IsText(l.remoteAddr) then None
    else Some(NotUtf8)
  }

  lemma LineAnswer(l: RequestLine, rest: Bytes)
    requires LineFits(l)
    ensures ParseLine(PutLine(l, rest)) == Answer(LineRefusal(l), l, rest)
  {
    var peer := [SchemeByte(l.scheme)] + PutShort(l.remoteAddr, rest);
    var server := PutShort(l.serverName, PutU16(l.serverPort, peer));
    TargetAnswer(l, server);
    ServerAnswer(l, peer);
    PeerAnswer(l, rest);
  }

  // ----- headers -----

  /** Text is tested before control characters, in name and value alike. */
  ghost function HeaderRefusal(h: Header): Option<FrameError> {
    if !IsText(h.name) || !IsText(h.value) then Some(NotUtf8)
    else if !IsPlainText(h.name) || !IsPlainText(h.value) then Some(ControlByteInHeader)
    else None
  }

  lemma HeaderAnswer(h: Header, rest: Bytes)
    requires HeaderFits(h)
    ensures ParseHeader(PutHeader(h, rest)) == Answer(HeaderRefusal(h), h, rest)
  {
    ShortAnswer(h.name, PutLong(h.value, rest));
    LongAnswer(h.value, rest);
    Utf8Exactly(h.name);
    Utf8Exactly(h.value);
    PlainExactly(h.name);
    PlainExactly(h.value);
  }

  ghost predicate AnswersHeaders(one: Bytes -> Parse<Header>) {
    forall h, rest :: HeaderFits(h) ==> one(PutHeader(h, rest)) == Answer(HeaderRefusal(h), h, rest)
  }

  lemma ParseHeaderAnswers()
    ensures AnswersHeaders(ParseHeader)
  {
    forall h, rest | HeaderFits(h)
      ensures ParseHeader(PutHeader(h, rest)) == Answer(HeaderRefusal(h), h, rest)
    {
      HeaderAnswer(h, rest);
    }
  }

  /** What is wrong with header `i`: itself, or that it takes the sum over the cap. */
  ghost function ItemRefusal(hs: seq<Header>, i: nat, maxBytes: u32): Option<FrameError> {
    if i >= |hs| then None
    else
      FirstRefusal(HeaderRefusal(hs[i]),
          if SummedBytes(hs[..i + 1]) > maxBytes then Some(HeaderBytesExceeded(maxBytes)) else None)
  }

  ghost function FirstAmong(own: nat -> Option<FrameError>, n: nat): Option<FrameError> {
    if n == 0 then None else FirstRefusal(FirstAmong(own, n - 1), own(n - 1))
  }

  lemma {:induction false} FirstStays(own: nat -> Option<FrameError>, n: nat, m: nat)
    requires n <= m && FirstAmong(own, n).Some?
    ensures FirstAmong(own, m) == FirstAmong(own, n)
  {
    if n < m {
      FirstStays(own, n, m - 1);
    }
  }

  ghost function ItemRefusals(hs: seq<Header>, maxBytes: u32): nat -> Option<FrameError> {
    (i: nat) => ItemRefusal(hs, i, maxBytes)
  }

  /** What is wrong with the first `n` headers, the first bad one. */
  ghost function ItemsRefusal(hs: seq<Header>, n: nat, maxBytes: u32): Option<FrameError> {
    FirstAmong(ItemRefusals(hs, maxBytes), n)
  }

  lemma RefusalStays(hs: seq<Header>, n: nat, m: nat, maxBytes: u32)
    requires n <= m && ItemsRefusal(hs, n, maxBytes).Some?
    ensures ItemsRefusal(hs, m, maxBytes) == ItemsRefusal(hs, n, maxBytes)
  {
    FirstStays(ItemRefusals(hs, maxBytes), n, m);
  }

  lemma {:induction false} ItemsAnswer(one: Bytes -> Parse<Header>, hs: seq<Header>, n: nat, rest: Bytes, maxBytes: u32)
    requires AnswersHeaders(one) && n <= |hs| && HeadersFit(hs) && ItemsRefusal(hs, n, maxBytes).None?
    ensures ParseItems(one, PutItems(hs[n..], rest), |hs|, hs[..n], maxBytes) ==
            Answer(ItemsRefusal(hs, |hs|, maxBytes), hs, rest)
    decreases |hs| - n
  {
    if n == |hs| {
      NoItem(one, hs, rest, maxBytes);
    } else {
      OneItem(one, hs, n, rest, maxBytes);
      if ItemsRefusal(hs, n + 1, maxBytes).Some? {
        RefusalStays(hs, n + 1, |hs|, maxBytes);
      } else {
        ItemsAnswer(one, hs, n + 1, rest, maxBytes);
      }
    }
  }

  lemma NoItem(one: Bytes -> Parse<Header>, hs: seq<Header>, rest: Bytes, maxBytes: u32)
    requires HeadersFit(hs)
    ensures ParseItems(one, PutItems(hs[|hs|..], rest), |hs|, hs[..|hs|], maxBytes) == Ok(Parsed(hs, rest))
  {
    assert hs[..|hs|] == hs && hs[|hs|..] == [];
  }

  /** The next header is refused, or read and the rest left to read. */
  lemma OneItem(one: Bytes -> Parse<Header>, hs: seq<Header>, n: nat, rest: Bytes, maxBytes: u32)
    requires AnswersHeaders(one) && n < |hs| && HeadersFit(hs) && ItemsRefusal(hs, n, maxBytes).None?
    ensures var next := ItemsRefusal(hs, n + 1, maxBytes);
            ParseItems(one, PutItems(hs[n..], rest), |hs|, hs[..n], maxBytes) ==
            if next.Some? then Err(next.value)
            else ParseItems(one, PutItems(hs[n + 1..], rest), |hs|, hs[..n + 1], maxBytes)
  {
    assert hs[n..][0] == hs[n] && hs[n..][1..] == hs[n + 1..];
    assert hs[..n] + [hs[n]] == hs[..n + 1];
    assert one(PutHeader(hs[n], PutItems(hs[n + 1..], rest))) ==
      Answer(HeaderRefusal(hs[n]), hs[n], PutItems(hs[n + 1..], rest));
  }

  ghost function BlockRefusal(hs: seq<Header>, caps: FrameCaps): Option<FrameError> {
    if |hs| > caps.maxHeaders then Some(TooManyHeaders(|hs|, caps.maxHeaders))
    else ItemsRefusal(hs, |hs|, caps.maxHeaderBytes)
  }

  lemma BlockAnswer(hs: seq<Header>, rest: Bytes, caps: FrameCaps)
    requires BlockFits(hs)
    ensures ParseBlock(PutBlock(hs, rest), caps) == Answer(BlockRefusal(hs, caps), hs, rest)
  {
    U16Exact(PutBlock(hs, rest), |hs|, PutItems(hs, rest));
    ParseHeaderAnswers();
    ItemsAnswer(ParseHeader, hs, 0, rest, caps.maxHeaderBytes);
    assert hs[0..] == hs && hs[..0] == [];
  }

  // ----- bodies and whole frames -----

  function BodyRefusal(body: Bytes, cap: u32): Option<FrameError> {
    if |body| > cap then Some(BodyTooLarge(|body|, cap)) else None
  }

  lemma BodyAnswer(body: Bytes, cap: u32, rest: Bytes)
    requires Long(body)
    ensures ParseBody(PutLong(body, rest), cap) == Answer(BodyRefusal(body, cap), body, rest)
  {
    U32Exact(PutLong(body, rest), |body|, body + rest);
    TakeExact(body + rest, |body|, body, rest);
  }

  ghost function RequestRefusal(r: RequestFrame, caps: FrameCaps): Option<FrameError> {
    FirstRefusal(LineRefusal(r.line),
        FirstRefusal(BlockRefusal(r.headers, caps), BodyRefusal(r.body, caps.maxBodyBytes)))
  }

  function Final<T>(refusal: Option<FrameError>, v: T): Result<T, FrameError> {
    if refusal.Some? then Err(refusal.value) else Ok(v)
  }

  /**
   Whatever request is encoded, the decoder gives it back or reports what is wrong first: a string of the line that is
   no text, too many headers, the first header that is no text, holds a control character or takes the sum over its cap,
   a body over its cap.
   */
  lemma RequestAnswer(r: RequestFrame, caps: FrameCaps)
    requires RequestFits(r)
    ensures DecodeRequest(RequestEnvelope(r), caps) == Final(RequestRefusal(r, caps), r)
  {
    var body := PutLong(r.body, []);
    LineAnswer(r.line, PutBlock(r.headers, body));
    BlockAnswer(r.headers, body, caps);
    BodyAnswer(r.body, caps.maxBodyBytes, []);
  }

  ghost function HeadRefusal(status: u16, hs: seq<Header>, caps: FrameCaps): Option<FrameError> {
    if 100 <= status < 600 then BlockRefusal(hs, caps) else Some(BadStatus(status))
  }

  lemma HeadAnswer(status: u16, hs: seq<Header>, rest: Bytes, caps: FrameCaps)
    requires BlockFits(hs)
    ensures ParseHead(PutHead(status, hs, rest), caps) == Answer(HeadRefusal(status, hs, caps), Head(status, hs), rest)
  {
    U16Exact(PutHead(status, hs, rest), status, PutBlock(hs, rest));
    BlockAnswer(hs, rest, caps);
  }

  ghost function ResponseRefusal(r: ResponseFrame, caps: FrameCaps): Option<FrameError> {
    match r
    case Full(status, headers, body) =>
      FirstRefusal(HeadRefusal(status, headers, caps), BodyRefusal(body, caps.maxBodyBytes))
    case Head(status, headers) => HeadRefusal(status, headers, caps)
    case Chunk(data) => BodyRefusal(data, caps.maxBodyBytes)
    case End => None
  }

  lemma ResponseAnswer(r: ResponseFrame, caps: FrameCaps)
    requires ResponseFits(r)
    ensures DecodeResponse(ResponseEnvelope(r), caps) == Final(ResponseRefusal(r, caps), r)
  {
    match r
    case Full(status, headers, body) =>
      var tail := PutLong(body, []);
      U8Exact(ResponseEnvelope(r), 0, PutHead(status, headers, tail));
      HeadAnswer(status, headers, tail, caps);
      BodyAnswer(body, caps.maxBodyBytes, []);
    case Head(status, headers) =>
      U8Exact(ResponseEnvelope(r), 1, PutHead(status, headers, []));
      HeadAnswer(status, headers, [], caps);
    case Chunk(data) =>
      U8Exact(ResponseEnvelope(r), 2, PutLong(data, []));
      BodyAnswer(data, caps.maxBodyBytes, []);
    case End =>
      U8Exact(ResponseEnvelope(r), 3, []);
  }
}
