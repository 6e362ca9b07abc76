/**
 The binary worker-hop codec as functions on bytes.

 A parser takes a value off the front of the bytes still to be read; an encoder `Put...`
 puts a value in front of the bytes that follow it.  Two facts are proved of each pair:
 `...Exact` says a value is taken off exactly where it was put on, and `...Local` says that
 cutting the input short can only turn the answer into "truncated".  The theorems about
 whole frames follow from these.
 */
module HopFrame {
  import opened Common

  type byte = x: int | 0 <= x < 0x100
  type u16 = x: int | 0 <= x < 0x1_0000
  type u32 = x: int | 0 <= x < 0x1_0000_0000
  type Bytes = seq<byte>

  const FRAME_MAGIC: byte := 0xBF
  const FRAME_VERSION: byte := 0x01
  const FRAME_FIXED_SLACK := 4096
  const PREFIX_LEN := 6
  const U32_MAX := 0xFFFF_FFFF

  datatype Scheme = Http | Https

  datatype FrameCaps = FrameCaps(maxHeaderBytes: u32, maxHeaders: u16, maxBodyBytes: u32) {
    function MaxRemainingLength(): nat {
      FRAME_FIXED_SLACK + maxHeaderBytes + maxBodyBytes
    }
  }

  /** A header name and value; strings are their bytes. */
  datatype Header = Header(name: Bytes, value: Bytes)

  /** The request fields in front of the header block. */
  datatype RequestLine = RequestLine(
    method_: Bytes, path: Bytes, query: Bytes, serverName: Bytes, serverPort: u16, scheme: Scheme, remoteAddr: Bytes)

  datatype RequestFrame = RequestFrame(line: RequestLine, headers: seq<Header>, body: Bytes)

  datatype ResponseFrame =
    | Full(status: u16, headers: seq<Header>, body: Bytes)
    | Head(status: u16, headers: seq<Header>)
    | Chunk(data: Bytes)
    | End

  datatype FrameError =
    | BadMagic(found: byte)
    | BadVersion(found: byte)
    | EnvelopeTooLarge(declared: nat, max: nat)
    | EnvelopeTilingMismatch(declared: nat, consumed: int)
    | Truncated
    | NotUtf8
    | TooManyHeaders(count: nat, maxCount: nat)
    | HeaderBytesExceeded(maxBytes: nat)
    | BodyTooLarge(length: nat, maxLength: nat)
    | ControlByteInHeader
    | BadScheme(found: byte)
    | BadResponseType(found: byte)
    | BadStatus(status: nat)
    | LengthOverflow

  /** A parsed value and the bytes behind it. */
  datatype Parsed<T> = Parsed(value: T, rest: Bytes)

  type Parse<T> = Result<Parsed<T>, FrameError>

  // ----- encodings -----

  function PutU16(n: u16, tail: Bytes): Bytes {
    [n % 256, n / 256] + tail
  }

  function PutU32(n: u32, tail: Bytes): Bytes {
    [n % 256, n / 256 % 256, n / 256 / 256 % 256, n / 256 / 256 / 256] + tail
  }

  function SchemeByte(s: Scheme): byte {
    if s == Http then 0 else 1
  }

  predicate Short(s: Bytes) {
    |s| < 0x1_0000
  }

  predicate Long(s: Bytes) {
    |s| < 0x1_0000_0000
  }

  function PutShort(s: Bytes, tail: Bytes): Bytes
    requires Short(s)
  {
    PutU16(|s|, s + tail)
  }

  function PutLong(s: Bytes, tail: Bytes): Bytes
    requires Long(s)
  {
    PutU32(|s|, s + tail)
  }

  predicate LineFits(l: RequestLine) {
    Short(l.method_) && Long(l.path) && Long(l.query) && Short(l.serverName) && Short(l.remoteAddr)
  }

  function PutLine(l: RequestLine, tail: Bytes): Bytes
    requires LineFits(l)
  {
    PutShort(l.method_, PutLong(l.path, PutLong(l.query, PutShort(l.serverName,
    PutU16(l.serverPort, [SchemeByte(l.scheme)] + PutShort(l.remoteAddr, tail))))))
  }

  predicate HeaderFits(h: Header) {
    Short(h.name) && Long(h.value)
  }

  function PutHeader(h: Header, tail: Bytes): Bytes
    requires HeaderFits(h)
  {
    PutShort(h.name, PutLong(h.value, tail))
  }

  predicate HeadersFit(hs: seq<Header>) {
    forall i :: 0 <= i < |hs| ==> HeaderFits(hs[i])
  }

  function PutItems(hs: seq<Header>, tail: Bytes): Bytes
    requires HeadersFit(hs)
  {
    if hs == [] then tail else PutHeader(hs[0], PutItems(hs[1..], tail))
  }

  predicate BlockFits(hs: seq<Header>) {
    |hs| < 0x1_0000 && HeadersFit(hs)
  }

  function PutBlock(hs: seq<Header>, tail: Bytes): Bytes
    requires BlockFits(hs)
  {
    PutU16(|hs|, PutItems(hs, tail))
  }

  /** Summed name and value bytes. */
  function SummedBytes(hs: seq<Header>): nat {
    if hs == [] then 0
    else SummedBytes(hs[..|hs| - 1]) + |hs[|hs| - 1].name| + |hs[|hs| - 1].value|
  }

  // ----- what decoders accept -----

  predicate Continues(s: Bytes, i: nat) {
    i < |s| && 0x80 <= s[i] <= 0xBF
  }

  /** Well-formed UTF-8 from position `i`, as in table 3-7 of section 3.9 of the Unicode standard. */
  predicate Utf8From(s: Bytes, i: nat)
    decreases |s| - i
  {
    if i >= |s| then true
    else if s[i] < 0x80 then Utf8From(s, i + 1)
    else if 0xC2 <= s[i] <= 0xDF then Continues(s, i + 1) && Utf8From(s, i + 2)
    else if 0xE0 <= s[i] <= 0xEF then
      && Continues(s, i + 1) && Continues(s, i + 2)
      && (s[i] == 0xE0 ==> s[i + 1] >= 0xA0) && (s[i] == 0xED ==> s[i + 1] < 0xA0)
      && Utf8From(s, i + 3)
    else if 0xF0 <= s[i] <= 0xF4 then
      && Continues(s, i + 1) && Continues(s, i + 2) && Continues(s, i + 3)
      && (s[i] == 0xF0 ==> s[i + 1] >= 0x90) && (s[i] == 0xF4 ==> s[i + 1] < 0x90)
      && Utf8From(s, i + 4)
    else false
  }

  predicate ValidUtf8(s: Bytes) {
    Utf8From(s, 0)
  }

  predicate HasControlByte(s: Bytes) {
    exists i :: 0 <= i < |s| && (s[i] < 0x20 || s[i] == 0x7F)
  }

  predicate LegalHeader(h: Header) {
    HeaderFits(h) && ValidUtf8(h.name) && ValidUtf8(h.value) && !HasControlByte(h.name) && !HasControlByte(h.value)
  }

  predicate LegalHeaders(hs: seq<Header>) {
    forall i :: 0 <= i < |hs| ==> LegalHeader(hs[i])
  }

  predicate LegalLine(l: RequestLine) {
    && LineFits(l)
    && ValidUtf8(l.method_) && ValidUtf8(l.path) && ValidUtf8(l.query) && ValidUtf8(l.serverName)
    && ValidUtf8(l.remoteAddr)
  }

  predicate LegalBlock(hs: seq<Header>, caps: FrameCaps) {
    |hs| <= caps.maxHeaders && LegalHeaders(hs) && SummedBytes(hs) <= caps.maxHeaderBytes
  }

  /** The requests a decoder with these caps can return. */
  predicate LegalRequest(r: RequestFrame, caps: FrameCaps) {
    LegalLine(r.line) && LegalBlock(r.headers, caps) && |r.body| <= caps.maxBodyBytes
  }

  predicate LegalStatus(status: int) {
    100 <= status <= 599
  }

  predicate LegalResponse(r: ResponseFrame, caps: FrameCaps) {
    match r
    case Full(status, headers, body) => LegalStatus(status) && LegalBlock(headers, caps) && |body| <= caps.maxBodyBytes
    case Head(status, headers) => LegalStatus(status) && LegalBlock(headers, caps)
    case Chunk(data) => |data| <= caps.maxBodyBytes
    case End => true
  }

  // ----- parsers -----

  /** Little-endian numbers from their bytes. */
  function U16Of(b0: int, b1: int): u16
    requires 0 <= b0 < 256 && 0 <= b1 < 256
  {
    b0 + 256 * b1
  }

  function U32Of(b0: int, b1: int, b2: int, b3: int): u32
    requires 0 <= b0 < 256 && 0 <= b1 < 256 && 0 <= b2 < 256 && 0 <= b3 < 256
  {
    b0 + 256 * b1 + 65536 * b2 + 16777216 * b3
  }

  function Take(b: Bytes, n: nat): (r: Parse<Bytes>)
    ensures r.Ok? ==> |r.value.rest| <= |b|
  {
    if n > |b| then Err(Truncated) else Ok(Parsed(b[..n], b[n..]))
  }

  function ParseU8(b: Bytes): (r: Parse<byte>)
    ensures r.Ok? ==> |r.value.rest| <= |b|
  {
    if |b| < 1 then Err(Truncated) else Ok(Parsed(b[0], b[1..]))
  }

  function ParseU16(b: Bytes): (r: Parse<u16>)
    ensures r.Ok? ==> |r.value.rest| <= |b|
  {
    if |b| < 2 then Err(Truncated) else Ok(Parsed(U16Of(b[0], b[1]), b[2..]))
  }

  function ParseU32(b: Bytes): (r: Parse<u32>)
    ensures r.Ok? ==> |r.value.rest| <= |b|
  {
    if |b| < 4 then Err(Truncated) else Ok(Parsed(U32Of(b[0], b[1], b[2], b[3]), b[4..]))
  }

  function Utf8(t: Parsed<Bytes>): Parse<Bytes> {
    if ValidUtf8(t.value) then Ok(t) else Err(NotUtf8)
  }

  function ParseShort(b: Bytes): (r: Parse<Bytes>)
    ensures r.Ok? ==> |r.value.rest| <= |b|
  {
    var n :- ParseU16(b);
    var t :- Take(n.rest, n.value);
    Utf8(t)
  }

  function ParseLong(b: Bytes): (r: Parse<Bytes>)
    ensures r.Ok? ==> |r.value.rest| <= |b|
  {
    var n :- ParseU32(b);
    var t :- Take(n.rest, n.value);
    Utf8(t)
  }

  /** Body and chunk bytes: the declared length is checked before anything is taken. */
  function ParseBody(b: Bytes, cap: u32): (r: Parse<Bytes>)
    ensures r.Ok? ==> |r.value.rest| <= |b|
  {
    var n :- ParseU32(b);
    if n.value > cap then Err(BodyTooLarge(n.value, cap)) else Take(n.rest, n.value)
  }

  function ParseScheme(b: Bytes): (r: Parse<Scheme>)
    ensures r.Ok? ==> |r.value.rest| <= |b|
  {
    var t :- ParseU8(b);
    if t.value == 0 then Ok(Parsed(Http, t.rest))
    else if t.value == 1 then Ok(Parsed(Https, t.rest))
    else Err(BadScheme(t.value))
  }

  function ParseTarget(b: Bytes): (r: Parse<(Bytes, Bytes, Bytes)>)
    ensures r.Ok? ==> |r.value.rest| <= |b|
  {
    var m :- ParseShort(b);
    var p :- ParseLong(m.rest);
    var q :- ParseLong(p.rest);
    Ok(Parsed((m.value, p.value, q.value), q.rest))
  }

  function ParseServer(b: Bytes): (r: Parse<(Bytes, u16)>)
    ensures r.Ok? ==> |r.value.rest| <= |b|
  {
    var n :- ParseShort(b);
    var port :- ParseU16(n.rest);
    Ok(Parsed((n.value, port.value), port.rest))
  }

  function ParsePeer(b: Bytes): (r: Parse<(Scheme, Bytes)>)
    ensures r.Ok? ==> |r.value.rest| <= |b|
  {
    var s :- ParseScheme(b);
    var a :- ParseShort(s.rest);
    Ok(Parsed((s.value, a.value), a.rest))
  }

  function ParseLine(b: Bytes): (r: Parse<RequestLine>)
    ensures r.Ok? ==> |r.value.rest| <= |b|
  {
    var t :- ParseTarget(b);
    var s :- ParseServer(t.rest);
    var p :- ParsePeer(s.rest);
    Ok(Parsed(RequestLine(t.value.0, t.value.1, t.value.2, s.value.0, s.value.1, p.value.0, p.value.1), p.rest))
  }

  function ParseHeader(b: Bytes): (r: Parse<Header>)
    ensures r.Ok? ==> |r.value.rest| <= |b|
  {
    var n :- ParseShort(b);
    var v :- ParseLong(n.rest);
    if HasControlByte(n.value) || HasControlByte(v.value) then Err(ControlByteInHeader)
    else Ok(Parsed(Header(n.value, v.value), v.rest))
  }

  /**
   The headers up to the declared `count`, with `seen` already read by `one`.  The program sums name and
   value bytes in 32 bits and reports the overflow with the same error as the cap; the cap is
   itself a 32-bit number, so the two checks are one here.
   */
  function ParseItems(one: Bytes -> Parse<Header>, b: Bytes, count: nat, seen: seq<Header>, maxBytes: u32)
    : (r: Parse<seq<Header>>)
    ensures Shrinks(one) && r.Ok? ==> |r.value.rest| <= |b|
    decreases count - |seen|
  {
    if |seen| >= count then Ok(Parsed(seen, b))
    else
      var h :- one(b);
      if SummedBytes(seen + [h.value]) > maxBytes then Err(HeaderBytesExceeded(maxBytes))
      else ParseItems(one, h.rest, count, seen + [h.value], maxBytes)
  }

  ghost predicate Shrinks(one: Bytes -> Parse<Header>) {
    forall x :: one(x).Ok? ==> |one(x).value.rest| <= |x|
  }

  function ParseBlock(b: Bytes, caps: FrameCaps): (r: Parse<seq<Header>>)
    ensures r.Ok? ==> |r.value.rest| <= |b|
  {
    var n :- ParseU16(b);
    if n.value > caps.maxHeaders then Err(TooManyHeaders(n.value, caps.maxHeaders))
    else
      assert Shrinks(ParseHeader);
      ParseItems(ParseHeader, n.rest, n.value, [], caps.maxHeaderBytes)
  }

  function ParseRequest(b: Bytes, caps: FrameCaps): (r: Parse<RequestFrame>)
    ensures r.Ok? ==> |r.value.rest| <= |b|
  {
    var l :- ParseLine(b);
    var hs :- ParseBlock(l.rest, caps);
    var body :- ParseBody(hs.rest, caps.maxBodyBytes);
    Ok(Parsed(RequestFrame(l.value, hs.value, body.value), body.rest))
  }

  function ParseStatus(b: Bytes): (r: Parse<u16>)
    ensures r.Ok? ==> |r.value.rest| <= |b|
  {
    var s :- ParseU16(b);
    if LegalStatus(s.value) then Ok(s) else Err(BadStatus(s.value))
  }

  function ParseHead(b: Bytes, caps: FrameCaps): (r: Parse<ResponseFrame>)
    ensures r.Ok? ==> r.value.value.Head? && |r.value.rest| <= |b|
  {
    var s :- ParseStatus(b);
    var hs :- ParseBlock(s.rest, caps);
    Ok(Parsed(Head(s.value, hs.value), hs.rest))
  }

  function ParseFull(b: Bytes, caps: FrameCaps): (r: Parse<ResponseFrame>)
    ensures r.Ok? ==> |r.value.rest| <= |b|
  {
    var h :- ParseHead(b, caps);
    var body :- ParseBody(h.rest, caps.maxBodyBytes);
    Ok(Parsed(Full(h.value.status, h.value.headers, body.value), body.rest))
  }

  function ParseChunk(b: Bytes, caps: FrameCaps): (r: Parse<ResponseFrame>)
    ensures r.Ok? ==> |r.value.rest| <= |b|
  {
    var data :- ParseBody(b, caps.maxBodyBytes);
    Ok(Parsed(Chunk(data.value), data.rest))
  }

  function ParsePayload(kind: byte, b: Bytes, caps: FrameCaps): (r: Parse<ResponseFrame>)
    ensures r.Ok? ==> |r.value.rest| <= |b|
  {
    match kind
    case 0 => ParseFull(b, caps)
    case 1 => ParseHead(b, caps)
    case 2 => ParseChunk(b, caps)
    case 3 => Ok(Parsed(End, b))
    case _ => Err(BadResponseType(kind))
  }

  function ParseResponse(b: Bytes, caps: FrameCaps): (r: Parse<ResponseFrame>)
    ensures r.Ok? ==> |r.value.rest| <= |b|
  {
    var kind :- ParseU8(b);
    ParsePayload(kind.value, kind.rest, caps)
  }

  /** Tiling: the sections must consume the envelope exactly. */
  function Tiled<T>(b: Bytes, r: Parse<T>): Result<T, FrameError> {
    var p :- r;
    if p.rest != [] then Err(EnvelopeTilingMismatch(|b| % 0x1_0000_0000, |b| - |p.rest|)) else Ok(p.value)
  }

  function DecodeRequest(envelope: Bytes, caps: FrameCaps): Result<RequestFrame, FrameError> {
    Tiled(envelope, ParseRequest(envelope, caps))
  }

  function DecodeResponse(envelope: Bytes, caps: FrameCaps): Result<ResponseFrame, FrameError> {
    Tiled(envelope, ParseResponse(envelope, caps))
  }

  // ----- frames -----

  predicate RequestFits(r: RequestFrame) {
    LineFits(r.line) && BlockFits(r.headers) && Long(r.body)
  }

  function RequestEnvelope(r: RequestFrame): Bytes
    requires RequestFits(r)
  {
    PutLine(r.line, PutBlock(r.headers, PutLong(r.body, [])))
  }

  predicate ResponseFits(r: ResponseFrame) {
    match r
    case Full(_, headers, body) => BlockFits(headers) && Long(body)
    case Head(_, headers) => BlockFits(headers)
    case Chunk(data) => Long(data)
    case End => true
  }

  function PutHead(status: u16, headers: seq<Header>, tail: Bytes): Bytes
    requires BlockFits(headers)
  {
    PutU16(status, PutBlock(headers, tail))
  }

  function ResponseEnvelope(r: ResponseFrame): Bytes
    requires ResponseFits(r)
  {
    match r
    case Full(status, headers, body) => [0] + PutHead(status, headers, PutLong(body, []))
    case Head(status, headers) => [1] + PutHead(status, headers, [])
    case Chunk(data) => [2] + PutLong(data, [])
    case End => [3]
  }

  /** Prefix and envelope, when the envelope length fits its 32-bit field. */
  function Framed(envelope: Bytes): Result<Bytes, FrameError> {
    if Long(envelope) then Ok([FRAME_MAGIC, FRAME_VERSION] + PutU32(|envelope|, envelope)) else Err(LengthOverflow)
  }

  function EncodeRequest(r: RequestFrame): Result<Bytes, FrameError> {
    if RequestFits(r) then Framed(RequestEnvelope(r)) else Err(LengthOverflow)
  }

  function EncodeResponse(r: ResponseFrame): Result<Bytes, FrameError> {
    if ResponseFits(r) then Framed(ResponseEnvelope(r)) else Err(LengthOverflow)
  }

  function ParsePrefix(prefix: Bytes, caps: FrameCaps): Result<u32, FrameError>
    requires |prefix| == PREFIX_LEN
  {
    if prefix[0] != FRAME_MAGIC then Err(BadMagic(prefix[0]))
    else if prefix[1] != FRAME_VERSION then Err(BadVersion(prefix[1]))
    else
      var n := U32Of(prefix[2], prefix[3], prefix[4], prefix[5]);
      if n > caps.MaxRemainingLength() then Err(EnvelopeTooLarge(n, caps.MaxRemainingLength())) else Ok(n)
  }
}
