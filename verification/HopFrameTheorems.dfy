/** Round trips, framing and truncation for the hop codec. */
module HopFrameTheorems {
  import opened Common
  import opened HopFrame

  // ----- a value is taken off exactly where it was put on -----

  lemma TakeExact(b: Bytes, n: nat, v: Bytes, rest: Bytes)
    ensures Take(b, n) == Ok(Parsed(v, rest)) <==> |v| == n && b == v + rest
  {
    if n <= |b| {
      assert b == b[..n] + b[n..];
    }
    if |v| == n && b == v + rest {
      assert b[..n] == v && b[n..] == rest;
    }
  }

  lemma U8Exact(b: Bytes, v: byte, rest: Bytes)
    ensures ParseU8(b) == Ok(Parsed(v, rest)) <==> b == [v] + rest
  {
    if |b| >= 1 {
      assert b == [b[0]] + b[1..];
    }
  }

  lemma Digits(low: int, high: int)
    requires 0 <= low < 256
    ensures (low + 256 * high) % 256 == low && (low + 256 * high) / 256 == high
  {
  }

  lemma U16Exact(b: Bytes, v: u16, rest: Bytes)
    ensures ParseU16(b) == Ok(Parsed(v, rest)) <==> b == PutU16(v, rest)
  {
    if |b| >= 2 {
      Digits(b[0], b[1]);
      assert b == [b[0], b[1]] + b[2..];
    }
    if b == PutU16(v, rest) {
      assert b[2..] == rest;
    }
  }

  lemma U32Exact(b: Bytes, v: u32, rest: Bytes)
    ensures ParseU32(b) == Ok(Parsed(v, rest)) <==> b == PutU32(v, rest)
  {
    if |b| >= 4 {
      var b0: int, b1: int, b2: int, b3: int := b[0], b[1], b[2], b[3];
      var high := b1 + 256 * (b2 + 256 * b3);
      Digits(b0, high);
      Digits(b1, b2 + 256 * b3);
      Digits(b2, b3);
      assert U32Of(b0, b1, b2, b3) == b0 + 256 * high;
      assert b == [b[0], b[1], b[2], b[3]] + b[4..];
    }
    if b == PutU32(v, rest) {
      assert b[4..] == rest;
    }
  }

  lemma ShortExact(b: Bytes, v: Bytes, rest: Bytes)
    ensures ParseShort(b) == Ok(Parsed(v, rest)) <==> Short(v) && ValidUtf8(v) && b == PutShort(v, rest)
  {
    if Short(v) {
      U16Exact(b, |v|, v + rest);
    }
    var n := ParseU16(b);
    if n.Ok? {
      U16Exact(b, n.value.value, n.value.rest);
      TakeExact(n.value.rest, n.value.value, v, rest);
    }
  }

  lemma LongExact(b: Bytes, v: Bytes, rest: Bytes)
    ensures ParseLong(b) == Ok(Parsed(v, rest)) <==> Long(v) && ValidUtf8(v) && b == PutLong(v, rest)
  {
    if Long(v) {
      U32Exact(b, |v|, v + rest);
    }
    var n := ParseU32(b);
    if n.Ok? {
      U32Exact(b, n.value.value, n.value.rest);
      TakeExact(n.value.rest, n.value.value, v, rest);
    }
  }

  lemma BodyExact(b: Bytes, cap: u32, v: Bytes, rest: Bytes)
    ensures ParseBody(b, cap) == Ok(Parsed(v, rest)) <==> |v| <= cap && b == PutLong(v, rest)
  {
    if Long(v) {
      U32Exact(b, |v|, v + rest);
    }
    var n := ParseU32(b);
    if n.Ok? {
      U32Exact(b, n.value.value, n.value.rest);
      TakeExact(n.value.rest, n.value.value, v, rest);
    }
  }

  lemma SchemeExact(b: Bytes, v: Scheme, rest: Bytes)
    ensures ParseScheme(b) == Ok(Parsed(v, rest)) <==> b == [SchemeByte(v)] + rest
  {
    U8Exact(b, SchemeByte(v), rest);
  }

  lemma StatusExact(b: Bytes, v: u16, rest: Bytes)
    ensures ParseStatus(b) == Ok(Parsed(v, rest)) <==> LegalStatus(v) && b == PutU16(v, rest)
  {
    U16Exact(b, v, rest);
  }

  lemma LineAccepted(l: RequestLine, rest: Bytes)
    requires LegalLine(l)
    ensures ParseLine(PutLine(l, rest)) == Ok(Parsed(l, rest))
  {
    var b6 := PutShort(l.remoteAddr, rest);
    var b5 := [SchemeByte(l.scheme)] + b6;
    var b4 := PutU16(l.serverPort, b5);
    var b3 := PutShort(l.serverName, b4);
    var b2 := PutLong(l.query, b3);
    var b1 := PutLong(l.path, b2);
    ShortExact(PutShort(l.method_, b1), l.method_, b1);
    LongExact(b1, l.path, b2);
    LongExact(b2, l.query, b3);
    ShortExact(b3, l.serverName, b4);
    U16Exact(b4, l.serverPort, b5);
    SchemeExact(b5, l.scheme, b6);
    ShortExact(b6, l.remoteAddr, rest);
  }

  lemma AcceptedLine(b: Bytes)
    ensures ParseLine(b).Ok? ==>
              LegalLine(ParseLine(b).value.value) && b == PutLine(ParseLine(b).value.value, ParseLine(b).value.rest)
  {
    if ParseLine(b).Err? {
      return;
    }
    var m := ParseShort(b).value;
    var p := ParseLong(m.rest).value;
    var q := ParseLong(p.rest).value;
    var n := ParseShort(q.rest).value;
    var port := ParseU16(n.rest).value;
    var s := ParseScheme(port.rest).value;
    var a := ParseShort(s.rest).value;
    ShortExact(b, m.value, m.rest);
    LongExact(m.rest, p.value, p.rest);
    LongExact(p.rest, q.value, q.rest);
    ShortExact(q.rest, n.value, n.rest);
    U16Exact(n.rest, port.value, port.rest);
    SchemeExact(port.rest, s.value, s.rest);
    ShortExact(s.rest, a.value, a.rest);
  }

  lemma LineExact(b: Bytes, v: RequestLine, rest: Bytes)
    ensures ParseLine(b) == Ok(Parsed(v, rest)) <==> LegalLine(v) && b == PutLine(v, rest)
  {
    if LegalLine(v) {
      LineAccepted(v, rest);
    }
    if ParseLine(b).Ok? {
      AcceptedLine(b);
    }
  }

  lemma HeaderExact(b: Bytes, v: Header, rest: Bytes)
    ensures ParseHeader(b) == Ok(Parsed(v, rest)) <==> LegalHeader(v) && b == PutHeader(v, rest)
  {
    if HeaderFits(v) {
      ShortExact(b, v.name, PutLong(v.value, rest));
    }
    var n := ParseShort(b);
    if n.Ok? {
      ShortExact(b, n.value.value, n.value.rest);
      LongExact(n.value.rest, v.value, rest);
    }
  }

  lemma {:induction false} SummedConcat(a: seq<Header>, b: seq<Header>)
    ensures SummedBytes(a + b) == SummedBytes(a) + SummedBytes(b)
    decreases |b|
  {
    if b == [] {
      assert a + b == a;
    } else {
      SummedConcat(a, b[..|b| - 1]);
      assert (a + b)[..|a + b| - 1] == a + b[..|b| - 1];
    }
  }

  ghost predicate TakesHeaders(one: Bytes -> Parse<Header>) {
    forall b, h, rest :: one(b) == Ok(Parsed(h, rest)) <==> LegalHeader(h) && b == PutHeader(h, rest)
  }

  lemma {:induction false} ItemsAccepted(one: Bytes -> Parse<Header>, count: nat, seen: seq<Header>,
      more: seq<Header>, maxBytes: u32, rest: Bytes)
    requires TakesHeaders(one)
    requires count == |seen| + |more| && LegalHeaders(more) && SummedBytes(seen + more) <= maxBytes
    ensures ParseItems(one, PutItems(more, rest), count, seen, maxBytes) == Ok(Parsed(seen + more, rest))
    decreases |more|
  {
    if more == [] {
      assert seen + more == seen;
    } else {
      var h, after := more[0], more[1..];
      assert one(PutItems(more, rest)) == Ok(Parsed(h, PutItems(after, rest)));
      assert (seen + [h]) + after == seen + more;
      SummedConcat(seen + [h], after);
      ItemsAccepted(one, count, seen + [h], after, maxBytes, rest);
    }
  }

  lemma PutItemsStep(h: Header, more: seq<Header>, rest: Bytes)
    ensures LegalHeader(h) && LegalHeaders(more) ==>
              LegalHeaders([h] + more) && PutItems([h] + more, rest) == PutHeader(h, PutItems(more, rest))
  {
    assert ([h] + more)[1..] == more;
  }

  lemma {:induction false} AcceptedItems(one: Bytes -> Parse<Header>, b: Bytes, count: nat, seen: seq<Header>,
      maxBytes: u32, hs: seq<Header>, rest: Bytes)
    returns (more: seq<Header>)
    requires TakesHeaders(one)
    requires |seen| <= count && SummedBytes(seen) <= maxBytes
             && ParseItems(one, b, count, seen, maxBytes) == Ok(Parsed(hs, rest))
    ensures hs == seen + more && |hs| == count && SummedBytes(hs) <= maxBytes
    ensures LegalHeaders(more) && b == PutItems(more, rest)
    decreases count - |seen|
  {
    if |seen| == count {
      more := [];
    } else {
      var h := one(b).value;
      assert one(b) == Ok(Parsed(h.value, h.rest));
      assert ParseItems(one, h.rest, count, seen + [h.value], maxBytes) == Ok(Parsed(hs, rest));
      var after := AcceptedItems(one, h.rest, count, seen + [h.value], maxBytes, hs, rest);
      PutItemsStep(h.value, after, rest);
      more := [h.value] + after;
      Cons(seen, h.value, after);
    }
  }

  lemma Cons(seen: seq<Header>, h: Header, after: seq<Header>)
    ensures (seen + [h]) + after == seen + ([h] + after)
  {
  }

  lemma ParseHeaderTakesHeaders()
    ensures TakesHeaders(ParseHeader)
  {
    forall b, h, rest
      ensures ParseHeader(b) == Ok(Parsed(h, rest)) <==> LegalHeader(h) && b == PutHeader(h, rest)
    {
      HeaderExact(b, h, rest);
    }
  }

  lemma BlockExact(b: Bytes, caps: FrameCaps, hs: seq<Header>, rest: Bytes)
    ensures ParseBlock(b, caps) == Ok(Parsed(hs, rest)) <==> LegalBlock(hs, caps) && b == PutBlock(hs, rest)
  {
    ParseHeaderTakesHeaders();
    if LegalBlock(hs, caps) {
      U16Exact(b, |hs|, PutItems(hs, rest));
      assert [] + hs == hs;
      ItemsAccepted(ParseHeader, |hs|, [], hs, caps.maxHeaderBytes, rest);
    }
    if ParseBlock(b, caps).Ok? {
      var n := ParseU16(b).value;
      var r := ParseBlock(b, caps).value;
      U16Exact(b, n.value, n.rest);
      var more := AcceptedItems(ParseHeader, n.rest, n.value, [], caps.maxHeaderBytes, r.value, r.rest);
      assert more == r.value;
    }
  }

  lemma RequestExact(b: Bytes, caps: FrameCaps, r: RequestFrame)
    ensures ParseRequest(b, caps) == Ok(Parsed(r, [])) <==> LegalRequest(r, caps) && b == RequestEnvelope(r)
  {
    if LegalRequest(r, caps) {
      var b2 := PutLong(r.body, []);
      var b1 := PutBlock(r.headers, b2);
      LineExact(b, r.line, b1);
      BlockExact(b1, caps, r.headers, b2);
      BodyExact(b2, caps.maxBodyBytes, r.body, []);
    }
    if ParseRequest(b, caps).Ok? {
      var l := ParseLine(b).value;
      var hs := ParseBlock(l.rest, caps).value;
      var body := ParseBody(hs.rest, caps.maxBodyBytes).value;
      LineExact(b, l.value, l.rest);
      BlockExact(l.rest, caps, hs.value, hs.rest);
      BodyExact(hs.rest, caps.maxBodyBytes, body.value, body.rest);
    }
  }

  lemma HeadExact(b: Bytes, caps: FrameCaps, status: u16, hs: seq<Header>, rest: Bytes)
    ensures ParseHead(b, caps) == Ok(Parsed(Head(status, hs), rest)) <==>
            LegalStatus(status) && LegalBlock(hs, caps) && b == PutHead(status, hs, rest)
  {
    if LegalBlock(hs, caps) {
      StatusExact(b, status, PutBlock(hs, rest));
    }
    var s := ParseStatus(b);
    if s.Ok? {
      StatusExact(b, s.value.value, s.value.rest);
      BlockExact(s.value.rest, caps, hs, rest);
    }
  }

  lemma ResponseAccepted(caps: FrameCaps, r: ResponseFrame)
    requires LegalResponse(r, caps)
    ensures ParseResponse(ResponseEnvelope(r), caps) == Ok(Parsed(r, []))
  {
    var b := ResponseEnvelope(r);
    match r
    case Full(status, headers, body) =>
      var tail := PutLong(body, []);
      U8Exact(b, 0, PutHead(status, headers, tail));
      HeadExact(PutHead(status, headers, tail), caps, status, headers, tail);
      BodyExact(tail, caps.maxBodyBytes, body, []);
    case Head(status, headers) =>
      U8Exact(b, 1, PutHead(status, headers, []));
      HeadExact(PutHead(status, headers, []), caps, status, headers, []);
    case Chunk(data) =>
      U8Exact(b, 2, PutLong(data, []));
      BodyExact(PutLong(data, []), caps.maxBodyBytes, data, []);
    case End =>
      U8Exact(b, 3, []);
  }

  lemma AcceptedResponse(b: Bytes, caps: FrameCaps)
    requires ParseResponse(b, caps).Ok? && ParseResponse(b, caps).value.rest == []
    ensures LegalResponse(ParseResponse(b, caps).value.value, caps)
    ensures b == ResponseEnvelope(ParseResponse(b, caps).value.value)
  {
    var ty := ParseU8(b).value;
    U8Exact(b, ty.value, ty.rest);
    match ParseResponse(b, caps).value.value
    case Full(status, headers, body) =>
      var h := ParseHead(ty.rest, caps).value;
      HeadExact(ty.rest, caps, status, headers, h.rest);
      BodyExact(h.rest, caps.maxBodyBytes, body, []);
    case Head(status, headers) =>
      HeadExact(ty.rest, caps, status, headers, []);
    case Chunk(data) =>
      BodyExact(ty.rest, caps.maxBodyBytes, data, []);
    case End =>
  }

  // ----- cutting the input short can only truncate -----

  /** `cut` is the answer on some input, `whole` on that input followed by `ext`. */
  predicate CutShort<T(==)>(cut: Parse<T>, whole: Parse<T>, ext: Bytes) {
    match cut
    case Ok(p) => whole == Ok(Parsed(p.value, p.rest + ext))
    case Err(e) => if e == Truncated then whole.Ok? ==> |whole.value.rest| < |ext| else whole == Err(e)
  }

  lemma TakeLocal(b: Bytes, n: nat, ext: Bytes)
    ensures CutShort(Take(b, n), Take(b + ext, n), ext)
  {
    if n <= |b| {
      assert (b + ext)[..n] == b[..n] && (b + ext)[n..] == b[n..] + ext;
    }
  }

  lemma U8Local(b: Bytes, ext: Bytes)
    ensures CutShort(ParseU8(b), ParseU8(b + ext), ext)
  {
    if |b| >= 1 {
      assert (b + ext)[1..] == b[1..] + ext;
    }
  }

  lemma U16Local(b: Bytes, ext: Bytes)
    ensures CutShort(ParseU16(b), ParseU16(b + ext), ext)
  {
    if |b| >= 2 {
      assert (b + ext)[2..] == b[2..] + ext;
    }
  }

  lemma U32Local(b: Bytes, ext: Bytes)
    ensures CutShort(ParseU32(b), ParseU32(b + ext), ext)
  {
    if |b| >= 4 {
      assert (b + ext)[4..] == b[4..] + ext;
    }
  }

  lemma ShortLocal(b: Bytes, ext: Bytes)
    ensures CutShort(ParseShort(b), ParseShort(b + ext), ext)
  {
    U16Local(b, ext);
    var n := ParseU16(b);
    if n.Ok? {
      TakeLocal(n.value.rest, n.value.value, ext);
    }
  }

  lemma LongLocal(b: Bytes, ext: Bytes)
    ensures CutShort(ParseLong(b), ParseLong(b + ext), ext)
  {
    U32Local(b, ext);
    var n := ParseU32(b);
    if n.Ok? {
      TakeLocal(n.value.rest, n.value.value, ext);
    }
  }

  lemma BodyLocal(b: Bytes, cap: u32, ext: Bytes)
    ensures CutShort(ParseBody(b, cap), ParseBody(b + ext, cap), ext)
  {
    U32Local(b, ext);
    var n := ParseU32(b);
    if n.Ok? {
      TakeLocal(n.value.rest, n.value.value, ext);
    }
  }

  lemma TargetLocal(b: Bytes, ext: Bytes)
    ensures CutShort(ParseTarget(b), ParseTarget(b + ext), ext)
  {
    ShortLocal(b, ext);
    var m := ParseShort(b);
    if m.Ok? {
      LongLocal(m.value.rest, ext);
      var p := ParseLong(m.value.rest);
      if p.Ok? {
        LongLocal(p.value.rest, ext);
      }
    }
  }

  lemma ServerLocal(b: Bytes, ext: Bytes)
    ensures CutShort(ParseServer(b), ParseServer(b + ext), ext)
  {
    ShortLocal(b, ext);
    var n := ParseShort(b);
    if n.Ok? {
      U16Local(n.value.rest, ext);
    }
  }

  lemma PeerLocal(b: Bytes, ext: Bytes)
    ensures CutShort(ParsePeer(b), ParsePeer(b + ext), ext)
  {
    U8Local(b, ext);
    var s := ParseScheme(b);
    if s.Ok? {
      ShortLocal(s.value.rest, ext);
    }
  }

  lemma LineLocal(b: Bytes, ext: Bytes)
    ensures CutShort(ParseLine(b), ParseLine(b + ext), ext)
  {
    TargetLocal(b, ext);
    var t := ParseTarget(b);
    if t.Ok? {
      ServerLocal(t.value.rest, ext);
      var s := ParseServer(t.value.rest);
      if s.Ok? {
        PeerLocal(s.value.rest, ext);
      }
    }
  }

  lemma HeaderLocal(b: Bytes, ext: Bytes)
    ensures CutShort(ParseHeader(b), ParseHeader(b + ext), ext)
  {
    ShortLocal(b, ext);
    var n := ParseShort(b);
    if n.Ok? {
      LongLocal(n.value.rest, ext);
    }
  }

  ghost predicate Localised(one: Bytes -> Parse<Header>) {
    Shrinks(one) && forall b, ext :: CutShort(one(b), one(b + ext), ext)
  }

  lemma {:induction false} ItemsLocal(one: Bytes -> Parse<Header>, b: Bytes, count: nat, seen: seq<Header>,
      maxBytes: u32, ext: Bytes)
    requires Localised(one)
    ensures CutShort(ParseItems(one, b, count, seen, maxBytes), ParseItems(one, b + ext, count, seen, maxBytes), ext)
    decreases count - |seen|
  {
    if |seen| < count {
      assert CutShort(one(b), one(b + ext), ext);
      if one(b).Ok? {
        var h := one(b).value;
        ItemsLocal(one, h.rest, count, seen + [h.value], maxBytes, ext);
      }
    }
  }

  lemma BlockLocal(b: Bytes, caps: FrameCaps, ext: Bytes)
    ensures CutShort(ParseBlock(b, caps), ParseBlock(b + ext, caps), ext)
  {
    forall x, y
      ensures CutShort(ParseHeader(x), ParseHeader(x + y), y)
    {
      HeaderLocal(x, y);
    }
    assert Localised(ParseHeader);
    U16Local(b, ext);
    var n := ParseU16(b);
    if n.Ok? {
      ItemsLocal(ParseHeader, n.value.rest, n.value.value, [], caps.maxHeaderBytes, ext);
    }
  }

  lemma RequestLocal(b: Bytes, caps: FrameCaps, ext: Bytes)
    ensures CutShort(ParseRequest(b, caps), ParseRequest(b + ext, caps), ext)
  {
    LineLocal(b, ext);
    var l := ParseLine(b);
    if l.Ok? {
      BlockLocal(l.value.rest, caps, ext);
      var hs := ParseBlock(l.value.rest, caps);
      if hs.Ok? {
        BodyLocal(hs.value.rest, caps.maxBodyBytes, ext);
      }
    }
  }

  lemma HeadLocal(b: Bytes, caps: FrameCaps, ext: Bytes)
    ensures CutShort(ParseHead(b, caps), ParseHead(b + ext, caps), ext)
  {
    U16Local(b, ext);
    var s := ParseStatus(b);
    if s.Ok? {
      BlockLocal(s.value.rest, caps, ext);
    }
  }

  lemma FullLocal(b: Bytes, caps: FrameCaps, ext: Bytes)
    ensures CutShort(ParseFull(b, caps), ParseFull(b + ext, caps), ext)
  {
    HeadLocal(b, caps, ext);
    var h := ParseHead(b, caps);
    if h.Ok? {
      BodyLocal(h.value.rest, caps.maxBodyBytes, ext);
    }
  }

  lemma ChunkLocal(b: Bytes, caps: FrameCaps, ext: Bytes)
    ensures CutShort(ParseChunk(b, caps), ParseChunk(b + ext, caps), ext)
  {
    BodyLocal(b, caps.maxBodyBytes, ext);
  }

  lemma PayloadLocal(kind: byte, b: Bytes, caps: FrameCaps, ext: Bytes)
    ensures CutShort(ParsePayload(kind, b, caps), ParsePayload(kind, b + ext, caps), ext)
  {
    match kind
    case 0 => FullLocal(b, caps, ext);
    case 1 => HeadLocal(b, caps, ext);
    case 2 => ChunkLocal(b, caps, ext);
    case _ =>
  }

  lemma ResponseLocal(b: Bytes, caps: FrameCaps, ext: Bytes)
    ensures CutShort(ParseResponse(b, caps), ParseResponse(b + ext, caps), ext)
  {
    U8Local(b, ext);
    var kind := ParseU8(b);
    if kind.Ok? {
      PayloadLocal(kind.value.value, kind.value.rest, caps, ext);
    }
  }

  // ----- whole envelopes -----

  /** The bytes in front of an envelope: magic, version and the length, low byte first. */
  lemma FrameLayout(envelope: Bytes)
    requires Long(envelope)
    ensures Framed(envelope).Ok?
    ensures var f: seq<int> := Framed(envelope).value;
            && |f| == 6 + |envelope| && f[0] == 0xBF && f[1] == 0x01 && f[6..] == envelope
            && |envelope| == f[2] + 0x100 * f[3] + 0x1_0000 * f[4] + 0x100_0000 * f[5]
  {
    U32Exact(PutU32(|envelope|, envelope), |envelope|, envelope);
  }

  /** A request decodes back from its own envelope exactly when it is legal under the caps. */
  lemma RequestRoundTrip(r: RequestFrame, caps: FrameCaps)
    requires RequestFits(r)
    ensures DecodeRequest(RequestEnvelope(r), caps) == Ok(r) <==> LegalRequest(r, caps)
  {
    RequestExact(RequestEnvelope(r), caps, r);
  }

  /**
   An envelope decodes to `r` if and only if `r` is legal and the envelope is its encoding; so it re-encodes to the
   same bytes.
   */
  lemma DecodedRequestReencodes(envelope: Bytes, caps: FrameCaps, r: RequestFrame)
    ensures DecodeRequest(envelope, caps) == Ok(r) <==> LegalRequest(r, caps) && RequestEnvelope(r) == envelope
    ensures DecodeRequest(envelope, caps) == Ok(r) && Long(envelope) ==> EncodeRequest(r) == Framed(envelope)
  {
    DecodedWasParsed(envelope, ParseRequest(envelope, caps), r);
    RequestExact(envelope, caps, r);
  }

  lemma DecodedWasParsed<T>(b: Bytes, parsed: Parse<T>, v: T)
    ensures Tiled(b, parsed) == Ok(v) <==> parsed == Ok(Parsed(v, []))
  {
  }

  lemma ResponseRoundTrip(r: ResponseFrame, caps: FrameCaps)
    requires ResponseFits(r)
    ensures DecodeResponse(ResponseEnvelope(r), caps) == Ok(r) <==> LegalResponse(r, caps)
  {
    var b := ResponseEnvelope(r);
    if LegalResponse(r, caps) {
      ResponseAccepted(caps, r);
    }
    if DecodeResponse(b, caps) == Ok(r) {
      AcceptedResponse(b, caps);
    }
  }

  lemma DecodedResponseReencodes(envelope: Bytes, caps: FrameCaps, r: ResponseFrame)
    ensures DecodeResponse(envelope, caps) == Ok(r) <==> LegalResponse(r, caps) && ResponseEnvelope(r) == envelope
    ensures DecodeResponse(envelope, caps) == Ok(r) && Long(envelope) ==> EncodeResponse(r) == Framed(envelope)
  {
    DecodedWasParsed(envelope, ParseResponse(envelope, caps), r);
    if DecodeResponse(envelope, caps) == Ok(r) {
      AcceptedResponse(envelope, caps);
    }
    if LegalResponse(r, caps) {
      ResponseAccepted(caps, r);
    }
  }

  /** Every strict prefix of an accepted request envelope is rejected as truncated. */
  lemma StrictPrefixOfRequest(envelope: Bytes, caps: FrameCaps, n: nat)
    requires n < |envelope|
    ensures DecodeRequest(envelope, caps).Ok? ==> DecodeRequest(envelope[..n], caps) == Err(Truncated)
  {
    assert envelope == envelope[..n] + envelope[n..];
    RequestLocal(envelope[..n], caps, envelope[n..]);
  }

  /** Every strict extension of an accepted request envelope is rejected by the tiling check. */
  lemma StrictExtensionOfRequest(envelope: Bytes, caps: FrameCaps, ext: Bytes)
    requires ext != []
    ensures DecodeRequest(envelope, caps).Ok? ==>
              DecodeRequest(envelope + ext, caps) ==
                  Err(EnvelopeTilingMismatch(|envelope + ext| % 0x1_0000_0000, |envelope|))
  {
    RequestLocal(envelope, caps, ext);
    assert [] + ext == ext;
  }

  lemma StrictPrefixOfResponse(envelope: Bytes, caps: FrameCaps, n: nat)
    requires n < |envelope|
    ensures DecodeResponse(envelope, caps).Ok? ==> DecodeResponse(envelope[..n], caps) == Err(Truncated)
  {
    assert envelope == envelope[..n] + envelope[n..];
    ResponseLocal(envelope[..n], caps, envelope[n..]);
  }

  lemma StrictExtensionOfResponse(envelope: Bytes, caps: FrameCaps, ext: Bytes)
    requires ext != []
    ensures DecodeResponse(envelope, caps).Ok? ==>
              DecodeResponse(envelope + ext, caps) ==
                  Err(EnvelopeTilingMismatch(|envelope + ext| % 0x1_0000_0000, |envelope|))
  {
    ResponseLocal(envelope, caps, ext);
    assert [] + ext == ext;
  }

  // ----- the size pre-check -----

  lemma {:induction false} ItemsLength(hs: seq<Header>, tail: Bytes)
    requires HeadersFit(hs)
    ensures |PutItems(hs, tail)| == 6 * |hs| + SummedBytes(hs) + |tail|
  {
    if hs != [] {
      ItemsLength(hs[1..], tail);
      SummedConcat([hs[0]], hs[1..]);
      assert hs == [hs[0]] + hs[1..];
      assert [hs[0]][..0] == [];
    }
  }

  /** Bytes of the fields no cap bounds. */
  function UncappedBytes(l: RequestLine): nat {
    |l.method_| + |l.path| + |l.query| + |l.serverName| + |l.remoteAddr|
  }

  lemma EnvelopeLength(r: RequestFrame)
    requires RequestFits(r)
    ensures |RequestEnvelope(r)| == 23 + 6 * |r.headers| + UncappedBytes(r.line) + SummedBytes(r.headers) + |r.body|
  {
    ItemsLength(r.headers, PutLong(r.body, []));
  }

  lemma PrefixOfFrame(envelope: Bytes, caps: FrameCaps, more: Bytes)
    requires Long(envelope)
    ensures var b := Framed(envelope).value + more;
            && |b| >= PREFIX_LEN && b[PREFIX_LEN..] == envelope + more
            && ParsePrefix(b[..PREFIX_LEN], caps) ==
               if |envelope| <= caps.MaxRemainingLength() then Ok(|envelope|)
               else Err(EnvelopeTooLarge(|envelope|, caps.MaxRemainingLength()))
  {
    var b := Framed(envelope).value + more;
    assert b[2..] == PutU32(|envelope|, envelope + more);
    U32Exact(b[2..], |envelope|, envelope + more);
    assert b[2..][4..] == b[PREFIX_LEN..];
    var p := b[..PREFIX_LEN];
    assert p[2] == b[2..][0] && p[3] == b[2..][1] && p[4] == b[2..][2] && p[5] == b[2..][3];
  }

  /**
   A request's frame passes the pre-check exactly when its length fits the slack and the caps; a legal one with short
   uncapped fields always does.
   */
  lemma PrecheckExact(r: RequestFrame, caps: FrameCaps)
    requires RequestFits(r) && Long(RequestEnvelope(r))
    ensures ParsePrefix(EncodeRequest(r).value[..PREFIX_LEN], caps).Ok? <==>
            23 + 6 * |r.headers| + UncappedBytes(r.line) + SummedBytes(r.headers) + |r.body|
            <= FRAME_FIXED_SLACK + caps.maxHeaderBytes + caps.maxBodyBytes
    ensures LegalRequest(r, caps) && 23 + 6 * |r.headers| + UncappedBytes(r.line) <= FRAME_FIXED_SLACK ==>
              ParsePrefix(EncodeRequest(r).value[..PREFIX_LEN], caps).Ok?
  {
    EnvelopeLength(r);
    PrefixOfFrame(RequestEnvelope(r), caps, []);
    assert EncodeRequest(r).value + [] == EncodeRequest(r).value;
  }

  lemma {:induction false} AsciiIsUtf8(s: Bytes, i: nat)
    requires i <= |s| && forall j :: 0 <= j < |s| ==> s[j] < 0x80
    ensures Utf8From(s, i)
    decreases |s| - i
  {
    if i < |s| {
      AsciiIsUtf8(s, i + 1);
    }
  }

  /** A request with nothing but a path, one byte longer than the pre-check lets through. */
  function LongPathRequest(caps: FrameCaps): RequestFrame {
    RequestFrame(
      RequestLine([], seq(4074 + caps.maxHeaderBytes + caps.maxBodyBytes, _ => 97), [], [], 80, Http, []), [], [])
  }

  /** Under any caps, as long as its length fits 32 bits, this legal request is refused by the pre-check. */
  lemma PrecheckCanRejectLegalFrame(caps: FrameCaps)
    requires caps.MaxRemainingLength() < U32_MAX
    ensures var r := LongPathRequest(caps);
            && LegalRequest(r, caps) && EncodeRequest(r).Ok?
            && ParsePrefix(EncodeRequest(r).value[..PREFIX_LEN], caps) ==
               Err(EnvelopeTooLarge(caps.MaxRemainingLength() + 1, caps.MaxRemainingLength()))
  {
    var r := LongPathRequest(caps);
    LongPathIsLegal(caps);
    PrefixOfFrame(RequestEnvelope(r), caps, []);
    assert EncodeRequest(r).value + [] == EncodeRequest(r).value;
  }

  lemma LongPathIsLegal(caps: FrameCaps)
    requires caps.MaxRemainingLength() < U32_MAX
    ensures var r := LongPathRequest(caps);
            LegalRequest(r, caps) && RequestFits(r) && |RequestEnvelope(r)| == caps.MaxRemainingLength() + 1
  {
    var r := LongPathRequest(caps);
    AsciiIsUtf8(r.line.path, 0);
    AsciiIsUtf8([], 0);
    EnvelopeLength(r);
  }

  // ----- streams of frames -----

  /** The transport's read: prefix, pre-check, then exactly the declared envelope. */
  function ReadFrame(b: Bytes, caps: FrameCaps): (r: Parse<Bytes>)
    ensures r.Ok? ==> |r.value.rest| < |b|
  {
    if |b| < PREFIX_LEN then Err(Truncated)
    else
      var n :- ParsePrefix(b[..PREFIX_LEN], caps);
      Take(b[PREFIX_LEN..], n)
  }

  function ReadFrames(b: Bytes, caps: FrameCaps): Result<seq<Bytes>, FrameError>
    decreases |b|
  {
    if b == [] then Ok([])
    else
      var e :- ReadFrame(b, caps);
      var more :- ReadFrames(e.rest, caps);
      Ok([e.value] + more)
  }

  predicate Sendable(envelopes: seq<Bytes>, caps: FrameCaps) {
    forall i :: 0 <= i < |envelopes| ==> Long(envelopes[i]) && |envelopes[i]| <= caps.MaxRemainingLength()
  }

  function JoinFrames(envelopes: seq<Bytes>): Bytes
    requires forall i :: 0 <= i < |envelopes| ==> Long(envelopes[i])
  {
    if envelopes == [] then [] else Framed(envelopes[0]).value + JoinFrames(envelopes[1..])
  }

  /** Any concatenation of frames that pass the pre-check splits back into the same envelopes. */
  lemma {:induction false} StreamSplitsBack(envelopes: seq<Bytes>, caps: FrameCaps)
    requires Sendable(envelopes, caps)
    ensures ReadFrames(JoinFrames(envelopes), caps) == Ok(envelopes)
  {
    if envelopes != [] {
      var b := JoinFrames(envelopes);
      var more := JoinFrames(envelopes[1..]);
      PrefixOfFrame(envelopes[0], caps, more);
      TakeExact(b[PREFIX_LEN..], |envelopes[0]|, envelopes[0], more);
      StreamSplitsBack(envelopes[1..], caps);
      assert envelopes == [envelopes[0]] + envelopes[1..];
    }
  }

  /** `envelope` is the encoding of a legal request. */
  predicate CarriesRequest(envelope: Bytes, r: RequestFrame, caps: FrameCaps) {
    LegalRequest(r, caps) && RequestFits(r) && envelope == RequestEnvelope(r)
  }

  predicate CarriesResponse(envelope: Bytes, r: ResponseFrame, caps: FrameCaps) {
    LegalResponse(r, caps) && ResponseFits(r) && envelope == ResponseEnvelope(r)
  }

  /** Any concatenation of request frames decodes to the sequence of requests that was sent. */
  lemma RequestsSurviveTheStream(rs: seq<RequestFrame>, sent: seq<Bytes>, caps: FrameCaps)
    requires Sendable(sent, caps) && |sent| == |rs|
    requires forall i :: 0 <= i < |rs| ==> CarriesRequest(sent[i], rs[i], caps)
    ensures var read := ReadFrames(JoinFrames(sent), caps);
            && read.Ok? && |read.value| == |rs|
            && forall i :: 0 <= i < |rs| ==> DecodeRequest(read.value[i], caps) == Ok(rs[i])
  {
    StreamSplitsBack(sent, caps);
    forall i | 0 <= i < |rs|
      ensures DecodeRequest(sent[i], caps) == Ok(rs[i])
    {
      assert CarriesRequest(sent[i], rs[i], caps);
      RequestRoundTrip(rs[i], caps);
    }
  }

  lemma ResponsesSurviveTheStream(rs: seq<ResponseFrame>, sent: seq<Bytes>, caps: FrameCaps)
    requires Sendable(sent, caps) && |sent| == |rs|
    requires forall i :: 0 <= i < |rs| ==> CarriesResponse(sent[i], rs[i], caps)
    ensures var read := ReadFrames(JoinFrames(sent), caps);
            && read.Ok? && |read.value| == |rs|
            && forall i :: 0 <= i < |rs| ==> DecodeResponse(read.value[i], caps) == Ok(rs[i])
  {
    StreamSplitsBack(sent, caps);
    forall i | 0 <= i < |rs|
      ensures DecodeResponse(sent[i], caps) == Ok(rs[i])
    {
      assert CarriesResponse(sent[i], rs[i], caps);
      ResponseRoundTrip(rs[i], caps);
    }
  }
}
