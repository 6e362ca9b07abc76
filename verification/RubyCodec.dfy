/**
 The worker's own reading and writing of the wire format, and its agreement with the edge.

 The worker checks less than the edge: no text encoding, no control bytes, no summed header bytes
 and no tiling.  It never checks a length it writes: the packing directives it uses keep the low bits.
 */
module RubyCodec {
  import opened Common
  import opened HopFrame
  import opened HopFrameTheorems
  import Codec = HopFrameCodec

  const MAX_HEADERS: nat := 128

  // ----- the decoder -----

  function ShortStr(b: Bytes): Parse<Bytes> {
    var n :- ParseU16(b);
    Take(n.rest, n.value)
  }

  function LongStr(b: Bytes): Parse<Bytes> {
    var n :- ParseU32(b);
    Take(n.rest, n.value)
  }

  function Target(b: Bytes): Parse<(Bytes, Bytes, Bytes)> {
    var m :- ShortStr(b);
    var p :- LongStr(m.rest);
    var q :- LongStr(p.rest);
    Ok(Parsed((m.value, p.value, q.value), q.rest))
  }

  function Origin(b: Bytes): Parse<(Bytes, u16, Scheme, Bytes)> {
    var n :- ShortStr(b);
    var port :- ParseU16(n.rest);
    var scheme :- ParseScheme(port.rest);
    var addr :- ShortStr(scheme.rest);
    Ok(Parsed((n.value, port.value, scheme.value, addr.value), addr.rest))
  }

  function Line(b: Bytes): Parse<RequestLine> {
    var t :- Target(b);
    var o :- Origin(t.rest);
    Ok(Parsed(RequestLine(t.value.0, t.value.1, t.value.2, o.value.0, o.value.1, o.value.2, o.value.3), o.rest))
  }

  function OneHeader(b: Bytes): Parse<Header> {
    var n :- ShortStr(b);
    var v :- LongStr(n.rest);
    Ok(Parsed(Header(n.value, v.value), v.rest))
  }

  function Items(one: Bytes -> Parse<Header>, b: Bytes, count: nat, seen: seq<Header>): Parse<seq<Header>>
    decreases count - |seen|
  {
    if |seen| >= count then Ok(Parsed(seen, b))
    else
      var h :- one(b);
      Items(one, h.rest, count, seen + [h.value])
  }

  function Block(b: Bytes): Parse<seq<Header>> {
    var n :- ParseU16(b);
    if n.value > MAX_HEADERS then Err(TooManyHeaders(n.value, MAX_HEADERS)) else Items(OneHeader, n.rest, n.value, [])
  }

  /** The body cap is read from the environment, so it may be any integer. */
  function Body(b: Bytes, maxBody: int): Parse<Bytes> {
    var n :- ParseU32(b);
    if n.value > maxBody then Err(BodyTooLarge(n.value, Max(maxBody, 0))) else Take(n.rest, n.value)
  }

  function Request(b: Bytes, maxBody: int): Parse<RequestFrame> {
    var l :- Line(b);
    var hs :- Block(l.rest);
    var body :- Body(hs.rest, maxBody);
    Ok(Parsed(RequestFrame(l.value, hs.value, body.value), body.rest))
  }

  /** Whatever follows the body is ignored. */
  function Decode(envelope: Bytes, maxBody: int): Result<RequestFrame, FrameError> {
    var p :- Request(envelope, maxBody);
    Ok(p.value)
  }

  // ----- the decoder as a cursor -----

  method ReadShort(c: Codec.Cursor) returns (r: Result<Bytes, FrameError>)
    requires c.Valid()
    modifies c
    ensures c.Valid() && Codec.Reads(ShortStr(old(c.Rest())), r, c.Rest())
  {
    var n :- c.U16();
    r := c.Take(n);
  }

  method ReadLong(c: Codec.Cursor) returns (r: Result<Bytes, FrameError>)
    requires c.Valid()
    modifies c
    ensures c.Valid() && Codec.Reads(LongStr(old(c.Rest())), r, c.Rest())
  {
    var n :- c.U32();
    r := c.Take(n);
  }

  method ReadTarget(c: Codec.Cursor) returns (r: Result<(Bytes, Bytes, Bytes), FrameError>)
    requires c.Valid()
    modifies c
    ensures c.Valid() && Codec.Reads(Target(old(c.Rest())), r, c.Rest())
  {
    var m :- ReadShort(c);
    var p :- ReadLong(c);
    var q :- ReadLong(c);
    return Ok((m, p, q));
  }

  method ReadOrigin(c: Codec.Cursor) returns (r: Result<(Bytes, u16, Scheme, Bytes), FrameError>)
    requires c.Valid()
    modifies c
    ensures c.Valid() && Codec.Reads(Origin(old(c.Rest())), r, c.Rest())
  {
    var name :- ReadShort(c);
    var port :- c.U16();
    var scheme :- c.SchemeByte();
    var addr :- ReadShort(c);
    return Ok((name, port, scheme, addr));
  }

  method ReadLine(c: Codec.Cursor) returns (r: Result<RequestLine, FrameError>)
    requires c.Valid()
    modifies c
    ensures c.Valid() && Codec.Reads(Line(old(c.Rest())), r, c.Rest())
  {
    var t :- ReadTarget(c);
    var o :- ReadOrigin(c);
    return Ok(RequestLine(t.0, t.1, t.2, o.0, o.1, o.2, o.3));
  }

  method ReadBlock(c: Codec.Cursor) returns (r: Result<seq<Header>, FrameError>)
    requires c.Valid()
    modifies c
    ensures c.Valid() && Codec.Reads(Block(old(c.Rest())), r, c.Rest())
  {
    var count :- c.U16();
    if count > MAX_HEADERS {
      return Err(TooManyHeaders(count, MAX_HEADERS));
    }
    ghost var block := Items(OneHeader, c.Rest(), count, []);
    var headers: seq<Header> := [];
    for i := 0 to count
      invariant c.Valid() && |headers| == i && Items(OneHeader, c.Rest(), count, headers) == block
    {
      var name :- ReadShort(c);
      var value :- ReadLong(c);
      headers := headers + [Header(name, value)];
    }
    return Ok(headers);
  }

  method DecodeRequestEnvelope(envelope: Bytes, maxBody: int) returns (r: Result<RequestFrame, FrameError>)
    ensures r == Decode(envelope, maxBody)
  {
    var c := new Codec.Cursor(envelope);
    var line :- ReadLine(c);
    var headers :- ReadBlock(c);
    var n :- c.U32();
    if n > maxBody {
      return Err(BodyTooLarge(n, Max(maxBody, 0)));
    }
    var body :- c.Take(n);
    return Ok(RequestFrame(line, headers, body));
  }

  // ----- what the worker accepts, exactly -----

  lemma ShortStrExact(b: Bytes, v: Bytes, rest: Bytes)
    ensures ShortStr(b) == Ok(Parsed(v, rest)) <==> Short(v) && b == PutShort(v, rest)
  {
    if Short(v) {
      U16Exact(b, |v|, v + rest);
      TakeExact(v + rest, |v|, v, rest);
    }
    var n := ParseU16(b);
    if n.Ok? {
      U16Exact(b, n.value.value, n.value.rest);
      TakeExact(n.value.rest, n.value.value, v, rest);
    }
  }

  lemma LongStrExact(b: Bytes, v: Bytes, rest: Bytes)
    ensures LongStr(b) == Ok(Parsed(v, rest)) <==> Long(v) && b == PutLong(v, rest)
  {
    if Long(v) {
      U32Exact(b, |v|, v + rest);
      TakeExact(v + rest, |v|, v, rest);
    }
    var n := ParseU32(b);
    if n.Ok? {
      U32Exact(b, n.value.value, n.value.rest);
      TakeExact(n.value.rest, n.value.value, v, rest);
    }
  }

  lemma BodyOfExact(b: Bytes, maxBody: int, v: Bytes, rest: Bytes)
    ensures Body(b, maxBody) == Ok(Parsed(v, rest)) <==> Long(v) && |v| <= maxBody && b == PutLong(v, rest)
  {
    LongStrExact(b, v, rest);
  }

  lemma OriginAccepted(l: RequestLine, rest: Bytes)
    requires LineFits(l)
    ensures Origin(PutShort(l.serverName, PutU16(l.serverPort, [SchemeByte(l.scheme)] + PutShort(l.remoteAddr, rest))))
            == Ok(Parsed((l.serverName, l.serverPort, l.scheme, l.remoteAddr), rest))
  {
    var b3 := PutShort(l.remoteAddr, rest);
    var b2 := [SchemeByte(l.scheme)] + b3;
    var b1 := PutU16(l.serverPort, b2);
    ShortStrExact(PutShort(l.serverName, b1), l.serverName, b1);
    U16Exact(b1, l.serverPort, b2);
    SchemeExact(b2, l.scheme, b3);
    ShortStrExact(b3, l.remoteAddr, rest);
  }

  lemma LineOfAccepted(l: RequestLine, rest: Bytes)
    requires LineFits(l)
    ensures Line(PutLine(l, rest)) == Ok(Parsed(l, rest))
  {
    var b3 := PutShort(l.serverName, PutU16(l.serverPort, [SchemeByte(l.scheme)] + PutShort(l.remoteAddr, rest)));
    var b2 := PutLong(l.query, b3);
    var b1 := PutLong(l.path, b2);
    ShortStrExact(PutShort(l.method_, b1), l.method_, b1);
    LongStrExact(b1, l.path, b2);
    LongStrExact(b2, l.query, b3);
    OriginAccepted(l, rest);
  }

  lemma AcceptedTarget(b: Bytes)
    ensures Target(b).Ok? ==>
              var t := Target(b).value;
              && Short(t.value.0) && Long(t.value.1) && Long(t.value.2)
              && b == PutShort(t.value.0, PutLong(t.value.1, PutLong(t.value.2, t.rest)))
  {
    if Target(b).Ok? {
      var m := ShortStr(b).value;
      var p := LongStr(m.rest).value;
      var q := LongStr(p.rest).value;
      ShortStrExact(b, m.value, m.rest);
      LongStrExact(m.rest, p.value, p.rest);
      LongStrExact(p.rest, q.value, q.rest);
    }
  }

  lemma AcceptedOrigin(b: Bytes)
    ensures Origin(b).Ok? ==>
              var o := Origin(b).value;
              && Short(o.value.0) && Short(o.value.3)
              && b == PutShort(o.value.0, PutU16(o.value.1, [SchemeByte(o.value.2)] + PutShort(o.value.3, o.rest)))
  {
    if Origin(b).Ok? {
      var n := ShortStr(b).value;
      var port := ParseU16(n.rest).value;
      var scheme := ParseScheme(port.rest).value;
      var addr := ShortStr(scheme.rest).value;
      ShortStrExact(b, n.value, n.rest);
      U16Exact(n.rest, port.value, port.rest);
      SchemeExact(port.rest, scheme.value, scheme.rest);
      ShortStrExact(scheme.rest, addr.value, addr.rest);
    }
  }

  lemma LineOfExact(b: Bytes, v: RequestLine, rest: Bytes)
    ensures Line(b) == Ok(Parsed(v, rest)) <==> LineFits(v) && b == PutLine(v, rest)
  {
    if LineFits(v) {
      LineOfAccepted(v, rest);
    }
    if Line(b).Ok? {
      AcceptedTarget(b);
      AcceptedOrigin(Target(b).value.rest);
    }
  }

  lemma OneHeaderExact(b: Bytes, v: Header, rest: Bytes)
    ensures OneHeader(b) == Ok(Parsed(v, rest)) <==> HeaderFits(v) && b == PutHeader(v, rest)
  {
    if HeaderFits(v) {
      ShortStrExact(b, v.name, PutLong(v.value, rest));
    }
    var n := ShortStr(b);
    if n.Ok? {
      ShortStrExact(b, n.value.value, n.value.rest);
      LongStrExact(n.value.rest, v.value, rest);
    }
  }

  ghost predicate TakesAnyHeader(one: Bytes -> Parse<Header>) {
    forall b, h, rest :: one(b) == Ok(Parsed(h, rest)) <==> HeaderFits(h) && b == PutHeader(h, rest)
  }

  lemma {:induction false} ItemsOfAccepted(one: Bytes -> Parse<Header>, count: nat, seen: seq<Header>,
      more: seq<Header>, rest: Bytes)
    requires TakesAnyHeader(one) && count == |seen| + |more| && HeadersFit(more)
    ensures Items(one, PutItems(more, rest), count, seen) == Ok(Parsed(seen + more, rest))
    decreases |more|
  {
    if more == [] {
      assert seen + more == seen;
    } else {
      var h, after := more[0], more[1..];
      assert one(PutItems(more, rest)) == Ok(Parsed(h, PutItems(after, rest)));
      assert (seen + [h]) + after == seen + more;
      ItemsOfAccepted(one, count, seen + [h], after, rest);
    }
  }

  lemma ItemsOfStep(h: Header, more: seq<Header>, rest: Bytes)
    ensures HeaderFits(h) && HeadersFit(more) ==>
              HeadersFit([h] + more) && PutItems([h] + more, rest) == PutHeader(h, PutItems(more, rest))
  {
    assert ([h] + more)[1..] == more;
  }

  lemma {:induction false} AcceptedItemsOf(one: Bytes -> Parse<Header>, b: Bytes, count: nat, seen: seq<Header>,
      hs: seq<Header>, rest: Bytes)
    returns (more: seq<Header>)
    requires TakesAnyHeader(one) && |seen| <= count && Items(one, b, count, seen) == Ok(Parsed(hs, rest))
    ensures hs == seen + more && |hs| == count && HeadersFit(more) && b == PutItems(more, rest)
    decreases count - |seen|
  {
    if |seen| == count {
      more := [];
    } else {
      var h := one(b).value;
      assert one(b) == Ok(Parsed(h.value, h.rest));
      assert Items(one, h.rest, count, seen + [h.value]) == Ok(Parsed(hs, rest));
      var after := AcceptedItemsOf(one, h.rest, count, seen + [h.value], hs, rest);
      ItemsOfStep(h.value, after, rest);
      more := [h.value] + after;
      assert (seen + [h.value]) + after == seen + more;
    }
  }

  lemma BlockOfExact(b: Bytes, hs: seq<Header>, rest: Bytes)
    ensures Block(b) == Ok(Parsed(hs, rest)) <==> |hs| <= MAX_HEADERS && HeadersFit(hs) && b == PutBlock(hs, rest)
  {
    forall b, h, rest
      ensures OneHeader(b) == Ok(Parsed(h, rest)) <==> HeaderFits(h) && b == PutHeader(h, rest)
    {
      OneHeaderExact(b, h, rest);
    }
    assert TakesAnyHeader(OneHeader);
    if |hs| <= MAX_HEADERS && HeadersFit(hs) {
      U16Exact(b, |hs|, PutItems(hs, rest));
      assert [] + hs == hs;
      ItemsOfAccepted(OneHeader, |hs|, [], hs, rest);
    }
    if Block(b).Ok? {
      var n, r := ParseU16(b).value, Block(b).value;
      U16Exact(b, n.value, n.rest);
      var more := AcceptedItemsOf(OneHeader, n.rest, n.value, [], r.value, r.rest);
      assert more == r.value;
    }
  }

  lemma RequestOfExact(b: Bytes, maxBody: int, r: RequestFrame, rest: Bytes)
    ensures Request(b, maxBody) == Ok(Parsed(r, rest)) <==>
            && RequestFits(r) && |r.headers| <= MAX_HEADERS && |r.body| <= maxBody
            && b == PutLine(r.line, PutBlock(r.headers, PutLong(r.body, rest)))
  {
    if RequestFits(r) {
      var b2 := PutLong(r.body, rest);
      var b1 := PutBlock(r.headers, b2);
      LineOfExact(b, r.line, b1);
      BlockOfExact(b1, r.headers, b2);
      BodyOfExact(b2, maxBody, r.body, rest);
    }
    if Request(b, maxBody).Ok? {
      var l := Line(b).value;
      var hs := Block(l.rest).value;
      var body := Body(hs.rest, maxBody).value;
      LineOfExact(b, l.value, l.rest);
      BlockOfExact(l.rest, hs.value, hs.rest);
      BodyOfExact(hs.rest, maxBody, body.value, body.rest);
    }
  }

  lemma BlockAppend(hs: seq<Header>, tail: Bytes, rest: Bytes)
    requires BlockFits(hs)
    ensures PutBlock(hs, tail + rest) == PutBlock(hs, tail) + rest
  {
    Codec.ItemsAppend(hs, tail + rest);
    Codec.ItemsAppend(hs, tail);
    Codec.Regroup(PutItems(hs, []), [], tail, rest);
  }

  lemma EnvelopeAppend(r: RequestFrame, rest: Bytes)
    requires RequestFits(r)
    ensures PutLine(r.line, PutBlock(r.headers, PutLong(r.body, rest))) == RequestEnvelope(r) + rest
  {
    var body := PutLong(r.body, []);
    assert PutLong(r.body, rest) == body + rest;
    BlockAppend(r.headers, body, rest);
    Codec.LineAppend(r.line, PutBlock(r.headers, body) + rest);
    Codec.LineAppend(r.line, PutBlock(r.headers, body));
    Codec.Regroup(PutLine(r.line, []), [], PutBlock(r.headers, body), rest);
  }

  /** The worker decodes `r` exactly from the envelopes that begin with the encoding of `r`. */
  lemma WorkerAccepts(envelope: Bytes, maxBody: int, r: RequestFrame)
    ensures Decode(envelope, maxBody) == Ok(r) <==>
            RequestFits(r) && |r.headers| <= MAX_HEADERS && |r.body| <= maxBody && RequestEnvelope(r) <= envelope
  {
    if RequestFits(r) && RequestEnvelope(r) <= envelope {
      var rest := envelope[|RequestEnvelope(r)|..];
      EnvelopeAppend(r, rest);
      RequestOfExact(envelope, maxBody, r, rest);
    }
    if Decode(envelope, maxBody) == Ok(r) {
      var rest := Request(envelope, maxBody).value.rest;
      RequestOfExact(envelope, maxBody, r, rest);
      EnvelopeAppend(r, rest);
    }
  }

  /** On every envelope the edge accepts, the worker reads the same request or hits one of its own caps. */
  lemma DecodersAgree(envelope: Bytes, caps: FrameCaps, maxBody: int, r: RequestFrame)
    ensures DecodeRequest(envelope, caps) == Ok(r) ==>
              Decode(envelope, maxBody) == OrOwnCap(r, maxBody)
  {
    DecodedRequestReencodes(envelope, caps, r);
    if LegalRequest(r, caps) {
      WorkerDecodes(r, maxBody);
    }
  }

  function OrOwnCap(r: RequestFrame, maxBody: int): Result<RequestFrame, FrameError> {
    if |r.headers| > MAX_HEADERS then Err(TooManyHeaders(|r.headers|, MAX_HEADERS))
    else if |r.body| > maxBody then Err(BodyTooLarge(|r.body|, Max(maxBody, 0)))
    else Ok(r)
  }

  lemma WorkerDecodes(r: RequestFrame, maxBody: int)
    requires RequestFits(r)
    ensures Decode(RequestEnvelope(r), maxBody) == OrOwnCap(r, maxBody)
  {
    var b2 := PutLong(r.body, []);
    var b1 := PutBlock(r.headers, b2);
    LineOfExact(RequestEnvelope(r), r.line, b1);
    BlockOrTooMany(r.headers, b2);
    BodyOrTooLarge(r.body, maxBody);
  }

  lemma BlockOrTooMany(hs: seq<Header>, rest: Bytes)
    requires BlockFits(hs)
    ensures Block(PutBlock(hs, rest)) == if |hs| > MAX_HEADERS then Err(TooManyHeaders(|hs|, MAX_HEADERS))
            else Ok(Parsed(hs, rest))
  {
    U16Exact(PutBlock(hs, rest), |hs|, PutItems(hs, rest));
    BlockOfExact(PutBlock(hs, rest), hs, rest);
  }

  lemma BodyOrTooLarge(body: Bytes, maxBody: int)
    requires Long(body)
    ensures Body(PutLong(body, []), maxBody) == if |body| > maxBody then Err(BodyTooLarge(|body|, Max(maxBody, 0)))
            else Ok(Parsed(body, []))
  {
    U32Exact(PutLong(body, []), |body|, body + []);
    TakeExact(body + [], |body|, body, []);
  }

  // ----- the response encoder -----

  /** What `pack` keeps of a number that is too wide. */
  function Low16(n: int): u16 {
    n % 0x1_0000
  }

  function Low32(n: int): u32 {
    n % 0x1_0000_0000
  }

  function PackShort(s: Bytes, tail: Bytes): Bytes {
    PutU16(Low16(|s|), s + tail)
  }

  function PackLong(s: Bytes, tail: Bytes): Bytes {
    PutU32(Low32(|s|), s + tail)
  }

  function PackHeader(h: Header, tail: Bytes): Bytes {
    PackShort(h.name, PackLong(h.value, tail))
  }

  function PackedItems(hs: seq<Header>, tail: Bytes): Bytes {
    if hs == [] then tail else PackHeader(hs[0], PackedItems(hs[1..], tail))
  }

  function FullEnvelope(status: int, hs: seq<Header>, body: Bytes): Bytes {
    [0] + PutU16(Low16(status), PutU16(Low16(|hs|), PackedItems(hs, PackLong(body, []))))
  }

  function EncodeFull(status: int, hs: seq<Header>, body: Bytes): Bytes {
    var envelope := FullEnvelope(status, hs, body);
    [FRAME_MAGIC, FRAME_VERSION] + PutU32(Low32(|envelope|), envelope)
  }

  lemma {:induction false} PackedSnoc(hs: seq<Header>, h: Header)
    ensures PackedItems(hs + [h], []) == PackedItems(hs, []) + PackHeader(h, [])
  {
    if hs == [] {
      assert hs + [h] == [h] && [h][1..] == [];
    } else {
      assert (hs + [h])[1..] == hs[1..] + [h];
      PackedSnoc(hs[1..], h);
    }
  }

  lemma {:induction false} PackedAppend(hs: seq<Header>, tail: Bytes)
    ensures PackedItems(hs, tail) == PackedItems(hs, []) + tail
  {
    if hs != [] {
      PackedAppend(hs[1..], tail);
    }
  }

  /** The frame is built in the connection's own buffer and the length is patched in at the end. */
  class OutBuffer {
    var frame: Bytes

    constructor ()
      ensures frame == []
    {
      frame := [];
    }

    method Append(bytes: Bytes)
      modifies this
      ensures frame == old(frame) + bytes
    {
      frame := frame + bytes;
    }

    method AppendHeaders(hs: seq<Header>)
      modifies this
      ensures frame == old(frame) + PackedItems(hs, [])
    {
      for i := 0 to |hs|
        invariant frame == old(frame) + PackedItems(hs[..i], [])
      {
        var h := hs[i];
        PackedSnoc(hs[..i], h);
        assert hs[..i] + [h] == hs[..i + 1];
        Append(PackShort(h.name, []));
        Append(PackLong(h.value, []));
        HeaderParts(old(frame) + PackedItems(hs[..i], []), h);
        Codec.Regroup(old(frame), [], PackedItems(hs[..i], []), PackHeader(h, []));
      }
      assert hs[..|hs|] == hs;
    }

    method EncodeFullResponse(status: int, hs: seq<Header>, body: Bytes)
      modifies this
      ensures frame == EncodeFull(status, hs, body)
    {
      frame := [];
      Append([FRAME_MAGIC, FRAME_VERSION, 0, 0, 0, 0]);
      ghost var started := frame;
      var fixed := [0] + PutU16(Low16(status), PutU16(Low16(|hs|), []));
      Append(fixed);
      AppendHeaders(hs);
      Append(PackLong(body, []));
      EnvelopeParts(started, status, hs, body);
      assert frame[..2] == [FRAME_MAGIC, FRAME_VERSION] && frame[PREFIX_LEN..] == FullEnvelope(status, hs, body);
      frame := frame[..2] + PutU32(Low32(|frame| - PREFIX_LEN), frame[PREFIX_LEN..]);
    }
  }

  lemma HeaderParts(before: Bytes, h: Header)
    ensures before + PackShort(h.name, []) + PackLong(h.value, []) == before + PackHeader(h, [])
  {
    Codec.Regroup(before, [], PackShort(h.name, []), PackLong(h.value, []));
    assert PackShort(h.name, []) + PackLong(h.value, []) == PackHeader(h, []);
  }

  lemma EnvelopeParts(before: Bytes, status: int, hs: seq<Header>, body: Bytes)
    ensures before + ([0] + PutU16(Low16(status), PutU16(Low16(|hs|), []))) + PackedItems(hs, []) + PackLong(body, [])
            == before + FullEnvelope(status, hs, body)
  {
    var fixed := [0] + PutU16(Low16(status), PutU16(Low16(|hs|), []));
    PackedAppend(hs, PackLong(body, []));
    Codec.Regroup(before, fixed, PackedItems(hs, []), PackLong(body, []));
    FixedAppend(Low16(status), Low16(|hs|), PackedItems(hs, PackLong(body, [])));
  }

  lemma FixedAppend(status: u16, count: u16, tail: Bytes)
    ensures [0] + PutU16(status, PutU16(count, tail)) == [0] + PutU16(status, PutU16(count, [])) + tail
  {
  }

  lemma PackedHeaderFits(h: Header, tail: Bytes)
    requires HeaderFits(h)
    ensures PackHeader(h, tail) == PutHeader(h, tail)
  {
    assert Low16(|h.name|) == |h.name| && Low32(|h.value|) == |h.value|;
  }

  lemma {:induction false} PackedFits(hs: seq<Header>, tail: Bytes)
    requires HeadersFit(hs)
    ensures PackedItems(hs, tail) == PutItems(hs, tail)
  {
    if hs != [] {
      PackedFits(hs[1..], tail);
      PackedHeaderFits(hs[0], PutItems(hs[1..], tail));
    }
  }

  lemma EnvelopesAgree(status: u16, hs: seq<Header>, body: Bytes)
    requires BlockFits(hs) && Long(body)
    ensures FullEnvelope(status, hs, body) == ResponseEnvelope(Full(status, hs, body))
  {
    assert Low16(status) == status && Low16(|hs|) == |hs| && Low32(|body|) == |body|;
    assert PackLong(body, []) == PutLong(body, []);
    PackedFits(hs, PutLong(body, []));
  }

  /** Wherever the edge could encode the response at all, the worker writes the very same bytes. */
  lemma EncodersAgree(status: u16, hs: seq<Header>, body: Bytes)
    requires EncodeResponse(Full(status, hs, body)).Ok?
    ensures EncodeResponse(Full(status, hs, body)) == Ok(EncodeFull(status, hs, body))
  {
    EnvelopesAgree(status, hs, body);
    PrefixesAgree(ResponseEnvelope(Full(status, hs, body)));
  }

  lemma PrefixesAgree(envelope: Bytes)
    requires Long(envelope)
    ensures Framed(envelope) == Ok([FRAME_MAGIC, FRAME_VERSION] + PutU32(Low32(|envelope|), envelope))
  {
    assert Low32(|envelope|) == |envelope|;
  }

  // ----- the header sanitizer -----

  predicate Ascii(s: Bytes) {
    forall i :: 0 <= i < |s| ==> s[i] < 0x80
  }

  function Lower(b: byte): byte {
    if 0x41 <= b <= 0x5A then b + 32 else b
  }

  function Downcase(s: Bytes): Bytes {
    seq(|s|, i requires 0 <= i < |s| => Lower(s[i]))
  }

  const CONTENT_LENGTH: Bytes := [99, 111, 110, 116, 101, 110, 116, 45, 108, 101, 110, 103, 116, 104]
  const TRANSFER_ENCODING: Bytes := [116, 114, 97, 110, 115, 102, 101, 114, 45, 101, 110, 99, 111, 100, 105, 110, 103]
  const CONNECTION: Bytes := [99, 111, 110, 110, 101, 99, 116, 105, 111, 110]

  predicate IsFraming(name: Bytes) {
    Downcase(name) in [CONTENT_LENGTH, TRANSFER_ENCODING, CONNECTION]
  }

  predicate ValidName(name: Bytes) {
    if Ascii(name) then name != [] && forall i :: 0 <= i < |name| ==> 0x21 <= name[i] <= 0x7E
    else name != [] && forall i :: 0 <= i < |name| ==> name[i] > 0x20 && name[i] < 0x7F
  }

  predicate ValidValue(value: Bytes) {
    if Ascii(value) then forall i :: 0 <= i < |value| ==> value[i] == 0x09 || 0x20 <= value[i] <= 0x7E
    else forall i :: 0 <= i < |value| ==> value[i] == 0x09 || (value[i] != 0x7F && value[i] >= 0x20)
  }

  predicate Keeps(h: Header) {
    !IsFraming(h.name) && ValidName(h.name) && ValidValue(h.value)
  }

  function SanitizeResponseHeaders(hs: seq<Header>): seq<Header> {
    if hs == [] then []
    else if Keeps(hs[0]) then [hs[0]] + SanitizeResponseHeaders(hs[1..])
    else SanitizeResponseHeaders(hs[1..])
  }

  predicate HasTab(value: Bytes) {
    0x09 in value
  }

  lemma {:induction false} SanitizedKeeps(hs: seq<Header>)
    ensures forall i :: 0 <= i < |SanitizeResponseHeaders(hs)| ==> Keeps(SanitizeResponseHeaders(hs)[i])
  {
    if hs != [] {
      SanitizedKeeps(hs[1..]);
    }
  }

  /** The bytes of `name` are the lower-case `word` in some mixture of cases. */
  predicate SpellsName(name: Bytes, word: string) {
    && |name| == |word|
    && (forall i :: 0 <= i < |name| ==>
          word[i] as int == if 0x41 <= name[i] <= 0x5A then name[i] + 32 as int else name[i] as int)
  }

  lemma DowncaseSpells(name: Bytes, code: Bytes, word: string)
    requires |code| == |word| && forall i :: 0 <= i < |word| ==> code[i] == word[i] as int
    ensures Downcase(name) == code <==> SpellsName(name, word)
  {
    if SpellsName(name, word) {
      assert forall i :: 0 <= i < |name| ==> Downcase(name)[i] == code[i];
    }
    if Downcase(name) == code {
      assert forall i :: 0 <= i < |name| ==> Lower(name[i]) == code[i];
    }
  }

  lemma FramingSpelled(name: Bytes)
    ensures IsFraming(name) <==>
            || SpellsName(name, "content-length") || SpellsName(name, "transfer-encoding")
            || SpellsName(name, "connection")
  {
    DowncaseSpells(name, CONTENT_LENGTH, "content-length");
    DowncaseSpells(name, TRANSFER_ENCODING, "transfer-encoding");
    DowncaseSpells(name, CONNECTION, "connection");
  }

  predicate VisibleName(name: Bytes) {
    name != [] && forall i :: 0 <= i < |name| ==> 0x21 <= name[i] <= 0x7E
  }

  predicate CleanValue(value: Bytes) {
    forall i :: 0 <= i < |value| ==> value[i] == 0x09 || (value[i] >= 0x20 && value[i] != 0x7F)
  }

  /**
   The worker keeps a header if and only if its name is not one of the three framing names in any case, is visible
   ASCII, and its value holds no control byte but the tab; what is kept passes a second time unchanged.
   */
  lemma {:induction false} SanitizedExactly(hs: seq<Header>)
    ensures forall h :: h in SanitizeResponseHeaders(hs) <==>
              && h in hs && VisibleName(h.name) && CleanValue(h.value)
              && !SpellsName(h.name, "content-length") && !SpellsName(h.name, "transfer-encoding")
              && !SpellsName(h.name, "connection")
    ensures SanitizeResponseHeaders(SanitizeResponseHeaders(hs)) == SanitizeResponseHeaders(hs)
  {
    if hs != [] {
      SanitizedExactly(hs[1..]);
      KeepsExactly(hs[0]);
      assert hs == [hs[0]] + hs[1..];
      if Keeps(hs[0]) {
        var kept := [hs[0]] + SanitizeResponseHeaders(hs[1..]);
        assert kept[1..] == SanitizeResponseHeaders(hs[1..]);
      }
    }
  }

  lemma KeepsExactly(h: Header)
    ensures Keeps(h) <==>
            && VisibleName(h.name) && CleanValue(h.value)
            && !SpellsName(h.name, "content-length") && !SpellsName(h.name, "transfer-encoding")
            && !SpellsName(h.name, "connection")
  {
    FramingSpelled(h.name);
    assert ValidName(h.name) <==> VisibleName(h.name) by {
      if !Ascii(h.name) {
        var i :| 0 <= i < |h.name| && h.name[i] >= 0x80;
        assert !(h.name[i] < 0x7F);
      }
    }
  }

  /** A header the worker lets through is one the edge accepts, but for text encoding and the tab. */
  lemma KeptHeader(h: Header)
    requires Keeps(h) && HeaderFits(h)
    ensures LegalHeader(h) <==> TabFreeText(h.value)
  {
    AsciiIsUtf8(h.name, 0);
    assert HasControlByte(h.value) <==> HasTab(h.value);
  }

  predicate TabFreeText(value: Bytes) {
    ValidUtf8(value) && !HasTab(value)
  }

  /** What the edge still demands of a sanitized response, its size pre-check included. */
  predicate EdgeDemands(status: int, hs: seq<Header>, body: Bytes, caps: FrameCaps) {
    && LegalStatus(status)
    && |hs| <= caps.maxHeaders && SummedBytes(hs) <= caps.maxHeaderBytes && |body| <= caps.maxBodyBytes
    && (forall i :: 0 <= i < |hs| ==> TabFreeText(hs[i].value))
    && 9 + SummedBytes(hs) + 6 * |hs| + |body| <= caps.MaxRemainingLength()
  }

  /** The edge's end of the socket: prefix, pre-check, exact read, decode. */
  function EdgeReads(frame: Bytes, caps: FrameCaps): Result<ResponseFrame, FrameError> {
    var e :- ReadFrame(frame, caps);
    DecodeResponse(e.value, caps)
  }

  lemma EdgeReadsEnvelope(envelope: Bytes, caps: FrameCaps)
    requires Long(envelope)
    ensures EdgeReads(Framed(envelope).value, caps) ==
            if |envelope| <= caps.MaxRemainingLength() then DecodeResponse(envelope, caps)
            else Err(EnvelopeTooLarge(|envelope|, caps.MaxRemainingLength()))
  {
    var b := Framed(envelope).value;
    PrefixOfFrame(envelope, caps, []);
    assert b + [] == b && envelope + [] == envelope;
    TakeExact(envelope, |envelope|, envelope, []);
  }

  /**
   The edge reads back what the application answered, from the worker's own bytes, exactly when the status is in range,
   the caps and the size pre-check hold and the header values are text without a tab.
   */
  lemma EdgeAcceptsWorkerResponse(status: u16, pairs: seq<Header>, body: Bytes, caps: FrameCaps)
    requires EncodeResponse(Full(status, SanitizeResponseHeaders(pairs), body)).Ok?
    ensures var hs := SanitizeResponseHeaders(pairs);
            EdgeReads(EncodeFull(status, hs, body), caps) == Ok(Full(status, hs, body)) <==>
                EdgeDemands(status, hs, body, caps)
  {
    var hs := SanitizeResponseHeaders(pairs);
    EncodersAgree(status, hs, body);
    EdgeReadsEnvelope(ResponseEnvelope(Full(status, hs, body)), caps);
    FullLength(status, hs, body);
    ResponseRoundTrip(Full(status, hs, body), caps);
    SanitizedKeeps(pairs);
    KeptHeadersLegality(hs);
    DemandsAreLegality(status, hs, body, caps);
  }

  lemma {:induction false} KeptHeadersLegality(hs: seq<Header>)
    requires HeadersFit(hs) && forall i :: 0 <= i < |hs| ==> Keeps(hs[i])
    ensures LegalHeaders(hs) <==> forall i :: 0 <= i < |hs| ==> TabFreeText(hs[i].value)
  {
    if hs != [] {
      var last := |hs| - 1;
      KeptHeadersLegality(hs[..last]);
      KeptHeader(hs[last]);
      assert forall i :: 0 <= i < last ==> hs[..last][i] == hs[i];
    }
  }

  lemma DemandsAreLegality(status: u16, hs: seq<Header>, body: Bytes, caps: FrameCaps)
    requires LegalHeaders(hs) <==> forall i :: 0 <= i < |hs| ==> TabFreeText(hs[i].value)
    ensures EdgeDemands(status, hs, body, caps) <==>
            && LegalResponse(Full(status, hs, body), caps)
            && 9 + SummedBytes(hs) + 6 * |hs| + |body| <= caps.MaxRemainingLength()
  {
  }

  lemma FullLength(status: u16, hs: seq<Header>, body: Bytes)
    requires BlockFits(hs) && Long(body)
    ensures |ResponseEnvelope(Full(status, hs, body))| == 9 + SummedBytes(hs) + 6 * |hs| + |body|
  {
    ItemsLength(hs, PutLong(body, []));
  }

  // ----- the tab -----

  lemma TabbedHeader(h: Header, rest: Bytes)
    requires Keeps(h) && HeaderFits(h) && ValidUtf8(h.value) && HasTab(h.value)
    ensures ParseHeader(PutHeader(h, rest)) == Err(ControlByteInHeader)
  {
    AsciiIsUtf8(h.name, 0);
    ShortExact(PutHeader(h, rest), h.name, PutLong(h.value, rest));
    LongExact(PutLong(h.value, rest), h.value, rest);
    assert HasControlByte(h.value);
  }

  lemma TabbedBlock(hs: seq<Header>, rest: Bytes, caps: FrameCaps)
    requires 1 <= |hs| <= caps.maxHeaders && HeadersFit(hs)
    requires Keeps(hs[0]) && ValidUtf8(hs[0].value) && HasTab(hs[0].value)
    ensures ParseBlock(PutBlock(hs, rest), caps) == Err(ControlByteInHeader)
  {
    U16Exact(PutBlock(hs, rest), |hs|, PutItems(hs, rest));
    TabbedHeader(hs[0], PutItems(hs[1..], rest));
    assert ParseHeader(PutItems(hs, rest)) == Err(ControlByteInHeader);
  }

  /** One tab in the first header is enough: the edge refuses, with this error, a response the worker thought clean. */
  lemma TabIsRefused(status: u16, hs: seq<Header>, body: Bytes, caps: FrameCaps)
    requires LegalStatus(status) && 1 <= |hs| <= caps.maxHeaders && HeadersFit(hs) && Long(body)
    requires Keeps(hs[0]) && ValidUtf8(hs[0].value) && HasTab(hs[0].value)
    requires 9 + SummedBytes(hs) + 6 * |hs| + |body| <= Min(caps.MaxRemainingLength(), U32_MAX)
    ensures EdgeReads(EncodeFull(status, hs, body), caps) == Err(ControlByteInHeader)
  {
    FullLength(status, hs, body);
    EncodersAgree(status, hs, body);
    EdgeReadsEnvelope(ResponseEnvelope(Full(status, hs, body)), caps);
    TabbedEnvelope(status, hs, body, caps);
  }

  lemma TabbedEnvelope(status: u16, hs: seq<Header>, body: Bytes, caps: FrameCaps)
    requires LegalStatus(status) && 1 <= |hs| <= caps.maxHeaders && HeadersFit(hs) && Long(body)
    requires Keeps(hs[0]) && ValidUtf8(hs[0].value) && HasTab(hs[0].value)
    ensures DecodeResponse(ResponseEnvelope(Full(status, hs, body)), caps) == Err(ControlByteInHeader)
  {
    var r := Full(status, hs, body);
    var tail := PutLong(body, []);
    U8Exact(ResponseEnvelope(r), 0, PutHead(status, hs, tail));
    StatusExact(PutHead(status, hs, tail), status, PutBlock(hs, tail));
    TabbedBlock(hs, tail, caps);
    assert ParseHead(PutHead(status, hs, tail), caps) == Err(ControlByteInHeader);
  }

  /** Such a header exists. */
  lemma TabSurvivesTheWorker()
    ensures var h := Header([0x78], [0x09]);
            SanitizeResponseHeaders([h]) == [h] && ValidUtf8(h.value) && HasTab(h.value)
  {
    var h := Header([0x78], [0x09]);
    assert Downcase(h.name) == [0x78];
    assert Keeps(h) && [h][1..] == [];
  }
}
