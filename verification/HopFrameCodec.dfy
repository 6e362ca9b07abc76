/** The codec as the program runs it: a cursor that advances and a buffer that is filled in place. */
module HopFrameCodec {
  import opened Common
  import opened HopFrame
  import opened FrameText

  /** A read that answers `r` and leaves `rest` did what the parser answer `p` says. */
  ghost predicate Reads<T>(p: Parse<T>, r: Result<T, FrameError>, rest: Bytes) {
    match p
    case Ok(x) => r == Ok(x.value) && rest == x.rest
    case Err(e) => r == Err(e)
  }

  class Cursor {
    const buf: Bytes
    var pos: nat

    constructor (envelope: Bytes)
      ensures buf == envelope && pos == 0 && Valid() && Rest() == envelope
    {
      buf, pos := envelope, 0;
    }

    ghost predicate Valid()
      reads this
    {
      pos <= |buf|
    }

    /** The bytes still to be read. */
    ghost function Rest(): Bytes
      requires Valid()
      reads this
    {
      buf[pos..]
    }

    method Take(n: nat) returns (r: Result<Bytes, FrameError>)
      requires Valid()
      modifies this
      ensures Valid() && Reads(HopFrame.Take(old(Rest()), n), r, Rest())
    {
      if n > |buf| - pos {
        return Err(Truncated);
      }
      assert buf[pos..][..n] == buf[pos..pos + n] && buf[pos..][n..] == buf[pos + n..];
      r := Ok(buf[pos..pos + n]);
      pos := pos + n;
    }

    method U8() returns (r: Result<byte, FrameError>)
      requires Valid()
      modifies this
      ensures Valid() && Reads(ParseU8(old(Rest())), r, Rest())
    {
      var b :- Take(1);
      return Ok(b[0]);
    }

    method U16() returns (r: Result<u16, FrameError>)
      requires Valid()
      modifies this
      ensures Valid() && Reads(ParseU16(old(Rest())), r, Rest())
    {
      var b :- Take(2);
      return Ok(U16Of(b[0], b[1]));
    }

    method U32() returns (r: Result<u32, FrameError>)
      requires Valid()
      modifies this
      ensures Valid() && Reads(ParseU32(old(Rest())), r, Rest())
    {
      var b :- Take(4);
      return Ok(U32Of(b[0], b[1], b[2], b[3]));
    }

    method ShortStr() returns (r: Result<Bytes, FrameError>)
      requires Valid()
      modifies this
      ensures Valid() && Reads(ParseShort(old(Rest())), r, Rest())
    {
      var n :- U16();
      var bytes :- Take(n);
      return if ValidUtf8(bytes) then Ok(bytes) else Err(NotUtf8);
    }

    method LongStr() returns (r: Result<Bytes, FrameError>)
      requires Valid()
      modifies this
      ensures Valid() && Reads(ParseLong(old(Rest())), r, Rest())
    {
      var n :- U32();
      var bytes :- Take(n);
      return if ValidUtf8(bytes) then Ok(bytes) else Err(NotUtf8);
    }

    method SchemeByte() returns (r: Result<Scheme, FrameError>)
      requires Valid()
      modifies this
      ensures Valid() && Reads(ParseScheme(old(Rest())), r, Rest())
    {
      var b :- U8();
      return if b == 0 then Ok(Http) else if b == 1 then Ok(Https) else Err(BadScheme(b));
    }

    method CappedBytes(cap: u32) returns (r: Result<Bytes, FrameError>)
      requires Valid()
      modifies this
      ensures Valid() && Reads(ParseBody(old(Rest()), cap), r, Rest())
    {
      var n :- U32();
      if n > cap {
        return Err(BodyTooLarge(n, cap));
      }
      r := Take(n);
    }

    method OneHeader() returns (r: Result<Header, FrameError>)
      requires Valid()
      modifies this
      ensures Valid() && Reads(ParseHeader(old(Rest())), r, Rest())
    {
      var name :- ShortStr();
      var value :- LongStr();
      if HasControlByte(name) {
        return Err(ControlByteInHeader);
      }
      if HasControlByte(value) {
        return Err(ControlByteInHeader);
      }
      return Ok(Header(name, value));
    }

    method Target() returns (r: Result<(Bytes, Bytes, Bytes), FrameError>)
      requires Valid()
      modifies this
      ensures Valid() && Reads(ParseTarget(old(Rest())), r, Rest())
    {
      var method_ :- ShortStr();
      var path :- LongStr();
      var query :- LongStr();
      return Ok((method_, path, query));
    }

    method Server() returns (r: Result<(Bytes, u16), FrameError>)
      requires Valid()
      modifies this
      ensures Valid() && Reads(ParseServer(old(Rest())), r, Rest())
    {
      var serverName :- ShortStr();
      var serverPort :- U16();
      return Ok((serverName, serverPort));
    }

    method Peer() returns (r: Result<(Scheme, Bytes), FrameError>)
      requires Valid()
      modifies this
      ensures Valid() && Reads(ParsePeer(old(Rest())), r, Rest())
    {
      var scheme :- SchemeByte();
      var remoteAddr :- ShortStr();
      return Ok((scheme, remoteAddr));
    }

    method Line() returns (r: Result<RequestLine, FrameError>)
      requires Valid()
      modifies this
      ensures Valid() && Reads(ParseLine(old(Rest())), r, Rest())
    {
      var target :- Target();
      var server :- Server();
      var peer :- Peer();
      return Ok(RequestLine(target.0, target.1, target.2, server.0, server.1, peer.0, peer.1));
    }

    method RequestPayload(caps: FrameCaps) returns (r: Result<RequestFrame, FrameError>)
      requires Valid()
      modifies this
      ensures Valid() && Reads(ParseRequest(old(Rest()), caps), r, Rest())
    {
      var line :- Line();
      var headers :- DecodeHeaders(caps);
      var body :- CappedBytes(caps.maxBodyBytes);
      return Ok(RequestFrame(line, headers, body));
    }

    method StatusAndHeaders(caps: FrameCaps) returns (r: Result<ResponseFrame, FrameError>)
      requires Valid()
      modifies this
      ensures Valid() && Reads(ParseHead(old(Rest()), caps), r, Rest())
    {
      var status :- U16();
      if !LegalStatus(status) {
        return Err(BadStatus(status));
      }
      var headers :- DecodeHeaders(caps);
      return Ok(Head(status, headers));
    }

    method ResponsePayload(caps: FrameCaps) returns (r: Result<ResponseFrame, FrameError>)
      requires Valid()
      modifies this
      ensures Valid() && Reads(ParseResponse(old(Rest()), caps), r, Rest())
    {
      var ty :- U8();
      if ty == 0 {
        var head :- StatusAndHeaders(caps);
        var body :- CappedBytes(caps.maxBodyBytes);
        return Ok(Full(head.status, head.headers, body));
      } else if ty == 1 {
        r := StatusAndHeaders(caps);
      } else if ty == 2 {
        var data :- CappedBytes(caps.maxBodyBytes);
        return Ok(Chunk(data));
      } else {
        return if ty == 3 then Ok(End) else Err(BadResponseType(ty));
      }
    }

    /** The sections must have consumed the envelope exactly. */
    method Tile<T>(ghost parsed: Parse<T>, payload: Result<T, FrameError>) returns (r: Result<T, FrameError>)
      requires Valid() && Reads(parsed, payload, Rest())
      ensures r == Tiled(buf, parsed)
    {
      if payload.Ok? && pos != |buf| {
        return Err(EnvelopeTilingMismatch(|buf| % 0x1_0000_0000, pos));
      }
      return payload;
    }

    /** The header block: a declared count, then that many headers under a running byte cap. */
    method DecodeHeaders(caps: FrameCaps) returns (r: Result<seq<Header>, FrameError>)
      requires Valid()
      modifies this
      ensures Valid() && Reads(ParseBlock(old(Rest()), caps), r, Rest())
    {
      var count :- U16();
      if count > caps.maxHeaders {
        return Err(TooManyHeaders(count, caps.maxHeaders));
      }
      ghost var block := ParseItems(ParseHeader, Rest(), count, [], caps.maxHeaderBytes);
      var headers: seq<Header> := [];
      var headerBytes: nat := 0;
      for i := 0 to count
        invariant Valid() && |headers| == i && headerBytes == SummedBytes(headers) <= caps.maxHeaderBytes
        invariant ParseItems(ParseHeader, Rest(), count, headers, caps.maxHeaderBytes) == block
      {
        var h :- OneHeader();
        assert (headers + [h])[..i] == headers;
        var withName := headerBytes + |h.name|;
        if withName > U32_MAX || withName + |h.value| > U32_MAX {
          return Err(HeaderBytesExceeded(caps.maxHeaderBytes));
        }
        headerBytes := withName + |h.value|;
        if headerBytes > caps.maxHeaderBytes {
          return Err(HeaderBytesExceeded(caps.maxHeaderBytes));
        }
        headers := headers + [h];
      }
      return Ok(headers);
    }
  }

  method DecodeRequestEnvelope(envelope: Bytes, caps: FrameCaps) returns (r: Result<RequestFrame, FrameError>)
    ensures r == DecodeRequest(envelope, caps)
    ensures forall f :: r == Ok(f) <==> TextRequest(f, caps) && RequestEnvelope(f) == envelope
  {
    var cur := new Cursor(envelope);
    var payload := cur.RequestPayload(caps);
    r := cur.Tile(ParseRequest(envelope, caps), payload);
    forall f
      ensures r == Ok(f) <==> TextRequest(f, caps) && RequestEnvelope(f) == envelope
    {
      AcceptedRequestsAreText(envelope, caps, f);
    }
  }

  method DecodeResponseEnvelope(envelope: Bytes, caps: FrameCaps) returns (r: Result<ResponseFrame, FrameError>)
    ensures r == DecodeResponse(envelope, caps)
    ensures forall f :: r == Ok(f) <==> TextResponse(f, caps) && ResponseEnvelope(f) == envelope
  {
    var cur := new Cursor(envelope);
    var payload := cur.ResponsePayload(caps);
    r := cur.Tile(ParseResponse(envelope, caps), payload);
    forall f
      ensures r == Ok(f) <==> TextResponse(f, caps) && ResponseEnvelope(f) == envelope
    {
      AcceptedResponsesAreText(envelope, caps, f);
    }
  }

  // ----- encoding -----

  lemma {:induction false} ItemsAppend(hs: seq<Header>, tail: Bytes)
    requires HeadersFit(hs)
    ensures PutItems(hs, tail) == PutItems(hs, []) + tail
  {
    if hs != [] {
      ItemsAppend(hs[1..], tail);
    }
  }

  lemma {:induction false} ItemsSnoc(hs: seq<Header>, h: Header)
    requires HeadersFit(hs) && HeaderFits(h)
    ensures PutItems(hs + [h], []) == PutItems(hs, []) + PutHeader(h, [])
  {
    if hs == [] {
      assert hs + [h] == [h];
      assert [h][1..] == [];
    } else {
      assert (hs + [h])[1..] == hs[1..] + [h];
      ItemsSnoc(hs[1..], h);
      HeaderAppend(hs[0], PutItems(hs[1..], []), PutHeader(h, []));
    }
  }

  lemma HeaderAppend(h: Header, a: Bytes, b: Bytes)
    requires HeaderFits(h)
    ensures PutHeader(h, a + b) == PutHeader(h, a) + b
  {
    assert PutLong(h.value, a + b) == PutLong(h.value, a) + b;
  }

  lemma HeaderParts(before: Bytes, items: Bytes, h: Header)
    requires HeaderFits(h)
    ensures before + items + PutShort(h.name, []) + PutLong(h.value, []) == before + (items + PutHeader(h, []))
  {
    Regroup(before, items, PutShort(h.name, []), PutLong(h.value, []));
    assert PutShort(h.name, []) + PutLong(h.value, []) == PutHeader(h, []);
  }

  /** A growable buffer the encoders append to. */
  class FrameBuffer {
    var data: Bytes

    constructor ()
      ensures data == []
    {
      data := [];
    }

    method Short(s: Bytes) returns (ok: bool)
      modifies this
      ensures ok <==> HopFrame.Short(s)
      ensures ok ==> data == old(data) + PutShort(s, [])
    {
      ok := |s| < 0x1_0000;
      if ok {
        data := data + PutU16(|s|, []) + s;
      }
    }

    method Long(s: Bytes) returns (ok: bool)
      modifies this
      ensures ok <==> HopFrame.Long(s)
      ensures ok ==> data == old(data) + PutLong(s, [])
    {
      ok := |s| < 0x1_0000_0000;
      if ok {
        data := data + PutU32(|s|, []) + s;
      }
    }

    method TargetFields(l: RequestLine) returns (ok: bool)
      modifies this
      ensures ok <==> HopFrame.Short(l.method_) && HopFrame.Long(l.path) && HopFrame.Long(l.query)
      ensures ok ==> data == old(data) + PutTarget(l)
    {
      ok := Short(l.method_);
      if ok {
        ok := Long(l.path);
      }
      if ok {
        ok := Long(l.query);
      }
    }

    method Line(l: RequestLine) returns (ok: bool)
      modifies this
      ensures ok <==> LineFits(l)
      ensures ok ==> data == old(data) + PutLine(l, [])
    {
      ok := TargetFields(l);
      if ok {
        ok := Short(l.serverName);
      }
      if ok {
        data := data + PutU16(l.serverPort, []) + [HopFrame.SchemeByte(l.scheme)];
        ok := Short(l.remoteAddr);
      }
      if ok {
        LineParts(old(data), l);
      }
    }

    /** The headers the iterator yields, one after the other; `emitted` counts them. */
    method Items(headers: seq<Header>) returns (ok: bool, emitted: nat)
      modifies this
      ensures ok <==> HeadersFit(headers)
      ensures ok ==> emitted == |headers| && data == old(data) + PutItems(headers, [])
    {
      emitted := 0;
      while emitted < |headers|
        invariant emitted <= |headers| && HeadersFit(headers[..emitted])
        invariant data == old(data) + PutItems(headers[..emitted], [])
      {
        var h := headers[emitted];
        ok := Short(h.name);
        if ok {
          ok := Long(h.value);
        }
        if !ok {
          return;
        }
        ghost var done := headers[..emitted];
        assert headers[..emitted + 1] == done + [h];
        HeaderParts(old(data), PutItems(done, []), h);
        ItemsSnoc(done, h);
        emitted := emitted + 1;
      }
      assert headers[..emitted] == headers;
      ok := true;
    }

    /** Magic, version and a zeroed length, whatever the buffer held. */
    method Start()
      modifies this
      ensures data == [FRAME_MAGIC, FRAME_VERSION, 0, 0, 0, 0]
    {
      data := [];
      data := data + [FRAME_MAGIC, FRAME_VERSION];
      data := data + PutU32(0, []);
    }

    /** The length hole is filled in once the envelope is behind it. */
    method Finish(ghost envelope: Bytes) returns (ok: bool)
      requires data == [FRAME_MAGIC, FRAME_VERSION, 0, 0, 0, 0] + envelope
      modifies this
      ensures ok <==> HopFrame.Long(envelope)
      ensures ok ==> Framed(envelope) == Ok(data)
    {
      ok := |data| - PREFIX_LEN <= U32_MAX;
      if ok {
        assert data[..2] == [FRAME_MAGIC, FRAME_VERSION] && data[PREFIX_LEN..] == envelope;
        data := data[..2] + PutU32(|data| - PREFIX_LEN, data[PREFIX_LEN..]);
      }
    }

    /** The header block under a count the caller announced. */
    method Block(headerCount: nat, headers: seq<Header>) returns (ok: bool)
      modifies this
      ensures ok <==> headerCount == |headers| && BlockFits(headers)
      ensures ok ==> data == old(data) + PutBlock(headers, [])
    {
      ok := headerCount < 0x1_0000;
      if ok {
        data := data + PutU16(headerCount, []);
        var emitted;
        ok, emitted := Items(headers);
        ok := ok && emitted == headerCount;
      }
    }

    /**
     Encodes borrowed fields into a buffer that may hold anything.  `headers` is what the
     caller's iterator yields and `headerCount` what the caller says it will yield.
     */
    method EncodeRequestRefInto(line: RequestLine, body: Bytes, headerCount: nat, headers: seq<Header>)
        returns (r: Result<(), FrameError>)
      modifies this
      ensures r == if headerCount == |headers| && EncodeRequest(RequestFrame(line, headers, body)).Ok?
                   then Ok(()) else Err(LengthOverflow)
      ensures r.Ok? ==> Ok(data) == EncodeRequest(RequestFrame(line, headers, body))
    {
      Start();
      var ok := Line(line);
      if ok {
        ok := Block(headerCount, headers);
      }
      if ok {
        ok := Long(body);
      }
      if ok {
        EnvelopeParts([FRAME_MAGIC, FRAME_VERSION, 0, 0, 0, 0], RequestFrame(line, headers, body));
        ok := Finish(RequestEnvelope(RequestFrame(line, headers, body)));
      }
      return if ok then Ok(()) else Err(LengthOverflow);
    }

    method StatusAndHeaders(kind: byte, status: u16, headers: seq<Header>) returns (ok: bool)
      modifies this
      ensures ok <==> BlockFits(headers)
      ensures ok ==> data == old(data) + ([kind] + PutHead(status, headers, []))
    {
      data := data + [kind];
      data := data + PutU16(status, []);
      ok := Block(|headers|, headers);
      if ok {
        Regroup(old(data), [kind], PutU16(status, []), PutBlock(headers, []));
      }
    }

    method EncodeResponseInto(resp: ResponseFrame) returns (r: Result<(), FrameError>)
      modifies this
      ensures r == if EncodeResponse(resp).Ok? then Ok(()) else Err(LengthOverflow)
      ensures r.Ok? ==> Ok(data) == EncodeResponse(resp)
    {
      Start();
      ghost var started := data;
      var ok := true;
      match resp {
        case Full(status, headers, body) =>
          ok := StatusAndHeaders(0, status, headers);
          if ok {
            ok := Long(body);
          }
          if ok {
            HeadAppend(0, status, headers, PutLong(body, []));
            Regroup(started, [], [0] + PutHead(status, headers, []), PutLong(body, []));
          }
        case Head(status, headers) =>
          ok := StatusAndHeaders(1, status, headers);
        case Chunk(bytes) =>
          data := data + [2];
          ok := Long(bytes);
          if ok {
            Regroup(started, [], [2], PutLong(bytes, []));
          }
        case End =>
          data := data + [3];
      }
      if ok {
        ok := Finish(ResponseEnvelope(resp));
      }
      return if ok then Ok(()) else Err(LengthOverflow);
    }
  }

  function PutTarget(l: RequestLine): Bytes
    requires Short(l.method_) && Long(l.path) && Long(l.query)
  {
    PutShort(l.method_, []) + PutLong(l.path, []) + PutLong(l.query, [])
  }

  lemma LineParts(before: Bytes, l: RequestLine)
    requires LineFits(l)
    ensures before + PutLine(l, []) ==
            before + PutTarget(l) + PutShort(l.serverName, [])
            + PutU16(l.serverPort, []) + [SchemeByte(l.scheme)] + PutShort(l.remoteAddr, [])
  {
  }

  lemma LineAppend(l: RequestLine, tail: Bytes)
    requires LineFits(l)
    ensures PutLine(l, tail) == PutLine(l, []) + tail
  {
    var peer := [SchemeByte(l.scheme)] + PutShort(l.remoteAddr, []);
    assert [SchemeByte(l.scheme)] + PutShort(l.remoteAddr, tail) == peer + tail;
    var server := PutShort(l.serverName, PutU16(l.serverPort, peer));
    assert PutShort(l.serverName, PutU16(l.serverPort, peer + tail)) == server + tail;
    assert PutLong(l.query, server + tail) == PutLong(l.query, server) + tail;
    assert PutLong(l.path, PutLong(l.query, server) + tail) == PutLong(l.path, PutLong(l.query, server)) + tail;
  }

  lemma EnvelopeParts(before: Bytes, r: RequestFrame)
    requires RequestFits(r)
    ensures before + PutLine(r.line, []) + PutBlock(r.headers, []) + PutLong(r.body, []) == before + RequestEnvelope(r)
  {
    LineAppend(r.line, PutBlock(r.headers, PutLong(r.body, [])));
    BlockAppend(r.headers, PutLong(r.body, []));
    Regroup(before, PutLine(r.line, []), PutBlock(r.headers, []), PutLong(r.body, []));
  }

  lemma BlockAppend(hs: seq<Header>, tail: Bytes)
    requires BlockFits(hs)
    ensures PutBlock(hs, tail) == PutBlock(hs, []) + tail
  {
    ItemsAppend(hs, tail);
  }

  lemma Regroup(a: Bytes, b: Bytes, c: Bytes, d: Bytes)
    ensures a + b + c + d == a + (b + (c + d))
    ensures b == [] ==> a + b == a && b + (c + d) == c + d
  {
  }

  lemma HeadAppend(kind: byte, status: u16, headers: seq<Header>, tail: Bytes)
    requires BlockFits(headers)
    ensures [kind] + PutHead(status, headers, tail) == ([kind] + PutHead(status, headers, [])) + tail
  {
    ItemsAppend(headers, tail);
  }
}
