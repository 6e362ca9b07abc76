/**
 The strings of the worker-hop frames as text.

 The decoders test bytes; a string of the program is a sequence of Unicode scalar values.  The encoding of a scalar
 value is given here on its own, in the bit distribution of table 3-6 of section 3.9 of the Unicode standard, and the
 byte tests are shown to accept exactly the encodings of scalar values, with control characters where the test says.
 */
module FrameText {
  import opened Common
  import opened HopFrame
  import opened HopFrameTheorems

  /** A Unicode scalar value: a code point that is no surrogate. */
  type scalar = x: int | 0 <= x < 0xD800 || 0xE000 <= x < 0x11_0000

  type Text = seq<scalar>

  function Trailing(c: nat, shifted: nat): (b: byte)
    requires shifted > 0
    ensures 0x80 <= b <= 0xBF
  {
    0x80 + c / shifted % 64
  }

  function EncodeScalar(c: scalar): Bytes {
    if c < 0x80 then [c]
    else if c < 0x800 then [0xC0 + c / 64, Trailing(c, 1)]
    else if c < 0x1_0000 then [0xE0 + c / 4096, Trailing(c, 64), Trailing(c, 1)]
    else [0xF0 + c / 262144, Trailing(c, 4096), Trailing(c, 64), Trailing(c, 1)]
  }

  function EncodeText(t: Text): Bytes {
    if t == [] then [] else EncodeScalar(t[0]) + EncodeText(t[1..])
  }

  ghost predicate IsText(s: Bytes) {
    exists t: Text :: s == EncodeText(t)
  }

  predicate IsControl(c: scalar) {
    c < 0x20 || c == 0x7F
  }

  predicate Plain(t: Text) {
    forall i :: 0 <= i < |t| ==> !IsControl(t[i])
  }

  /** Text in which no character is one of C0 or DEL. */
  ghost predicate IsPlainText(s: Bytes) {
    exists t: Text :: s == EncodeText(t) && Plain(t)
  }

  // ----- the byte test accepts exactly the encodings -----

  /** The test looks only at the bytes from its position on. */
  lemma {:induction false} Utf8Shift(pre: Bytes, s: Bytes, i: nat)
    ensures Utf8From(pre + s, |pre| + i) <==> Utf8From(s, i)
    decreases |s| - i
  {
    if i < |s| {
      assert forall j :: 0 <= j < |s| ==> (pre + s)[|pre| + j] == s[j];
      assert Continues(pre + s, |pre| + i + 1) <==> Continues(s, i + 1);
      assert Continues(pre + s, |pre| + i + 2) <==> Continues(s, i + 2);
      assert Continues(pre + s, |pre| + i + 3) <==> Continues(s, i + 3);
      Utf8Shift(pre, s, i + 1);
      Utf8Shift(pre, s, i + 2);
      Utf8Shift(pre, s, i + 3);
      Utf8Shift(pre, s, i + 4);
    }
  }

  predicate Trails(b: byte) {
    0x80 <= b <= 0xBF
  }

  /** The byte sequences one scalar value can have, by their length. */
  predicate OneSequence(e: Bytes) {
    || (|e| == 1 && e[0] < 0x80)
    || (|e| == 2 && 0xC2 <= e[0] <= 0xDF && Trails(e[1]))
    || (|e| == 3 && 0xE0 <= e[0] <= 0xEF && Trails(e[1]) && Trails(e[2])
        && (e[0] == 0xE0 ==> e[1] >= 0xA0) && (e[0] == 0xED ==> e[1] < 0xA0))
    || (|e| == 4 && 0xF0 <= e[0] <= 0xF4 && Trails(e[1]) && Trails(e[2]) && Trails(e[3])
        && (e[0] == 0xF0 ==> e[1] >= 0x90) && (e[0] == 0xF4 ==> e[1] < 0x90))
  }

  lemma ScalarSequence(c: scalar)
    ensures OneSequence(EncodeScalar(c))
  {
  }

  lemma SequenceAccepted(e: Bytes, rest: Bytes)
    requires OneSequence(e)
    ensures ValidUtf8(e + rest) <==> ValidUtf8(rest)
  {
    Utf8Shift(e, rest, 0);
    assert forall i :: 0 <= i < |e| ==> (e + rest)[i] == e[i];
    assert (e + rest)[0] == e[0];
  }

  /** The scalar value of a two-byte, three-byte or four-byte sequence, from its bit fields. */
  lemma TwoBytes(b0: byte, b1: byte) returns (c: scalar)
    requires 0xC2 <= b0 <= 0xDF && Trails(b1)
    ensures EncodeScalar(c) == [b0, b1]
  {
    var x: int, y: int := b0 - 0xC0, b1 - 0x80;
    c := x * 64 + y;
  }

  lemma ThreeBytes(b0: byte, b1: byte, b2: byte) returns (c: scalar)
    requires 0xE0 <= b0 <= 0xEF && Trails(b1) && Trails(b2)
    requires (b0 == 0xE0 ==> b1 >= 0xA0) && (b0 == 0xED ==> b1 < 0xA0)
    ensures EncodeScalar(c) == [b0, b1, b2]
  {
    var x: int, y: int, z: int := b0 - 0xE0, b1 - 0x80, b2 - 0x80;
    c := x * 4096 + y * 64 + z;
    assert c / 64 == x * 64 + y && c / 4096 == x;
  }

  lemma FourBytes(b0: byte, b1: byte, b2: byte, b3: byte) returns (c: scalar)
    requires 0xF0 <= b0 <= 0xF4 && Trails(b1) && Trails(b2) && Trails(b3)
    requires (b0 == 0xF0 ==> b1 >= 0x90) && (b0 == 0xF4 ==> b1 < 0x90)
    ensures EncodeScalar(c) == [b0, b1, b2, b3]
  {
    var w: int, x: int, y: int, z: int := b0 - 0xF0, b1 - 0x80, b2 - 0x80, b3 - 0x80;
    c := w * 262144 + x * 4096 + y * 64 + z;
    assert c / 64 == w * 4096 + x * 64 + y && c / 4096 == w * 64 + x && c / 262144 == w;
  }

  /** The scalar value at the front of an accepted string. */
  lemma FirstScalar(s: Bytes) returns (c: scalar, n: nat)
    requires s != [] && ValidUtf8(s)
    ensures 1 <= n <= |s| && EncodeScalar(c) == s[..n] && Utf8From(s, n)
  {
    if s[0] < 0x80 {
      c, n := s[0], 1;
    } else if s[0] < 0xE0 {
      c := TwoBytes(s[0], s[1]);
      n := 2;
    } else if s[0] < 0xF0 {
      c := ThreeBytes(s[0], s[1], s[2]);
      n := 3;
    } else {
      c := FourBytes(s[0], s[1], s[2], s[3]);
      n := 4;
    }
  }

  lemma {:induction false} EncodingsAreAccepted(t: Text)
    ensures ValidUtf8(EncodeText(t))
  {
    if t != [] {
      EncodingsAreAccepted(t[1..]);
      ScalarSequence(t[0]);
      SequenceAccepted(EncodeScalar(t[0]), EncodeText(t[1..]));
    }
  }

  lemma {:induction false} AcceptedIsEncoding(s: Bytes) returns (t: Text)
    requires ValidUtf8(s)
    ensures s == EncodeText(t)
    decreases |s|
  {
    if s == [] {
      t := [];
    } else {
      var c, n := FirstScalar(s);
      Utf8Shift(s[..n], s[n..], 0);
      assert s[..n] + s[n..] == s;
      var more := AcceptedIsEncoding(s[n..]);
      t := [c] + more;
      assert t[1..] == more;
    }
  }

  /** A string passes the byte test if and only if it is the encoding of some sequence of scalar values. */
  lemma Utf8Exactly(s: Bytes)
    ensures ValidUtf8(s) <==> IsText(s)
  {
    if ValidUtf8(s) {
      var t := AcceptedIsEncoding(s);
    }
    if t: Text :| s == EncodeText(t) {
      EncodingsAreAccepted(t);
    }
  }

  // ----- control bytes are control characters -----

  lemma ControlConcat(a: Bytes, b: Bytes)
    ensures HasControlByte(a + b) <==> HasControlByte(a) || HasControlByte(b)
  {
    if HasControlByte(a) {
      var i :| 0 <= i < |a| && (a[i] < 0x20 || a[i] == 0x7F);
      assert (a + b)[i] == a[i];
    }
    if HasControlByte(b) {
      var i :| 0 <= i < |b| && (b[i] < 0x20 || b[i] == 0x7F);
      assert (a + b)[|a| + i] == b[i];
    }
  }

  lemma ScalarControl(c: scalar)
    ensures HasControlByte(EncodeScalar(c)) <==> IsControl(c)
  {
    assert EncodeScalar(c)[0] >= 0;
  }

  /** The bytes of a text hold a control byte if and only if the text holds a control character. */
  lemma {:induction false} ControlExactly(t: Text)
    ensures HasControlByte(EncodeText(t)) <==> !Plain(t)
  {
    if t != [] {
      ControlExactly(t[1..]);
      ScalarControl(t[0]);
      ControlConcat(EncodeScalar(t[0]), EncodeText(t[1..]));
      assert Plain(t) <==> !IsControl(t[0]) && Plain(t[1..]) by {
        assert t == [t[0]] + t[1..];
      }
    }
  }

  lemma PlainExactly(s: Bytes)
    ensures ValidUtf8(s) && !HasControlByte(s) <==> IsPlainText(s)
  {
    Utf8Exactly(s);
    if t: Text :| s == EncodeText(t) {
      ControlExactly(t);
    }
    forall t: Text | s == EncodeText(t)
      ensures HasControlByte(s) <==> !Plain(t)
    {
      ControlExactly(t);
    }
  }

  // ----- what the decoders accept, said of text -----

  /** A short string is read exactly where the encoding of a text of that length lies. */
  lemma ShortIsText(b: Bytes, v: Bytes, rest: Bytes)
    ensures ParseShort(b) == Ok(Parsed(v, rest)) <==> Short(v) && IsText(v) && b == PutShort(v, rest)
  {
    ShortExact(b, v, rest);
    Utf8Exactly(v);
  }

  lemma LongIsText(b: Bytes, v: Bytes, rest: Bytes)
    ensures ParseLong(b) == Ok(Parsed(v, rest)) <==> Long(v) && IsText(v) && b == PutLong(v, rest)
  {
    LongExact(b, v, rest);
    Utf8Exactly(v);
  }

  /** Bytes that are no text are refused as such, whatever follows. */
  lemma NotTextIsRefused(v: Bytes, rest: Bytes)
    ensures Short(v) ==> (ParseShort(PutShort(v, rest)) == Err(NotUtf8) <==> !IsText(v))
    ensures Long(v) ==> (ParseLong(PutLong(v, rest)) == Err(NotUtf8) <==> !IsText(v))
  {
    Utf8Exactly(v);
    TakeExact(v + rest, |v|, v, rest);
    if Short(v) {
      U16Exact(PutShort(v, rest), |v|, v + rest);
    }
    if Long(v) {
      U32Exact(PutLong(v, rest), |v|, v + rest);
    }
  }

  /** A header of texts is read back, or refused for a control character exactly when it holds one. */
  lemma ControlCharacterIsRefused(name: Text, value: Text, rest: Bytes)
    requires HeaderFits(Header(EncodeText(name), EncodeText(value)))
    ensures var h := Header(EncodeText(name), EncodeText(value));
            ParseHeader(PutHeader(h, rest)) ==
            if Plain(name) && Plain(value) then Ok(Parsed(h, rest)) else Err(ControlByteInHeader)
  {
    var n, v := EncodeText(name), EncodeText(value);
    ShortIsText(PutHeader(Header(n, v), rest), n, PutLong(v, rest));
    LongIsText(PutLong(v, rest), v, rest);
    ControlExactly(name);
    ControlExactly(value);
  }

  ghost predicate TextLine(l: RequestLine) {
    && LineFits(l)
    && IsText(l.method_) && IsText(l.path) && IsText(l.query) && IsText(l.serverName) && IsText(l.remoteAddr)
  }

  ghost predicate TextHeader(h: Header) {
    HeaderFits(h) && IsPlainText(h.name) && IsPlainText(h.value)
  }

  ghost predicate TextHeaders(hs: seq<Header>, caps: FrameCaps) {
    && |hs| <= caps.maxHeaders && SummedBytes(hs) <= caps.maxHeaderBytes
    && (forall i :: 0 <= i < |hs| ==> TextHeader(hs[i]))
  }

  /** A request of texts within the caps, without control characters in its headers. */
  ghost predicate TextRequest(r: RequestFrame, caps: FrameCaps) {
    TextLine(r.line) && TextHeaders(r.headers, caps) && |r.body| <= caps.maxBodyBytes
  }

  ghost predicate TextResponse(r: ResponseFrame, caps: FrameCaps) {
    && (r.Full? || r.Head? ==> 100 <= r.status < 600 && TextHeaders(r.headers, caps))
    && (r.Full? ==> |r.body| <= caps.maxBodyBytes)
    && (r.Chunk? ==> |r.data| <= caps.maxBodyBytes)
  }

  lemma LegalHeadersAreText(hs: seq<Header>, caps: FrameCaps)
    ensures LegalBlock(hs, caps) <==> TextHeaders(hs, caps)
  {
    forall i | 0 <= i < |hs|
      ensures LegalHeader(hs[i]) <==> TextHeader(hs[i])
    {
      PlainExactly(hs[i].name);
      PlainExactly(hs[i].value);
    }
  }

  lemma LegalRequestIsText(r: RequestFrame, caps: FrameCaps)
    ensures LegalRequest(r, caps) <==> TextRequest(r, caps)
  {
    Utf8Exactly(r.line.method_);
    Utf8Exactly(r.line.path);
    Utf8Exactly(r.line.query);
    Utf8Exactly(r.line.serverName);
    Utf8Exactly(r.line.remoteAddr);
    LegalHeadersAreText(r.headers, caps);
  }

  lemma LegalResponseIsText(r: ResponseFrame, caps: FrameCaps)
    ensures LegalResponse(r, caps) <==> TextResponse(r, caps)
  {
    if r.Full? || r.Head? {
      LegalHeadersAreText(r.headers, caps);
    }
  }

  /** The request decoder accepts exactly the encodings of requests of texts within the caps. */
  lemma AcceptedRequestsAreText(envelope: Bytes, caps: FrameCaps, r: RequestFrame)
    ensures DecodeRequest(envelope, caps) == Ok(r) <==> TextRequest(r, caps) && RequestEnvelope(r) == envelope
  {
    DecodedRequestReencodes(envelope, caps, r);
    LegalRequestIsText(r, caps);
  }

  lemma AcceptedResponsesAreText(envelope: Bytes, caps: FrameCaps, r: ResponseFrame)
    ensures DecodeResponse(envelope, caps) == Ok(r) <==> TextResponse(r, caps) && ResponseEnvelope(r) == envelope
  {
    DecodedResponseReencodes(envelope, caps, r);
    LegalResponseIsText(r, caps);
  }
}
