/**
 Only what an encoder writes is accepted: the frames a decoder takes and the well-formed messages are in one-to-one
 correspondence, so nothing trails, no field is out of range and no check of the header is left out.
 */
module CanonicalFrames {
  import opened Bytes
  import opened Framing
  import opened Messages
  import Crc32

  // ---------- Fields ----------

  lemma FieldWritten(p: seq<byte>, offset: nat, n: nat)
    requires offset + n <= |p|
    ensures LittleEndian(n, Field(p, offset, n)) == p[offset..offset + n] && Field(p, offset, n) < Pow256(n)
  {
    LittleEndianOfValue(p[offset..offset + n]);
  }

  lemma TextWritten(p: seq<byte>, offset: nat)
    requires UnpackText(p, offset).Ok?
    ensures var (text, end) := UnpackText(p, offset).value;
      offset <= end <= |p| && PackText(text) == Ok(p[offset..end])
  {
    FieldLimits();
    FieldWritten(p, offset, 4);
    var (text, end) := UnpackText(p, offset).value;
    assert p[offset..end] == p[offset..offset + 4] + text;
  }

  // ---------- Payloads ----------

  lemma Cut2(p: seq<byte>, a: nat, b: nat)
    requires a <= b <= |p|
    ensures p == p[0..a] + p[a..b] + p[b..|p|]
  {
  }

  lemma HelloWritten(p: seq<byte>)
    requires DecodeHello(p).Ok?
    ensures EncodePayload(DecodeHello(p).value) == Ok(p)
  {
    FieldLimits();
    FieldWritten(p, 0, 2);
    FieldWritten(p, 2, 4);
    FieldWritten(p, 6, 4);
    FieldWritten(p, 10, 2);
    FieldWritten(p, 12, 2);
    TextWritten(p, 14);
    HelloCut(p);
  }

  lemma HelloCut(p: seq<byte>)
    requires |p| >= 14
    ensures p == p[0..2] + p[2..6] + p[6..10] + p[10..12] + p[12..14] + p[14..|p|]
  {
    assert p[0..2] + p[2..6] == p[0..6];
    assert p[0..6] + p[6..10] == p[0..10];
    assert p[0..10] + p[10..12] == p[0..12];
    assert p[0..12] + p[12..14] == p[0..14];
    assert p[0..14] + p[14..|p|] == p;
  }

  lemma ReadyParts(p: seq<byte>) returns (end: nat, engine: Text, lang: Text)
    requires DecodeReady(p).Ok?
    ensures 6 <= end < |p| && UnpackText(p, 6) == Ok((engine, end)) && UnpackText(p, end) == Ok((lang, |p| - 1))
    ensures DecodeReady(p) == Ok(Ready(Field(p, 0, 2), Field(p, 2, 4), engine, lang, p[|p| - 1]))
  {
    engine, end := UnpackText(p, 6).value.0, UnpackText(p, 6).value.1;
    lang := UnpackText(p, end).value.0;
  }

  lemma ReadyWritten(p: seq<byte>)
    requires DecodeReady(p).Ok?
    ensures EncodePayload(DecodeReady(p).value) == Ok(p)
  {
    var end, engine, lang := ReadyParts(p);
    FieldLimits();
    FieldWritten(p, 0, 2);
    FieldWritten(p, 2, 4);
    TextWritten(p, 6);
    TextWritten(p, end);
    ReadyLaidOut(Field(p, 0, 2), Field(p, 2, 4), engine, lang, p[|p| - 1]);
    ReadyCut(p, end);
  }

  lemma ReadyCut(p: seq<byte>, end: nat)
    requires 6 <= end < |p|
    ensures p == p[0..2] + p[2..6] + p[6..end] + p[end..|p| - 1] + [p[|p| - 1]]
  {
    assert p[0..2] + p[2..6] == p[0..6];
    assert p[0..6] + p[6..end] == p[0..end];
    assert p[0..end] + p[end..|p| - 1] == p[0..|p| - 1];
    assert p[0..|p| - 1] + [p[|p| - 1]] == p;
  }

  lemma AudioWritten(p: seq<byte>)
    requires DecodeAudio(p).Ok?
    ensures EncodePayload(DecodeAudio(p).value) == Ok(p)
  {
    FieldLimits();
    FieldWritten(p, 0, 8);
    FieldWritten(p, 8, 4);
    AudioRoundTrip(Field(p, 0, 8), Field(p, 8, 4), p[12..]);
    Cut2(p, 8, 12);
    assert p[12..|p|] == p[12..];
  }

  lemma CaptionWritten(p: seq<byte>, final: bool)
    requires DecodeCaption(p, final).Ok?
    ensures EncodePayload(DecodeCaption(p, final).value) == Ok(p)
  {
    FieldLimits();
    FieldWritten(p, 0, 4);
    FieldWritten(p, 4, 8);
    FieldWritten(p, 12, 8);
    TextWritten(p, 20);
    assert p[0..4] + p[4..12] == p[0..12];
    Cut2(p, 12, 20);
  }

  lemma ControlWritten(p: seq<byte>)
    requires DecodeControl(p).Ok?
    ensures EncodePayload(DecodeControl(p).value) == Ok(p)
  {
    FieldLimits();
    FieldWritten(p, 0, 2);
    FieldWritten(p, 2, 8);
    TextWritten(p, 10);
    Cut2(p, 2, 10);
  }

  lemma StatusWritten(p: seq<byte>)
    requires DecodeStatus(p).Ok?
    ensures EncodePayload(DecodeStatus(p).value) == Ok(p)
  {
    FieldLimits();
    FieldWritten(p, 0, 2);
    FieldWritten(p, 2, 8);
    TextWritten(p, 10);
    Cut2(p, 2, 10);
  }

  lemma FlushDoneWritten(p: seq<byte>)
    requires DecodeFlushDone(p).Ok?
    ensures EncodePayload(DecodeFlushDone(p).value) == Ok(p)
  {
    FieldLimits();
    FieldWritten(p, 0, 8);
    assert p[0..8] == p;
  }

  /** A payload that decodes is the one the encoder writes for what it decodes to. */
  lemma PayloadWritten(t: MsgType, p: seq<byte>)
    requires DecodePayload(t, p).Ok?
    ensures EncodePayload(DecodePayload(t, p).value) == Ok(p)
  {
    match t
    case HELLO => HelloWritten(p);
    case READY => ReadyWritten(p);
    case AUDIO => AudioWritten(p);
    case CAPTION_PARTIAL => CaptionWritten(p, false);
    case CAPTION_FINAL => CaptionWritten(p, true);
    case CONTROL => ControlWritten(p);
    case STATUS => StatusWritten(p);
    case HEARTBEAT =>
    case FLUSH_DONE => FlushDoneWritten(p);
  }

  /** A payload decodes to a message if and only if the message is well formed and this is its encoding. */
  lemma PayloadIff(t: MsgType, p: seq<byte>, m: Message)
    requires |p| <= MAX_PAYLOAD_SIZE
    ensures DecodePayload(t, p) == Ok(m) <==> WellFormed(m) && m.Type() == t && EncodePayload(m) == Ok(p)
  {
    if DecodePayload(t, p) == Ok(m) {
      PayloadWritten(t, p);
      EncodedIsBounded(m);
      if t.READY? {
        DecodedReadyByte(p);
      }
    }
    if WellFormed(m) && m.Type() == t && EncodePayload(m) == Ok(p) {
      PayloadRoundTrip(m);
    }
  }

  // ---------- Frames ----------

  lemma ChecksumWritten(s: seq<byte>, crc: Crc32.Word)
    requires |s| == 4 && Crc32.FieldWord(s) == crc
    ensures Crc32.FieldBytes(crc) == s
  {
    Crc32.FieldRoundTrip(crc);
    Crc32.FieldWordInjective(Crc32.FieldBytes(crc), s);
  }

  lemma HeaderOf(t: MsgType, length: nat, version: nat, code: nat)
    requires version == CURRENT_VERSION && code == t.Code()
    ensures HeaderWithoutCrc(t, length)
         == MAGIC + LittleEndian(2, version) + LittleEndian(2, code) + LittleEndian(4, length)
  {
  }

  lemma FieldsWritten(h: seq<byte>)
    requires |h| == HEADER_SIZE
    ensures h[..12]
         == h[0..4] + LittleEndian(2, Field(h, 4, 2)) + LittleEndian(2, Field(h, 6, 2))
            + LittleEndian(4, Field(h, 8, 4))
  {
    FieldWritten(h, 4, 2);
    FieldWritten(h, 6, 2);
    FieldWritten(h, 8, 4);
    assert h[..12] == h[0..4] + h[4..6] + h[6..8] + h[8..12];
  }

  lemma SignedBy(h: seq<byte>, crc: Crc32.Word)
    requires |h| == HEADER_SIZE && Crc32.FieldWord(h[12..16]) == crc
    ensures h == h[..12] + Crc32.FieldBytes(crc)
  {
    ChecksumWritten(h[12..16], crc);
    assert h == h[..12] + h[12..16];
  }

  /** A header whose checks succeed is the one _pack_frame writes. */
  lemma HeaderWritten(h: seq<byte>, t: MsgType)
    requires |h| == HEADER_SIZE && h[0..4] == MAGIC && Field(h, 4, 2) == CURRENT_VERSION && Field(h, 6, 2) == t.Code()
    requires HeaderCrcMatches(h)
    ensures var header := HeaderWithoutCrc(t, Field(h, 8, 4)); h == header + Crc32.FieldBytes(Crc32.Reference(header))
  {
    FieldsWritten(h);
    HeaderOf(t, Field(h, 8, 4), Field(h, 4, 2), Field(h, 6, 2));
    SignedBy(h, Crc32.Reference(h[..12]));
  }

  lemma TakenHeader(h: Header, available: nat)
    requires PythonCheck(h, available).Take?
    ensures var c := PythonCheck(h, available);
      && h == Header(true, CURRENT_VERSION, c.t.Code(), c.size - HEADER_SIZE, true)
      && c.size - HEADER_SIZE <= MAX_PAYLOAD_SIZE
  {
  }

  lemma PackedAs(t: MsgType, payload: seq<byte>, h: seq<byte>)
    requires |payload| <= MAX_PAYLOAD_SIZE
    requires var header := HeaderWithoutCrc(t, |payload|); h == header + Crc32.FieldBytes(Crc32.Reference(header))
    ensures PackFrame(t, payload) == Ok(h + payload)
  {
  }

  lemma TwoSlices(data: seq<byte>, a: nat, b: nat)
    requires a <= b <= |data|
    ensures data[..b] == data[0..a] + data[a..b]
  {
  }

  lemma TakeDrop(data: seq<byte>, n: nat)
    requires n <= |data|
    ensures data[..n] + data[n..] == data
  {
  }

  lemma AcceptedTaken(data: seq<byte>)
    requires FrameAt(data, 0).Accept?
    ensures |data| >= HEADER_SIZE
    ensures var v, header := FrameAt(data, 0), ReadHeader(data, 0);
      && header == Header(true, CURRENT_VERSION, v.t.Code(), v.consumed - HEADER_SIZE, true)
      && HEADER_SIZE <= v.consumed <= |data| && v.consumed - HEADER_SIZE <= MAX_PAYLOAD_SIZE
      && v.payload == data[HEADER_SIZE..v.consumed]
  {
    FrontVerdict(data);
    TakenHeader(ReadHeader(data, 0), |data|);
  }

  /** What the frame layer accepts is a frame packed from its payload. */
  lemma FrameWritten(data: seq<byte>)
    requires FrameAt(data, 0).Accept?
    ensures var v := FrameAt(data, 0);
      v.consumed <= |data| && |v.payload| <= MAX_PAYLOAD_SIZE && PackFrame(v.t, v.payload) == Ok(data[..v.consumed])
  {
    AcceptedTaken(data);
    var v := FrameAt(data, 0);
    var h := data[0..HEADER_SIZE];
    TwoSlices(data, HEADER_SIZE, v.consumed);
    HeaderWritten(h, v.t);
    PackedAs(v.t, v.payload, h);
  }

  lemma FrameDecoded(data: seq<byte>, n: nat, m: Message)
    requires DecodeFrame(data, 0) == Ok((n, m))
    ensures n <= |data| && WellFormed(m) && Encode(m) == Ok(data[..n])
  {
    var v := FrameAt(data, 0);
    FrameWritten(data);
    PayloadIff(v.t, v.payload, m);
  }

  lemma FrameEncoded(data: seq<byte>, n: nat, m: Message)
    requires n <= |data| && WellFormed(m) && Encode(m) == Ok(data[..n])
    ensures DecodeFrame(data, 0) == Ok((n, m))
  {
    TakeDrop(data, n);
    EncodeDecode(m, data[n..]);
  }

  /**
   decode_frame takes a message off the front if and only if the message is well formed and the bytes used up are its
   encoding, whatever follows.
   */
  lemma FrameIff(data: seq<byte>, n: nat, m: Message)
    ensures DecodeFrame(data, 0) == Ok((n, m)) <==> n <= |data| && WellFormed(m) && Encode(m) == Ok(data[..n])
  {
    if DecodeFrame(data, 0) == Ok((n, m)) {
      FrameDecoded(data, n, m);
    } else if n <= |data| && WellFormed(m) && Encode(m) == Ok(data[..n]) {
      FrameEncoded(data, n, m);
    }
  }

  // ---------- Why a frame is rejected ----------

  /** The reason is true of the header. */
  predicate IsTrue(why: Rejection, h: seq<byte>)
    requires |h| == HEADER_SIZE
  {
    match why
    case BadMagic => h[0..4] != [0x4F, 0x42, 0x53, 0x43]
    case BadCrc => !HeaderCrcMatches(h)
    case VersionMismatch => Field(h, 4, 2) != 1
    case UnknownMessageType => !(1 <= Field(h, 6, 2) <= 9)
    case PayloadTooLarge => Field(h, 8, 4) > 16 * 1024 * 1024
  }

  /** Either side rejects a frame, as soon as its header is there, if and only if some reason holds, and names one. */
  lemma RejectedIff(data: seq<byte>)
    requires |data| >= HEADER_SIZE
    ensures var h, cpp, py := data[..HEADER_SIZE], TryDecodeFrame(data), FrameAt(data, 0);
      && (cpp.Reject? ==> IsTrue(cpp.why, h)) && (py.Reject? ==> IsTrue(py.why, h))
      && (!cpp.Reject? || !py.Reject? ==> forall why: Rejection :: !IsTrue(why, h))
  {
    FrontVerdict(data);
    assert data[0..HEADER_SIZE] == data[..HEADER_SIZE];
    ReasonsOf(ReadHeader(data, 0), |data|);
  }

  lemma ReasonsOf(h: Header, available: nat)
    ensures CppCheck(h, available).Bad? <==> PythonCheck(h, available).Bad?
    ensures !PythonCheck(h, available).Bad? ==>
      h.magicOk && h.crcOk && h.version == 1 && 1 <= h.typeCode <= 9 && h.payloadLen <= 16 * 1024 * 1024
  {
  }
}
