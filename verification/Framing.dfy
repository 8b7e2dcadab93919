/**
 The frame layer of the IPC protocol: a 16-byte header (magic, version, type, length,
 CRC-32 of the twelve bytes before it) followed by the payload. Both implementations
 are modelled, the C++ one of native-plugin/src/framing.cpp and the Python one of
 src/obs_captions/ipc/framing, each with its own order of checks.
 */
module Framing {
  import opened Bytes
  import opened Options
  import Crc32

  const MAGIC: seq<byte> := [0x4F, 0x42, 0x53, 0x43]
  const CURRENT_VERSION := 1
  const HEADER_SIZE := 16
  const MAX_PAYLOAD_SIZE := 16 * 1024 * 1024

  datatype MsgType =
    HELLO | READY | AUDIO | CAPTION_PARTIAL | CAPTION_FINAL | CONTROL | STATUS | HEARTBEAT | FLUSH_DONE
  {
    function Code(): (c: int)
      ensures 1 <= c <= 9
    {
      match this
      case HELLO => 0x01
      case READY => 0x02
      case AUDIO => 0x03
      case CAPTION_PARTIAL => 0x04
      case CAPTION_FINAL => 0x05
      case CONTROL => 0x06
      case STATUS => 0x07
      case HEARTBEAT => 0x08
      case FLUSH_DONE => 0x09
    }
  }

  /** is_known_message_type, and Python's MsgType(raw). */
  function TypeOf(code: int): (t: Option<MsgType>)
    ensures t.Some? ==> t.value.Code() == code
    ensures t.None? ==> !(1 <= code <= 9)
  {
    if code == 1 then Some(HELLO)
    else if code == 2 then Some(READY)
    else if code == 3 then Some(AUDIO)
    else if code == 4 then Some(CAPTION_PARTIAL)
    else if code == 5 then Some(CAPTION_FINAL)
    else if code == 6 then Some(CONTROL)
    else if code == 7 then Some(STATUS)
    else if code == 8 then Some(HEARTBEAT)
    else if code == 9 then Some(FLUSH_DONE)
    else None
  }

  /** The exceptions of the Python side. NeedMoreData is kept apart from its base class. */
  datatype Error = NeedMoreData | FrameError | StructError

  datatype Result<+T> = Ok(value: T) | Err(error: Error) {
    predicate IsFailure() {
      Err?
    }
    function PropagateFailure<U>(): Result<U>
      requires Err?
    {
      Err(error)
    }
    function Extract(): T
      requires Ok?
    {
      value
    }
  }

  /** struct.unpack_from of one little-endian field. */
  function Field(s: seq<byte>, offset: nat, width: nat): nat
    requires offset + width <= |s|
  {
    Value(s[offset..offset + width])
  }

  /** The header checksum is right. */
  predicate HeaderCrcMatches(header: seq<byte>)
    requires |header| >= HEADER_SIZE
  {
    Crc32.FieldWord(header[12..16]) == Crc32.Reference(header[..12])
  }

  // ---------- Encoding ----------

  function HeaderWithoutCrc(t: MsgType, length: nat): (h: seq<byte>)
    ensures |h| == 12
  {
    MAGIC + LittleEndian(2, CURRENT_VERSION) + LittleEndian(2, t.Code()) + LittleEndian(4, length)
  }

  /** Python's _pack_frame. */
  function PackFrame(t: MsgType, payload: seq<byte>): Result<seq<byte>> {
    if |payload| > MAX_PAYLOAD_SIZE then
      Err(FrameError)
    else
      var header := HeaderWithoutCrc(t, |payload|);
      Ok(header + Crc32.FieldBytes(Crc32.Reference(header)) + payload)
  }

  /** C++'s encode_frame: lays the frame out in one buffer, the checksum field zero until it is known. */
  method EncodeFrame(table: array<Crc32.Word>, t: MsgType, payload: seq<byte>) returns (r: Result<seq<byte>>)
    requires Crc32.IsTable(table[..])
    ensures r == PackFrame(t, payload)
  {
    if |payload| > MAX_PAYLOAD_SIZE {
      return Err(FrameError);
    }
    var output := new byte[HEADER_SIZE + |payload|];
    WriteHeader(output, t, |payload|);
    ghost var unsigned := output[..];
    var crc := Crc32.Compute(table, output[..HEADER_SIZE - 4]);
    CopyInto(output, 12, Crc32.FieldBytes(crc));
    CopyInto(output, HEADER_SIZE, payload);
    FrameLaidOut(unsigned, Crc32.FieldBytes(crc), payload);
    r := Ok(output[..]);
  }

  /** The header with its checksum field still zero. */
  method WriteHeader(output: array<byte>, t: MsgType, length: nat)
    requires output.Length >= HEADER_SIZE
    modifies output
    ensures output[..12] == HeaderWithoutCrc(t, length)
  {
    ghost var blank := output[..];
    CopyInto(output, 0, MAGIC);
    CopyInto(output, 4, LittleEndian(2, CURRENT_VERSION));
    CopyInto(output, 6, LittleEndian(2, t.Code()));
    CopyInto(output, 8, LittleEndian(4, length));
    CopyInto(output, 12, LittleEndian(4, 0));
    HeaderLaidOut(blank, t, length);
    assert output[..12] == output[..][..12];
  }

  /** `buffer` with `data` written over it at `at`. */
  function Overwrite(buffer: seq<byte>, at: nat, data: seq<byte>): (r: seq<byte>)
    requires at + |data| <= |buffer|
    ensures |r| == |buffer|
  {
    buffer[..at] + data + buffer[at + |data|..]
  }

  lemma HeaderLaidOut(blank: seq<byte>, t: MsgType, length: nat)
    requires |blank| >= HEADER_SIZE
    ensures var b1 := Overwrite(blank, 0, MAGIC);
      var b2 := Overwrite(b1, 4, LittleEndian(2, CURRENT_VERSION));
      var b3 := Overwrite(b2, 6, LittleEndian(2, t.Code()));
      var b4 := Overwrite(b3, 8, LittleEndian(4, length));
      var b5 := Overwrite(b4, 12, LittleEndian(4, 0));
      b5[..12] == HeaderWithoutCrc(t, length)
  {
    var b1 := Overwrite(blank, 0, MAGIC);
    assert b1[..4] == MAGIC;
    var b2 := Overwrite(b1, 4, LittleEndian(2, CURRENT_VERSION));
    assert b2[..6] == b1[..4] + LittleEndian(2, CURRENT_VERSION);
    var b3 := Overwrite(b2, 6, LittleEndian(2, t.Code()));
    assert b3[..8] == b2[..6] + LittleEndian(2, t.Code());
    var b4 := Overwrite(b3, 8, LittleEndian(4, length));
    assert b4[..12] == b3[..8] + LittleEndian(4, length);
    var b5 := Overwrite(b4, 12, LittleEndian(4, 0));
    assert b5[..12] == b4[..12];
  }

  lemma FrameLaidOut(unsigned: seq<byte>, crcField: seq<byte>, payload: seq<byte>)
    requires |unsigned| == HEADER_SIZE + |payload| && |crcField| == 4
    ensures Overwrite(Overwrite(unsigned, 12, crcField), HEADER_SIZE, payload) == unsigned[..12] + crcField + payload
  {
    var signed := Overwrite(unsigned, 12, crcField);
    assert signed[..16] == unsigned[..12] + crcField;
  }

  method CopyInto(output: array<byte>, at: nat, data: seq<byte>)
    requires at + |data| <= output.Length
    modifies output
    ensures output[..] == Overwrite(old(output[..]), at, data)
  {
    var i := 0;
    while i < |data|
      invariant 0 <= i <= |data|
      invariant forall k :: 0 <= k < i ==> output[at + k] == data[k]
      invariant forall k :: 0 <= k < at || at + i <= k < output.Length ==> output[k] == old(output[k])
    {
      output[at + i] := data[i];
      i := i + 1;
    }
  }

  // ---------- The two decoders' frame layers ----------

  datatype Rejection = BadMagic | BadCrc | VersionMismatch | UnknownMessageType | PayloadTooLarge

  /** What a decoder says about the bytes at the front of its input. */
  datatype Verdict =
    | NeedMore
    | Reject(why: Rejection)
    | Accept(t: MsgType, payload: seq<byte>, consumed: nat)

  /** The header as struct.unpack_from or the read_*_le calls see it. */
  datatype Header = Header(magicOk: bool, version: nat, typeCode: nat, payloadLen: nat, crcOk: bool)

  function ReadHeader(buffer: seq<byte>, offset: nat): Header
    requires offset + HEADER_SIZE <= |buffer|
  {
    var h := buffer[offset..offset + HEADER_SIZE];
    Header(h[0..4] == MAGIC, Field(h, 4, 2), Field(h, 6, 2), Field(h, 8, 4), HeaderCrcMatches(h))
  }

  /** The outcome of the header checks alone. */
  datatype Check = Wait | Bad(why: Rejection) | Take(t: MsgType, size: nat)

  /** C++'s order of checks: the checksum before the version, the length before the type. */
  function CppCheck(h: Header, available: nat): (c: Check)
    ensures c.Take? ==> HEADER_SIZE <= c.size <= available
  {
    if !h.magicOk then Bad(BadMagic)
    else if !h.crcOk then Bad(BadCrc)
    else if h.version != CURRENT_VERSION then Bad(VersionMismatch)
    else if h.payloadLen > MAX_PAYLOAD_SIZE then Bad(PayloadTooLarge)
    else match TypeOf(h.typeCode)
      case None => Bad(UnknownMessageType)
      case Some(t) =>
        var fullSize := HEADER_SIZE + h.payloadLen;
        if available < fullSize then Wait else Take(t, fullSize)
  }

  /** Python's order of checks: the checksum last. */
  function PythonCheck(h: Header, available: nat): (c: Check)
    ensures c.Take? ==> HEADER_SIZE <= c.size <= available
  {
    if !h.magicOk then Bad(BadMagic)
    else if h.version != CURRENT_VERSION then Bad(VersionMismatch)
    else match TypeOf(h.typeCode)
      case None => Bad(UnknownMessageType)
      case Some(t) =>
        if h.payloadLen > MAX_PAYLOAD_SIZE then Bad(PayloadTooLarge)
        else if !h.crcOk then Bad(BadCrc)
        else
          var totalLen := HEADER_SIZE + h.payloadLen;
          if available < totalLen then Wait else Take(t, totalLen)
  }

  function VerdictOf(c: Check, rest: seq<byte>): Verdict
    requires c.Take? ==> HEADER_SIZE <= c.size <= |rest|
  {
    match c
    case Wait => NeedMore
    case Bad(why) => Reject(why)
    case Take(t, size) => Accept(t, rest[HEADER_SIZE..size], size)
  }

  /** C++'s try_decode_frame. */
  function TryDecodeFrame(data: seq<byte>): Verdict {
    if |data| < HEADER_SIZE then NeedMore
    else VerdictOf(CppCheck(ReadHeader(data, 0), |data|), data)
  }

  /** Python's decode_frame up to the payload. */
  function FrameAt(buffer: seq<byte>, offset: nat): Verdict
    requires offset <= |buffer|
  {
    var available := |buffer| - offset;
    if available < HEADER_SIZE then NeedMore
    else VerdictOf(PythonCheck(ReadHeader(buffer, offset), available), buffer[offset..])
  }

  lemma HeaderAtOffset(buffer: seq<byte>, offset: nat)
    requires offset + HEADER_SIZE <= |buffer|
    ensures ReadHeader(buffer, offset) == ReadHeader(buffer[offset..], 0)
  {
    assert buffer[offset..][0..HEADER_SIZE] == buffer[offset..offset + HEADER_SIZE];
  }

  /** Decoding at an offset is decoding what starts there. */
  lemma OffsetIsSlice(buffer: seq<byte>, offset: nat)
    requires offset <= |buffer|
    ensures FrameAt(buffer, offset) == FrameAt(buffer[offset..], 0)
  {
    var rest := buffer[offset..];
    assert rest[0..] == rest;
    if |rest| >= HEADER_SIZE {
      HeaderAtOffset(buffer, offset);
    }
  }

  /** On every byte string the two frame layers agree: need more, reject, or accept the same frame. */
  lemma VerdictsAgree(data: seq<byte>)
    ensures TryDecodeFrame(data).NeedMore? <==> FrameAt(data, 0).NeedMore?
    ensures TryDecodeFrame(data).Reject? <==> FrameAt(data, 0).Reject?
    ensures TryDecodeFrame(data).Accept? ==> TryDecodeFrame(data) == FrameAt(data, 0)
  {
    assert data[0..] == data;
    if |data| >= HEADER_SIZE {
      ChecksAgree(ReadHeader(data, 0), |data|);
    }
  }

  lemma ChecksAgree(h: Header, available: nat)
    ensures CppCheck(h, available).Wait? <==> PythonCheck(h, available).Wait?
    ensures CppCheck(h, available).Take? ==> CppCheck(h, available) == PythonCheck(h, available)
    ensures PythonCheck(h, available).Take? ==> CppCheck(h, available).Take?
  {
  }

  // ---------- Round trip and stability of the frame layer ----------

  lemma HeaderSlices(magic: seq<byte>, version: seq<byte>, code: seq<byte>, length: seq<byte>, crc: seq<byte>)
    requires |magic| == 4 && |version| == 2 && |code| == 2 && |length| == 4 && |crc| == 4
    ensures var h := magic + version + code + length + crc;
      && h[0..4] == magic && h[4..6] == version && h[6..8] == code && h[8..12] == length
      && h[12..16] == crc && h[..12] == magic + version + code + length
  {
  }

  lemma HeaderReadBack(t: MsgType, length: nat, tail: seq<byte>)
    requires length <= MAX_PAYLOAD_SIZE
    ensures var header := HeaderWithoutCrc(t, length);
      ReadHeader(header + Crc32.FieldBytes(Crc32.Reference(header)) + tail, 0)
        == Header(true, CURRENT_VERSION, t.Code(), length, true)
  {
    var header := HeaderWithoutCrc(t, length);
    var crc := Crc32.Reference(header);
    var field := Crc32.FieldBytes(crc);
    var h := (header + field + tail)[0..HEADER_SIZE];
    assert h == header + field;
    HeaderSlices(MAGIC, LittleEndian(2, CURRENT_VERSION), LittleEndian(2, t.Code()), LittleEndian(4, length), field);
    Crc32.FieldRoundTrip(crc);
    HeaderNumbers(t, length);
  }

  lemma HeaderNumbers(t: MsgType, length: nat)
    requires length <= MAX_PAYLOAD_SIZE
    ensures Value(LittleEndian(2, CURRENT_VERSION)) == CURRENT_VERSION
    ensures Value(LittleEndian(2, t.Code())) == t.Code()
    ensures Value(LittleEndian(4, length)) == length
  {
    FieldLimits();
    ValueOfLittleEndian(2, CURRENT_VERSION);
    ValueOfLittleEndian(2, t.Code());
    ValueOfLittleEndian(4, length);
  }

  lemma GoodHeaderTaken(t: MsgType, length: nat, available: nat)
    requires length <= MAX_PAYLOAD_SIZE && HEADER_SIZE + length <= available
    ensures PythonCheck(Header(true, CURRENT_VERSION, t.Code(), length, true), available)
      == Take(t, HEADER_SIZE + length)
  {
  }

  lemma Pieces(header: seq<byte>, payload: seq<byte>, tail: seq<byte>)
    ensures header + payload + tail == header + (payload + tail)
    ensures (header + payload + tail)[|header|..|header + payload|] == payload
  {
  }

  lemma PackedHeader(t: MsgType, payload: seq<byte>, tail: seq<byte>)
    requires |payload| <= MAX_PAYLOAD_SIZE
    ensures PackFrame(t, payload).Ok?
    ensures var frame := PackFrame(t, payload).value;
      && |frame| == HEADER_SIZE + |payload|
      && ReadHeader(frame + tail, 0) == Header(true, CURRENT_VERSION, t.Code(), |payload|, true)
      && (frame + tail)[HEADER_SIZE..|frame|] == payload
  {
    var header := HeaderWithoutCrc(t, |payload|);
    var field := Crc32.FieldBytes(Crc32.Reference(header));
    Pieces(header + field, payload, tail);
    HeaderReadBack(t, |payload|, payload + tail);
  }

  /** A packed frame, whatever follows it, is accepted by both sides as that type and payload. */
  lemma PackedFrameAccepted(t: MsgType, payload: seq<byte>, tail: seq<byte>)
    requires |payload| <= MAX_PAYLOAD_SIZE
    ensures PackFrame(t, payload).Ok?
    ensures var frame := PackFrame(t, payload).value;
      && |frame| == HEADER_SIZE + |payload|
      && FrameAt(frame + tail, 0) == Accept(t, payload, |frame|)
      && TryDecodeFrame(frame + tail) == Accept(t, payload, |frame|)
  {
    PackedHeader(t, payload, tail);
    var data := PackFrame(t, payload).value + tail;
    GoodHeaderTaken(t, |payload|, |data|);
    AcceptedAs(data, t, payload);
  }

  lemma AcceptedAs(data: seq<byte>, t: MsgType, payload: seq<byte>)
    requires HEADER_SIZE + |payload| <= |data|
    requires PythonCheck(ReadHeader(data, 0), |data|) == Take(t, HEADER_SIZE + |payload|)
    requires data[HEADER_SIZE..HEADER_SIZE + |payload|] == payload
    ensures FrameAt(data, 0) == Accept(t, payload, HEADER_SIZE + |payload|)
    ensures TryDecodeFrame(data) == FrameAt(data, 0)
  {
    assert data[0..] == data;
    ChecksAgree(ReadHeader(data, 0), |data|);
  }

  lemma CheckStable(h: Header, available: nat, more: nat)
    requires !PythonCheck(h, available).Wait?
    ensures PythonCheck(h, available + more) == PythonCheck(h, available)
  {
  }

  lemma HeaderStable(data: seq<byte>, more: seq<byte>)
    requires |data| >= HEADER_SIZE
    ensures ReadHeader(data + more, 0) == ReadHeader(data, 0)
  {
    assert (data + more)[0..HEADER_SIZE] == data[0..HEADER_SIZE];
  }

  lemma VerdictOfLonger(c: Check, data: seq<byte>, more: seq<byte>)
    requires c.Take? ==> HEADER_SIZE <= c.size <= |data|
    ensures VerdictOf(c, data + more) == VerdictOf(c, data)
  {
    if c.Take? {
      assert (data + more)[HEADER_SIZE..c.size] == data[HEADER_SIZE..c.size];
    }
  }

  lemma FrontVerdict(data: seq<byte>)
    requires |data| >= HEADER_SIZE
    ensures FrameAt(data, 0) == VerdictOf(PythonCheck(ReadHeader(data, 0), |data|), data)
  {
    assert data[0..] == data;
  }

  lemma LongerVerdict(h: Header, data: seq<byte>, more: seq<byte>)
    requires !PythonCheck(h, |data|).Wait?
    ensures VerdictOf(PythonCheck(h, |data + more|), data + more) == VerdictOf(PythonCheck(h, |data|), data)
  {
    CheckStable(h, |data|, |more|);
    VerdictOfLonger(PythonCheck(h, |data|), data, more);
  }

  /** More bytes never change a verdict other than need-more. */
  lemma VerdictStable(data: seq<byte>, more: seq<byte>)
    requires !FrameAt(data, 0).NeedMore?
    ensures FrameAt(data + more, 0) == FrameAt(data, 0)
  {
    FrontVerdict(data);
    FrontVerdict(data + more);
    HeaderStable(data, more);
    LongerVerdict(ReadHeader(data, 0), data, more);
  }

  /** A checksum covers its header: with exactly one byte of the sixteen changed it no longer matches. */
  lemma ChangedHeaderFailsCrc(h: seq<byte>, i: nat, b: byte)
    requires |h| == HEADER_SIZE && HeaderCrcMatches(h)
    requires i < HEADER_SIZE && h[i] != b
    ensures !HeaderCrcMatches(h[i := b])
  {
    var bad := h[i := b];
    if i < 12 {
      Crc32.SingleByteChangeDetected(h[..12], i, b);
      assert bad[..12] == h[..12][i := b];
      assert bad[12..16] == h[12..16];
    } else {
      assert bad[..12] == h[..12];
      assert bad[12..16][i - 12] != h[12..16][i - 12];
      if Crc32.FieldWord(bad[12..16]) == Crc32.FieldWord(h[12..16]) {
        Crc32.FieldWordInjective(bad[12..16], h[12..16]);
      }
    }
  }

  /** A frame both sides would accept, with exactly one of its 16 header bytes changed, is rejected by both. */
  lemma HeaderCorruptionRejected(data: seq<byte>, i: nat, b: byte)
    requires TryDecodeFrame(data).Accept?
    requires i < HEADER_SIZE && data[i] != b
    ensures TryDecodeFrame(data[i := b]).Reject?
    ensures FrameAt(data[i := b], 0).Reject?
  {
    var bad := data[i := b];
    ChangedHeaderFailsCrc(data[0..HEADER_SIZE], i, b);
    assert bad[0..HEADER_SIZE] == data[0..HEADER_SIZE][i := b];
    VerdictsAgree(bad);
  }
}
