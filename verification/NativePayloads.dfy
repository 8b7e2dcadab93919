/**
 The payload builders and parsers of native-plugin/src/ipc-bridge-internal.cpp, against
 the Python codec they talk to.
 */
module NativePayloads {
  import opened Bytes
  import opened Options
  import opened Framing
  import opened Messages

  const PROTOCOL_VERSION := 1
  const SAMPLE_FORMAT_I16 := 1
  const SAMPLE_RATE := 16000

  // ---------- Built in C++, decoded in Python ----------

  /** send_hello's payload. */
  method BuildHelloPayload(sessionEpoch: nat, configPath: Text) returns (payload: seq<byte>)
    requires sessionEpoch < U32_LIMIT
    ensures |configPath| < U32_LIMIT ==>
      DecodeHello(payload) == Ok(Hello(PROTOCOL_VERSION, sessionEpoch, SAMPLE_RATE, 1, SAMPLE_FORMAT_I16, configPath))
  {
    payload := LittleEndian(2, PROTOCOL_VERSION);
    payload := payload + LittleEndian(4, sessionEpoch);
    payload := payload + LittleEndian(4, SAMPLE_RATE);
    payload := payload + LittleEndian(2, 1);
    payload := payload + LittleEndian(2, SAMPLE_FORMAT_I16);
    ghost var fields := payload;
    payload := payload + LittleEndian(4, |configPath|);
    payload := payload + configPath;
    if |configPath| < U32_LIMIT {
      HelloBuilt(sessionEpoch, configPath, fields);
    }
  }

  lemma HelloBuilt(sessionEpoch: nat, configPath: Text, fields: seq<byte>)
    requires sessionEpoch < U32_LIMIT && |configPath| < U32_LIMIT
    requires fields == LittleEndian(2, PROTOCOL_VERSION) + LittleEndian(4, sessionEpoch) + LittleEndian(4, SAMPLE_RATE)
      + LittleEndian(2, 1) + LittleEndian(2, SAMPLE_FORMAT_I16)
    ensures DecodeHello(fields + LittleEndian(4, |configPath|) + configPath)
         == Ok(Hello(PROTOCOL_VERSION, sessionEpoch, SAMPLE_RATE, 1, SAMPLE_FORMAT_I16, configPath))
  {
    HelloRoundTrip(PROTOCOL_VERSION, sessionEpoch, SAMPLE_RATE, 1, SAMPLE_FORMAT_I16, configPath);
    assert fields + LittleEndian(4, |configPath|) + configPath == fields + PackText(configPath).value;
  }

  /** build_control_payload */
  method BuildControlPayload(command: nat, seqNo: nat, arg: seq<byte>) returns (payload: seq<byte>)
    requires command < U16_LIMIT && seqNo < U64_LIMIT
    ensures |arg| < U32_LIMIT ==> DecodeControl(payload) == Ok(Control(command, seqNo, arg))
  {
    payload := LittleEndian(2, command);
    payload := payload + LittleEndian(8, seqNo);
    payload := payload + LittleEndian(4, |arg|);
    payload := payload + arg;
    if |arg| < U32_LIMIT {
      ControlBuilt(command, seqNo, arg);
    }
  }

  lemma ControlBuilt(command: nat, seqNo: nat, arg: seq<byte>)
    requires command < U16_LIMIT && seqNo < U64_LIMIT && |arg| < U32_LIMIT
    ensures DecodeControl(LittleEndian(2, command) + LittleEndian(8, seqNo) + LittleEndian(4, |arg|) + arg)
         == Ok(Control(command, seqNo, arg))
  {
    ControlFields(command, seqNo, arg);
    assert LittleEndian(2, command) + LittleEndian(8, seqNo) + LittleEndian(4, |arg|) + arg
        == ControlPayload(command, seqNo, arg).value;
  }

  // ---------- Built in Python, parsed in C++ ----------

  datatype ReadyFields = ReadyFields(acceptedVersion: nat, epoch: nat, supportsPartial: bool)

  /** parse_ready_payload. The last field is read where the language text starts. */
  function ParseReady(p: seq<byte>): Option<ReadyFields> {
    if |p| < 13 then None else
    var engineLen := Field(p, 6, 4);
    if |p| < 10 + engineLen + 5 then None else
    var off := 10 + engineLen;
    var langLen := Field(p, off, 4);
    if |p| < off + 4 + langLen + 1 then None
    else if |p| != off + 4 + langLen + 1 then None
    else Some(ReadyFields(Field(p, 0, 2), Field(p, 2, 4), p[off + 4] != 0))
  }

  /** What a parser makes of a payload. Past the end, the guard passed and the text is read beyond the payload. */
  datatype Parsed<+T> = Refused | PastEnd | Fields(fields: T)

  /** The guard before a text: the sum of head and length has 32 bits, so it may wrap. */
  function TextAt(p: seq<byte>, head: nat, length: nat): Parsed<Text>
    requires head <= |p|
  {
    if |p| < (head + length) % U32_LIMIT then Refused
    else if |p| < head + length then PastEnd
    else Fields(p[head..head + length])
  }

  datatype StatusFields = StatusFields(code: nat, ackSeq: nat, message: Text)

  /** parse_status_payload */
  function ParseStatus(p: seq<byte>): Parsed<StatusFields> {
    if |p| < 14 then Refused else
    match TextAt(p, 14, Field(p, 10, 4))
    case Refused => Refused
    case PastEnd => PastEnd
    case Fields(message) => Fields(StatusFields(Field(p, 0, 2), Field(p, 2, 8), message))
  }

  datatype CaptionFields = CaptionFields(epoch: nat, timestampNs: nat, seqNo: nat, text: Text)

  /** parse_caption_payload */
  function ParseCaption(p: seq<byte>): Parsed<CaptionFields> {
    if |p| < 24 then Refused else
    match TextAt(p, 24, Field(p, 20, 4))
    case Refused => Refused
    case PastEnd => PastEnd
    case Fields(text) => Fields(CaptionFields(Field(p, 0, 4), Field(p, 4, 8), Field(p, 12, 8), text))
  }

  /** The FLUSH_DONE case of process_payload. */
  function ParseFlushDone(p: seq<byte>): Option<nat> {
    if |p| < 8 then None else Some(Field(p, 0, 8))
  }

  /** Both sides take the same READY payloads, and see the same version and epoch. */
  lemma ReadyAgrees(p: seq<byte>)
    ensures ParseReady(p).Some? <==> DecodeReady(p).Ok?
    ensures ParseReady(p).Some? ==>
      && ParseReady(p).value.acceptedVersion == DecodeReady(p).value.acceptedVersion
      && ParseReady(p).value.epoch == DecodeReady(p).value.epoch
  {
    if |p| >= 13 {
      var engineLen := Field(p, 6, 4);
      if |p| >= 10 + engineLen + 5 {
        assert UnpackText(p, 6).Ok?;
      } else if |p| >= 15 && UnpackText(p, 6).Ok? {
        assert UnpackText(p, UnpackText(p, 6).value.1).Ok? ==>
          UnpackText(p, UnpackText(p, 6).value.1).value.1 + 1 > |p|;
      }
    }
  }

  /** The C++ side sees the partial-support flag exactly when the language text does not stand in its way. */
  lemma PartialFlagAgreesIff(p: seq<byte>)
    requires DecodeReady(p).Ok?
    ensures ParseReady(p).Some?
    ensures var ready := DecodeReady(p).value;
      (ParseReady(p).value.supportsPartial == (ready.supportsPartial != 0)) <==>
        (ready.language == [] || (ready.language[0] != 0) == (ready.supportsPartial != 0))
  {
    ReadyAgrees(p);
    var engineLen := Field(p, 6, 4);
    var langLen := Field(p, 10 + engineLen, 4);
    var ready := DecodeReady(p).value;
    assert ready.language == p[14 + engineLen..14 + engineLen + langLen];
    assert ready.supportsPartial == p[14 + engineLen + langLen];
    if ready.language != [] {
      assert ready.language[0] == p[14 + engineLen];
    }
  }

  /** An engine without partials, and a language "ko": Python sends 0, the C++ parser reads true. */
  lemma PartialFlagMisread()
    ensures var ready := Ready(1, 1, [0x67], [0x6B, 0x6F], 0);
      && WellFormed(ready)
      && EncodePayload(ready).Ok?
      && ParseReady(EncodePayload(ready).value).Some?
      && ParseReady(EncodePayload(ready).value).value.supportsPartial
  {
    var ready := Ready(1, 1, [0x67], [0x6B, 0x6F], 0);
    PayloadRoundTrip(ready);
    PartialFlagAgreesIff(EncodePayload(ready).value);
  }

  lemma FieldBelow(p: seq<byte>, offset: nat)
    requires offset + 4 <= |p|
    ensures Field(p, offset, 4) < U32_LIMIT
  {
    FieldLimits();
  }

  /** A guard means what it says exactly when its sum does not wrap, or wraps to more than there is. */
  lemma GuardMeansIff(p: seq<byte>, head: nat, length: nat)
    requires head <= |p| < U32_LIMIT && head < 32 && length < U32_LIMIT
    ensures (|p| < (head + length) % U32_LIMIT <==> |p| < head + length)
            <==> head + length < U32_LIMIT || |p| < head + length - U32_LIMIT
    ensures TextAt(p, head, length).PastEnd? <==> head + length >= U32_LIMIT && |p| >= head + length - U32_LIMIT
  {
  }

  /** A STATUS is read past its end exactly when its declared length makes the sum wrap, to no more than there is. */
  lemma StatusPastEndIff(p: seq<byte>)
    requires |p| < U32_LIMIT
    ensures ParseStatus(p).PastEnd? <==>
      |p| >= 14 && 14 + Field(p, 10, 4) >= U32_LIMIT && |p| >= 14 + Field(p, 10, 4) - U32_LIMIT
  {
    if |p| >= 14 {
      FieldBelow(p, 10);
      GuardMeansIff(p, 14, Field(p, 10, 4));
    }
  }

  lemma CaptionPastEndIff(p: seq<byte>)
    requires |p| < U32_LIMIT
    ensures ParseCaption(p).PastEnd? <==>
      |p| >= 24 && 24 + Field(p, 20, 4) >= U32_LIMIT && |p| >= 24 + Field(p, 20, 4) - U32_LIMIT
  {
    if |p| >= 24 {
      FieldBelow(p, 20);
      GuardMeansIff(p, 24, Field(p, 20, 4));
    }
  }

  /**
   A STATUS of 14 bytes that declares a text of 2^32 - 8 bytes: Python refuses it, the guard of the C++ parser passes.
   */
  lemma StatusReadPastEnd()
    ensures var p := [0, 0, 0, 0, 0, 0, 0, 0, 0, 0, 0xF8, 0xFF, 0xFF, 0xFF];
      ParseStatus(p).PastEnd? && DecodeStatus(p).Err?
  {
    var p := [0, 0, 0, 0, 0, 0, 0, 0, 0, 0, 0xF8, 0xFF, 0xFF, 0xFF];
    assert p[10..14] == [0xF8, 0xFF, 0xFF, 0xFF];
    assert Field(p, 10, 4) == 0xFFFF_FFF8;
    StatusPastEndIff(p);
    StatusAgrees(p);
  }

  /**
   Python takes a STATUS payload exactly when C++ parses it within its bounds, the code is known and nothing trails.
   */
  lemma StatusAgrees(p: seq<byte>)
    ensures DecodeStatus(p).Ok? <==>
      && ParseStatus(p).Fields?
      && ParseStatus(p).fields.code <= MAX_STATUS_CODE
      && |p| == 14 + |ParseStatus(p).fields.message|
    ensures DecodeStatus(p).Ok? ==>
      var s := ParseStatus(p).fields;
      DecodeStatus(p).value == Status(s.code, s.ackSeq, s.message)
    ensures |p| >= 14 && 14 + Field(p, 10, 4) < U32_LIMIT ==>
      (ParseStatus(p).Refused? <==> |p| < 14 + Field(p, 10, 4))
  {
  }

  /** The same for a caption. */
  lemma CaptionAgrees(p: seq<byte>)
    ensures DecodeCaption(p, true).Ok? <==> ParseCaption(p).Fields? && |p| == 24 + |ParseCaption(p).fields.text|
    ensures DecodeCaption(p, true).Ok? ==>
      var c := ParseCaption(p).fields;
      && DecodeCaption(p, true).value == CaptionFinal(c.epoch, c.timestampNs, c.seqNo, c.text)
      && DecodeCaption(p, false) == Ok(CaptionPartial(c.epoch, c.timestampNs, c.seqNo, c.text))
    ensures |p| >= 24 && 24 + Field(p, 20, 4) < U32_LIMIT ==>
      (ParseCaption(p).Refused? <==> |p| < 24 + Field(p, 20, 4))
  {
  }

  /** The plugin's parser for the type of `m` reads the fields of `m` in a payload. */
  predicate ParsedAs(p: seq<byte>, m: Message)
    requires WellFormed(m)
  {
    match m
    case Ready(v, e, _, _, _) =>
      ParseReady(p).Some? && ParseReady(p).value.acceptedVersion == v && ParseReady(p).value.epoch == e
    case Status(code, ack, message) => ParseStatus(p) == Fields(StatusFields(code, ack, message))
    case CaptionPartial(e, t, s, text) => ParseCaption(p) == Fields(CaptionFields(e, t, s, text))
    case CaptionFinal(e, t, s, text) => ParseCaption(p) == Fields(CaptionFields(e, t, s, text))
    case FlushDone(s) => ParseFlushDone(p) == Some(s)
    case _ => true
  }

  /** What the sidecar encodes is what the plugin's parsers return. */
  lemma SidecarMessagesParsed(m: Message)
    requires WellFormed(m)
    ensures EncodePayload(m).Ok? && ParsedAs(EncodePayload(m).value, m)
  {
    PayloadRoundTrip(m);
    var p := EncodePayload(m).value;
    match m
    case Ready(_, _, _, _, _) => ReadyAgrees(p);
    case Status(_, _, _) => StatusAgrees(p);
    case CaptionPartial(e, t, s, text) =>
      CaptionRoundTrip(e, t, s, text, true);
      CaptionAgrees(p);
    case CaptionFinal(_, _, _, _) => CaptionAgrees(p);
    case _ =>
  }
}
