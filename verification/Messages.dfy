/**
 The nine messages of src/obs_captions/ipc/framing (encode.py, decode.py, messages.py).
 Text is its UTF-8 encoding; integers are unbounded and range-checked, as in Python.
 */
module Messages {
  import opened Bytes
  import opened Framing

  type Text = seq<byte>

  const MAX_STATUS_CODE := 7

  datatype Message =
    | Hello(protoVersion: int, epoch: int, sampleRate: int, channels: int, sampleFormat: int, configPath: Text)
    | Ready(acceptedVersion: int, epoch: int, engineName: Text, language: Text, supportsPartial: int)
    | Audio(timestampNs: int, sampleCount: int, pcm: seq<byte>)
    | CaptionPartial(epoch: int, timestampNs: int, seqNo: int, text: Text)
    | CaptionFinal(epoch: int, timestampNs: int, seqNo: int, text: Text)
    | Control(command: int, seqNo: int, arg: Text)
    | Status(code: int, ackSeq: int, message: Text)
    | Heartbeat
    | FlushDone(seqNo: int)
  {
    function Type(): MsgType {
      match this
      case Hello(_, _, _, _, _, _) => HELLO
      case Ready(_, _, _, _, _) => READY
      case Audio(_, _, _) => AUDIO
      case CaptionPartial(_, _, _, _) => CAPTION_PARTIAL
      case CaptionFinal(_, _, _, _) => CAPTION_FINAL
      case Control(_, _, _) => CONTROL
      case Status(_, _, _) => STATUS
      case Heartbeat => HEARTBEAT
      case FlushDone(_) => FLUSH_DONE
    }
  }

  // ---------- Encoding ----------

  /** _ensure_u16, _ensure_u32, _ensure_u64. */
  function Ensure(value: int, limit: nat): Result<nat> {
    if 0 <= value < limit then Ok(value) else Err(FrameError)
  }

  function PackText(text: Text): Result<seq<byte>> {
    if |text| < U32_LIMIT then Ok(LittleEndian(4, |text|) + text) else Err(StructError)
  }

  function PackSample(s: int): (r: seq<byte>)
    ensures |r| == 2
  {
    LittleEndian(2, s % U16_LIMIT)
  }

  /** struct.pack("<%dh") */
  function PackSamples(samples: seq<int>): (r: Result<seq<byte>>)
    ensures r.Ok? ==> |r.value| == 2 * |samples|
  {
    if samples == [] then Ok([])
    else if !(-32768 <= samples[0] <= 32767) then Err(FrameError)
    else
      var rest :- PackSamples(samples[1..]);
      Ok(PackSample(samples[0]) + rest)
  }

  function SignedSample(v: nat): int {
    if v < 32768 then v else v - U16_LIMIT
  }

  /** struct.unpack("<%dh") of an even number of bytes. */
  function UnpackSamples(pcm: seq<byte>): (r: seq<int>)
    requires |pcm| % 2 == 0
    ensures |r| == |pcm| / 2
  {
    if pcm == [] then [] else [SignedSample(Value(pcm[..2]))] + UnpackSamples(pcm[2..])
  }

  /** The samples property of a decoded Audio. */
  function Samples(count: int, pcm: seq<byte>): Result<seq<int>> {
    if pcm == [] then Ok([])
    else if |pcm| != 2 * count then Err(StructError)
    else Ok(UnpackSamples(pcm))
  }

  function HelloPayload(protoVersion: int, epoch: int, sampleRate: int, channels: int, sampleFormat: int,
                        configPath: Text): Result<seq<byte>> {
    var v :- Ensure(protoVersion, U16_LIMIT);
    var e :- Ensure(epoch, U32_LIMIT);
    var r :- Ensure(sampleRate, U32_LIMIT);
    var c :- Ensure(channels, U16_LIMIT);
    var f :- Ensure(sampleFormat, U16_LIMIT);
    var path :- PackText(configPath);
    Ok(LittleEndian(2, v) + LittleEndian(4, e) + LittleEndian(4, r) + LittleEndian(2, c) + LittleEndian(2, f) + path)
  }

  function ReadyPayload(acceptedVersion: int, epoch: int, engineName: Text, language: Text,
                        supportsPartial: int): Result<seq<byte>> {
    var v :- Ensure(acceptedVersion, U16_LIMIT);
    var e :- Ensure(epoch, U32_LIMIT);
    var engine :- PackText(engineName);
    var lang :- PackText(language);
    Ok(LittleEndian(2, v) + LittleEndian(4, e) + engine + lang + [supportsPartial % 256])
  }

  function AudioPayload(timestampNs: int, sampleCount: int, samples: seq<int>): Result<seq<byte>> {
    var n :- Ensure(sampleCount, U32_LIMIT);
    if n != |samples| then Err(FrameError) else
    var pcm :- PackSamples(samples);
    var t :- Ensure(timestampNs, U64_LIMIT);
    Ok(LittleEndian(8, t) + LittleEndian(4, n) + pcm)
  }

  function CaptionPayload(epoch: int, timestampNs: int, seqNo: int, text: Text): Result<seq<byte>> {
    var e :- Ensure(epoch, U32_LIMIT);
    var t :- Ensure(timestampNs, U64_LIMIT);
    var s :- Ensure(seqNo, U64_LIMIT);
    var packed :- PackText(text);
    Ok(LittleEndian(4, e) + LittleEndian(8, t) + LittleEndian(8, s) + packed)
  }

  function ControlPayload(command: int, seqNo: int, arg: Text): Result<seq<byte>> {
    var c :- Ensure(command, U16_LIMIT);
    var s :- Ensure(seqNo, U64_LIMIT);
    var packed :- PackText(arg);
    Ok(LittleEndian(2, c) + LittleEndian(8, s) + packed)
  }

  function StatusPayload(code: int, ackSeq: int, message: Text): Result<seq<byte>> {
    if !(0 <= code <= MAX_STATUS_CODE) then Err(FrameError) else ControlPayload(code, ackSeq, message)
  }

  function FlushDonePayload(seqNo: int): Result<seq<byte>> {
    var s :- Ensure(seqNo, U64_LIMIT);
    Ok(LittleEndian(8, s))
  }

  function EncodePayload(m: Message): Result<seq<byte>> {
    match m
    case Hello(v, e, r, c, f, path) => HelloPayload(v, e, r, c, f, path)
    case Ready(v, e, engine, lang, partial) => ReadyPayload(v, e, engine, lang, partial)
    case Audio(t, n, pcm) =>
      var samples :- Samples(n, pcm);
      AudioPayload(t, n, samples)
    case CaptionPartial(e, t, s, text) => CaptionPayload(e, t, s, text)
    case CaptionFinal(e, t, s, text) => CaptionPayload(e, t, s, text)
    case Control(c, s, arg) => ControlPayload(c, s, arg)
    case Status(c, s, msg) => StatusPayload(c, s, msg)
    case Heartbeat => Ok([])
    case FlushDone(s) => FlushDonePayload(s)
  }

  /** encode_hello, encode_ready, and so on, on the fields of a message. */
  function Encode(m: Message): Result<seq<byte>> {
    var payload :- EncodePayload(m);
    PackFrame(m.Type(), payload)
  }

  // ---------- Decoding ----------

  function UnpackText(payload: seq<byte>, offset: nat): (r: Result<(Text, nat)>)
    ensures r.Ok? ==> r.value.1 <= |payload|
    ensures r.Ok? ==> r.value.1 == offset + 4 + |r.value.0|
  {
    if offset + 4 > |payload| then Err(FrameError) else
    var end := offset + 4 + Field(payload, offset, 4);
    if end > |payload| then Err(FrameError) else Ok((payload[offset + 4..end], end))
  }

  function DecodeHello(p: seq<byte>): Result<Message> {
    if |p| < 18 then Err(FrameError) else
    var path :- UnpackText(p, 14);
    if path.1 != |p| then Err(FrameError)
    else Ok(Hello(Field(p, 0, 2), Field(p, 2, 4), Field(p, 6, 4), Field(p, 10, 2), Field(p, 12, 2), path.0))
  }

  function DecodeReady(p: seq<byte>): Result<Message> {
    if |p| < 15 then Err(FrameError) else
    var engine :- UnpackText(p, 6);
    var lang :- UnpackText(p, engine.1);
    if lang.1 + 1 > |p| then Err(FrameError)
    else if lang.1 + 1 != |p| then Err(FrameError)
    else Ok(Ready(Field(p, 0, 2), Field(p, 2, 4), engine.0, lang.0, p[lang.1]))
  }

  function DecodeAudio(p: seq<byte>): Result<Message> {
    if |p| < 12 then Err(FrameError)
    else if |p| != 12 + Field(p, 8, 4) * 2 then Err(FrameError)
    else Ok(Audio(Field(p, 0, 8), Field(p, 8, 4), p[12..]))
  }

  function DecodeCaption(p: seq<byte>, final: bool): Result<Message> {
    if |p| < 24 then Err(FrameError) else
    var text :- UnpackText(p, 20);
    if text.1 != |p| then Err(FrameError)
    else if final then Ok(CaptionFinal(Field(p, 0, 4), Field(p, 4, 8), Field(p, 12, 8), text.0))
    else Ok(CaptionPartial(Field(p, 0, 4), Field(p, 4, 8), Field(p, 12, 8), text.0))
  }

  function DecodeControl(p: seq<byte>): Result<Message> {
    if |p| < 14 then Err(FrameError) else
    var arg :- UnpackText(p, 10);
    if arg.1 != |p| then Err(FrameError)
    else Ok(Control(Field(p, 0, 2), Field(p, 2, 8), arg.0))
  }

  function DecodeStatus(p: seq<byte>): Result<Message> {
    if |p| < 14 then Err(FrameError)
    else if Field(p, 0, 2) > MAX_STATUS_CODE then Err(FrameError) else
    var message :- UnpackText(p, 10);
    if message.1 != |p| then Err(FrameError)
    else Ok(Status(Field(p, 0, 2), Field(p, 2, 8), message.0))
  }

  function DecodeFlushDone(p: seq<byte>): Result<Message> {
    if |p| != 8 then Err(FrameError) else Ok(FlushDone(Field(p, 0, 8)))
  }

  function DecodePayload(t: MsgType, p: seq<byte>): (r: Result<Message>)
    ensures r.Ok? ==> r.value.Type() == t
    ensures r.Err? ==> r.error == FrameError
  {
    match t
    case HELLO => DecodeHello(p)
    case READY => DecodeReady(p)
    case AUDIO => DecodeAudio(p)
    case CAPTION_PARTIAL => DecodeCaption(p, false)
    case CAPTION_FINAL => DecodeCaption(p, true)
    case CONTROL => DecodeControl(p)
    case STATUS => DecodeStatus(p)
    case HEARTBEAT => if p != [] then Err(FrameError) else Ok(Heartbeat)
    case FLUSH_DONE => DecodeFlushDone(p)
  }

  /** decode_frame: how many bytes were used, and the message. */
  function DecodeFrame(buffer: seq<byte>, offset: nat): (r: Result<(nat, Message)>)
    requires offset <= |buffer|
    ensures r.Ok? ==> HEADER_SIZE <= r.value.0 <= |buffer| - offset
  {
    match FrameAt(buffer, offset)
    case NeedMore => Err(NeedMoreData)
    case Reject(_) => Err(FrameError)
    case Accept(t, payload, consumed) =>
      var m :- DecodePayload(t, payload);
      Ok((consumed, m))
  }

  // ---------- Round trips ----------

  lemma FieldReadBack(before: seq<byte>, n: nat, v: nat, after: seq<byte>)
    requires v < Pow256(n)
    ensures Field(before + LittleEndian(n, v) + after, |before|, n) == v
  {
    var s := before + LittleEndian(n, v) + after;
    assert s[|before|..|before| + n] == LittleEndian(n, v);
    ValueOfLittleEndian(n, v);
  }

  lemma TextReadBack(before: seq<byte>, text: Text, after: seq<byte>)
    requires |text| < U32_LIMIT
    ensures UnpackText(before + PackText(text).value + after, |before|) == Ok((text, |before| + 4 + |text|))
  {
    var s := before + PackText(text).value + after;
    FieldLimits();
    assert s == before + LittleEndian(4, |text|) + (text + after);
    FieldReadBack(before, 4, |text|, text + after);
    assert s[|before| + 4..|before| + 4 + |text|] == text;
  }

  /** What the encoders accept and the wire can carry back unchanged. */
  predicate WellFormed(m: Message) {
    match m
    case Hello(v, e, r, c, f, path) =>
      && 0 <= v < U16_LIMIT && 0 <= e < U32_LIMIT && 0 <= r < U32_LIMIT && 0 <= c < U16_LIMIT && 0 <= f < U16_LIMIT
      && 18 + |path| <= MAX_PAYLOAD_SIZE
    case Ready(v, e, engine, lang, partial) =>
      && 0 <= v < U16_LIMIT && 0 <= e < U32_LIMIT && 0 <= partial < 256
      && 15 + |engine| + |lang| <= MAX_PAYLOAD_SIZE
    case Audio(t, n, pcm) =>
      0 <= t < U64_LIMIT && |pcm| == 2 * n && 12 + |pcm| <= MAX_PAYLOAD_SIZE
    case CaptionPartial(e, t, s, text) =>
      0 <= e < U32_LIMIT && 0 <= t < U64_LIMIT && 0 <= s < U64_LIMIT && 24 + |text| <= MAX_PAYLOAD_SIZE
    case CaptionFinal(e, t, s, text) =>
      0 <= e < U32_LIMIT && 0 <= t < U64_LIMIT && 0 <= s < U64_LIMIT && 24 + |text| <= MAX_PAYLOAD_SIZE
    case Control(c, s, arg) =>
      0 <= c < U16_LIMIT && 0 <= s < U64_LIMIT && 14 + |arg| <= MAX_PAYLOAD_SIZE
    case Status(c, s, msg) =>
      0 <= c <= MAX_STATUS_CODE && 0 <= s < U64_LIMIT && 14 + |msg| <= MAX_PAYLOAD_SIZE
    case Heartbeat => true
    case FlushDone(s) => 0 <= s < U64_LIMIT
  }

  lemma FieldKept(p: seq<byte>, x: seq<byte>, offset: nat, n: nat)
    requires offset + n <= |p|
    ensures Field(p + x, offset, n) == Field(p, offset, n)
  {
    assert (p + x)[offset..offset + n] == p[offset..offset + n];
  }

  lemma FieldAdded(p: seq<byte>, x: seq<byte>)
    ensures Field(p + x, |p|, |x|) == Value(x)
  {
    assert (p + x)[|p|..|p| + |x|] == x;
  }

  lemma HelloFields(bv: seq<byte>, be: seq<byte>, br: seq<byte>, bc: seq<byte>, bf: seq<byte>, text: seq<byte>)
    requires |bv| == 2 && |be| == 4 && |br| == 4 && |bc| == 2 && |bf| == 2
    ensures var p := bv + be + br + bc + bf + text;
      && Field(p, 0, 2) == Value(bv) && Field(p, 2, 4) == Value(be) && Field(p, 6, 4) == Value(br)
      && Field(p, 10, 2) == Value(bc) && Field(p, 12, 2) == Value(bf)
  {
    var p2 := bv + be;
    var p3 := p2 + br;
    var p4 := p3 + bc;
    var p5 := p4 + bf;
    HelloHead(bv, be, br);
    FieldAdded(p3, bc);
    FieldKept(p3, bc, 0, 2);
    FieldKept(p3, bc, 2, 4);
    FieldKept(p3, bc, 6, 4);
    FieldAdded(p4, bf);
    FieldKept(p4, bf, 0, 2);
    FieldKept(p4, bf, 2, 4);
    FieldKept(p4, bf, 6, 4);
    FieldKept(p4, bf, 10, 2);
    FieldKept(p5, text, 0, 2);
    FieldKept(p5, text, 2, 4);
    FieldKept(p5, text, 6, 4);
    FieldKept(p5, text, 10, 2);
    FieldKept(p5, text, 12, 2);
  }

  lemma HelloHead(bv: seq<byte>, be: seq<byte>, br: seq<byte>)
    requires |bv| == 2 && |be| == 4 && |br| == 4
    ensures var p := bv + be + br;
      Field(p, 0, 2) == Value(bv) && Field(p, 2, 4) == Value(be) && Field(p, 6, 4) == Value(br)
  {
    assert bv[0..2] == bv;
    FieldKept(bv, be, 0, 2);
    FieldAdded(bv, be);
    FieldKept(bv + be, br, 0, 2);
    FieldKept(bv + be, br, 2, 4);
    FieldAdded(bv + be, br);
  }

  lemma HelloRoundTrip(v: nat, e: nat, r: nat, c: nat, f: nat, path: Text)
    requires v < U16_LIMIT && e < U32_LIMIT && r < U32_LIMIT && c < U16_LIMIT && f < U16_LIMIT && |path| < U32_LIMIT
    ensures HelloPayload(v, e, r, c, f, path).Ok?
    ensures DecodeHello(HelloPayload(v, e, r, c, f, path).value) == Ok(Hello(v, e, r, c, f, path))
  {
    var (bv, be, br, bc, bf) :=
      (LittleEndian(2, v), LittleEndian(4, e), LittleEndian(4, r), LittleEndian(2, c), LittleEndian(2, f));
    var text := PackText(path).value;
    HelloFields(bv, be, br, bc, bf, text);
    FieldLimits();
    ValueOfLittleEndian(2, v);
    ValueOfLittleEndian(4, e);
    ValueOfLittleEndian(4, r);
    ValueOfLittleEndian(2, c);
    ValueOfLittleEndian(2, f);
    var before := bv + be + br + bc + bf;
    assert before + text == before + text + [];
    TextReadBack(before, path, []);
  }

  lemma TwoTexts(before: seq<byte>, first: Text, second: Text, last: byte)
    requires |first| < U32_LIMIT && |second| < U32_LIMIT
    ensures var p := before + PackText(first).value + PackText(second).value + [last];
      && |p| == |before| + 9 + |first| + |second|
      && UnpackText(p, |before|) == Ok((first, |before| + 4 + |first|))
      && UnpackText(p, |before| + 4 + |first|) == Ok((second, |p| - 1))
      && p[|p| - 1] == last
  {
    var t1, t2 := PackText(first).value, PackText(second).value;
    assert before + t1 + t2 + [last] == before + t1 + (t2 + [last]);
    TextReadBack(before, first, t2 + [last]);
    TextReadBack(before + t1, second, [last]);
  }

  lemma ReadyFields(bv: seq<byte>, be: seq<byte>, rest: seq<byte>)
    requires |bv| == 2 && |be| == 4
    ensures var p := bv + be + rest;
      Field(p, 0, 2) == Value(bv) && Field(p, 2, 4) == Value(be)
  {
    var p := bv + be + rest;
    assert p[0..2] == bv && p[2..6] == be;
  }

  lemma DecodeReadyParts(p: seq<byte>, v: nat, e: nat, engine: Text, lang: Text, partial: byte)
    requires |p| == 15 + |engine| + |lang|
    requires Field(p, 0, 2) == v && Field(p, 2, 4) == e && p[|p| - 1] == partial
    requires UnpackText(p, 6) == Ok((engine, 10 + |engine|))
    requires UnpackText(p, 10 + |engine|) == Ok((lang, |p| - 1))
    ensures DecodeReady(p) == Ok(Ready(v, e, engine, lang, partial))
  {
  }

  lemma DecodeReadyBytes(bv: seq<byte>, be: seq<byte>, engine: Text, lang: Text, partial: byte)
    requires |bv| == 2 && |be| == 4 && |engine| < U32_LIMIT && |lang| < U32_LIMIT
    ensures DecodeReady(bv + be + PackText(engine).value + PackText(lang).value + [partial])
         == Ok(Ready(Value(bv), Value(be), engine, lang, partial))
  {
    var t1, t2 := PackText(engine).value, PackText(lang).value;
    var p := bv + be + t1 + t2 + [partial];
    assert p == bv + be + (t1 + t2 + [partial]);
    ReadyFields(bv, be, t1 + t2 + [partial]);
    TwoTexts(bv + be, engine, lang, partial);
    DecodeReadyParts(p, Value(bv), Value(be), engine, lang, partial);
  }

  lemma ReadyLaidOut(v: nat, e: nat, engine: Text, lang: Text, partial: byte)
    requires v < U16_LIMIT && e < U32_LIMIT && |engine| < U32_LIMIT && |lang| < U32_LIMIT
    ensures ReadyPayload(v, e, engine, lang, partial)
         == Ok(LittleEndian(2, v) + LittleEndian(4, e) + PackText(engine).value + PackText(lang).value + [partial])
  {
  }

  lemma ReadyRoundTrip(v: nat, e: nat, engine: Text, lang: Text, partial: byte)
    requires v < U16_LIMIT && e < U32_LIMIT && |engine| < U32_LIMIT && |lang| < U32_LIMIT
    ensures ReadyPayload(v, e, engine, lang, partial).Ok?
    ensures DecodeReady(ReadyPayload(v, e, engine, lang, partial).value) == Ok(Ready(v, e, engine, lang, partial))
  {
    ReadyLaidOut(v, e, engine, lang, partial);
    var bv, be := LittleEndian(2, v), LittleEndian(4, e);
    FieldLimits();
    ValueOfLittleEndian(2, v);
    ValueOfLittleEndian(4, e);
    DecodeReadyBytes(bv, be, engine, lang, partial);
  }

  lemma CaptionRoundTrip(e: nat, t: nat, s: nat, text: Text, final: bool)
    requires WellFormed(CaptionFinal(e, t, s, text))
    ensures CaptionPayload(e, t, s, text).Ok?
    ensures DecodeCaption(CaptionPayload(e, t, s, text).value, final)
         == Ok(if final then CaptionFinal(e, t, s, text) else CaptionPartial(e, t, s, text))
  {
    FieldLimits();
    var be, bt, bs := LittleEndian(4, e), LittleEndian(8, t), LittleEndian(8, s);
    var packed := PackText(text).value;
    var p := be + bt + bs + packed;
    assert p == [] + be + (bt + bs + packed);
    FieldReadBack([], 4, e, bt + bs + packed);
    assert p == be + bt + (bs + packed);
    FieldReadBack(be, 8, t, bs + packed);
    FieldReadBack(be + bt, 8, s, packed);
    assert p == be + bt + bs + packed + [];
    TextReadBack(be + bt + bs, text, []);
  }

  lemma ControlFields(c: nat, s: nat, arg: Text)
    requires c < U16_LIMIT && s < U64_LIMIT && |arg| < U32_LIMIT
    ensures ControlPayload(c, s, arg).Ok?
    ensures var p := ControlPayload(c, s, arg).value;
      && |p| == 14 + |arg| && Field(p, 0, 2) == c && Field(p, 2, 8) == s
      && UnpackText(p, 10) == Ok((arg, 14 + |arg|))
  {
    FieldLimits();
    var bc, bs := LittleEndian(2, c), LittleEndian(8, s);
    var packed := PackText(arg).value;
    var p := bc + bs + packed;
    assert p == [] + bc + (bs + packed);
    FieldReadBack([], 2, c, bs + packed);
    FieldReadBack(bc, 8, s, packed);
    assert p == bc + bs + packed + [];
    TextReadBack(bc + bs, arg, []);
  }

  lemma FlushDoneRoundTrip(s: nat)
    requires s < U64_LIMIT
    ensures DecodeFlushDone(FlushDonePayload(s).value) == Ok(FlushDone(s))
  {
    FieldLimits();
    FieldReadBack([], 8, s, []);
    assert [] + LittleEndian(8, s) + [] == LittleEndian(8, s);
  }

  lemma SampleRoundTrip(b: seq<byte>)
    requires |b| == 2
    ensures -32768 <= SignedSample(Value(b)) <= 32767
    ensures PackSample(SignedSample(Value(b))) == b
  {
    FieldLimits();
    assert SignedSample(Value(b)) % U16_LIMIT == Value(b);
    LittleEndianOfValue(b);
  }

  lemma {:induction false} UnpackThenPack(pcm: seq<byte>)
    requires |pcm| % 2 == 0
    ensures PackSamples(UnpackSamples(pcm)) == Ok(pcm)
  {
    if pcm != [] {
      SampleRoundTrip(pcm[..2]);
      UnpackThenPack(pcm[2..]);
      var samples := UnpackSamples(pcm);
      assert samples[1..] == UnpackSamples(pcm[2..]);
      assert pcm == pcm[..2] + pcm[2..];
    }
  }

  lemma SampleReadBack(v: int)
    requires -32768 <= v <= 32767
    ensures SignedSample(Value(PackSample(v))) == v
  {
    FieldLimits();
    ValueOfLittleEndian(2, v % U16_LIMIT);
  }

  lemma UnpackStep(first: seq<byte>, rest: seq<byte>)
    requires |first| == 2 && |rest| % 2 == 0
    ensures UnpackSamples(first + rest) == [SignedSample(Value(first))] + UnpackSamples(rest)
  {
    assert (first + rest)[..2] == first && (first + rest)[2..] == rest;
  }

  /** Sixteen-bit samples survive packing, and nothing else is packed. */
  lemma {:induction false} PackThenUnpack(samples: seq<int>)
    ensures PackSamples(samples).Ok? <==> forall i :: 0 <= i < |samples| ==> -32768 <= samples[i] <= 32767
    ensures PackSamples(samples).Ok? ==> UnpackSamples(PackSamples(samples).value) == samples
  {
    if samples != [] {
      PackThenUnpack(samples[1..]);
      if -32768 <= samples[0] <= 32767 && PackSamples(samples[1..]).Ok? {
        SampleReadBack(samples[0]);
        UnpackStep(PackSample(samples[0]), PackSamples(samples[1..]).value);
      }
    }
  }

  lemma AudioFields(bt: seq<byte>, bn: seq<byte>, pcm: seq<byte>)
    requires |bt| == 8 && |bn| == 4
    ensures var p := bt + bn + pcm;
      Field(p, 0, 8) == Value(bt) && Field(p, 8, 4) == Value(bn) && p[12..] == pcm
  {
    var p := bt + bn + pcm;
    assert p[0..8] == bt && p[8..12] == bn;
  }

  lemma AudioDecoded(t: nat, n: nat, pcm: seq<byte>)
    requires t < U64_LIMIT && n < U32_LIMIT && |pcm| == 2 * n
    ensures DecodeAudio(LittleEndian(8, t) + LittleEndian(4, n) + pcm) == Ok(Audio(t, n, pcm))
  {
    FieldLimits();
    AudioFields(LittleEndian(8, t), LittleEndian(4, n), pcm);
    ValueOfLittleEndian(8, t);
    ValueOfLittleEndian(4, n);
  }

  lemma AudioRoundTrip(t: nat, n: nat, pcm: seq<byte>)
    requires t < U64_LIMIT && n < U32_LIMIT && |pcm| == 2 * n
    ensures EncodePayload(Audio(t, n, pcm)) == Ok(LittleEndian(8, t) + LittleEndian(4, n) + pcm)
    ensures DecodeAudio(LittleEndian(8, t) + LittleEndian(4, n) + pcm) == Ok(Audio(t, n, pcm))
  {
    UnpackThenPack(pcm);
    assert pcm == [] ==> UnpackSamples(pcm) == [];
    AudioDecoded(t, n, pcm);
  }

  lemma PayloadRoundTrip(m: Message)
    requires WellFormed(m)
    ensures EncodePayload(m).Ok? && |EncodePayload(m).value| <= MAX_PAYLOAD_SIZE
    ensures DecodePayload(m.Type(), EncodePayload(m).value) == Ok(m)
  {
    match m
    case Hello(v, e, r, c, f, path) => HelloRoundTrip(v, e, r, c, f, path);
    case Ready(v, e, engine, lang, partial) => ReadyRoundTrip(v, e, engine, lang, partial);
    case Audio(t, n, pcm) => AudioRoundTrip(t, n, pcm);
    case CaptionPartial(e, t, s, text) => CaptionRoundTrip(e, t, s, text, false);
    case CaptionFinal(e, t, s, text) => CaptionRoundTrip(e, t, s, text, true);
    case Control(c, s, arg) => ControlFields(c, s, arg);
    case Status(c, s, msg) => ControlFields(c, s, msg);
    case Heartbeat =>
    case FlushDone(s) => FlushDoneRoundTrip(s);
  }

  lemma HelloBounded(v: int, e: int, r: int, c: int, f: int, path: Text)
    requires HelloPayload(v, e, r, c, f, path).Ok? && |HelloPayload(v, e, r, c, f, path).value| <= MAX_PAYLOAD_SIZE
    ensures WellFormed(Hello(v, e, r, c, f, path))
  {
  }

  lemma ReadyBounded(v: int, e: int, engine: Text, lang: Text, partial: int)
    requires ReadyPayload(v, e, engine, lang, partial).Ok?
    requires |ReadyPayload(v, e, engine, lang, partial).value| <= MAX_PAYLOAD_SIZE
    ensures 0 <= partial < 256 ==> WellFormed(Ready(v, e, engine, lang, partial))
  {
  }

  lemma AudioBounded(t: int, n: int, pcm: seq<byte>)
    requires EncodePayload(Audio(t, n, pcm)).Ok? && |EncodePayload(Audio(t, n, pcm)).value| <= MAX_PAYLOAD_SIZE
    ensures WellFormed(Audio(t, n, pcm))
  {
  }

  lemma CaptionBounded(e: int, t: int, s: int, text: Text)
    requires CaptionPayload(e, t, s, text).Ok? && |CaptionPayload(e, t, s, text).value| <= MAX_PAYLOAD_SIZE
    ensures WellFormed(CaptionPartial(e, t, s, text)) && WellFormed(CaptionFinal(e, t, s, text))
  {
  }

  lemma ControlBounded(c: int, s: int, arg: Text)
    requires ControlPayload(c, s, arg).Ok? && |ControlPayload(c, s, arg).value| <= MAX_PAYLOAD_SIZE
    ensures WellFormed(Control(c, s, arg))
  {
  }

  /** Whatever an encoder accepts is well formed, but for the one byte that `encode_ready` masks. */
  lemma EncodedIsBounded(m: Message)
    requires EncodePayload(m).Ok? && |EncodePayload(m).value| <= MAX_PAYLOAD_SIZE
    ensures WellFormed(m) || (m.Ready? && !(0 <= m.supportsPartial < 256))
  {
    match m
    case Hello(v, e, r, c, f, path) => HelloBounded(v, e, r, c, f, path);
    case Ready(v, e, engine, lang, partial) => ReadyBounded(v, e, engine, lang, partial);
    case Audio(t, n, pcm) => AudioBounded(t, n, pcm);
    case CaptionPartial(e, t, s, text) => CaptionBounded(e, t, s, text);
    case CaptionFinal(e, t, s, text) => CaptionBounded(e, t, s, text);
    case Control(c, s, arg) => ControlBounded(c, s, arg);
    case Status(c, s, msg) => ControlBounded(c, s, msg);
    case Heartbeat =>
    case FlushDone(s) =>
  }

  lemma DecodedReadyByte(p: seq<byte>)
    requires DecodeReady(p).Ok?
    ensures 0 <= DecodeReady(p).value.supportsPartial < 256
  {
  }

  /** A frame packed from a payload decodes to what the payload decodes to. */
  lemma DecodePacked(t: MsgType, payload: seq<byte>, tail: seq<byte>)
    requires |payload| <= MAX_PAYLOAD_SIZE
    ensures var frame := PackFrame(t, payload).value;
      DecodeFrame(frame + tail, 0) ==
        match DecodePayload(t, payload)
        case Ok(m) => Ok((|frame|, m))
        case Err(e) => Err(e)
  {
    PackedFrameAccepted(t, payload, tail);
  }

  /** decode_frame inverts the encoder exactly on the well-formed messages, whatever follows the frame. */
  lemma EncodeDecode(m: Message, tail: seq<byte>)
    ensures WellFormed(m) <==>
      && Encode(m).Ok?
      && DecodeFrame(Encode(m).value + tail, 0) == Ok((|Encode(m).value|, m))
  {
    if WellFormed(m) {
      PayloadRoundTrip(m);
    }
    if Encode(m).Ok? {
      var payload := EncodePayload(m).value;
      DecodePacked(m.Type(), payload, tail);
      EncodedIsBounded(m);
      if !WellFormed(m) && DecodePayload(m.Type(), payload) == Ok(m) {
        DecodedReadyByte(payload);
        assert false;
      }
    }
  }
}
