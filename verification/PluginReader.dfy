/**
 run_reader of native-plugin/src/ipc-bridge-core.cpp: the frames of the sidecar out of a pipe, as long as the session
 lives.
 */
module PluginReader {
  import opened Bytes
  import opened Framing
  import opened Messages
  import opened NativePayloads
  import opened Streaming

  /** What process_payload is given. */
  datatype Packet = Packet(t: MsgType, payload: seq<byte>)

  /** try_decode_frame at the front of a buffer. */
  function FrontPacket(buffer: seq<byte>): Step<Packet> {
    match TryDecodeFrame(buffer)
    case NeedMore => More
    case Reject(_) => Raise
    case Accept(t, payload, consumed) => Got(consumed, Packet(t, payload))
  }

  function PluginDecoder(): Decoder<Packet> {
    assert Progresses(FrontPacket);
    FrontPacket
  }

  lemma PluginDecoderStable()
    ensures Stable(PluginDecoder())
  {
    forall b, more | !FrontPacket(b).More?
      ensures FrontPacket(b + more) == FrontPacket(b)
    {
      VerdictsAgree(b);
      VerdictsAgree(b + more);
      VerdictStable(b, more);
    }
  }

  /**
   However the pipe cuts the stream, the same frames are processed: all of them, or those before the first bad one.
   */
  lemma PluginIsChunkingIndependent(chunks: seq<seq<byte>>)
    ensures var whole, read := DecodeAll(PluginDecoder(), Concat(chunks)), ReadAll(PluginDecoder(), [], chunks);
      && read.messages == whole.messages && read.failed == whole.failed
      && (!read.failed ==> read.rest == whole.rest)
  {
    PluginDecoderStable();
    assert [] + Concat(chunks) == Concat(chunks);
    ReadingIsChunkingIndependent(PluginDecoder(), [], chunks);
  }

  lemma EncodedForPlugin(m: Message, frame: seq<byte>)
    requires WellFormed(m) && Encode(m) == Ok(frame)
    ensures EncodePayload(m).Ok? && Carries(PluginDecoder(), frame, Packet(m.Type(), EncodePayload(m).value))
  {
    PayloadRoundTrip(m);
    forall tail
      ensures FrontPacket(frame + tail) == Got(|frame|, Packet(m.Type(), EncodePayload(m).value))
    {
      PackedFrameAccepted(m.Type(), EncodePayload(m).value, tail);
    }
  }

  /** The packets of some messages: their types, and payloads the plugin reads as them. */
  ghost predicate Conveys(packets: seq<Packet>, messages: seq<Message>) {
    && |packets| == |messages|
    && forall i ::
         0 <= i < |messages| ==>
           WellFormed(messages[i]) && packets[i].t == messages[i].Type() && ParsedAs(packets[i].payload, messages[i])
  }

  /**
   Whatever the sidecar encodes, whatever bytes come behind it and however the pipe cuts them: the plugin processes each
   message, in order and with its fields, and then what it makes of the bytes behind.
   */
  lemma SidecarIsHeard(messages: seq<Message>, frames: seq<seq<byte>>, behind: seq<byte>, chunks: seq<seq<byte>>)
    requires |frames| == |messages|
    requires forall i :: 0 <= i < |messages| ==> WellFormed(messages[i]) && Encode(messages[i]) == Ok(frames[i])
    requires Concat(chunks) == Concat(frames) + behind
    ensures var read, tail := ReadAll(PluginDecoder(), [], chunks), DecodeAll(PluginDecoder(), behind);
      && |read.messages| == |messages| + |tail.messages|
      && Conveys(read.messages[..|messages|], messages)
      && read.messages[|messages|..] == tail.messages
      && read.failed == tail.failed && (!read.failed ==> read.rest == tail.rest)
  {
    var packets := Packets(messages);
    forall i | 0 <= i < |messages|
      ensures Carries(PluginDecoder(), frames[i], packets[i]) && ParsedAs(packets[i].payload, messages[i])
    {
      EncodedForPlugin(messages[i], frames[i]);
      SidecarMessagesParsed(messages[i]);
    }
    WrittenThenMore(PluginDecoder(), frames, packets, behind);
    PluginIsChunkingIndependent(chunks);
  }

  function Packets(messages: seq<Message>): (packets: seq<Packet>)
    requires forall i :: 0 <= i < |messages| ==> EncodePayload(messages[i]).Ok?
    ensures |packets| == |messages|
    ensures forall i ::
      0 <= i < |messages| ==> packets[i] == Packet(messages[i].Type(), EncodePayload(messages[i]).value)
  {
    if messages == [] then []
    else [Packet(messages[0].Type(), EncodePayload(messages[0]).value)] + Packets(messages[1..])
  }
}
