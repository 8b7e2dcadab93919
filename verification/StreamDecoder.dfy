/** FrameDecoder of src/obs_captions/ipc/framing/decode.py: messages out of a byte stream that arrives in chunks. */
module StreamDecoder {
  import opened Bytes
  import opened Framing
  import opened Messages
  import opened Streaming

  /** decode_frame at the front of a buffer. */
  function FrontMessage(buffer: seq<byte>): Step<Message> {
    match DecodeFrame(buffer, 0)
    case Err(NeedMoreData) => More
    case Err(_) => Raise
    case Ok((consumed, m)) => Got(consumed, m)
  }

  /** decode_frame at an offset is decode_frame at the front of what starts there. */
  lemma MessageAtOffset(buffer: seq<byte>, offset: nat)
    requires offset <= |buffer|
    ensures DecodeFrame(buffer, offset) == DecodeFrame(buffer[offset..], 0)
  {
    OffsetIsSlice(buffer, offset);
  }

  function SidecarDecoder(): Decoder<Message> {
    assert Progresses(FrontMessage);
    FrontMessage
  }

  lemma SidecarDecoderStable()
    ensures Stable(SidecarDecoder())
  {
    forall b, more | !FrontMessage(b).More?
      ensures FrontMessage(b + more) == FrontMessage(b)
    {
      VerdictStable(b, more);
    }
  }

  /** The sidecar's decoder gives the same messages and keeps the same bytes however the pipe cuts the stream. */
  lemma FeedingIsChunkingIndependent(chunks: seq<seq<byte>>)
    ensures var whole := DecodeAll(SidecarDecoder(), Concat(chunks));
      var fed := FeedAll(SidecarDecoder(), [], chunks);
      && (fed.failed <==> whole.failed)
      && (!fed.failed ==> fed == whole)
  {
    SidecarDecoderStable();
    assert [] + Concat(chunks) == Concat(chunks);
    ChunkingIndependent(SidecarDecoder(), [], chunks);
  }

  lemma EncodedCarries(m: Message, frame: seq<byte>)
    requires WellFormed(m) && Encode(m) == Ok(frame)
    ensures Carries(SidecarDecoder(), frame, m)
  {
    forall tail
      ensures FrontMessage(frame + tail) == Got(|frame|, m)
    {
      EncodeDecode(m, tail);
    }
  }

  /**
   Whatever messages are sent and however the pipe cuts the bytes, the decoder returns those messages and keeps nothing.
   */
  lemma SentIsReceived(messages: seq<Message>, frames: seq<seq<byte>>, chunks: seq<seq<byte>>)
    requires |frames| == |messages|
    requires forall i :: 0 <= i < |messages| ==> WellFormed(messages[i]) && Encode(messages[i]) == Ok(frames[i])
    requires Concat(chunks) == Concat(frames)
    ensures FeedAll(SidecarDecoder(), [], chunks) == Decoded(messages, [], false)
  {
    forall i | 0 <= i < |messages|
      ensures Carries(SidecarDecoder(), frames[i], messages[i])
    {
      EncodedCarries(messages[i], frames[i]);
    }
    FeedingIsChunkingIndependent(chunks);
    WrittenIsRead(SidecarDecoder(), frames, messages);
  }
}
