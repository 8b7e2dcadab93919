/**
 Decoding a byte stream that arrives in chunks, for any decoder of the message at the
 front of a buffer that uses up what it decodes and never changes its mind when more
 bytes arrive.
 */
module Streaming {
  import opened Bytes

  /** What a decoder says of the front of a buffer: not enough yet, an exception, or a message. */
  datatype Step<+M> = More | Raise | Got(consumed: nat, message: M)

  /** A decoder that waits for a first byte, always consumes something, and no more than there is. */
  type Decoder<!M> = d: seq<byte> -> Step<M> | Progresses(d) witness (b: seq<byte>) => More

  ghost predicate Progresses<M>(d: seq<byte> -> Step<M>) {
    && d([]).More?
    && forall b :: d(b).Got? ==> 0 < d(b).consumed <= |b|
  }

  ghost predicate Stable<M>(d: Decoder<M>) {
    forall b, more :: !d(b).More? ==> d(b + more) == d(b)
  }

  /** All the messages at the front of a buffer, what is left, and whether decoding stopped at an exception. */
  datatype Decoded<+M> = Decoded(messages: seq<M>, rest: seq<byte>, failed: bool)

  /** The result with messages decoded before it put in front. */
  function After<M>(earlier: seq<M>, d: Decoded<M>): Decoded<M> {
    Decoded(earlier + d.messages, d.rest, d.failed)
  }

  lemma AfterAfter<M>(a: seq<M>, b: seq<M>, d: Decoded<M>)
    ensures After(a, After(b, d)) == After(a + b, d)
  {
    assert a + (b + d.messages) == (a + b) + d.messages;
  }

  lemma AfterNothing<M>(d: Decoded<M>)
    ensures After([], d) == d
  {
    assert [] + d.messages == d.messages;
  }

  function DecodeAll<M>(d: Decoder<M>, buffer: seq<byte>): Decoded<M>
    decreases |buffer|
  {
    match d(buffer)
    case More => Decoded([], buffer, false)
    case Raise => Decoded([], buffer, true)
    case Got(consumed, m) =>
      After([m], DecodeAll(d, buffer[consumed..]))
  }

  /** One turn of the loop: the next message joins those decoded before it. */
  lemma DecodesNext<M>(d: Decoder<M>, whole: seq<byte>, cursor: nat, out: seq<M>)
    requires cursor < |whole| && d(whole[cursor..]).Got?
    ensures var step := d(whole[cursor..]);
      && cursor + step.consumed <= |whole|
      && After(out, DecodeAll(d, whole[cursor..]))
           == After(out + [step.message], DecodeAll(d, whole[cursor + step.consumed..]))
  {
    var step := d(whole[cursor..]);
    assert whole[cursor..][step.consumed..] == whole[cursor + step.consumed..];
    AfterAfter(out, [step.message], DecodeAll(d, whole[cursor + step.consumed..]));
  }

  /** The end of the loop: nothing is left, or no whole frame, or a bad one. */
  lemma DecodesNoMore<M>(d: Decoder<M>, left: seq<byte>, out: seq<M>)
    requires left == [] || !d(left).Got?
    ensures After(out, DecodeAll(d, left)) == Decoded(out, left, left != [] && d(left).Raise?)
  {
  }

  /** FrameDecoder: `decode` stands for decode_frame at the cursor. */
  class FrameDecoder<!M> {
    const decode: Decoder<M>
    var buffer: seq<byte>

    constructor (decode: Decoder<M>)
      ensures buffer == [] && this.decode == decode
    {
      this.decode := decode;
      buffer := [];
    }

    /** The loop of feed, up to the first error or incomplete frame. */
    method DecodeFrames(whole: seq<byte>) returns (raised: bool, out: seq<M>, cursor: nat)
      ensures cursor <= |whole|
      ensures DecodeAll(decode, whole) == Decoded(out, whole[cursor..], raised)
    {
      ghost var total := DecodeAll(decode, whole);
      raised, out, cursor := false, [], 0;
      assert whole[0..] == whole;
      AfterNothing(total);
      while cursor < |whole|
        invariant cursor <= |whole|
        invariant total == After(out, DecodeAll(decode, whole[cursor..]))
        decreases |whole| - cursor
      {
        var step := decode(whole[cursor..]);
        if !step.Got? {
          DecodesNoMore(decode, whole[cursor..], out);
          return step.Raise?, out, cursor;
        }
        DecodesNext(decode, whole, cursor, out);
        out := out + [step.message];
        cursor := cursor + step.consumed;
      }
      DecodesNoMore(decode, whole[cursor..], out);
    }

    /** feed: when it raises, the messages decoded earlier in the same call are lost. */
    method Feed(data: seq<byte>) returns (raised: bool, out: seq<M>)
      modifies this
      ensures var d := DecodeAll(decode, old(buffer) + data);
        && buffer == d.rest
        && raised == d.failed
        && out == if d.failed then [] else d.messages
    {
      buffer := buffer + data;
      var failed, messages, cursor := DecodeFrames(buffer);
      buffer := buffer[cursor..];
      raised := failed;
      out := if failed then [] else messages;
    }
  }

  /** Feeding chunks one after the other, as long as no call raises. */
  function FeedAll<M>(d: Decoder<M>, buffer: seq<byte>, chunks: seq<seq<byte>>): Decoded<M>
    decreases |chunks|
  {
    if chunks == [] then Decoded([], buffer, false) else
    var first := DecodeAll(d, buffer + chunks[0]);
    if first.failed then Decoded([], first.rest, true) else
    After(first.messages, FeedAll(d, first.rest, chunks[1..]))
  }

  lemma DropFromSum(buffer: seq<byte>, more: seq<byte>, n: nat)
    requires n <= |buffer|
    ensures (buffer + more)[n..] == buffer[n..] + more
  {
  }

  /** Decoding a longer buffer is decoding the shorter one and going on from what it left. */
  lemma {:induction false} DecodeInTwo<M>(d: Decoder<M>, buffer: seq<byte>, more: seq<byte>)
    requires Stable(d)
    ensures var first := DecodeAll(d, buffer);
      DecodeAll(d, buffer + more) ==
      if first.failed then Decoded(first.messages, first.rest + more, true)
      else After(first.messages, DecodeAll(d, first.rest + more))
    decreases |buffer|
  {
    if d(buffer).More? {
      AfterNothing(DecodeAll(d, buffer + more));
    } else {
      assert d(buffer + more) == d(buffer);
    }
    if d(buffer).Got? {
      var n, m := d(buffer).consumed, d(buffer).message;
      DecodeInTwo(d, buffer[n..], more);
      DropFromSum(buffer, more, n);
      var tail := DecodeAll(d, buffer[n..]);
      AfterAfter([m], tail.messages, DecodeAll(d, tail.rest + more));
    }
  }

  lemma {:induction false} RestIsSettled<M>(d: Decoder<M>, buffer: seq<byte>)
    ensures !DecodeAll(d, buffer).failed ==> d(DecodeAll(d, buffer).rest).More?
    decreases |buffer|
  {
    if d(buffer).Got? {
      RestIsSettled(d, buffer[d(buffer).consumed..]);
    }
  }

  /**
   However a stream is cut into chunks, some call raises exactly when feeding it whole would,
   and otherwise the messages and the final buffer are the same.
   */
  lemma {:induction false} ChunkingIndependent<M>(d: Decoder<M>, buffer: seq<byte>, chunks: seq<seq<byte>>)
    requires Stable(d) && d(buffer).More?
    ensures FeedAll(d, buffer, chunks).failed <==> DecodeAll(d, buffer + Concat(chunks)).failed
    ensures !FeedAll(d, buffer, chunks).failed ==> FeedAll(d, buffer, chunks) == DecodeAll(d, buffer + Concat(chunks))
    decreases |chunks|
  {
    if chunks == [] {
      assert buffer + Concat(chunks) == buffer;
    } else {
      var first := DecodeAll(d, buffer + chunks[0]);
      assert buffer + Concat(chunks) == buffer + chunks[0] + Concat(chunks[1..]);
      DecodeInTwo(d, buffer + chunks[0], Concat(chunks[1..]));
      if !first.failed {
        RestIsSettled(d, buffer + chunks[0]);
        ChunkingIndependent(d, first.rest, chunks[1..]);
      }
    }
  }

  /** Reading chunks one after the other; what was decoded before an error is kept. */
  function ReadAll<M>(d: Decoder<M>, buffer: seq<byte>, chunks: seq<seq<byte>>): Decoded<M>
    decreases |chunks|
  {
    if chunks == [] then Decoded([], buffer, false) else
    var first := DecodeAll(d, buffer + chunks[0]);
    if first.failed then first else
    After(first.messages, ReadAll(d, first.rest, chunks[1..]))
  }

  /** The buffer of run_reader: `decode` stands for try_decode_frame at its front. */
  class PipeReader<!M> {
    const decode: Decoder<M>
    var inBuf: seq<byte>
    /** What process_payload was given so far. */
    var processed: seq<M>

    constructor (decode: Decoder<M>)
      ensures inBuf == [] && processed == [] && this.decode == decode
    {
      this.decode := decode;
      inBuf, processed := [], [];
    }

    /**
     One turn of the outer loop, on what was read; nothing read is the end. Messages before a bad frame are processed.
     */
    method Receive(data: seq<byte>) returns (goesOn: bool)
      modifies this
      ensures data == [] ==> !goesOn && inBuf == old(inBuf) && processed == old(processed)
      ensures data != [] ==>
        var d := DecodeAll(decode, old(inBuf) + data);
        inBuf == d.rest && processed == old(processed) + d.messages && goesOn == !d.failed
    {
      if data == [] {
        return false;
      }
      inBuf := inBuf + data;
      ghost var total := DecodeAll(decode, inBuf);
      while true
        invariant After(old(processed), total) == After(processed, DecodeAll(decode, inBuf))
        decreases |inBuf|
      {
        var step := decode(inBuf);
        if step.More? {
          return true;
        }
        if step.Raise? {
          return false;
        }
        AfterAfter(processed, [step.message], DecodeAll(decode, inBuf[step.consumed..]));
        inBuf := inBuf[step.consumed..];
        processed := processed + [step.message];
      }
    }
  }

  /**
   A reader that keeps them gets the messages of the whole stream, up to its first error if there is one, for every cut.
   */
  lemma {:induction false} ReadingIsChunkingIndependent<M>(d: Decoder<M>, buffer: seq<byte>, chunks: seq<seq<byte>>)
    requires Stable(d) && d(buffer).More?
    ensures var whole, read := DecodeAll(d, buffer + Concat(chunks)), ReadAll(d, buffer, chunks);
      && read.messages == whole.messages && read.failed == whole.failed
      && read.rest <= whole.rest && (!read.failed ==> read.rest == whole.rest)
    decreases |chunks|
  {
    if chunks == [] {
      assert buffer + Concat(chunks) == buffer;
    } else {
      var first := DecodeAll(d, buffer + chunks[0]);
      assert buffer + Concat(chunks) == buffer + chunks[0] + Concat(chunks[1..]);
      DecodeInTwo(d, buffer + chunks[0], Concat(chunks[1..]));
      if !first.failed {
        RestIsSettled(d, buffer + chunks[0]);
        ReadingIsChunkingIndependent(d, first.rest, chunks[1..]);
      }
    }
  }

  /** The byte strings DecodeAll consumes, one for each message. */
  function Frames<M>(d: Decoder<M>, buffer: seq<byte>): seq<seq<byte>>
    decreases |buffer|
  {
    match d(buffer)
    case Got(consumed, m) => [buffer[..consumed]] + Frames(d, buffer[consumed..])
    case _ => []
  }

  /** Consumed frames plus leftover are the input. */
  lemma {:induction false} NothingLost<M>(d: Decoder<M>, buffer: seq<byte>)
    ensures buffer == Concat(Frames(d, buffer)) + DecodeAll(d, buffer).rest
    ensures |Frames(d, buffer)| == |DecodeAll(d, buffer).messages|
    decreases |buffer|
  {
    if d(buffer).Got? {
      var n := d(buffer).consumed;
      NothingLost(d, buffer[n..]);
      assert Frames(d, buffer)[1..] == Frames(d, buffer[n..]);
      assert buffer == buffer[..n] + (Concat(Frames(d, buffer[n..])) + DecodeAll(d, buffer[n..]).rest);
    }
  }

  /** `frame` carries `m`, whatever follows it. */
  ghost predicate Carries<M>(d: Decoder<M>, frame: seq<byte>, m: M) {
    forall tail :: d(frame + tail) == Got(|frame|, m)
  }

  /** Frames written one after the other are decoded to their messages, and then comes what follows them. */
  lemma {:induction false} WrittenThenMore<M>(d: Decoder<M>, frames: seq<seq<byte>>, messages: seq<M>, more: seq<byte>)
    requires |frames| == |messages|
    requires forall i :: 0 <= i < |frames| ==> Carries(d, frames[i], messages[i])
    ensures DecodeAll(d, Concat(frames) + more) == After(messages, DecodeAll(d, more))
    decreases |frames|
  {
    if frames == [] {
      assert [] + more == more;
      AfterNothing(DecodeAll(d, more));
    } else {
      var frame, rest := frames[0], Concat(frames[1..]) + more;
      assert Carries(d, frame, messages[0]);
      assert Concat(frames) + more == frame + rest;
      assert (frame + rest)[|frame|..] == rest;
      WrittenThenMore(d, frames[1..], messages[1..], more);
      AfterAfter([messages[0]], messages[1..], DecodeAll(d, more));
      assert messages == [messages[0]] + messages[1..];
    }
  }

  /** When nothing follows, nothing is left. */
  lemma WrittenIsRead<M>(d: Decoder<M>, frames: seq<seq<byte>>, messages: seq<M>)
    requires |frames| == |messages|
    requires forall i :: 0 <= i < |frames| ==> Carries(d, frames[i], messages[i])
    ensures DecodeAll(d, Concat(frames)) == Decoded(messages, [], false)
  {
    WrittenThenMore(d, frames, messages, []);
    assert Concat(frames) + [] == Concat(frames);
    assert messages + [] == messages;
  }
}
