/**
 * The sample protocol's `Decoder.decodeMessage`: skip to the header byte,
 * work out the frame length from the id, and hand a complete frame to the
 * framework's `decodeMessagePayload`. `SampleDecode` says what one call does
 * to the buffered bytes; `DecodeMessage` does it on a `ByteRingBuffer`.
 */
module SampleDecoding {
  import opened JavaTypes
  import opened Results
  import opened RingBuffers
  import opened MessageDecoding
  import opened SampleMessages

  /** How many leading bytes are not the header: the resynchronisation skips exactly these. */
  function HeaderOffset(content: seq<byte>): (n: nat)
    ensures n <= |content|
    ensures forall i | 0 <= i < n :: content[i] != HEADER_BYTE
    ensures n < |content| ==> content[n] == HEADER_BYTE
    decreases |content|
  {
    if content == [] || content[0] == HEADER_BYTE then 0
    else 1 + HeaderOffset(content[1..])
  }

  /** The whole frame length, header included, that a message id announces: 3, 2, or 0 for any other id. */
  function FrameLength(messageId: byte): (n: nat)
    ensures n == 3 <==> messageId == 1
    ensures n == 2 <==> messageId == 2
    ensures n == 0 <==> messageId != 1 && messageId != 2
  {
    if messageId == 1 then 3 else if messageId == 2 then 2 else 0
  }

  /** What `decodeMessage` makes of the result of `decodeMessagePayload`: a message, null, or the exception. */
  function OutcomeOf(decoded: Result<Option<SampleMessage>>): DecodeOutcome<SampleMessage>
  {
    match decoded
    case Err(e) => DecodeFailed(e)
    case Ok(None) => NeedMore
    case Ok(Some(m)) => Decoded(m)
  }

  /**
   * The part of `decodeMessage` after the resynchronisation, on bytes that
   * start at the header: with the header alone, or too few bytes for the
   * frame its id announces, it returns null and consumes nothing; otherwise
   * the frame is consumed and decoded from offset 2.
   */
  function DecodeFrame(rest: seq<byte>): (step: DecodeStep<SampleMessage>)
    ensures step.consumed <= |rest|
    ensures step.outcome.Decoded? ==> step.consumed >= 2
  {
    if |rest| < 2 then DecodeStep(0, NeedMore)
    else
      var messageLength := FrameLength(rest[1]);
      if |rest| < messageLength then DecodeStep(0, NeedMore)
      else
        var decoded := DecodeMessagePayload(Some(SampleMapper()), SampleClasses(), [rest[1]],
                                            rest[..messageLength], 2, messageLength - 2);
        DecodeStep(messageLength, OutcomeOf(decoded))
  }

  /**
   * One call of `decodeMessage` on the buffered bytes `content`: the bytes
   * before the first header are consumed, then the frame from the header on.
   */
  function SampleDecode(content: seq<byte>): (step: DecodeStep<SampleMessage>)
    ensures HeaderOffset(content) <= step.consumed <= |content|
    ensures step.outcome.Decoded? ==> step.consumed >= HeaderOffset(content) + 2
  {
    var skipped := HeaderOffset(content);
    var frame := DecodeFrame(content[skipped..]);
    DecodeStep(skipped + frame.consumed, frame.outcome)
  }

  /** The sample decoder consumes no more than is buffered, and at least the frame it returns. */
  lemma SampleDecodeWellBehaved()
    ensures WellBehaved(SampleDecode)
  {
    forall content: seq<byte>
      ensures SampleDecode(content).consumed <= |content|
      ensures SampleDecode(content).outcome.Decoded? ==> SampleDecode(content).consumed >= 1
    {
    }
  }

  /** A button frame, whatever follows it, decodes to the button it carries and is consumed whole. */
  lemma {:induction false} DecodeButtonFrame(buttonId: byte, rest: seq<byte>)
    ensures SampleDecode([HEADER_BYTE, 1, buttonId] + rest) == DecodeStep(3, Decoded(ButtonPressed(buttonId)))
  {
    var content := [HEADER_BYTE, 1, buttonId] + rest;
    assert HeaderOffset(content) == 0;
    assert content[0..][..3] == [HEADER_BYTE, 1, buttonId];
  }

  /** A battery frame, whatever follows it, decodes to the alert and is consumed whole. */
  lemma {:induction false} DecodeLowBatteryFrame(rest: seq<byte>)
    ensures SampleDecode([HEADER_BYTE, 2] + rest) == DecodeStep(2, Decoded(LowBatteryAlert))
  {
    var content := [HEADER_BYTE, 2] + rest;
    assert HeaderOffset(content) == 0;
    assert content[0..][..2] == [HEADER_BYTE, 2];
  }

  /** Bytes before the header are skipped: the call then decodes what follows them, as if they were absent. */
  lemma {:induction false} SkipsNoise(noise: seq<byte>, content: seq<byte>)
    requires forall i | 0 <= i < |noise| :: noise[i] != HEADER_BYTE
    ensures SampleDecode(noise + content).consumed == |noise| + SampleDecode(content).consumed
    ensures SampleDecode(noise + content).outcome == SampleDecode(content).outcome
    decreases |noise|
  {
    HeaderOffsetSkips(noise, content);
    assert (noise + content)[|noise| + HeaderOffset(content)..] == content[HeaderOffset(content)..];
  }

  /** The header offset of noise followed by `content` is the noise plus the offset in `content`. */
  lemma {:induction false} HeaderOffsetSkips(noise: seq<byte>, content: seq<byte>)
    requires forall i | 0 <= i < |noise| :: noise[i] != HEADER_BYTE
    ensures HeaderOffset(noise + content) == |noise| + HeaderOffset(content)
    decreases |noise|
  {
    if noise != [] {
      assert (noise + content)[1..] == noise[1..] + content;
      HeaderOffsetSkips(noise[1..], content);
    } else {
      assert noise + content == content;
    }
  }

  /**
   * A header followed by an id other than 1 and 2 announces a frame of length
   * 0: nothing is consumed and decoding fails, so the header stays at the
   * front and every later call fails on it again.
   */
  lemma {:induction false} UnknownIdStaysAtFront(messageId: byte, rest: seq<byte>)
    requires messageId != 1 && messageId != 2
    ensures SampleDecode([HEADER_BYTE, messageId] + rest).consumed == 0
    ensures SampleDecode([HEADER_BYTE, messageId] + rest).outcome ==
              DecodeFailed(if messageId == 3 then Runtime(Instantiation) else UndefinedMessageId([messageId]))
  {
    var content := [HEADER_BYTE, messageId] + rest;
    assert HeaderOffset(content) == 0;
    assert content[0..] == content;
  }

  /** The header alone, or a button frame cut short, is not enough: only the noise before it is consumed. */
  lemma {:induction false} IncompleteFrameWaits(noise: seq<byte>, partial: seq<byte>)
    requires forall i | 0 <= i < |noise| :: noise[i] != HEADER_BYTE
    requires partial == [HEADER_BYTE] || (|partial| == 2 && partial[..2] == [HEADER_BYTE, 1])
    ensures SampleDecode(noise + partial) == DecodeStep(|noise|, NeedMore)
  {
    SkipsNoise(noise, partial);
    assert HeaderOffset(partial) == 0;
  }

  /** An encoded button frame decodes back to the button, whatever follows it. */
  lemma EncodedButtonDecodes(buttonId: byte, rest: seq<byte>)
    ensures EncodeFrame(ButtonPressedClass, Some([buttonId])).Ok?
    ensures SampleDecode(EncodeFrame(ButtonPressedClass, Some([buttonId])).value + rest) ==
              DecodeStep(3, Decoded(ButtonPressed(buttonId)))
  {
    assert EncodeFrame(ButtonPressedClass, Some([buttonId])).value == [HEADER_BYTE, 1, buttonId];
    DecodeButtonFrame(buttonId, rest);
  }

  /**
   * `Decoder.decodeMessage(inputBuffer)`: consumes bytes up to the header
   * one at a time, peeks at the id, reads the whole frame and decodes it.
   */
  method DecodeMessage(inputBuffer: ByteRingBuffer) returns (r: DecodeOutcome<SampleMessage>)
    requires inputBuffer.Valid()
    modifies inputBuffer`headIndex, inputBuffer`contentSize
    ensures inputBuffer.Valid()
    ensures var step := SampleDecode(old(inputBuffer.Contents()));
            r == step.outcome && inputBuffer.Contents() == old(inputBuffer.Contents())[step.consumed..]
  {
    ghost var content := inputBuffer.Contents();
    SkipToHeader(inputBuffer);
    ghost var rest := inputBuffer.Contents();
    SampleDecodeOfRest(content, rest);
    if inputBuffer.contentSize == 0 {
      assert HeaderOffset(content) == |content|;
      NoHeaderNeedsMore(content);
      return NeedMore;
    }
    r := DecodeFrameAt(inputBuffer);
  }

  /** After the resynchronisation, what is left to decode is the frame from the header on. */
  lemma SampleDecodeOfRest(content: seq<byte>, rest: seq<byte>)
    requires rest == content[HeaderOffset(content)..]
    ensures SampleDecode(content).outcome == DecodeFrame(rest).outcome
    ensures rest[DecodeFrame(rest).consumed..] == content[SampleDecode(content).consumed..]
  {
    var skipped := HeaderOffset(content);
    var frame := DecodeFrame(rest);
    SampleDecodeSplits(content, skipped, rest, frame);
    DropDrop(content, skipped, frame.consumed);
  }

  /** Without a header byte, everything is consumed and null returned. */
  lemma NoHeaderNeedsMore(content: seq<byte>)
    requires forall i | 0 <= i < |content| :: content[i] != HEADER_BYTE
    ensures SampleDecode(content) == DecodeStep(|content|, NeedMore)
  {
    var skipped := HeaderOffset(content);
    assert skipped == |content|;
    assert DecodeFrame([]) == DecodeStep(0, NeedMore);
  }

  /** `SampleDecode` is the skip followed by the frame decoded from the header on. */
  lemma SampleDecodeSplits(content: seq<byte>, skipped: nat, rest: seq<byte>, frame: DecodeStep<SampleMessage>)
    requires skipped == HeaderOffset(content) && rest == content[skipped..] && frame == DecodeFrame(rest)
    ensures SampleDecode(content) == DecodeStep(skipped + frame.consumed, frame.outcome)
  {
  }

  /** The resynchronisation loop of `decodeMessage`: consumes the bytes before the first header, one at a time. */
  method SkipToHeader(inputBuffer: ByteRingBuffer)
    requires inputBuffer.Valid()
    modifies inputBuffer`headIndex, inputBuffer`contentSize
    ensures inputBuffer.Valid()
    ensures inputBuffer.Contents() == old(inputBuffer.Contents())[HeaderOffset(old(inputBuffer.Contents()))..]
  {
    ghost var content := inputBuffer.Contents();
    ghost var skipped := 0;
    while inputBuffer.contentSize > 0
      invariant inputBuffer.Valid() && skipped <= |content| && inputBuffer.Contents() == content[skipped..]
      invariant forall i | 0 <= i < skipped :: content[i] != HEADER_BYTE
      decreases inputBuffer.contentSize
    {
      var front := inputBuffer.Peek(0);
      if front.value == HEADER_BYTE {
        break;
      }
      var _ := inputBuffer.Consume(1);
      skipped := skipped + 1;
    }
    assert skipped == HeaderOffset(content) by {
      HeaderOffsetSkips(content[..skipped], content[skipped..]);
      assert content[..skipped] + content[skipped..] == content;
    }
  }

  /** Dropping `m` bytes and then `n` more drops `m + n`. */
  lemma DropDrop(s: seq<byte>, m: nat, n: nat)
    requires m + n <= |s|
    ensures s[m..][n..] == s[m + n..]
  {
  }

  /** The part of `decodeMessage` from the header on: peek at the id, then read and decode the whole frame. */
  method DecodeFrameAt(inputBuffer: ByteRingBuffer) returns (r: DecodeOutcome<SampleMessage>)
    requires inputBuffer.Valid()
    modifies inputBuffer`headIndex, inputBuffer`contentSize
    ensures inputBuffer.Valid()
    ensures var step := DecodeFrame(old(inputBuffer.Contents()));
            r == step.outcome && inputBuffer.Contents() == old(inputBuffer.Contents())[step.consumed..]
  {
    if inputBuffer.contentSize < 2 {
      return NeedMore;
    }
    var id := inputBuffer.Peek(1);
    var messageId := id.value;
    var messageLength := 0;
    if messageId == 1 {
      messageLength := 3;
    } else if messageId == 2 {
      messageLength := 2;
    }
    if inputBuffer.contentSize < messageLength {
      return NeedMore;
    }
    var messageBytes := inputBuffer.Read(messageLength);
    var decoded := DecodeMessagePayload(Some(SampleMapper()), SampleClasses(), [messageId],
                                        messageBytes.value, 2, messageLength - 2);
    r := OutcomeOf(decoded);
  }
}
