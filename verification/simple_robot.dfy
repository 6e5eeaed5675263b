/**
 * The older sample protocol of the robot: a frame is the header `0x9d`, the
 * whole frame's length, the message id and the payload. The mapper is a
 * two-entry table searched front to back. The decoder compares each byte
 * with the header after widening it to `int`, which no byte can equal;
 * `RobotDecode` takes the header value it compares with, so the decoder as
 * written and the decoder with the header cast to `byte` are one definition
 * applied to two constants.
 */
module SimpleRobotCodec {
  import opened JavaTypes
  import opened Results
  import opened RingBuffers
  import opened MessageDecoding

  /** The robot's message classes; any class outside the table is `OtherRobotClass`. */
  datatype RobotMessageClass = OperateWheelsClass | ReportProximitySensorClass | OtherRobotClass(tag: nat)

  /** The robot's messages with the fields they carry. */
  datatype RobotMessage = OperateWheels(leftWheelSpeed: int32, rightWheelSpeed: int32) | ReportProximitySensor(proximitySensorValue: int)

  /** One entry of the `MessageType` table. */
  datatype MessageType = MessageType(messageClass: RobotMessageClass, messageId: byte)

  /** `MessageType.values()`, in declaration order. */
  const MESSAGE_TYPES: seq<MessageType> := [MessageType(OperateWheelsClass, 1), MessageType(ReportProximitySensorClass, 2)]

  /** The id of the first entry for class `c`, if any. */
  function IdOfClass(types: seq<MessageType>, c: RobotMessageClass): (r: Option<byte>)
    ensures r.None? <==> forall i | 0 <= i < |types| :: types[i].messageClass != c
    ensures r.Some? ==> exists i | 0 <= i < |types| :: types[i] == MessageType(c, r.value) &&
                          forall j | 0 <= j < i :: types[j].messageClass != c
    decreases |types|
  {
    if types == [] then None
    else if types[0].messageClass == c then Some(types[0].messageId)
    else
      var r := IdOfClass(types[1..], c);
      assert forall j | 0 <= j < |types[1..]| :: types[1..][j] == types[j + 1];
      r
  }

  /** The class of the first entry with id `id`, if any. */
  function ClassOfId(types: seq<MessageType>, id: byte): (r: Option<RobotMessageClass>)
    ensures r.None? <==> forall i | 0 <= i < |types| :: types[i].messageId != id
    ensures r.Some? ==> exists i | 0 <= i < |types| :: types[i] == MessageType(r.value, id) &&
                          forall j | 0 <= j < i :: types[j].messageId != id
    decreases |types|
  {
    if types == [] then None
    else if types[0].messageId == id then Some(types[0].messageClass)
    else
      var r := ClassOfId(types[1..], id);
      assert forall j | 0 <= j < |types[1..]| :: types[1..][j] == types[j + 1];
      r
  }

  /** `getMessageIdByClass`: a one-byte id for a class in the table, null (None) otherwise. */
  function GetMessageIdByClass(c: RobotMessageClass): (r: Option<seq<byte>>)
    ensures r.Some? <==> c == OperateWheelsClass || c == ReportProximitySensorClass
    ensures c == OperateWheelsClass ==> r == Some([1])
    ensures c == ReportProximitySensorClass ==> r == Some([2])
  {
    var id := IdOfClass(MESSAGE_TYPES, c);
    if id.None? then None else Some([id.value])
  }

  /**
   * `getMessageClassById`: only `messageId[0]` is compared, so an empty id is
   * an index error; an id outside the table maps to null (None).
   */
  function GetMessageClassById(messageId: seq<byte>): (r: Result<Option<RobotMessageClass>>)
    ensures messageId == [] <==> r == Err(IndexOutOfBounds)
    ensures messageId != [] ==> r.Ok? && (r.value.None? <==> messageId[0] != 1 && messageId[0] != 2)
  {
    if messageId == [] then Err(IndexOutOfBounds) else Ok(ClassOfId(MESSAGE_TYPES, messageId[0]))
  }

  /** Class to id and back: every class in the table comes back. */
  lemma ClassIdClass(c: RobotMessageClass)
    requires GetMessageIdByClass(c).Some?
    ensures GetMessageClassById(GetMessageIdByClass(c).value) == Ok(Some(c))
  {
  }

  /** Id to class and back: every id in the table comes back as the same one-byte id. */
  lemma IdClassId(id: byte)
    requires GetMessageClassById([id]).value.Some?
    ensures GetMessageIdByClass(GetMessageClassById([id]).value.value) == Some([id])
  {
  }

  /**
   * `newInstance()`: the proximity report has a no-argument constructor;
   * the wheel command has only `OperateWheelsMessage(int, int)`.
   */
  function Instantiate(c: RobotMessageClass): (r: Option<RobotMessage>)
    ensures r.Some? <==> c == ReportProximitySensorClass
    ensures r.Some? ==> r.value.ReportProximitySensor?
  {
    if c == ReportProximitySensorClass then Some(ReportProximitySensor(0)) else None
  }

  /**
   * `decodePayload`: the proximity value is `data[startIndex]`; the wheel
   * command keeps the inherited `decodePayload`, which refuses.
   */
  function DecodePayload(m: RobotMessage, data: seq<byte>, startIndex: int, length: int): (r: Result<RobotMessage>)
    ensures m.ReportProximitySensor? && 0 <= startIndex < |data| ==> r == Ok(ReportProximitySensor(data[startIndex] as int))
    ensures m.ReportProximitySensor? && !(0 <= startIndex < |data|) ==> r == Err(IndexOutOfBounds)
    ensures m.OperateWheels? ==> r == Err(UnsupportedOperation)
  {
    match m
    case ReportProximitySensor(_) =>
      if 0 <= startIndex < |data| then Ok(ReportProximitySensor(data[startIndex] as int)) else Err(IndexOutOfBounds)
    case OperateWheels(_, _) => Err(UnsupportedOperation)
  }

  function RobotClasses(): MessageClasses<RobotMessageClass, RobotMessage>
  {
    MessageClasses(Instantiate, DecodePayload)
  }

  /** The value the decoder as written compares each byte with: the `int` literal `0x9D`. */
  const HEADER_AS_WRITTEN: int := 0x9D

  /** The header byte `(byte) 0x9D`, which the comparison evidently means. */
  const ROBOT_HEADER: byte := (0x9d - 0x100) as byte

  /** A `byte` widened to `int` lies in -128..127, so it never equals `0x9D`. */
  lemma NoByteIsHeaderAsWritten(b: byte)
    ensures b as int != HEADER_AS_WRITTEN
  {
  }

  /** How many leading bytes differ from `header` once widened to `int`: the resynchronisation consumes these. */
  function Resync(header: int, content: seq<byte>): (n: nat)
    ensures n <= |content|
    ensures forall i | 0 <= i < n :: content[i] as int != header
    ensures n < |content| ==> content[n] as int == header
    decreases |content|
  {
    if content == [] || content[0] as int == header then 0
    else 1 + Resync(header, content[1..])
  }

  /**
   * The frame part of `decodeMessage`, on bytes from the header on: byte 1 is
   * the whole frame's length (a signed byte); too few bytes give null and
   * consume nothing; a negative length fails to allocate, a length under 3
   * has no id byte; otherwise the frame is decoded from offset 3 and consumed
   * only when decoding succeeds.
   */
  function DecodeRobotFrame(rest: seq<byte>): (step: DecodeStep<RobotMessage>)
    ensures step.consumed <= |rest|
    ensures step.outcome.Decoded? ==> step.consumed >= 3
  {
    if |rest| < 2 then DecodeStep(0, NeedMore)
    else
      var messageLength := rest[1] as int;
      if |rest| < messageLength then DecodeStep(0, NeedMore)
      else if messageLength < 0 then DecodeStep(0, DecodeFailed(NegativeArraySize))
      else if messageLength < 3 then DecodeStep(0, DecodeFailed(IndexOutOfBounds))
      else
        match DecodeMessagePayload(Some(GetMessageClassById), RobotClasses(), [rest[2]], rest[..messageLength], 3, messageLength - 3)
        case Err(e) => DecodeStep(0, DecodeFailed(e))
        case Ok(None) => DecodeStep(messageLength, NeedMore)
        case Ok(Some(m)) => DecodeStep(messageLength, Decoded(m))
  }

  /** One `decodeMessage` call comparing bytes with `header`: resynchronise, then decode the frame. */
  function RobotDecode(header: int, content: seq<byte>): (step: DecodeStep<RobotMessage>)
    ensures Resync(header, content) <= step.consumed <= |content|
  {
    var skipped := Resync(header, content);
    var frame := DecodeRobotFrame(content[skipped..]);
    DecodeStep(skipped + frame.consumed, frame.outcome)
  }

  /** As written, the resynchronisation never stops at a byte: it consumes everything buffered. */
  lemma {:induction false} ResyncAsWrittenSkipsAll(content: seq<byte>)
    ensures Resync(HEADER_AS_WRITTEN, content) == |content|
    decreases |content|
  {
    if content != [] {
      ResyncAsWrittenSkipsAll(content[1..]);
    }
  }

  /** As written, every call returns null and leaves the buffer empty. */
  lemma DecodeAsWrittenDiscardsAll(content: seq<byte>)
    ensures RobotDecode(HEADER_AS_WRITTEN, content) == DecodeStep(|content|, NeedMore)
  {
    ResyncAsWrittenSkipsAll(content);
  }

  /** A proximity report frame, whatever follows it, decodes to the value it carries and is consumed whole. */
  lemma DecodeProximityFrame(value: byte, rest: seq<byte>)
    ensures RobotDecode(ROBOT_HEADER as int, [ROBOT_HEADER, 4, 2, value] + rest) ==
              DecodeStep(4, Decoded(ReportProximitySensor(value as int)))
  {
    var content := [ROBOT_HEADER, 4, 2, value] + rest;
    assert Resync(ROBOT_HEADER as int, content) == 0;
    assert content[0..][..4] == [ROBOT_HEADER, 4, 2, value];
  }

  /** The frame that shows the defect: the decoder as written discards it, the corrected one decodes it. */
  lemma ProximityFrameLost()
    ensures RobotDecode(HEADER_AS_WRITTEN, [ROBOT_HEADER, 4, 2, 7]) == DecodeStep(4, NeedMore)
    ensures RobotDecode(ROBOT_HEADER as int, [ROBOT_HEADER, 4, 2, 7]) == DecodeStep(4, Decoded(ReportProximitySensor(7)))
  {
    DecodeAsWrittenDiscardsAll([ROBOT_HEADER, 4, 2, 7]);
    DecodeProximityFrame(7, []);
    assert [ROBOT_HEADER, 4, 2, 7] + [] == [ROBOT_HEADER, 4, 2, 7];
  }

  /** Bytes before the header are skipped by the corrected decoder, which then decodes as if they were absent. */
  lemma {:induction false} SkipsNoise(noise: seq<byte>, content: seq<byte>)
    requires forall i | 0 <= i < |noise| :: noise[i] != ROBOT_HEADER
    ensures RobotDecode(ROBOT_HEADER as int, noise + content).consumed == |noise| + RobotDecode(ROBOT_HEADER as int, content).consumed
    ensures RobotDecode(ROBOT_HEADER as int, noise + content).outcome == RobotDecode(ROBOT_HEADER as int, content).outcome
  {
    ResyncSkips(noise, content);
    var n := Resync(ROBOT_HEADER as int, content);
    assert (noise + content)[|noise| + n..] == content[n..];
  }

  lemma {:induction false} ResyncSkips(noise: seq<byte>, content: seq<byte>)
    requires forall i | 0 <= i < |noise| :: noise[i] != ROBOT_HEADER
    ensures Resync(ROBOT_HEADER as int, noise + content) == |noise| + Resync(ROBOT_HEADER as int, content)
    decreases |noise|
  {
    if noise != [] {
      assert (noise + content)[1..] == noise[1..] + content;
      ResyncSkips(noise[1..], content);
    } else {
      assert noise + content == content;
    }
  }

  /**
   * A frame whose length byte is under 3 has no id byte to read: the call
   * fails without consuming it, so the corrected decoder stays stuck on it.
   */
  lemma ShortFrameStaysAtFront(length: byte, rest: seq<byte>)
    requires 0 <= length < 3
    ensures RobotDecode(ROBOT_HEADER as int, [ROBOT_HEADER, length] + rest) == DecodeStep(0, DecodeFailed(IndexOutOfBounds))
  {
    var content := [ROBOT_HEADER, length] + rest;
    assert Resync(ROBOT_HEADER as int, content) == 0;
    assert content[0..] == content;
  }

  /**
   * `SimpleRobotMessageDecoder.decodeMessage`, comparing the front byte with
   * `header`: `HEADER_AS_WRITTEN` as the code is, `ROBOT_HEADER as int` as
   * it is meant.
   */
  method DecodeMessage(inputBuffer: ByteRingBuffer, header: int) returns (r: DecodeOutcome<RobotMessage>)
    requires inputBuffer.Valid()
    modifies inputBuffer`headIndex, inputBuffer`contentSize
    ensures inputBuffer.Valid()
    ensures var step := RobotDecode(header, old(inputBuffer.Contents()));
            r == step.outcome && inputBuffer.Contents() == old(inputBuffer.Contents())[step.consumed..]
  {
    ghost var content := inputBuffer.Contents();
    ghost var skipped := 0;
    while inputBuffer.contentSize > 0
      invariant inputBuffer.Valid() && skipped <= |content| && inputBuffer.Contents() == content[skipped..]
      invariant forall i | 0 <= i < skipped :: content[i] as int != header
      decreases inputBuffer.contentSize
    {
      var front := inputBuffer.Peek(0);
      if front.value as int == header {
        break;
      }
      var _ := inputBuffer.Consume(1);
      skipped := skipped + 1;
    }
    assert skipped == Resync(header, content) by {
      ResyncOf(header, content, skipped);
    }
    if inputBuffer.contentSize == 0 {
      return NeedMore;
    }
    r := DecodeFrameAt(inputBuffer);
    assert content[skipped..][DecodeRobotFrame(content[skipped..]).consumed..]
        == content[skipped + DecodeRobotFrame(content[skipped..]).consumed..];
  }

  /** The resynchronisation count is the first position holding the header, or the length when none does. */
  lemma {:induction false} ResyncOf(header: int, content: seq<byte>, n: nat)
    requires n <= |content| && forall i | 0 <= i < n :: content[i] as int != header
    requires n < |content| ==> content[n] as int == header
    ensures Resync(header, content) == n
    decreases n
  {
    if n > 0 {
      assert forall i | 0 <= i < n - 1 :: content[1..][i] == content[i + 1];
      ResyncOf(header, content[1..], n - 1);
    }
  }

  /** The part of `decodeMessage` from the header on. */
  method DecodeFrameAt(inputBuffer: ByteRingBuffer) returns (r: DecodeOutcome<RobotMessage>)
    requires inputBuffer.Valid()
    modifies inputBuffer`headIndex, inputBuffer`contentSize
    ensures inputBuffer.Valid()
    ensures var step := DecodeRobotFrame(old(inputBuffer.Contents()));
            r == step.outcome && inputBuffer.Contents() == old(inputBuffer.Contents())[step.consumed..]
  {
    if inputBuffer.contentSize < 2 {
      return NeedMore;
    }
    var lengthByte := inputBuffer.Peek(1);
    var messageLength := lengthByte.value as int;
    if inputBuffer.contentSize < messageLength {
      return NeedMore;
    }
    var messageBytes := inputBuffer.ReadWithoutConsume(messageLength);
    if messageBytes.Err? {
      return DecodeFailed(messageBytes.error);
    }
    if |messageBytes.value| <= 2 {
      return DecodeFailed(IndexOutOfBounds);
    }
    var messageId := messageBytes.value[2];
    var decoded := DecodeMessagePayload(Some(GetMessageClassById), RobotClasses(), [messageId],
                                        messageBytes.value, 3, messageLength - 3);
    if decoded.Err? {
      return DecodeFailed(decoded.error);
    }
    var _ := inputBuffer.Consume(messageLength);
    r := if decoded.value.Some? then Decoded(decoded.value.value) else NeedMore;
  }
}
