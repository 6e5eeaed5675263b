/**
 * The messages of the sample remote-control protocol: a frame is the header
 * byte `0x9d`, a one-byte message id and the payload. The mapper ties the
 * three message classes to their ids; the encoder lays out a frame.
 */
module SampleMessages {
  import opened JavaTypes
  import opened Results
  import opened MessageDecoding

  /** `(byte) 0x9d`, the first byte of every frame. */
  const HEADER_BYTE: byte := (0x9d - 0x100) as byte

  /** The message classes a mapper can be asked about; any class outside the protocol is `OtherMessageClass`. */
  datatype MessageClass = ButtonPressedClass | LowBatteryAlertClass | StartBeepClass | OtherMessageClass(tag: nat)

  /** The protocol's messages with the fields they carry. */
  datatype SampleMessage = ButtonPressed(buttonId: byte) | LowBatteryAlert | StartBeep(timeDuration: int32)

  /** The class a message is an instance of. */
  function ClassOf(m: SampleMessage): (c: MessageClass)
    ensures !c.OtherMessageClass?
  {
    match m
    case ButtonPressed(_) => ButtonPressedClass
    case LowBatteryAlert => LowBatteryAlertClass
    case StartBeep(_) => StartBeepClass
  }

  /** `getMessageIdByClass`: the one-byte id of a protocol class, null (None) for any other class. */
  function GetMessageIdByClass(c: MessageClass): (r: Option<seq<byte>>)
    ensures r.Some? <==> !c.OtherMessageClass?
    ensures r.Some? ==> |r.value| == 1 && 1 <= r.value[0] <= 3
  {
    match c
    case ButtonPressedClass => Some([1])
    case LowBatteryAlertClass => Some([2])
    case StartBeepClass => Some([3])
    case OtherMessageClass(_) => None
  }

  /**
   * `getMessageClassById`: only the first byte of the id is looked at, so an
   * empty id is an index error; an id byte outside 1..3 maps to null (None).
   * A class found this way maps back to the id's first byte.
   */
  function GetMessageClassById(messageId: seq<byte>): (r: Result<Option<MessageClass>>)
    ensures messageId == [] <==> r == Err(IndexOutOfBounds)
    ensures messageId != [] ==> r.Ok? && (r.value.None? <==> !(1 <= messageId[0] <= 3))
    ensures r.Ok? && r.value.Some? ==> GetMessageIdByClass(r.value.value) == Some(messageId[..1])
  {
    if messageId == [] then Err(IndexOutOfBounds)
    else if messageId[0] == 1 then assert messageId[..1] == [1]; Ok(Some(ButtonPressedClass))
    else if messageId[0] == 2 then assert messageId[..1] == [2]; Ok(Some(LowBatteryAlertClass))
    else if messageId[0] == 3 then assert messageId[..1] == [3]; Ok(Some(StartBeepClass))
    else Ok(None)
  }

  /** Every protocol class survives the trip to its id and back. */
  lemma ClassIdRoundTrip(c: MessageClass)
    requires !c.OtherMessageClass?
    ensures GetMessageClassById(GetMessageIdByClass(c).value) == Ok(Some(c))
  {
  }

  /**
   * `newInstance()` of a class: the two received messages have a no-argument
   * constructor; `StartBeepMessage` has only `StartBeepMessage(int)`, so
   * reflection cannot create it.
   */
  function Instantiate(c: MessageClass): (r: Option<SampleMessage>)
    ensures r.Some? ==> ClassOf(r.value) == c
    ensures r.Some? <==> c == ButtonPressedClass || c == LowBatteryAlertClass
  {
    match c
    case ButtonPressedClass => Some(ButtonPressed(0))
    case LowBatteryAlertClass => Some(LowBatteryAlert)
    case StartBeepClass => None
    case OtherMessageClass(_) => None
  }

  /**
   * `decodePayload(data, startIndex, length)`: a button message takes its id
   * from `data[startIndex]`; the battery alert carries nothing; a message that
   * is only ever sent refuses to be decoded.
   */
  function DecodePayload(m: SampleMessage, data: seq<byte>, startIndex: int, length: int): (r: Result<SampleMessage>)
    ensures m.ButtonPressed? && 0 <= startIndex < |data| ==> r == Ok(ButtonPressed(data[startIndex]))
    ensures m.ButtonPressed? && !(0 <= startIndex < |data|) ==> r == Err(IndexOutOfBounds)
    ensures m.LowBatteryAlert? ==> r == Ok(LowBatteryAlert)
    ensures m.StartBeep? ==> r == Err(UnsupportedOperation)
  {
    match m
    case ButtonPressed(_) => if 0 <= startIndex < |data| then Ok(ButtonPressed(data[startIndex])) else Err(IndexOutOfBounds)
    case LowBatteryAlert => Ok(m)
    case StartBeep(_) => Err(UnsupportedOperation)
  }

  /** The sample protocol's message classes, as the framework's decoder sees them. */
  function SampleClasses(): MessageClasses<MessageClass, SampleMessage>
  {
    MessageClasses(Instantiate, DecodePayload)
  }

  /** The sample mapper, as the framework's decoder sees it. */
  function SampleMapper(): ClassMapper<MessageClass>
  {
    GetMessageClassById
  }

  /** The value of two bytes read as a big-endian unsigned 16-bit number. */
  function BigEndian16(hi: byte, lo: byte): nat
  {
    Unsigned(hi) * 256 + Unsigned(lo)
  }

  /** The byte whose unsigned value is `u`. */
  lemma UnsignedOfCast(u: int)
    requires 0 <= u < 256
    ensures Unsigned(ToByte(u)) == u
  {
  }

  /**
   * `StartBeepMessage.encodePayload`: the duration as two big-endian bytes,
   * `(d >> 8) & 0xff` then `d & 0xff`; the bits above the low sixteen are
   * dropped.
   */
  function StartBeepPayload(timeDuration: int32): (r: seq<byte>)
    ensures |r| == 2
    ensures BigEndian16(r[0], r[1]) == timeDuration as int % 0x1_0000
    ensures 0 <= timeDuration < 0x1_0000 ==> BigEndian16(r[0], r[1]) == timeDuration as int
  {
    var d := timeDuration as int;
    var hi, lo := (d / 256) % 256, d % 256;
    UnsignedOfCast(hi);
    UnsignedOfCast(lo);
    [ToByte(hi), ToByte(lo)]
  }

  /**
   * `encodePayload` of a message: the beep's two bytes; the received-only
   * messages refuse to be encoded.
   */
  function EncodePayload(m: SampleMessage): (r: Result<Option<seq<byte>>>)
    ensures r.Ok? <==> m.StartBeep?
    ensures m.StartBeep? ==> r == Ok(Some(StartBeepPayload(m.timeDuration)))
    ensures r.Err? ==> r.error == UnsupportedOperation
  {
    match m
    case StartBeep(d) => Ok(Some(StartBeepPayload(d)))
    case _ => Err(UnsupportedOperation)
  }

  /**
   * `SimpleRemoteEncoder.encodeMessage` once the payload is known: the header,
   * the class's id, then the payload. A class without an id or a null payload
   * makes `System.arraycopy` throw, despite the null guard on the length.
   */
  function EncodeFrame(c: MessageClass, payload: Option<seq<byte>>): (r: Result<seq<byte>>)
    ensures r.Ok? <==> !c.OtherMessageClass? && payload.Some?
    ensures r.Err? ==> r.error == NullPointer
    ensures r.Ok? ==> |r.value| == 2 + |payload.value| && r.value[0] == HEADER_BYTE
                      && r.value[1..2] == GetMessageIdByClass(c).value && r.value[2..] == payload.value
  {
    var messageId := GetMessageIdByClass(c);
    if messageId.None? || payload.None? then Err(NullPointer)
    else Ok([HEADER_BYTE] + messageId.value + payload.value)
  }

  /** The sample encoder: `encodePayload`, then the frame around it. */
  function Encode(m: SampleMessage): (r: Result<seq<byte>>)
    ensures r.Ok? <==> m.StartBeep?
    ensures m.StartBeep? ==> r == Ok([HEADER_BYTE, 3] + StartBeepPayload(m.timeDuration))
  {
    match EncodePayload(m)
    case Err(e) => Err(e)
    case Ok(payload) =>
      assert [HEADER_BYTE] + [3 as byte] + StartBeepPayload(m.timeDuration) == [HEADER_BYTE, 3] + StartBeepPayload(m.timeDuration);
      EncodeFrame(ClassOf(m), payload)
  }
}
