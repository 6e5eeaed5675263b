/**
 * The framework half of decoding (`MessageDecoder`): turning a message id and
 * payload bytes into a message through the protocol's class mapper, and the
 * shape of one call of a protocol's `decodeMessage` on the inbound ring buffer.
 */
module MessageDecoding {
  import opened JavaTypes
  import opened Results

  /**
   * The message classes of a protocol, as functions over a class tag `K`:
   * `instantiate` is `newInstance()` (None when the class has no usable
   * no-argument constructor) and `decodePayload` is the instance's
   * `decodePayload(data, startIndex, length)`, which may throw.
   */
  datatype MessageClasses<!K, !M> = MessageClasses(
    instantiate: K -> Option<M>,
    decodePayload: (M, seq<byte>, int, int) -> Result<M>)

  /** `getMessageClassById`: a class tag, null (None), or an exception. */
  type ClassMapper<!K> = seq<byte> -> Result<Option<K>>

  /**
   * `createMessage`: a fresh instance of the class mapped to `messageId`. An
   * unmapped id raises `UndefinedMessageIdException` carrying that id; a class
   * that cannot be instantiated raises a `RuntimeException`; an exception of
   * the mapper itself propagates unchanged.
   */
  function CreateMessage<K, M>(mapper: ClassMapper<K>, classes: MessageClasses<K, M>, messageId: seq<byte>): (r: Result<M>)
    ensures mapper(messageId).Err? ==> r == Err(mapper(messageId).error)
    ensures mapper(messageId).Ok? && mapper(messageId).value.None? ==> r == Err(UndefinedMessageId(messageId))
    ensures r.Ok? <==> mapper(messageId).Ok? && mapper(messageId).value.Some?
                       && classes.instantiate(mapper(messageId).value.value).Some?
    ensures r.Ok? ==> r.value == classes.instantiate(mapper(messageId).value.value).value
    ensures r.Err? && mapper(messageId).Ok? && mapper(messageId).value.Some? ==> r == Err(Runtime(Instantiation))
  {
    match mapper(messageId)
    case Err(e) => Err(e)
    case Ok(None) => Err(UndefinedMessageId(messageId))
    case Ok(Some(k)) =>
      match classes.instantiate(k)
      case None => Err(Runtime(Instantiation))
      case Some(m) => Ok(m)
  }

  /**
   * `decodeMessagePayload`: with no mapper set it returns null (Ok(None))
   * without throwing; otherwise the message created for `messageId` decodes
   * `data` from `startIndex` for `length` bytes, and an exception of that
   * decoding is rethrown wrapped in a `RuntimeException`.
   */
  function DecodeMessagePayload<K, M>(mapper: Option<ClassMapper<K>>, classes: MessageClasses<K, M>,
                                      messageId: seq<byte>, data: seq<byte>, startIndex: int, length: int): (r: Result<Option<M>>)
    ensures mapper.None? ==> r == Ok(None)
    ensures mapper.Some? && CreateMessage(mapper.value, classes, messageId).Err? ==>
              r == Err(CreateMessage(mapper.value, classes, messageId).error)
    ensures mapper.Some? && CreateMessage(mapper.value, classes, messageId).Ok? ==>
              var decoded := classes.decodePayload(CreateMessage(mapper.value, classes, messageId).value, data, startIndex, length);
              r == if decoded.Ok? then Ok(Some(decoded.value)) else Err(Runtime(decoded.error))
    ensures r.Ok? && r.value.Some? ==> mapper.Some? && mapper.value(messageId).Ok? && mapper.value(messageId).value.Some?
  {
    match mapper
    case None => Ok(None)
    case Some(classById) =>
      match CreateMessage(classById, classes, messageId)
      case Err(e) => Err(e)
      case Ok(message) =>
        match classes.decodePayload(message, data, startIndex, length)
        case Err(e) => Err(Runtime(e))
        case Ok(decoded) => Ok(Some(decoded))
  }

  /** What one `decodeMessage` call returns: a message, null, or an exception. */
  datatype DecodeOutcome<M> = Decoded(message: M) | NeedMore | DecodeFailed(error: Exception)

  /**
   * One `decodeMessage(inputBuffer)` call, seen from the buffer: the number of
   * bytes it consumed from the front of the logical content, and its outcome.
   * A decoder can only consume and read from the front, so this is all it can
   * do to the buffer.
   */
  datatype DecodeStep<M> = DecodeStep(consumed: nat, outcome: DecodeOutcome<M>)

  /** A protocol's `decodeMessage`, as a function of the buffered bytes. */
  type Decoder<!M> = seq<byte> -> DecodeStep<M>

  /**
   * The assumption the decode loop needs to terminate, which the framework
   * does not enforce: a decoder consumes no more than is buffered, and at
   * least one byte whenever it returns a message.
   */
  ghost predicate WellBehaved<M>(decode: Decoder<M>)
  {
    forall content: seq<byte> ::
      decode(content).consumed <= |content| &&
      (decode(content).outcome.Decoded? ==> decode(content).consumed >= 1)
  }
}
