# Communicator, modelled in Dafny

A model of the core of Neofect's Communicator library. The library is an
Android framework that connects to devices over Bluetooth, USB or TCP. It
buffers the bytes they send in a growable circular byte buffer, decodes them
into messages, lets a device object update its state from each message, and
notifies registered listeners. This project models, and proves properties of:

- `ByteRingBuffer`, a class over an `array<byte>` (module `RingBuffers`).
  Every method keeps the head and size inside the array. `put` keeps the
  last `capacity` bytes of the old content followed by the new data, and
  grows the array up to the maximum capacity first. The buffer layouts that
  its unit test expects are reproduced as methods (`RingBufferScenarios`).
- The inbound pipeline and the listener registry (`Controller`,
  `Connection`, `Communicator`, module `Engine`). Decoders are functions
  from the buffered bytes to a consumed count and a message, null or an
  exception (`MessageDecoding`). Device classes are type tags with a parent
  (`Devices`). Listener notification posted to a `Handler` is an ordered log
  of (listener, event) pairs. `Inbound` states the callback chains and the
  decode pass generically; the end-to-end properties of the sample protocol
  are `SimpleRemotes.FramesReachRemote`,
  `SimpleRemotes.ButtonFrameReachesListeners` and
  `DummySimpleRemotes.DummyDataReachesRemote`.
- The sample protocol: the `0x9d`-framed decoder and encoder, the id table,
  `StartBeepMessage`, the `SimpleRemote` device and the `DummySimpleRemote`
  frame generator (modules `SampleMessages`, `SampleDecoding`,
  `SimpleRemotes`, `DummySimpleRemotes`).
- The older `SimpleRobot` codec (`SimpleRobotCodec`), whose header test can
  never succeed (see Findings).
- Utilities: `VersionChecker` (`VersionChecking`), `ByteArrayConverter`
  (`ByteArrayConversion`), USB driver selection and the CP21xx parameter
  encoding (`UsbDrivers`), and the Smart Balance sensor-frame loss counter
  with its `Summary` (`SensorDataChecking`).

Java's `byte` is the signed newtype `JavaTypes.byte`, and a `(byte)` cast is
`ToByte` (two's complement wrap). Java's `int` is `int32` wherever
wrap-around can happen. Exceptions are values: a method that can throw
returns `Result`/`Outcome`, and the exception kinds are listed in `Results`.
`JavaStrings` models the parts of `String.split`, `Integer.parseInt` and
`Integer.toString(radix)` that the modelled code relies on.

Source paths below are relative to the repository root.

## Model

| member | source | states |
|---|---|---|
| RingBuffers.ByteRingBuffer.constructor | NFCommunicator/src/main/java/com/neofect/communicator/util/ByteRingBuffer.java:25-35 | A new buffer is empty, with a 128-byte array, head 0 and maximum 2048. |
| RingBuffers.ByteRingBuffer.WithCapacity | NFCommunicator/src/main/java/com/neofect/communicator/util/ByteRingBuffer.java:37-39 | A new buffer of the given capacity is empty, head 0, and keeps the default maximum 2048. |
| RingBuffers.ByteRingBuffer.WithMaxCapacity | NFCommunicator/src/main/java/com/neofect/communicator/util/ByteRingBuffer.java:41-44 | A new buffer of the given capacity and maximum is empty, head 0. |
| RingBuffers.ByteRingBuffer.AvailableSize | NFCommunicator/src/main/java/com/neofect/communicator/util/ByteRingBuffer.java:171-173 | The free room and the content size add up to the array length. |
| RingBuffers.ByteRingBuffer.ChangeMaxCapacity | NFCommunicator/src/main/java/com/neofect/communicator/util/ByteRingBuffer.java:50-54 | A smaller maximum throws `IllegalArgumentException` and changes nothing; otherwise the maximum is replaced. |
| RingBuffers.ByteRingBuffer.Put | NFCommunicator/src/main/java/com/neofect/communicator/util/ByteRingBuffer.java:61-89 | For data and arrays whose sizes stay within Java's `int` (see Left out), never throws. Grows the array to `min(size + data.length, max)` exactly when room is short and the array is below the maximum. The content becomes the last `capacity` bytes of old content followed by `data`, with the size and head that follow. |
| RingBuffers.ByteRingBuffer.CopyIn | NFCommunicator/src/main/java/com/neofect/communicator/util/ByteRingBuffer.java:70-88 | The copy loop of `put` writes each run inside the array and leaves content = last `capacity` bytes of old content ++ data. |
| RingBuffers.ByteRingBuffer.CopyRun | NFCommunicator/src/main/java/com/neofect/communicator/util/ByteRingBuffer.java:82-86 | One pass writes its run at the tail, grows the size up to the capacity, moves the head past what it overwrote, and keeps the content equal to the last `capacity` bytes of the old content followed by the data copied so far. |
| RingBuffers.KeepAppend | NFCommunicator/src/main/java/com/neofect/communicator/util/ByteRingBuffer.java:72-88 | Overwriting in two runs keeps the same bytes as overwriting in one: the lossy policy composes. |
| RingBuffers.ByteRingBuffer.FillByteArrayFromInternalBuffer | NFCommunicator/src/main/java/com/neofect/communicator/util/ByteRingBuffer.java:91-105 | Throws `ArrayIndexOutOfBoundsException` exactly when the target or the content is too short, leaving the target unchanged; otherwise the target holds the requested logical bytes at `targetIndex` and is unchanged elsewhere. |
| RingBuffers.ByteRingBuffer.FillRun | NFCommunicator/src/main/java/com/neofect/communicator/util/ByteRingBuffer.java:98-104 | One pass of the copy loop extends the copied prefix by the next logical bytes. |
| RingBuffers.ByteRingBuffer.CopyOut | NFCommunicator/src/main/java/com/neofect/communicator/util/ByteRingBuffer.java:100 | `System.arraycopy` from the internal array: the target range holds the source range, the rest is unchanged. |
| RingBuffers.ByteRingBuffer.ExpandBuffer | NFCommunicator/src/main/java/com/neofect/communicator/util/ByteRingBuffer.java:107-113 | A fresh array of `min(requested, max)` bytes, head 0, same size; the logical content is unchanged. |
| RingBuffers.ByteRingBuffer.Consume | NFCommunicator/src/main/java/com/neofect/communicator/util/ByteRingBuffer.java:120-125 | More than the size throws `IllegalArgumentException` and changes nothing; otherwise the oldest `size` bytes are dropped and the head advances by `size` modulo the length. |
| RingBuffers.ByteRingBuffer.Peek | NFCommunicator/src/main/java/com/neofect/communicator/util/ByteRingBuffer.java:127-131 | Returns logical byte `index`, changes nothing; an index at or past the size throws; a negative index reads the physical slot that far before the head while it stays in the array, and below the array reads slot 0 at a multiple of the length and throws otherwise, as Java's truncating `%` does. |
| RingBuffers.ByteRingBuffer.ReadWithoutConsume | NFCommunicator/src/main/java/com/neofect/communicator/util/ByteRingBuffer.java:154-160 | Returns the first `length` logical bytes and changes nothing; too long a length throws `ArrayIndexOutOfBoundsException`, a negative one `NegativeArraySizeException`. |
| RingBuffers.ByteRingBuffer.Read | NFCommunicator/src/main/java/com/neofect/communicator/util/ByteRingBuffer.java:140-144 | Returns what `readWithoutConsume` returns and then drops those bytes; on an exception nothing changes. |
| RingBuffers.ByteRingBuffer.Clear | NFCommunicator/src/main/java/com/neofect/communicator/util/ByteRingBuffer.java:162-165 | Head 0, size 0, empty content; the array is kept. |
| RingBufferScenarios.FullRampLayout | NFCommunicator/src/test/java/com/neofect/communicator/util/ByteRingBufferTest.java:34-39 | The physical layout of a full buffer whose content is a run of consecutive bytes: the wrapped tail, then the part from the head. |
| RingBufferScenarios.RampsJoin | NFCommunicator/src/test/java/com/neofect/communicator/util/ByteRingBufferTest.java:34-39 | Two consecutive runs of the test's sequence numbers form one run. |
| RingBufferScenarios.PutBeyondMaximum | NFCommunicator/src/test/java/com/neofect/communicator/util/ByteRingBufferTest.java:41-48 | Capacity 10, maximum 15, 17 bytes put: array `0f 10 02 … 0e`, head 2, size 15. |
| RingBufferScenarios.FilledToFifteen | NFCommunicator/src/test/java/com/neofect/communicator/util/ByteRingBufferTest.java:51-52 | Capacity 10, maximum 15, 19 bytes put: content 4..18 in a 15-byte array, head 4. |
| RingBufferScenarios.KeepAfterRaising | NFCommunicator/src/test/java/com/neofect/communicator/util/ByteRingBufferTest.java:54-55 | The last 20 bytes of content 4..18 followed by 19..26 are 7..26. |
| RingBufferScenarios.PutAfterRaisingMaximum | NFCommunicator/src/test/java/com/neofect/communicator/util/ByteRingBufferTest.java:50-60 | After raising the maximum to 20 and putting 8 more bytes: array `18 19 1a 07 … 17`, head 3, size 20. |
| RingBufferScenarios.ReadAfterPut | NFCommunicator/src/test/java/com/neofect/communicator/util/ByteRingBufferTest.java:62-77 | Reading 11 bytes returns 4..14, leaves the array `0f 10 11 12 04 … 0e`, head (4+11) mod 15 and size 4. |
| MessageDecoding.CreateMessage | communicator/src/main/java/com/neofect/communicator/message/MessageDecoder.java:46-58 | An id the mapper does not know throws `UndefinedMessageIdException` carrying the id; a mapped class yields its new instance, and a class that cannot be instantiated throws a `RuntimeException`. |
| MessageDecoding.DecodeMessagePayload | communicator/src/main/java/com/neofect/communicator/message/MessageDecoder.java:69-90 | A null mapper gives null without throwing; otherwise the instance decodes the payload range, and a payload exception is rethrown wrapped in a `RuntimeException`; a message is returned only for a mapped id. |
| SampleMessages.ClassOf | sample_app/src/main/java/com/neofect/communicator/sample/message/MessageMapper.java:19-27 | Every sample message belongs to one of the three mapped classes. |
| SampleMessages.GetMessageIdByClass | sample_app/src/main/java/com/neofect/communicator/sample/message/MessageMapper.java:19-28 | A one-byte id in 1..3 for each of the three classes, null for any other class. |
| SampleMessages.GetMessageClassById | sample_app/src/main/java/com/neofect/communicator/sample/message/MessageMapper.java:31-40 | An empty id array throws; only byte 0 is inspected; ids outside 1..3 give null; a class found maps back to the same id. |
| SampleMessages.ClassIdRoundTrip | sample_app/src/main/java/com/neofect/communicator/sample/message/MessageMapper.java:19-40 | `getMessageClassById(getMessageIdByClass(c)) == c` for each of the three classes. |
| SampleMessages.Instantiate | sample_app/src/main/java/com/neofect/communicator/sample/message/StartBeepMessage.java:19-21 | `newInstance` succeeds for the two classes with a no-argument constructor; `StartBeepMessage` has none. |
| SampleMessages.DecodePayload | sample_app/src/main/java/com/neofect/communicator/sample/message/ButtonPressedMessage.java:23-26 | `ButtonPressed` takes its id from `data[startIndex]` (out of range throws); `LowBatteryAlert` needs nothing; `StartBeep` has no decoder. |
| SampleMessages.StartBeepPayload | sample_app/src/main/java/com/neofect/communicator/sample/message/StartBeepMessage.java:24-29 | Two bytes whose big-endian unsigned value is the duration modulo 65536, and the duration itself when it is in 0..65535. |
| SampleMessages.EncodePayload | sample_app/src/main/java/com/neofect/communicator/sample/message/StartBeepMessage.java:23-29 | Only `StartBeep` encodes a payload (its two bytes); the other messages do not implement encoding. |
| SampleMessages.EncodeFrame | sample_app/src/main/java/com/neofect/communicator/sample/SimpleRemoteEncoder.java:24-43 | Length `2 + payload.length`, byte 0 the header `0x9d`, byte 1 the mapped id, then the payload unchanged; a null payload or unmapped class throws `NullPointerException`. |
| SampleMessages.Encode | sample_app/src/main/java/com/neofect/communicator/sample/SimpleRemoteEncoder.java:24-43 | Only a `StartBeep` message encodes, as `[0x9d, 3]` followed by its payload. |
| SampleDecoding.HeaderOffset | sample_app/src/main/java/com/neofect/communicator/sample/Decoder.java:29-31 | The number of leading bytes that are not the header: none of them is `0x9d`, and the next byte is. |
| SampleDecoding.FrameLength | sample_app/src/main/java/com/neofect/communicator/sample/Decoder.java:45-50 | 3 for id 1, 2 for id 2, 0 for any other id. |
| SampleDecoding.DecodeFrame | sample_app/src/main/java/com/neofect/communicator/sample/Decoder.java:38-65 | From the header on, consumes at most what is buffered, and at least 2 bytes when it returns a message. |
| SampleDecoding.SampleDecode | sample_app/src/main/java/com/neofect/communicator/sample/Decoder.java:25-66 | One call consumes the noise before the header and then the frame; it never consumes more than is buffered. |
| SampleDecoding.SampleDecodeWellBehaved | sample_app/src/main/java/com/neofect/communicator/sample/Decoder.java:25-66 | The sample decoder meets the termination assumption of the decode loop: it consumes at least one byte whenever it returns a message. |
| SampleDecoding.DecodeButtonFrame | sample_app/src/main/java/com/neofect/communicator/sample/Decoder.java:45-62 | `[0x9d, 1, b]` followed by anything decodes to `ButtonPressed(b)` and consumes 3 bytes. |
| SampleDecoding.DecodeLowBatteryFrame | sample_app/src/main/java/com/neofect/communicator/sample/Decoder.java:45-62 | `[0x9d, 2]` followed by anything decodes to `LowBatteryAlert` and consumes 2 bytes. |
| SampleDecoding.SkipsNoise | sample_app/src/main/java/com/neofect/communicator/sample/Decoder.java:29-31 | Bytes other than the header in front of the content are consumed and change nothing else. |
| SampleDecoding.HeaderOffsetSkips | sample_app/src/main/java/com/neofect/communicator/sample/Decoder.java:29-31 | The resynchronisation skips exactly the leading non-header bytes. |
| SampleDecoding.UnknownIdStaysAtFront | sample_app/src/main/java/com/neofect/communicator/sample/Decoder.java:45-62 | For an id other than 1 or 2 nothing is consumed and decoding throws (unmapped id, or `StartBeep` that cannot be instantiated), so the header stays at the front. |
| SampleDecoding.IncompleteFrameWaits | sample_app/src/main/java/com/neofect/communicator/sample/Decoder.java:34-55 | With only the header, or a button frame missing its last byte, null is returned and only the noise is consumed. |
| SampleDecoding.EncodedButtonDecodes | sample_app/src/main/java/com/neofect/communicator/sample/SimpleRemoteEncoder.java:24-43 | The encoder's frame for `ButtonPressed(b)` decodes back to `ButtonPressed(b)`. |
| SampleDecoding.DecodeMessage | sample_app/src/main/java/com/neofect/communicator/sample/Decoder.java:25-66 | On a ring buffer: returns what `SampleDecode` says of the buffered bytes and leaves exactly the bytes it did not consume. |
| SampleDecoding.SkipToHeader | sample_app/src/main/java/com/neofect/communicator/sample/Decoder.java:29-31 | The resynchronisation loop leaves the content from the first header on. |
| SampleDecoding.SampleDecodeOfRest | sample_app/src/main/java/com/neofect/communicator/sample/Decoder.java:33-62 | After the resynchronisation, what is decoded and left is decided by the frame from the header on. |
| SampleDecoding.NoHeaderNeedsMore | sample_app/src/main/java/com/neofect/communicator/sample/Decoder.java:28-36 | When no byte of the content is the header byte, every byte is consumed and the call returns null. |
| SampleDecoding.DecodeFrameAt | sample_app/src/main/java/com/neofect/communicator/sample/Decoder.java:38-65 | From the header on: returns what `DecodeFrame` says and consumes exactly its count. |
| Devices.SameOrSuperReflexive | communicator/src/main/java/com/neofect/communicator/Communicator.java:275-282 | `isSameOrSuperClassDevice(c, c)` holds for every device class. |
| Devices.SubclassMatchesOnlyUpwards | communicator/src/main/java/com/neofect/communicator/Communicator.java:275-282 | A subclass matches its superclass, and the superclass does not match the subclass. |
| Devices.SameOrSuperTransitive | communicator/src/main/java/com/neofect/communicator/Communicator.java:275-282 | The same-or-subclass relation is transitive. |
| Devices.SameOrSuperAntisymmetric | communicator/src/main/java/com/neofect/communicator/Communicator.java:275-282 | Two classes that match each other are the same class. |
| Devices.SubclassingChecks | communicator/src/test/java/com/neofect/communicator/CommunicatorTest.java:49-67 | The unit test's cases: a class against itself, a subclass against its superclasses, and the reverse directions that fail. |
| Devices.CorrespondingHandlers | communicator/src/main/java/com/neofect/communicator/Communicator.java:285-297 | A listener is returned exactly when some registered class that the device class is the same as, or a subclass of, lists it. |
| Devices.HandlerCacheAdd | communicator/src/main/java/com/neofect/communicator/Communicator.java:299-315 | Adding a class to the cache maps it to its corresponding handlers; a class already cached keeps its entry. |
| Devices.CorrespondingHandlersOfUnrelated | communicator/src/main/java/com/neofect/communicator/Communicator.java:285-297 | A device class whose matching registered classes all have empty lists gets no handlers. |
| Engine.ClassesWithDeviceStep | communicator/src/main/java/com/neofect/communicator/Communicator.java:303-313 | The device classes of the first i+1 connections are those of the first i plus the class of connection i, when it has a device. |
| Engine.HandlerCacheStep | communicator/src/main/java/com/neofect/communicator/Communicator.java:303-313 | One pass of the refresh loop adds the class of the connection's device with its handlers unless it is already cached. |
| Engine.CountOfClassBounded | communicator/src/main/java/com/neofect/communicator/Communicator.java:227-245 | The count of connected devices of one class is at most the number of connected devices. |
| Engine.CountOfClassIsExact | communicator/src/main/java/com/neofect/communicator/Communicator.java:233-243 | When every connected connection has a device and none is of the class, the count is `Ok(0)`. |
| Engine.FirstIdentified | communicator/src/main/java/com/neofect/communicator/Communicator.java:180-191 | The index of the first connection with that type and identifier, or -1 when none has them. |
| Engine.Controller.constructor | NFCommunicator/communicator/src/main/java/com/neofect/communicator/Controller.java:46-62 | A new controller has no device, no callbacks, is not halted and has reported nothing. |
| Engine.Controller.AddCallbackBefore | NFCommunicator/communicator/src/main/java/com/neofect/communicator/Controller.java:68-70 | Appends the callback to the before-list. |
| Engine.Controller.AddCallbackBeforeAtFront | NFCommunicator/communicator/src/main/java/com/neofect/communicator/Controller.java:72-74 | Inserts the callback at index 0 of the before-list. |
| Engine.Controller.RemoveCallbackBefore | NFCommunicator/communicator/src/main/java/com/neofect/communicator/Controller.java:76-78 | Removes the first equal callback and reports whether there was one. |
| Engine.Controller.AddCallbackAfter | NFCommunicator/communicator/src/main/java/com/neofect/communicator/Controller.java:80-82 | Appends the callback to the after-list. |
| Engine.Controller.AddCallbackAfterAtFront | NFCommunicator/communicator/src/main/java/com/neofect/communicator/Controller.java:84-86 | Inserts the callback at index 0 of the after-list. |
| Engine.Controller.RemoveCallbackAfter | NFCommunicator/communicator/src/main/java/com/neofect/communicator/Controller.java:88-90 | Removes the first equal callback and reports whether there was one. |
| Engine.Controller.InitializeDevice | NFCommunicator/communicator/src/main/java/com/neofect/communicator/Controller.java:116-130 | A second call throws `IllegalStateException` and keeps the device; a device class that cannot be instantiated throws a `RuntimeException`; otherwise the device is created in its initial state. |
| Engine.Controller.Halt | NFCommunicator/communicator/src/main/java/com/neofect/communicator/Controller.java:132-139 | Sets `halted`, whatever it was. |
| Engine.Controller.EncodeMessage | NFCommunicator/communicator/src/main/java/com/neofect/communicator/Controller.java:153-167 | Null for a null encoder or a null message; otherwise the encoder's bytes, and an encoder exception wrapped in a `RuntimeException`. |
| Engine.Controller.ProcessInboundMessage | NFCommunicator/communicator/src/main/java/com/neofect/communicator/Controller.java:206-230 | Device, deliveries and reports are those of `ProcessInbound`: the callback chains, the device step and the handling of an exception. |
| Engine.Controller.RunDeviceStep | NFCommunicator/communicator/src/main/java/com/neofect/communicator/Controller.java:214-220 | The device processes the message, "message processed" is posted, and "device updated" only when it returned true. |
| Engine.Controller.DecodeRawMessageAndProcess | NFCommunicator/communicator/src/main/java/com/neofect/communicator/Controller.java:174-193 | The buffer, device, deliveries and reports after the loop are those of `DecodePass`; a null decoder returns at once. |
| Engine.Controller.DecodeOne | NFCommunicator/communicator/src/main/java/com/neofect/communicator/Controller.java:180-192 | One iteration of the decode loop: the buffer never grows, and it shrinks whenever the loop goes on. |
| Engine.Controller.ProcessDecoded | NFCommunicator/communicator/src/main/java/com/neofect/communicator/Controller.java:188-191 | After a decoded message, the rest of the pass is the pass over what the decoder left. |
| Engine.Controller.TakeStep | NFCommunicator/communicator/src/main/java/com/neofect/communicator/Controller.java:183 | The decoder's step on the buffer: it consumes exactly the decoder's count from the front. |
| Engine.Connection.constructor | communicator/src/main/java/com/neofect/communicator/Connection.java:44-53 | A new connection is `NOT_CONNECTED` with an empty ring buffer of its own. |
| Engine.Connection.IsConnected | communicator/src/main/java/com/neofect/communicator/Connection.java:59-61 | True exactly when the status is `CONNECTED`. |
| Engine.Connection.SendMessage | communicator/src/main/java/com/neofect/communicator/Connection.java:79-81 | Writes what the controller encodes; an encoding exception propagates and nothing is written. |
| Engine.Connection.HandleReadData | communicator/src/main/java/com/neofect/communicator/Connection.java:83-90 | The data is put into the ring buffer (the last 2 MiB are kept) and the controller's decode pass runs over the result. |
| Engine.Connection.HandleConnecting | communicator/src/main/java/com/neofect/communicator/Connection.java:101-109 | No-op when already `CONNECTING`; otherwise `CONNECTING`, the connection is listed and one start-connecting notification goes to each corresponding listener. |
| Engine.Connection.HandleFailedToConnect | communicator/src/main/java/com/neofect/communicator/Connection.java:111-115 | Always `NOT_CONNECTED`; the connection is unlisted and the failure is notified with the given cause. |
| Engine.Connection.HandleConnected | communicator/src/main/java/com/neofect/communicator/Connection.java:117-137 | No-op when already `CONNECTED`; otherwise a new device, a refreshed cache and one connected notification; if creating the device throws, one disconnect request and the failed-to-connect path, ending `NOT_CONNECTED`, with a plain `Exception` wrapping the creation exception as the cause. |
| Engine.Connection.HandleDisconnected | communicator/src/main/java/com/neofect/communicator/Connection.java:139-149 | No-op from `NOT_CONNECTED`; otherwise `NOT_CONNECTED`, one disconnect notification through the old cache, the connection unlisted and the cache rebuilt. |
| Engine.Connection.ReplaceController | communicator/src/main/java/com/neofect/communicator/Connection.java:151-163 | The new controller is always installed and the old one halted; only when `CONNECTED` is the new device created, the cache refreshed and the same ring buffer decoded again. |
| Engine.Connection.StartController | communicator/src/main/java/com/neofect/communicator/Connection.java:156-161 | The connected branch of `replaceController`: device creation, cache refresh and decode pass, or the exception with nothing changed. |
| Engine.Connection.Redecode | NFCommunicator/communicator/src/main/java/com/neofect/communicator/Controller.java:174-193 | The decode pass over the connection's buffer leaves the set of device classes unchanged. |
| Engine.Communicator.constructor | communicator/src/main/java/com/neofect/communicator/Communicator.java:59-61 | No connections, no registered listeners, an empty cache and nothing delivered. |
| Engine.Communicator.Post | communicator/src/main/java/com/neofect/communicator/Communicator.java:328-330 | Delivers one event to each listener, in order. |
| Engine.Communicator.HandlerIndexByListener | communicator/src/main/java/com/neofect/communicator/Communicator.java:266-273 | The index of the listener in the list, or -1. |
| Engine.Communicator.RefreshConnectedDeviceHandlers | communicator/src/main/java/com/neofect/communicator/Communicator.java:299-315 | The cache maps each device class among the connections' devices to its corresponding handlers, and nothing else. |
| Engine.Communicator.RegisterListener | communicator/src/main/java/com/neofect/communicator/Communicator.java:124-159 | A listener already registered under its class returns null and changes nothing; otherwise it is appended under its class (a new key at the end), the cache is rebuilt, and it receives `onDeviceConnected(d, true)` for each connected device of the same class or a subclass. |
| Engine.Communicator.NotifyNewListenerOfExistingDevices | communicator/src/main/java/com/neofect/communicator/Communicator.java:145-156 | The replay loop delivers exactly the connected devices whose class matches the listener's. |
| Engine.Communicator.UnregisterListener | communicator/src/main/java/com/neofect/communicator/Communicator.java:161-177 | No-op when the class or the listener is absent; otherwise exactly that entry is removed (the key stays) and the cache is rebuilt. |
| Engine.Communicator.GetConnection | communicator/src/main/java/com/neofect/communicator/Communicator.java:180-191 | The first listed connection with the type and identifier, or null. |
| Engine.Communicator.IsConnected | communicator/src/main/java/com/neofect/communicator/Communicator.java:206-209 | True exactly when such a connection exists and is `CONNECTED`. |
| Engine.Communicator.FindConnectedDevice | communicator/src/main/java/com/neofect/communicator/Communicator.java:211-219 | The device of the connection found, or null. |
| Engine.Communicator.GetConnectedDevices | communicator/src/main/java/com/neofect/communicator/Communicator.java:193-204 | The devices of the `CONNECTED` connections, in order. |
| Engine.Communicator.GetNumberOfConnections | communicator/src/main/java/com/neofect/communicator/Communicator.java:227-245 | Null counts every listed connection; a class counts the `CONNECTED` devices of exactly that class, and a connected connection without a device throws. |
| Engine.Communicator.CountStaysFailed | communicator/src/main/java/com/neofect/communicator/Communicator.java:234-242 | Once the count has thrown, the rest of the loop does not change that. |
| Engine.Communicator.Connect | communicator/src/main/java/com/neofect/communicator/Communicator.java:63-83 | True exactly when the identifier is not yet listed for the type, the connection was created and the transport accepted it; a listed identifier, whatever its status, or a failed creation is refused with one failure notification for no connection and no change; the cause is a plain `Exception` for a listed identifier and the factory's exception for a failed creation; a transport failure is notified with the transport's exception and unlists the connection. |
| Engine.Communicator.ConnectConnection | communicator/src/main/java/com/neofect/communicator/Communicator.java:85-102 | True exactly when the transport's `connect` returns, with nothing changed; if it throws, the connection is unlisted and the failure notified with the transport's exception as the cause. |
| Engine.Communicator.OnControllerReplaced | communicator/src/main/java/com/neofect/communicator/Communicator.java:317-320 | Rebuilds the cache. |
| Engine.Communicator.NotifyStartConnecting | communicator/src/main/java/com/neofect/communicator/Communicator.java:322-331 | Appends the connection and notifies every corresponding listener. |
| Engine.Communicator.NotifyFailedToConnect | communicator/src/main/java/com/neofect/communicator/Communicator.java:333-342 | Removes the connection, if any, and notifies every corresponding listener, handing each the cause. |
| Engine.Communicator.NotifyConnected | communicator/src/main/java/com/neofect/communicator/Communicator.java:345-357 | Rebuilds the cache, then notifies the cached listeners of the device's class. |
| Engine.Communicator.NotifyDisconnected | communicator/src/main/java/com/neofect/communicator/Communicator.java:360-372 | Notifies the listeners cached before, then removes the connection and rebuilds the cache. |
| Engine.Communicator.NotifyDeviceMessageProcessed | communicator/src/main/java/com/neofect/communicator/Communicator.java:375-384 | Notifies the cached listeners of the device's class, none when the class is not cached. |
| Engine.Communicator.NotifyDeviceUpdated | communicator/src/main/java/com/neofect/communicator/Communicator.java:387-396 | Notifies the cached listeners of the device's class, none when the class is not cached. |
| Inbound.RunChainClaims | NFCommunicator/communicator/src/main/java/com/neofect/communicator/Controller.java:208-212 | A callback chain claims the message exactly when some callback returns true and every one before it returned false. |
| Inbound.RunChainPasses | NFCommunicator/communicator/src/main/java/com/neofect/communicator/Controller.java:222-226 | A chain lets the message through exactly when every callback returns false. |
| Inbound.RunCallbacks | NFCommunicator/communicator/src/main/java/com/neofect/communicator/Controller.java:208-212 | The loop over a callback list returns `RunChain`'s result, which `RunChainClaims` and `RunChainPasses` characterise. |
| Inbound.CallbackIndex | NFCommunicator/communicator/src/main/java/com/neofect/communicator/Controller.java:76-78 | The index of the first callback with the token, or -1 when none has it. |
| Inbound.RemoveCallback | NFCommunicator/communicator/src/main/java/com/neofect/communicator/Controller.java:76-78 | The list without its first callback equal to the given one; unchanged when there is none. |
| Inbound.BeforeClaimSkipsDevice | NFCommunicator/communicator/src/main/java/com/neofect/communicator/Controller.java:208-212 | When a before-callback claims the message, the device is untouched and nothing is delivered. |
| Inbound.DeviceNotifications | NFCommunicator/communicator/src/main/java/com/neofect/communicator/Controller.java:214-226 | When no before-callback claims the message, the device is updated, "message processed" is delivered, then "device updated" only if the device reported a change; a failure is reported exactly when the after-chain throws. |
| Inbound.DecodePassResumes | NFCommunicator/communicator/src/main/java/com/neofect/communicator/Controller.java:180-192 | A decode pass that decodes a message is that message's processing followed by the pass over what the decoder left. |
| Inbound.DecodePassLeavesSuffix | NFCommunicator/communicator/src/main/java/com/neofect/communicator/Controller.java:180-192 | A decode pass only consumes from the front: what is left is a suffix of the content. |
| Inbound.DecodePassKeepsDevice | NFCommunicator/communicator/src/main/java/com/neofect/communicator/Controller.java:180-192 | A decode pass neither creates nor removes the device, nor changes its class. |
| SimpleRemotes.ProcessRemoteMessage | sample_app/src/main/java/com/neofect/communicator/sample/SimpleRemote.java:46-59 | Returns true exactly for `ButtonPressed` and `LowBatteryAlert`; `ButtonPressed` sets the last button to its id, `LowBatteryAlert` sets `lowBattery`, anything else changes nothing. |
| SimpleRemotes.LowBatteryReplay | sample_app/src/main/java/com/neofect/communicator/sample/SimpleRemote.java:52-54 | After any messages, `lowBattery` holds exactly when it held before or an alert was among them: nothing resets it. |
| SimpleRemotes.NoPressKeepsButton | sample_app/src/main/java/com/neofect/communicator/sample/SimpleRemote.java:48-58 | Messages without a button press keep the last button id. |
| SimpleRemotes.LastPressWins | sample_app/src/main/java/com/neofect/communicator/sample/SimpleRemote.java:48-51 | The last button id is that of the last press. |
| SimpleRemotes.RemotePipeline | sample_app/src/main/java/com/neofect/communicator/sample/Decoder.java:25-66 | The sample decoder meets the decode loop's termination assumption. |
| SimpleRemotes.FrameDecodes | sample_app/src/main/java/com/neofect/communicator/sample/Decoder.java:45-62 | The frame of a button or alert message decodes back to that message, consuming exactly the frame. |
| SimpleRemotes.RemoteProcessing | NFCommunicator/communicator/src/main/java/com/neofect/communicator/Controller.java:206-230 | With no callbacks, a message reaches the remote, which updates as `processMessage` says and notifies the cached listeners. |
| SimpleRemotes.FrameThenRest | NFCommunicator/communicator/src/main/java/com/neofect/communicator/Controller.java:180-192 | One frame followed by more bytes: that message is processed, then the pass goes on over the rest. |
| SimpleRemotes.FramesReachRemote | NFCommunicator/communicator/src/main/java/com/neofect/communicator/Controller.java:180-192 | Any run of button and alert frames is decoded completely, updates the remote as the messages replayed in order, and reports nothing. |
| SimpleRemotes.ButtonFrameReachesListeners | sample_app/src/main/java/com/neofect/communicator/sample/SimpleRemote.java:48-51 | End to end: `[0x9d, 1, b]` sets the last button to b and delivers "message processed" and then "device updated". |
| SimpleRemotes.BeepEncoding | sample_app/src/main/java/com/neofect/communicator/sample/SimpleRemote.java:41-44 | The controller encodes `StartBeep(d)` as `[0x9d, 3]` followed by the two duration bytes. |
| SimpleRemotes.SimpleRemote.constructor | sample_app/src/main/java/com/neofect/communicator/sample/SimpleRemote.java:26-31 | A new remote is not low on battery and its last button is -1. |
| SimpleRemotes.SimpleRemote.ProcessMessage | sample_app/src/main/java/com/neofect/communicator/sample/SimpleRemote.java:46-59 | Updates the fields and returns the flag exactly as `ProcessRemoteMessage` says. |
| SimpleRemotes.SimpleRemote.StartBeep | sample_app/src/main/java/com/neofect/communicator/sample/SimpleRemote.java:41-44 | Without a connection nothing happens; otherwise the encoded `StartBeep` is written once, or the encoder's exception is returned and nothing is written. `Device.sendMessage` is not in the modelled `communicator` copy of `Device.java`; its null-connection check comes from NFCommunicator/src/main/java/com/neofect/communicator/Device.java lines 75-79. |
| DummySimpleRemotes.Emitted | sample_app/src/main/java/com/neofect/communicator/sample/dummy/DummySimpleRemote.java:68-77 | The number of periods strictly exceeded: what is left is at most one period, and positive after each frame. |
| DummySimpleRemotes.ButtonPresses | sample_app/src/main/java/com/neofect/communicator/sample/dummy/DummySimpleRemote.java:68-72 | The k button messages sent cycle through 0..3 (mod 4) from the starting button. |
| DummySimpleRemotes.ChunksAreFrames | sample_app/src/main/java/com/neofect/communicator/sample/dummy/DummySimpleRemote.java:80-93 | The frames the dummy sends, put together, are the frames of its messages. |
| DummySimpleRemotes.DummySimpleRemote.constructor | sample_app/src/main/java/com/neofect/communicator/sample/dummy/DummySimpleRemote.java:20-26 | Button 0 and both accumulators 0; nothing sent. |
| DummySimpleRemotes.DummySimpleRemote.SendButtonPressedMessage | sample_app/src/main/java/com/neofect/communicator/sample/dummy/DummySimpleRemote.java:80-86 | Sends exactly `[0x9d, 0x01, (byte) button]`. |
| DummySimpleRemotes.DummySimpleRemote.SendLowBatteryAlertMessage | sample_app/src/main/java/com/neofect/communicator/sample/dummy/DummySimpleRemote.java:88-93 | Sends exactly `[0x9d, 0x02]`. |
| DummySimpleRemotes.DummySimpleRemote.SendData | sample_app/src/main/java/com/neofect/communicator/sample/dummy/DummySimpleRemote.java:64-78 | Adds the elapsed time to both accumulators, sends one button frame per 1000 ms strictly exceeded (buttons cycling mod 4), then one alert per 3000 ms, and leaves each accumulator at most its period. |
| DummySimpleRemotes.DummySimpleRemote.PressButtons | sample_app/src/main/java/com/neofect/communicator/sample/dummy/DummySimpleRemote.java:68-72 | The button loop: one frame per 1000 ms exceeded, the button advancing mod 4. |
| DummySimpleRemotes.DummySimpleRemote.SendAlerts | sample_app/src/main/java/com/neofect/communicator/sample/dummy/DummySimpleRemote.java:74-77 | The alert loop: one frame per 3000 ms exceeded. |
| DummySimpleRemotes.DummyReplay | sample_app/src/main/java/com/neofect/communicator/sample/dummy/DummySimpleRemote.java:68-77 | Replaying the dummy's messages leaves `lowBattery` set if any alert was sent and the last button the last one pressed. |
| DummySimpleRemotes.DummyDataReachesRemote | sample_app/src/main/java/com/neofect/communicator/sample/dummy/DummySimpleRemote.java:80-93 | Everything the dummy sends is decoded completely, without an error, and updates the remote as the messages replayed. |
| SimpleRobotCodec.IdOfClass | SampleProject/src/com/neofect/communicator/sample/protocol/SimpleRobotMessageClassMapper.java:34-41 | None exactly when no table entry has the class; otherwise the id of the first entry that has it. |
| SimpleRobotCodec.ClassOfId | SampleProject/src/com/neofect/communicator/sample/protocol/SimpleRobotMessageClassMapper.java:43-50 | None exactly when no table entry has the id; otherwise the class of the first entry that has it. |
| SimpleRobotCodec.GetMessageIdByClass | SampleProject/src/com/neofect/communicator/sample/protocol/SimpleRobotMessageClassMapper.java:20-41 | `[0x01]` for `OperateWheels`, `[0x02]` for `ReportProximitySensor`, null for any other class. |
| SimpleRobotCodec.GetMessageClassById | SampleProject/src/com/neofect/communicator/sample/protocol/SimpleRobotMessageClassMapper.java:43-50 | An empty id array throws `ArrayIndexOutOfBoundsException`; otherwise null exactly when `messageId[0]` is neither 1 nor 2. |
| SimpleRobotCodec.ClassIdClass | SampleProject/src/com/neofect/communicator/sample/protocol/SimpleRobotMessageClassMapper.java:34-50 | class → id → class is the identity on both mapped classes. |
| SimpleRobotCodec.IdClassId | SampleProject/src/com/neofect/communicator/sample/protocol/SimpleRobotMessageClassMapper.java:34-50 | id → class → id is the identity on both mapped ids. |
| SimpleRobotCodec.Instantiate | SampleProject/src/com/neofect/communicator/sample/device/OperateWheelsMessage.java:20-23 | Only `ReportProximitySensor` can be created without arguments; `OperateWheels` has no default constructor. |
| SimpleRobotCodec.DecodePayload | SampleProject/src/com/neofect/communicator/sample/device/ReportProximitySensorMessage.java:23-26 | The proximity value is the byte at `startIndex` (a bad index throws); `OperateWheels` does not decode a payload. |
| SimpleRobotCodec.Resync | SampleProject/src/com/neofect/communicator/sample/device/SimpleRobotMessageDecoder.java:28-29 | The resync loop stops at the first byte equal to the header value, or at the end: every byte skipped differs from it. |
| SimpleRobotCodec.DecodeRobotFrame | SampleProject/src/com/neofect/communicator/sample/device/SimpleRobotMessageDecoder.java:35-54 | Never consumes more than buffered; a decoded message consumes the whole frame of at least 3 bytes. |
| SimpleRobotCodec.RobotDecode | SampleProject/src/com/neofect/communicator/sample/device/SimpleRobotMessageDecoder.java:26-55 | Consumes at least the skipped bytes and at most the whole content. |
| SimpleRobotCodec.ResyncAsWrittenSkipsAll | SampleProject/src/com/neofect/communicator/sample/device/SimpleRobotMessageDecoder.java:28-29 | As written (a signed byte against the int 157), the resync loop consumes every buffered byte. |
| SimpleRobotCodec.DecodeAsWrittenDiscardsAll | SampleProject/src/com/neofect/communicator/sample/device/SimpleRobotMessageDecoder.java:26-33 | As written, `decodeMessage` always returns null and empties the buffer. |
| SimpleRobotCodec.DecodeProximityFrame | SampleProject/src/com/neofect/communicator/sample/device/SimpleRobotMessageDecoder.java:28-54 | With the header compared as a byte, `[0x9d, 4, 2, v]` decodes to a proximity report of v and consumes 4 bytes. |
| SimpleRobotCodec.ProximityFrameLost | SampleProject/src/com/neofect/communicator/sample/device/SimpleRobotMessageDecoder.java:28-29 | The same 4 bytes: as written they are all discarded with no message, compared as a byte they decode. |
| SimpleRobotCodec.SkipsNoise | SampleProject/src/com/neofect/communicator/sample/device/SimpleRobotMessageDecoder.java:28-29 | Bytes other than the header before a frame are consumed and do not change the outcome. |
| SimpleRobotCodec.ResyncSkips | SampleProject/src/com/neofect/communicator/sample/device/SimpleRobotMessageDecoder.java:28-29 | The resync count over noise followed by content is the noise length plus the count over the content. |
| SimpleRobotCodec.ShortFrameStaysAtFront | SampleProject/src/com/neofect/communicator/sample/device/SimpleRobotMessageDecoder.java:36-50 | A frame whose length byte is 0, 1 or 2 fails with `ArrayIndexOutOfBoundsException` and consumes nothing. |
| SimpleRobotCodec.DecodeMessage | SampleProject/src/com/neofect/communicator/sample/device/SimpleRobotMessageDecoder.java:26-55 | Returns `RobotDecode`'s outcome for the header it compares with and leaves the buffer without the consumed prefix. |
| SimpleRobotCodec.ResyncOf | SampleProject/src/com/neofect/communicator/sample/device/SimpleRobotMessageDecoder.java:28-29 | Any n that skips only non-header bytes and stops at a header or the end is the resync count. |
| SimpleRobotCodec.DecodeFrameAt | SampleProject/src/com/neofect/communicator/sample/device/SimpleRobotMessageDecoder.java:35-54 | Returns `DecodeRobotFrame`'s outcome on the buffer and consumes exactly its count. |
| VersionChecking.Tokens | NFCommunicator/src/main/java/com/neofect/communicator/util/VersionChecker.java:66-69 | The tokens of a version contain no '.'. |
| VersionChecking.MaxTokenCount | NFCommunicator/src/main/java/com/neofect/communicator/util/VersionChecker.java:55-64 | A null version throws `NullPointerException`; otherwise the largest token count, attained by some version when positive. |
| VersionChecking.GetMaxLength | NFCommunicator/src/main/java/com/neofect/communicator/util/VersionChecker.java:55-64 | The loop returns `MaxTokenCount`. |
| VersionChecking.MaxTokenCountStep | NFCommunicator/src/main/java/com/neofect/communicator/util/VersionChecker.java:57-62 | One iteration of the loop takes the maximum of the running count and the next version's token count. |
| VersionChecking.ParseAll | NFCommunicator/src/main/java/com/neofect/communicator/util/VersionChecker.java:75-77 | Succeeds exactly when every token parses as a decimal int; the values are the tokens' values in order. |
| Lists.Repeat | NFCommunicator/src/main/java/com/neofect/communicator/util/VersionChecker.java:72 | With a zero, a new `int[k]` (and the zero padding of `byteArrayToInt`): k copies of the value. |
| VersionChecking.Padded | NFCommunicator/src/main/java/com/neofect/communicator/util/VersionChecker.java:71-79 | Succeeds exactly when the version is present, has at most n tokens and all parse; the result is their values followed by zeros up to n. |
| VersionChecking.PadTokens | NFCommunicator/src/main/java/com/neofect/communicator/util/VersionChecker.java:72-78 | Tokens that all parse and fit in n give their values padded with zeros to n. |
| VersionChecking.PadTokensUnparsable | NFCommunicator/src/main/java/com/neofect/communicator/util/VersionChecker.java:76 | A token that does not parse, within the array's length, makes the padding throw `NumberFormatException`. |
| VersionChecking.PadTokensOverflow | NFCommunicator/src/main/java/com/neofect/communicator/util/VersionChecker.java:76 | A parsable token at index n, past the array, throws `ArrayIndexOutOfBoundsException`. |
| VersionChecking.PadEnoughDigits | NFCommunicator/src/main/java/com/neofect/communicator/util/VersionChecker.java:71-79 | The method returns `Padded`. |
| VersionChecking.ParseInto | NFCommunicator/src/main/java/com/neofect/communicator/util/VersionChecker.java:75-77 | The loop over a zeroed array of length n returns `PadTokens(tokens, n)`. |
| VersionChecking.ParseAllStep | NFCommunicator/src/main/java/com/neofect/communicator/util/VersionChecker.java:75-77 | A parsable next token extends the parsed prefix by its value. |
| VersionChecking.ParseAllPrefixFails | NFCommunicator/src/main/java/com/neofect/communicator/util/VersionChecker.java:75-77 | Once a prefix fails to parse, the whole token list fails. |
| VersionChecking.LexLessAsymmetric | NFCommunicator/src/main/java/com/neofect/communicator/util/VersionChecker.java:29-47 | Strict lexicographic order is asymmetric and irreflexive. |
| VersionChecking.LexTotal | NFCommunicator/src/main/java/com/neofect/communicator/util/VersionChecker.java:29-47 | Any two padded versions of equal length are comparable. |
| VersionChecking.LexLessTransitive | NFCommunicator/src/main/java/com/neofect/communicator/util/VersionChecker.java:29-47 | Strict lexicographic order is transitive. |
| VersionChecking.FirstDifference | NFCommunicator/src/main/java/com/neofect/communicator/util/VersionChecker.java:31-47 | Two different sequences of equal length agree before their first difference and differ there. |
| VersionChecking.Check | NFCommunicator/src/main/java/com/neofect/communicator/util/VersionChecker.java:17-53 | `check` returns `VersionCheck`: false for a null or empty target or any exception, otherwise min ≤ target ≤ max in lexicographic order of the padded sequences, both bounds inclusive. |
| VersionChecking.CompareInRange | NFCommunicator/src/main/java/com/neofect/communicator/util/VersionChecker.java:29-47 | The early-exit comparison loop returns exactly min ≤ target ≤ max lexicographically. |
| VersionChecking.VersionWithinItself | NFCommunicator/src/main/java/com/neofect/communicator/util/VersionChecker.java:83 | A parsable non-empty version lies within the range from itself to itself. |
| VersionChecking.PadTokensAppendZero | NFCommunicator/src/main/java/com/neofect/communicator/util/VersionChecker.java:71-79 | An extra "0" token does not change the padded value when it still fits. |
| VersionChecking.ZeroPieceIgnored | NFCommunicator/src/main/java/com/neofect/communicator/util/VersionChecker.java:71-79 | Appending ".0" to a version does not change its padded value. |
| VersionChecking.BoundsOrdered | NFCommunicator/src/main/java/com/neofect/communicator/util/VersionChecker.java:17-53 | Whenever `check` accepts, the padded minimum is at most the padded maximum. |
| VersionChecking.OutOfRangeFails | NFCommunicator/src/main/java/com/neofect/communicator/util/VersionChecker.java:33-43 | A target strictly below the minimum or strictly above the maximum is rejected. |
| JavaStrings.Split | NFCommunicator/src/main/java/com/neofect/communicator/util/VersionChecker.java:66-69 | `String.split` on one separator: the string itself when the separator is absent, otherwise the pieces without trailing empty ones; no piece contains the separator. |
| JavaStrings.PiecesJoin | NFCommunicator/src/main/java/com/neofect/communicator/util/VersionChecker.java:66-69 | Joining the pieces of a string with the separator gives the string back. |
| JavaStrings.JoinPieces | NFCommunicator/src/main/java/com/neofect/communicator/util/VersionChecker.java:66-69 | Splitting a join of separator-free pieces gives the pieces back. |
| JavaStrings.SplitJoin | NFCommunicator/src/main/java/com/neofect/communicator/util/VersionChecker.java:66-69 | `split` inverts joining when the last piece is not empty. |
| JavaStrings.SplitAppend | NFCommunicator/src/main/java/com/neofect/communicator/util/VersionChecker.java:66-69 | Splitting `v + "." + w` gives the tokens of v followed by w. |
| JavaStrings.ParseInt | NFCommunicator/src/main/java/com/neofect/communicator/util/VersionChecker.java:76 | `Integer.parseInt`: an empty string fails; a success is no sign or one '+' or '-', followed by at least one digit of the radix, with their value (negated after a minus); every failure is `NumberFormatException`. |
| JavaStrings.ParseIntIffSignedDigits | NFCommunicator/src/main/java/com/neofect/communicator/util/VersionChecker.java:76 | `Integer.parseInt` succeeds exactly when the string is an optional sign followed by digits whose value fits in an `int`, and then returns that value whichever reading of the sign applies. |
| JavaStrings.ParseRadixString | NFCommunicator/src/main/java/com/neofect/communicator/util/ByteArrayConverter.java:66-71 | Parsing the radix-string of n gives n back. |
| JavaStrings.LeadingZeroParses | NFCommunicator/src/main/java/com/neofect/communicator/util/VersionChecker.java:85 | A leading '0' does not change the parsed value, as in the token "00000". |
| ByteArrayConversion.ByteToHex | NFCommunicator/src/main/java/com/neofect/communicator/util/ByteArrayConverter.java:66-71 | Always two lowercase hexadecimal digits whose value is `b & 0xff`. |
| ByteArrayConversion.ParseByteToHex | NFCommunicator/src/main/java/com/neofect/communicator/util/ByteArrayConverter.java:66-71 | Parsing `byteToHex(b)` in radix 16 and casting back to `byte` gives b. |
| ByteArrayConversion.HexStrings | NFCommunicator/src/main/java/com/neofect/communicator/util/ByteArrayConverter.java:124-128 | The hex string of each byte, in order. |
| ByteArrayConversion.HexOfAppend | NFCommunicator/src/main/java/com/neofect/communicator/util/ByteArrayConverter.java:124-128 | One more byte appends a space (spaced form, not first) and its two digits. |
| ByteArrayConversion.HexLength | NFCommunicator/src/main/java/com/neofect/communicator/util/ByteArrayConverter.java:79-91 | The spaced form of n bytes has length 3n-1, the unspaced 2n, and no bytes give "". |
| ByteArrayConversion.HexOfSlice | NFCommunicator/src/main/java/com/neofect/communicator/util/ByteArrayConverter.java:124-128 | One loop iteration extends the string of `ba[start..x]` to that of `ba[start..x+1]`. |
| ByteArrayConversion.Pairs | NFCommunicator/src/main/java/com/neofect/communicator/util/ByteArrayConverter.java:38-40 | The n two-character substrings at offsets 0, 2, 4, … |
| ByteArrayConversion.PairsOfPrefix | NFCommunicator/src/main/java/com/neofect/communicator/util/ByteArrayConverter.java:37-40 | Characters past the last whole pair do not change the pairs. |
| ByteArrayConversion.PairsOfConcat | NFCommunicator/src/main/java/com/neofect/communicator/util/ByteArrayConverter.java:37-40 | The pairs of a concatenation of two-character strings are those strings. |
| ByteArrayConversion.ParseHexBytes | NFCommunicator/src/main/java/com/neofect/communicator/util/ByteArrayConverter.java:38-40 | Succeeds exactly when every token parses in radix 16; each byte is the `(byte)` cast of its token's value; failure is `NumberFormatException`. |
| ByteArrayConversion.ParseHexBytesStep | NFCommunicator/src/main/java/com/neofect/communicator/util/ByteArrayConverter.java:38-40 | One loop iteration appends the next token's byte. |
| ByteArrayConversion.ParseHexStrings | NFCommunicator/src/main/java/com/neofect/communicator/util/ByteArrayConverter.java:39 | Parsing the hex strings of bytes gives the bytes back. |
| ByteArrayConversion.ParseHexBytesAll | NFCommunicator/src/main/java/com/neofect/communicator/util/ByteArrayConverter.java:54-56 | Tokens that each parse to the expected byte give exactly those bytes. |
| ByteArrayConversion.HexToBytes | NFCommunicator/src/main/java/com/neofect/communicator/util/ByteArrayConverter.java:32-42 | A result array has half the string's length, rounded down. |
| ByteArrayConversion.HexToByteArray | NFCommunicator/src/main/java/com/neofect/communicator/util/ByteArrayConverter.java:32-42 | The loop returns `HexToBytes`: null for a null or empty string, otherwise the parsed pairs. |
| ByteArrayConversion.SpacedHexToBytes | NFCommunicator/src/main/java/com/neofect/communicator/util/ByteArrayConverter.java:47-58 | A result array has one byte per token of `split(" ")`. |
| ByteArrayConversion.HexToByteArrayWithSpace | NFCommunicator/src/main/java/com/neofect/communicator/util/ByteArrayConverter.java:47-58 | The loop returns `SpacedHexToBytes`: null for a null or empty string, otherwise the parsed tokens. |
| ByteArrayConversion.UnspacedHexRoundTrip | NFCommunicator/src/main/java/com/neofect/communicator/util/ByteArrayConverter.java:32-42 | `hexToByteArray(byteArrayToHexWithoutSpace(b)) == b` for every non-empty b. |
| ByteArrayConversion.SpacedHexRoundTrip | NFCommunicator/src/main/java/com/neofect/communicator/util/ByteArrayConverter.java:47-58 | `hexToByteArrayWithSpace(byteArrayToHex(b)) == b` for every non-empty b. |
| ByteArrayConversion.OddLastCharacterIgnored | NFCommunicator/src/main/java/com/neofect/communicator/util/ByteArrayConverter.java:37 | For a non-empty string of even length, one more trailing character is never read: the result is the same. (From the empty string, one character gives an empty array where the empty string gives null.) |
| ByteArrayConversion.ByteArrayToHexRange | NFCommunicator/src/main/java/com/neofect/communicator/util/ByteArrayConverter.java:113-130 | The loop returns `HexRange`: "" for null, empty, equal or reversed indices; the end clamped to the length; a negative start throws; a clamped end whose doubling overflows throws `NegativeArraySizeException`. |
| ByteArrayConversion.ByteArrayToHexBetween | NFCommunicator/src/main/java/com/neofect/communicator/util/ByteArrayConverter.java:101-103 | The 3-argument form is the spaced 4-argument form. |
| ByteArrayConversion.ByteArrayToHex | NFCommunicator/src/main/java/com/neofect/communicator/util/ByteArrayConverter.java:79-81 | A null array throws `NullPointerException` before the null check is reached; otherwise the spaced form of the whole array. |
| ByteArrayConversion.ByteArrayToHexWithoutSpace | NFCommunicator/src/main/java/com/neofect/communicator/util/ByteArrayConverter.java:89-91 | A null array throws; otherwise the unspaced form of the whole array. |
| ByteArrayConversion.WholeArrayHex | NFCommunicator/src/main/java/com/neofect/communicator/util/ByteArrayConverter.java:113-130 | For an array shorter than 2^30 bytes, the whole array gives the hex of every byte, of length 3n-1 or 2n (from 2^30 bytes on, `HugeArrayThrows`). |
| ByteArrayConversion.HugeArrayThrows | NFCommunicator/src/main/java/com/neofect/communicator/util/ByteArrayConverter.java:123 | An array of 2^30 bytes or more overflows `endIndex * 2` and throws `NegativeArraySizeException`. |
| ByteArrayConversion.EndClamped | NFCommunicator/src/main/java/com/neofect/communicator/util/ByteArrayConverter.java:121 | An end index past the array gives the same string as the array's length. |
| ByteArrayConversion.InnerRangeHex | NFCommunicator/src/main/java/com/neofect/communicator/util/ByteArrayConverter.java:113-130 | A non-empty range inside the array whose end is below 2^30 gives the hex of exactly those bytes. |
| ByteArrayConversion.Reverse4 | NFCommunicator/src/main/java/com/neofect/communicator/util/ByteArrayConverter.java:132-134 | Little-endian order is the big-endian bytes reversed. |
| ByteArrayConversion.ReadAt | NFCommunicator/src/main/java/com/neofect/communicator/util/ByteArrayConverter.java:158 | An array read succeeds exactly for an index inside the array, and otherwise throws `ArrayIndexOutOfBoundsException`. |
| ByteArrayConversion.Places | NFCommunicator/src/main/java/com/neofect/communicator/util/ByteArrayConverter.java:153-165 | The filled `byte[4]` when every read succeeds, place by place; otherwise `ArrayIndexOutOfBoundsException`. |
| ByteArrayConversion.ByteArrayToInt | NFCommunicator/src/main/java/com/neofect/communicator/util/ByteArrayConverter.java:146-170 | The loop returns `BytesToInt`: 0 for a null array, otherwise the four places read as an `int` in the given order. |
| ByteArrayConversion.ByteArrayToIntBigEndian | NFCommunicator/src/main/java/com/neofect/communicator/util/ByteArrayConverter.java:139-141 | The 3-argument form is the big-endian 4-argument form. |
| ByteArrayConversion.BigEndianBytesValue | NFCommunicator/src/main/java/com/neofect/communicator/util/ByteArrayConverter.java:132-134 | Reading the big-endian bytes of x gives x. |
| ByteArrayConversion.GetIntOfBytes | NFCommunicator/src/main/java/com/neofect/communicator/util/ByteArrayConverter.java:132-134 | `getInt` inverts `putInt` in either byte order. |
| ByteArrayConversion.IntRoundTrip | NFCommunicator/src/main/java/com/neofect/communicator/util/ByteArrayConverter.java:132-170 | `byteArrayToInt(intToByteArray(x, order), 0, 4, order) == x`. |
| ByteArrayConversion.ShortBigEndian | NFCommunicator/src/main/java/com/neofect/communicator/util/ByteArrayConverter.java:154-158 | A length of at most 3 gives the unsigned big-endian value of those bytes (below 2^24). |
| ByteArrayConversion.ShortLittleEndian | NFCommunicator/src/main/java/com/neofect/communicator/util/ByteArrayConverter.java:159-164 | A length of at most 3 gives the unsigned little-endian value of those bytes (below 2^24). |
| ByteArrayConversion.LeadingZerosIgnored | NFCommunicator/src/main/java/com/neofect/communicator/util/ByteArrayConverter.java:155-156 | Zero padding in front does not change a big-endian value. |
| ByteArrayConversion.TrailingZerosIgnored | NFCommunicator/src/main/java/com/neofect/communicator/util/ByteArrayConverter.java:160-161 | Zero padding behind does not change a little-endian value. |
| ByteArrayConversion.GetIntBigEndian | NFCommunicator/src/main/java/com/neofect/communicator/util/ByteArrayConverter.java:167-169 | A big-endian `getInt` is the unsigned value wrapped to `int`. |
| ByteArrayConversion.GetIntLittleEndian | NFCommunicator/src/main/java/com/neofect/communicator/util/ByteArrayConverter.java:167-169 | A little-endian `getInt` is the unsigned little-endian value wrapped to `int`. |
| ByteArrayConversion.NoLengthGivesZero | NFCommunicator/src/main/java/com/neofect/communicator/util/ByteArrayConverter.java:153-165 | A length of 0 or less reads nothing and gives 0, little-endian always and big-endian while the length is above -0x7FFF_FFFC (below that `4 - length` wraps and bytes are read). |
| ByteArrayConversion.NegativeStartThrows | NFCommunicator/src/main/java/com/neofect/communicator/util/ByteArrayConverter.java:158 | Every negative start with a length of 1 to 4 throws `ArrayIndexOutOfBoundsException`, in either byte order. |
| UsbDrivers.CreateDriver | communicator/src/main/java/com/neofect/communicator/usb/UsbSerialDriverFactory.java:25-45 | Every failure is `IllegalArgumentException`. |
| UsbDrivers.SupportingProducts | communicator/src/main/java/com/neofect/communicator/usb/UsbSerialDriverFactory.java:47-54 | Four distinct products, all from the SiLabs vendor id. |
| UsbDrivers.Cp21xxIffSupported | communicator/src/main/java/com/neofect/communicator/usb/UsbSerialDriverFactory.java:25-54 | The CP21xx driver is created exactly for the products that `getSupportingProducts` lists. |
| UsbDrivers.DriverIffSupportedOrStm | communicator/src/main/java/com/neofect/communicator/usb/UsbSerialDriverFactory.java:25-54 | A driver is created exactly for a listed product or the STM32 port, which gets the CDC-ACM driver and is not listed. |
| UsbDrivers.ConfigSingle | NFCommunicator/nfcommunicator/src/main/java/com/neofect/communicator/usb/UsbCp21xxSerialDriver.java:72-75 | A single-value configuration request carries the request code and value and no data. |
| UsbDrivers.BaudRateBytes | NFCommunicator/nfcommunicator/src/main/java/com/neofect/communicator/usb/UsbCp21xxSerialDriver.java:135-141 | Four bytes. |
| UsbDrivers.BaudRateBytesLittleEndian | NFCommunicator/nfcommunicator/src/main/java/com/neofect/communicator/usb/UsbCp21xxSerialDriver.java:135-141 | The four masked and shifted bytes are the rate in little-endian order. |
| UsbDrivers.BaudRateRoundTrip | NFCommunicator/nfcommunicator/src/main/java/com/neofect/communicator/usb/UsbCp21xxSerialDriver.java:135-141 | Reading the four bytes as a little-endian `int` gives the baud rate back. |
| UsbDrivers.LineControlFields | NFCommunicator/nfcommunicator/src/main/java/com/neofect/communicator/usb/UsbCp21xxSerialDriver.java:149-190 | The word's high byte is the number of data bits (8 for an unknown value), bits 4-5 the parity (1 odd, 2 even, 0 otherwise), bits 0-3 the stop bits (2 for two, 0 otherwise). |
| UsbDrivers.LineControlValue | NFCommunicator/nfcommunicator/src/main/java/com/neofect/communicator/usb/UsbCp21xxSerialDriver.java:149-190 | The line-control word equals the data bits times 0x100, plus the parity code times 0x10, plus the stop code. |
| UsbDrivers.FlagsDisjoint | NFCommunicator/nfcommunicator/src/main/java/com/neofect/communicator/usb/UsbCp21xxSerialDriver.java:153-188 | The three fields occupy disjoint bits, so ORing them adds them. |
| UsbDrivers.SetParameters | NFCommunicator/nfcommunicator/src/main/java/com/neofect/communicator/usb/UsbCp21xxSerialDriver.java:149-190 | The baud-rate request goes first; a negative transfer result throws `IOException` and stops; otherwise the line-control request follows. |
| UsbDrivers.Open | NFCommunicator/nfcommunicator/src/main/java/com/neofect/communicator/usb/UsbCp21xxSerialDriver.java:77-124 | No interface throws a `RuntimeException` with no request sent; otherwise three requests: UART enable, the handshake request carrying `HandshakeValue()` (0x0303 by `HandshakeBits`), and the divisor of 0x384000 by 9600. |
| UsbDrivers.HandshakeBits | NFCommunicator/nfcommunicator/src/main/java/com/neofect/communicator/usb/UsbCp21xxSerialDriver.java:109 | The handshake value raises DTR and RTS and sets both write-enable bits: 0x0303. |
| UsbDrivers.Close | NFCommunicator/nfcommunicator/src/main/java/com/neofect/communicator/usb/UsbCp21xxSerialDriver.java:126-133 | A closed connection throws `IOException`; otherwise one UART request. |
| UsbDrivers.CloseUndoesEnable | NFCommunicator/nfcommunicator/src/main/java/com/neofect/communicator/usb/UsbCp21xxSerialDriver.java:126-133 | Closing sends the same request as the enable step of opening, with the disable value. |
| SensorDataChecking.RecordLoss | communicator/src/main/java/com/neofect/communicator/usb/Summary.kt:15-23 | The total grows by the loss (modulo 2^32); each maximum becomes the larger of itself and the new value; the frame count is unchanged. |
| SensorDataChecking.Summary.constructor | communicator/src/main/java/com/neofect/communicator/usb/Summary.kt:7-11 | All four counters start at 0. |
| SensorDataChecking.Summary.SetLossCount | communicator/src/main/java/com/neofect/communicator/usb/Summary.kt:15-23 | The counters become `RecordLoss` of the old ones. |
| SensorDataChecking.Summary.Clear | communicator/src/main/java/com/neofect/communicator/usb/Summary.kt:25-30 | All four counters are 0. |
| SensorDataChecking.MaxLossBoundsAll | communicator/src/main/java/com/neofect/communicator/usb/Summary.kt:17-19 | After any losses, the maximum is at least the old maximum and every loss. |
| SensorDataChecking.MaxLossAttained | communicator/src/main/java/com/neofect/communicator/usb/Summary.kt:17-19 | After any losses, the maximum is the old maximum or one of the losses. |
| SensorDataChecking.TotalLossAddsUp | communicator/src/main/java/com/neofect/communicator/usb/Summary.kt:16 | After any losses, the total is the old total plus their sum, modulo 2^32. |
| SensorDataChecking.XIndex | communicator/src/main/java/com/neofect/communicator/usb/SmartBalanceSensorDataChecker.kt:38 | Read as written, the line index is the signed byte; masked, it is the unsigned byte. |
| SensorDataChecking.Step | communicator/src/main/java/com/neofect/communicator/usb/SmartBalanceSensorDataChecker.kt:40-67 | A sensor frame leaves its frame and line index as the last seen and adds one to the frame count. |
| SensorDataChecking.SmartBalanceSensorDataChecker.constructor | communicator/src/main/java/com/neofect/communicator/usb/SmartBalanceSensorDataChecker.kt:13-17 | Frame 0, line 0, no good lines, a cleared summary. |
| SensorDataChecking.SmartBalanceSensorDataChecker.SimpleCheckSensorData | communicator/src/main/java/com/neofect/communicator/usb/SmartBalanceSensorDataChecker.kt:20-68 | The new state and outcome are those of `Check`. |
| SensorDataChecking.OtherMessagesIgnored | communicator/src/main/java/com/neofect/communicator/usb/SmartBalanceSensorDataChecker.kt:21-34 | A message not starting with `0xfa 0xd3` changes nothing. |
| SensorDataChecking.TruncatedFrameThrows | communicator/src/main/java/com/neofect/communicator/usb/SmartBalanceSensorDataChecker.kt:21-38 | A sensor message shorter than 18 bytes throws `ArrayIndexOutOfBoundsException` and changes nothing. |
| SensorDataChecking.SensorFrameCounted | communicator/src/main/java/com/neofect/communicator/usb/SmartBalanceSensorDataChecker.kt:36-67 | A sensor frame is counted and remembered; anything else leaves the state unchanged. |
| SensorDataChecking.SkippedLinesRecorded | communicator/src/main/java/com/neofect/communicator/usb/SmartBalanceSensorDataChecker.kt:45-54 | A jump in the line index within one frame records `xIdx - beforeXIdx - 1` lost lines and the good-line run, then restarts the run. |
| SensorDataChecking.NextLineNoLoss | communicator/src/main/java/com/neofect/communicator/usb/SmartBalanceSensorDataChecker.kt:55-58 | The next line of the same frame extends the good-line run and records nothing. |
| SensorDataChecking.FrameZeroOnlyCounted | communicator/src/main/java/com/neofect/communicator/usb/SmartBalanceSensorDataChecker.kt:40-67 | Frame 0 is only counted. |
| SensorDataChecking.FrameChangeCountsGood | communicator/src/main/java/com/neofect/communicator/usb/SmartBalanceSensorDataChecker.kt:60-63 | A change between two non-zero frames counts as a good line and records nothing. |
| SensorDataChecking.RepeatedLineOnlyCounted | communicator/src/main/java/com/neofect/communicator/usb/SmartBalanceSensorDataChecker.kt:45-46 | The same line index again within the held frame records nothing and keeps the good-line run. |
| SensorDataChecking.FrameAdopted | communicator/src/main/java/com/neofect/communicator/usb/SmartBalanceSensorDataChecker.kt:40-58 | With no frame held, a non-zero frame is adopted with a run of zero: the same line keeps the run at 0, the next line makes it 1, any other line records `xIdx - beforeXIdx - 1` lost lines with a run of 0. |
| SensorDataChecking.FirstFrameRecordsLoss | communicator/src/main/java/com/neofect/communicator/usb/SmartBalanceSensorDataChecker.kt:40-58 | A new checker given frame 1, line 5 records a loss of 4 lines with a run of 0, holding frame 1 and line 5. |
| SensorDataChecking.NextLineAfter127CountedAsLoss | communicator/src/main/java/com/neofect/communicator/usb/SmartBalanceSensorDataChecker.kt:38 | As written, line 0x80 after line 0x7f reads as -128 and records -256 lost lines; masked, it is the next line. |
| SensorDataChecking.NextLineNeverLost | communicator/src/main/java/com/neofect/communicator/usb/SmartBalanceSensorDataChecker.kt:38-58 | With the index masked, the next line of the same frame never records a loss. |
| SensorDataChecking.CountsSensorFrames | communicator/src/main/java/com/neofect/communicator/usb/SmartBalanceSensorDataChecker.kt:65 | After any messages, the frame count grows by the number of sensor frames (modulo 2^32) and neither maximum decreases. |

## Left out

- Threads and locking: the model is sequential; `synchronized` blocks and the decode running on a reader thread are not modelled.
- `Handler.post`: a delivery to a listener is an entry appended to the communicator's `log`, in posting order; the main looper is not modelled.
- Reflection: device classes and message classes are type tags with a parent; `createDeviceInstance` and `Class.newInstance` become a device state given to the controller (`None` when instantiation fails).
- Transports: `connect()`/`disconnect()` of Bluetooth, USB, TCP and dummy connections, `ConnectionFactory` and `Communicator.disconnect*` are not modelled; what a transport's `connect` does is the parameter `transportOutcome`, and the bytes it delivers arrive through `HandleReadData`.
- The controller hooks `onConnected`, `onDisconnected` and `onReplaced` are empty in the library and are left out.
- `Connection.handleReadData(byte[] data, int size)`: it calls a `ByteRingBuffer.put(byte[], int)` overload that the modelled buffer does not have.
- Logging (`Log.*`, `printBuffer`, the sensor checker's per-frame log lines) and `byteArrayToHex(array, numForRow[, format])`, which depends on `String.format`.
- Floating point: `Summary.dataLossRate` and `Summary.toString`.
- The sample `main` of `VersionChecker` (VersionChecker.java:81-101): evaluating its literal versions does not fit the verifier's budget; the general lemmas `VersionWithinItself`, `OutOfRangeFails`, `ZeroPieceIgnored` and `LeadingZeroParses` state what those samples check.
- USB hardware: `claimInterface`, the endpoint search and the transfers themselves; a control transfer is a value, and its result is a parameter.
- `SimpleRobotMessageEncoder` and the robot's `OperateWheelsMessage.encodePayload` are not part of this model.
- Engine.Controller.constructor: requires a decoder that never consumes more than is buffered and consumes at least one byte when it returns a message. The Java loop does not check this; without it the decode loop need not terminate.
- RingBuffers.ByteRingBuffer.WithCapacity: requires a positive capacity; with capacity 0 the first `put` divides by zero in `% buffer.length`.
- RingBuffers.ByteRingBuffer.WithMaxCapacity: requires a positive capacity, for the same reason.
- RingBuffers.ByteRingBuffer.ExpandBuffer: requires a target size that is positive and holds the content, which is how `put` calls it.
- RingBuffers.ByteRingBuffer.Put: sizes are unbounded integers, so the `int` wrap of `contentSize + data.length` (ByteRingBuffer.java:65), `headIndex + contentSize` (:73) and `tailIndex + dataLength` (:75) is not modelled; for data of nearly 2^31 bytes Java throws `NegativeArraySizeException` from the grown array or `ArrayIndexOutOfBoundsException` from `arraycopy`, where the model grows the array or keeps the last bytes.
- RingBuffers.ByteRingBuffer.CopyIn: the same unbounded sums in the copy loop (ByteRingBuffer.java:73-75); the run length is never chosen from a wrapped test.
- RingBuffers.ByteRingBuffer.Consume: the size is a `nat`; a negative size, which Java would accept and which grows the content, is not modelled.
- RingBuffers.ByteRingBuffer.FillByteArrayFromInternalBuffer: the indices and length are `nat` and the target is not the internal array; negative arguments, for which Java throws from `arraycopy`, are not modelled.
- ByteArrayConversion.ByteArrayToHex: requires an array shorter than 2^31 bytes, as every Java array is; the same holds for ByteArrayToHexWithoutSpace.
- JavaStrings.ParseInt: accepts ASCII digits and letters only; Java's `Character.digit` also accepts other Unicode digits.
- JavaStrings.Split: models `split` with a one-character separator that is not a regular-expression metacharacter, which is how `VersionChecker` (after escaping) and `ByteArrayConverter` call it.
- SensorDataChecking.SkippedLinesRecorded: excludes `xIdx == Int.MIN_VALUE` and a loss that overflows `int`; both need line indices far outside what a byte gives.
- UsbDrivers.Open: the interface count is a `nat`; only the three configuration requests are modelled, not the returned endpoints.
- DummySimpleRemotes.DummySimpleRemote.SendData: the `long` accumulators are unbounded integers; overflow after 2^63 ms is not modelled.
- The `NFCommunicator/src/...` and `NFCommunicator/nfcommunicator/...` copies of the engine classes and of `UsbSerialDriverFactory` (which has no STM32 entry) are earlier snapshots and are not modelled, except for one method: `Device.sendMessage` and its null-connection check (NFCommunicator/src/main/java/com/neofect/communicator/Device.java lines 75-79), which the sample `SimpleRemote.startBeep` calls and which the `communicator` copy lacks; `SimpleRemotes.SimpleRemote.StartBeep` models it.
- Engine.Controller.DecodeRawMessageAndProcess: inbound callbacks and the device's message processing are functions of the message (and the device state) that cannot call back into the engine. A callback that calls `connection.replaceController(...)` mid-pass, halting the old controller so that the new one decodes the rest, cannot be expressed: `halted` is fixed for the whole pass.
- Engine.Controller.RunDeviceStep: a device's `processMessage` that changes fields and then throws keeps those changes in Java; the model discards the partial update and keeps the device as it was before the message.
- Engine.Controller.ProcessInboundMessage: the same two limits apply to each message it processes: callbacks cannot re-enter the engine, and a partial device update before an exception is discarded.

## Findings

| source | as written | input that shows it | evidently intended | confidence | as-written member | corrected member |
|---|---|---|---|---|---|---|
| SampleProject/src/com/neofect/communicator/sample/device/SimpleRobotMessageDecoder.java:28 | `inputBuffer.peek(0) != 0x9D` compares a signed `byte` (-128..127) with the `int` 157, which no byte equals, so the resync loop consumes every buffered byte and `decodeMessage` never returns a message | `[0x9d, 4, 2, 7]` | compare with `(byte) 0x9D`, so the frame decodes to a proximity report of 7 and consumes 4 bytes | not executed | SimpleRobotCodec.ProximityFrameLost | SimpleRobotCodec.DecodeProximityFrame |
| communicator/src/main/java/com/neofect/communicator/usb/SmartBalanceSensorDataChecker.kt:38 | `(messageByte[17] and 0xff.toByte()).toInt()` masks inside `Byte` and then sign-extends, so line indices 0x80..0xff read as -128..-1 | a sensor frame of frame 1 with line 0x80 right after line 0x7f: a loss of -256 lines is recorded and the good-line run restarts | `messageByte[17].toInt() and 0xff`, reading 128, the next line | not executed | SensorDataChecking.NextLineAfter127CountedAsLoss | SensorDataChecking.NextLineNeverLost |
