/**
 * The sample remote control: a device that remembers the last button
 * pressed and whether its battery ran low, and that can be told to beep.
 * `ProcessRemoteMessage` is its `processMessage` as a function of its state;
 * the `SimpleRemote` class updates its fields in place, and the lemmas say
 * what a stream of frames from the remote does to it.
 */
module SimpleRemotes {
  import opened JavaTypes
  import opened Results
  import opened MessageDecoding
  import opened Devices
  import opened Inbound
  import opened Engine
  import opened SampleMessages
  import opened SampleDecoding

  /** The fields of a `SimpleRemote`. */
  datatype RemoteState = RemoteState(lowBattery: bool, lastPressedButtonId: int32)

  /** A new remote: battery fine, no button pressed yet (-1). */
  const INITIAL_STATE := RemoteState(false, -1)

  /** A button id the remote can hold: a byte, or -1 before any press. */
  predicate ValidRemoteState(s: RemoteState)
  {
    -128 <= s.lastPressedButtonId < 128
  }

  /**
   * `processMessage`: a button press records the button, a low-battery alert
   * sets the flag, and both report a change; any other message changes
   * nothing and is reported as unhandled.
   */
  function ProcessRemoteMessage(s: RemoteState, m: SampleMessage): (r: (RemoteState, bool))
    ensures r.1 <==> m.ButtonPressed? || m.LowBatteryAlert?
    ensures !r.1 ==> r.0 == s
    ensures r.0.lowBattery == (s.lowBattery || m.LowBatteryAlert?)
    ensures r.0.lastPressedButtonId == if m.ButtonPressed? then m.buttonId as int32 else s.lastPressedButtonId
    ensures ValidRemoteState(s) ==> ValidRemoteState(r.0)
  {
    match m
    case ButtonPressed(buttonId) => (s.(lastPressedButtonId := buttonId as int32), true)
    case LowBatteryAlert => (s.(lowBattery := true), true)
    case StartBeep(_) => (s, false)
  }

  /** `SimpleRemote.processMessage` as the framework's controller sees it: it never throws. */
  function RemoteLogic(): DeviceLogic<RemoteState, SampleMessage>
  {
    (s: RemoteState, m: SampleMessage) => Ok(ProcessRemoteMessage(s, m))
  }

  /** The state after processing `ms` in order. */
  function Replay(s: RemoteState, ms: seq<SampleMessage>): RemoteState
    decreases |ms|
  {
    if ms == [] then s else Replay(ProcessRemoteMessage(s, ms[0]).0, ms[1..])
  }

  /** Once low, the battery flag stays set; it is set exactly when it was, or when an alert came. */
  lemma {:induction false} LowBatteryReplay(s: RemoteState, ms: seq<SampleMessage>)
    ensures Replay(s, ms).lowBattery <==> s.lowBattery || LowBatteryAlert in ms
    decreases |ms|
  {
    if ms != [] {
      LowBatteryReplay(ProcessRemoteMessage(s, ms[0]).0, ms[1..]);
      assert ms == [ms[0]] + ms[1..];
    }
  }

  /** Messages that are not button presses leave the remote's button as it was. */
  lemma {:induction false} NoPressKeepsButton(s: RemoteState, ms: seq<SampleMessage>)
    requires forall i | 0 <= i < |ms| :: !ms[i].ButtonPressed?
    ensures Replay(s, ms).lastPressedButtonId == s.lastPressedButtonId
    decreases |ms|
  {
    if ms != [] {
      assert forall i | 0 <= i < |ms[1..]| :: ms[1..][i] == ms[i + 1];
      NoPressKeepsButton(ProcessRemoteMessage(s, ms[0]).0, ms[1..]);
    }
  }

  /** The remote's button is that of the last button press among `ms`. */
  lemma {:induction false} LastPressWins(s: RemoteState, ms: seq<SampleMessage>, i: nat)
    requires i < |ms| && ms[i].ButtonPressed?
    requires forall j | i < j < |ms| :: !ms[j].ButtonPressed?
    ensures Replay(s, ms).lastPressedButtonId == ms[i].buttonId as int32
    decreases i
  {
    var s' := ProcessRemoteMessage(s, ms[0]).0;
    assert forall j | 0 <= j < |ms[1..]| :: ms[1..][j] == ms[j + 1];
    if i == 0 {
      NoPressKeepsButton(s', ms[1..]);
    } else {
      LastPressWins(s', ms[1..], i - 1);
    }
  }

  /** The frame the remote sends for a message it can send: `[0x9d, 1, id]` or `[0x9d, 2]`. */
  function FrameOf(m: SampleMessage): seq<byte>
  {
    match m
    case ButtonPressed(b) => [HEADER_BYTE, 1, b]
    case LowBatteryAlert => [HEADER_BYTE, 2]
    case StartBeep(_) => []
  }

  /** The frames of `ms`, back to back. */
  function Frames(ms: seq<SampleMessage>): seq<byte>
    decreases |ms|
  {
    if ms == [] then [] else FrameOf(ms[0]) + Frames(ms[1..])
  }

  /** The inbound pipeline of a controller for the remote, with no callbacks. */
  function RemotePipeline(cache: map<DeviceClass, seq<Listener>>): (p: Pipeline<SampleMessage, RemoteState>)
    ensures DecoderReady(p)
  {
    SampleDecodeWellBehaved();
    Pipeline(Some(SampleDecode), [], [], RemoteLogic(), cache)
  }

  /** The callbacks a processed message posts to the remote's listeners: "processed", then "updated" when it changed. */
  function RemoteDeliveries(cache: map<DeviceClass, seq<Listener>>, c: DeviceClass, s: RemoteState, m: SampleMessage)
    : seq<Delivery<SampleMessage, RemoteState>>
  {
    var r := ProcessRemoteMessage(s, m);
    var updated := Device(c, r.0);
    Notify(CachedHandlers(cache, c), DeviceMessageProcessed(updated, m)) +
    (if r.1 then Notify(CachedHandlers(cache, c), DeviceUpdated(updated)) else [])
  }

  /** The frame of a button press or battery alert decodes to that message, whatever follows it. */
  lemma FrameDecodes(m: SampleMessage, rest: seq<byte>)
    requires !m.StartBeep?
    ensures SampleDecode(FrameOf(m) + rest) == DecodeStep(|FrameOf(m)|, Decoded(m))
  {
    match m
    case ButtonPressed(b) => DecodeButtonFrame(b, rest);
    case LowBatteryAlert => DecodeLowBatteryFrame(rest);
  }

  /** With no callbacks, the controller hands a message to the remote and posts its callbacks. */
  lemma RemoteProcessing(cache: map<DeviceClass, seq<Listener>>, c: DeviceClass, s: RemoteState, m: SampleMessage)
    ensures ProcessInbound([], [], Some(Device(c, s)), RemoteLogic(), cache, m) ==
              Processed(Some(Device(c, ProcessRemoteMessage(s, m).0)), RemoteDeliveries(cache, c, s, m), None)
  {
    assert RunChain<SampleMessage>([], m) == Ok(false);
  }

  /**
   * A pass that starts with the frame of a button press or battery alert
   * processes that message, posting its callbacks, then goes on as a pass
   * over what follows the frame.
   */
  lemma FrameThenRest(cache: map<DeviceClass, seq<Listener>>, c: DeviceClass, s: RemoteState,
                      m: SampleMessage, rest: seq<byte>)
    requires !m.StartBeep?
    ensures var r := DecodePass(RemotePipeline(cache), false, FrameOf(m) + rest, Some(Device(c, s)));
            var tail := DecodePass(RemotePipeline(cache), false, rest, Some(Device(c, ProcessRemoteMessage(s, m).0)));
            r.content == tail.content && r.device == tail.device && r.reports == tail.reports &&
            r.deliveries == RemoteDeliveries(cache, c, s, m) + tail.deliveries
  {
    var content := FrameOf(m) + rest;
    FrameDecodes(m, rest);
    RemoteProcessing(cache, c, s, m);
    assert content[|FrameOf(m)|..] == rest;
    DecodePassResumes(RemotePipeline(cache), content, Some(Device(c, s)), m, [], []);
  }

  /** The callbacks posted while processing `ms` in order, from state `s`. */
  function ReplayDeliveries(cache: map<DeviceClass, seq<Listener>>, c: DeviceClass, s: RemoteState, ms: seq<SampleMessage>)
    : seq<Delivery<SampleMessage, RemoteState>>
    decreases |ms|
  {
    if ms == [] then []
    else RemoteDeliveries(cache, c, s, ms[0]) + ReplayDeliveries(cache, c, ProcessRemoteMessage(s, ms[0]).0, ms[1..])
  }

  /**
   * A pass over the frames of button presses and battery alerts consumes
   * them all, reports nothing, leaves the remote in the state that
   * processing those messages in order gives, and posts their callbacks in
   * that order.
   */
  lemma {:induction false} FramesReachRemote(cache: map<DeviceClass, seq<Listener>>, c: DeviceClass,
                                             s: RemoteState, ms: seq<SampleMessage>)
    requires forall i | 0 <= i < |ms| :: !ms[i].StartBeep?
    ensures var r := DecodePass(RemotePipeline(cache), false, Frames(ms), Some(Device(c, s)));
            r.content == [] && r.device == Some(Device(c, Replay(s, ms))) && r.reports == [] &&
            r.deliveries == ReplayDeliveries(cache, c, s, ms)
    decreases |ms|
  {
    if ms == [] {
      assert SampleDecode([]) == DecodeStep(0, NeedMore);
    } else {
      var s' := ProcessRemoteMessage(s, ms[0]).0;
      assert Frames(ms) == FrameOf(ms[0]) + Frames(ms[1..]);
      assert Replay(s, ms) == Replay(s', ms[1..]);
      assert ReplayDeliveries(cache, c, s, ms) ==
               RemoteDeliveries(cache, c, s, ms[0]) + ReplayDeliveries(cache, c, s', ms[1..]);
      assert forall i | 0 <= i < |ms[1..]| :: ms[1..][i] == ms[i + 1];
      FrameThenRest(cache, c, s, ms[0], Frames(ms[1..]));
      FramesReachRemote(cache, c, s', ms[1..]);
    }
  }

  /**
   * One button frame through the controller: the remote records the button
   * and its listeners get "message processed" then "device updated".
   */
  lemma ButtonFrameReachesListeners(cache: map<DeviceClass, seq<Listener>>, c: DeviceClass, s: RemoteState, b: byte)
    ensures var r := DecodePass(RemotePipeline(cache), false, [HEADER_BYTE, 1, b], Some(Device(c, s)));
            var updated := Device(c, s.(lastPressedButtonId := b as int32));
            r.content == [] && r.device == Some(updated) && r.reports == [] &&
            r.deliveries == Notify(CachedHandlers(cache, c), DeviceMessageProcessed(updated, ButtonPressed(b))) +
                            Notify(CachedHandlers(cache, c), DeviceUpdated(updated))
  {
    DecodeButtonFrame(b, []);
    assert [HEADER_BYTE, 1, b][3..] == [];
    assert SampleDecode([]) == DecodeStep(0, NeedMore);
  }

  /** The encoder the remote's controller uses makes the beep command `[0x9d, 3, hi, lo]`. */
  lemma BeepEncoding(controller: Controller<SampleMessage, RemoteState>, timeDuration: int32)
    requires controller.encoder == Some(Encode)
    ensures controller.EncodeMessage(Some(StartBeep(timeDuration))) ==
              Ok(Some([HEADER_BYTE, 3] + StartBeepPayload(timeDuration)))
  {
  }

  /** A `SimpleRemote` device object, its fields updated in place. */
  class SimpleRemote {
    var lowBattery: bool
    var lastPressedButtonId: int32
    /** The connection commands are sent through; null when the remote has none. */
    const connection: Option<Connection<SampleMessage, RemoteState>>

    function State(): RemoteState
      reads this
    {
      RemoteState(lowBattery, lastPressedButtonId)
    }

    constructor (connection: Option<Connection<SampleMessage, RemoteState>>)
      ensures State() == INITIAL_STATE && this.connection == connection
    {
      lowBattery := false;
      lastPressedButtonId := -1;
      this.connection := connection;
    }

    /** `processMessage`: updates the fields and reports whether the message was handled. */
    method ProcessMessage(m: SampleMessage) returns (handled: bool)
      modifies this`lowBattery, this`lastPressedButtonId
      ensures (State(), handled) == ProcessRemoteMessage(old(State()), m)
    {
      match m {
        case ButtonPressed(buttonId) =>
          lastPressedButtonId := buttonId as int32;
          return true;
        case LowBatteryAlert =>
          lowBattery := true;
          return true;
        case StartBeep(_) =>
          return false;
      }
    }

    /**
     * `startBeep`: sends a beep command through the connection, whose
     * encoding exception propagates; without a connection nothing is sent.
     */
    method StartBeep(timeDuration: int32) returns (r: Outcome)
      modifies if connection.Some? then {connection.value} else {}
      ensures connection.None? ==> r == Done
      ensures connection.Some? ==>
                var encoded := connection.value.controller.EncodeMessage(Some(SampleMessage.StartBeep(timeDuration)));
                if encoded.Err? then r == Threw(encoded.error) && connection.value.written == old(connection.value.written)
                else r == Done && connection.value.written == old(connection.value.written) + [encoded.value]
      ensures connection.Some? ==> unchanged(connection.value`controller, connection.value`status,
                                             connection.value`disconnectRequests)
    {
      if connection.None? {
        return Done;
      }
      r := connection.value.SendMessage(Some(SampleMessage.StartBeep(timeDuration)));
    }
  }
}
