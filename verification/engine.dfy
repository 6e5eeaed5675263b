/**
 * The message-processing engine: a `Controller` owns a device, its codec and
 * its inbound callback lists; a `Connection` holds a status, a controller and
 * the inbound ring buffer; the `Communicator` keeps the list of connections,
 * the registered listeners and a per-device-class cache of them, and posts
 * listener callbacks. Posting to a listener appends to the communicator's
 * ordered `log`. The single `Communicator` instance is passed explicitly.
 */
module Engine {
  import opened JavaTypes
  import opened Results
  import opened Lists
  import opened RingBuffers
  import opened MessageDecoding
  import opened Devices
  import opened Inbound

  /** `Connection.Status`. */
  datatype Status = NotConnected | Connecting | Connected

  /** The capacity of every connection's ring buffer: 2 MiB. */
  const CONNECTION_BUFFER_CAPACITY: nat := 2 * 1024 * 1024

  /** The device of a connection's current controller. */
  function DeviceOf<M, S>(c: Connection<M, S>): Option<Device<S>>
    reads c, c.controller
  {
    c.controller.device
  }

  /** The classes of the devices the connections of `cs` hold, whatever their status. */
  ghost function ClassesWithDevice<M, S>(cs: seq<Connection<M, S>>): set<DeviceClass>
    reads set c | c in cs, set c | c in cs :: c.controller
  {
    set c | c in cs && DeviceOf(c).Some? :: DeviceOf(c).value.deviceClass
  }

  /** One more connection adds the class of its device, if it has one. */
  lemma ClassesWithDeviceStep<M, S>(cs: seq<Connection<M, S>>, i: nat)
    requires i < |cs|
    ensures ClassesWithDevice(cs[..i + 1]) ==
            ClassesWithDevice(cs[..i]) + (if DeviceOf(cs[i]).Some? then {DeviceOf(cs[i]).value.deviceClass} else {})
  {
    assert forall c | c in cs[..i + 1] :: c in cs[..i] || c == cs[i];
    assert forall c | c in cs[..i] :: c in cs[..i + 1];
    assert cs[i] in cs[..i + 1];
  }

  /** The cache for one more connection: an entry for its device's class, unless that class has one. */
  lemma HandlerCacheStep<M, S>(cs: seq<Connection<M, S>>, i: nat, keys: seq<DeviceClass>,
                               registered: map<DeviceClass, seq<Listener>>)
    requires i < |cs| && KeysListed(keys, registered)
    ensures var before := HandlerCache(ClassesWithDevice(cs[..i]), keys, registered);
            var d := DeviceOf(cs[i]);
            HandlerCache(ClassesWithDevice(cs[..i + 1]), keys, registered) ==
              if d.Some? && d.value.deviceClass !in before
              then before[d.value.deviceClass := CorrespondingHandlers(keys, registered, d.value.deviceClass)]
              else before
  {
    ClassesWithDeviceStep(cs, i);
    if DeviceOf(cs[i]).Some? {
      HandlerCacheAdd(ClassesWithDevice(cs[..i]), keys, registered, DeviceOf(cs[i]).value.deviceClass);
    }
  }

  /**
   * What a newly registered listener for class `k` is told: one
   * `onDeviceConnected(d, true)` per connected connection, in list order, whose
   * device `d` is of class `k` or a subclass of it.
   */
  ghost function ReplayDeliveries<M, S>(cs: seq<Connection<M, S>>, listener: Listener): seq<Delivery<M, S>>
    reads set c | c in cs, set c | c in cs :: c.controller
    decreases |cs|
  {
    if cs == [] then []
    else
      var last := cs[|cs| - 1];
      var device := DeviceOf(last);
      ReplayDeliveries(cs[..|cs| - 1], listener) +
      (if last.status == Connected && device.Some? && IsSameOrSuperClassDevice(device.value.deviceClass, listener.deviceClass)
       then [Delivery(listener, DeviceConnected(device.value, true))] else [])
  }

  /** `getConnectedDevices`: the device of every connected connection, in list order (null included). */
  ghost function ConnectedDevices<M, S>(cs: seq<Connection<M, S>>): seq<Option<Device<S>>>
    reads set c | c in cs, set c | c in cs :: c.controller
    decreases |cs|
  {
    if cs == [] then []
    else
      var last := cs[|cs| - 1];
      ConnectedDevices(cs[..|cs| - 1]) + (if last.status == Connected then [DeviceOf(last)] else [])
  }

  /**
   * `getNumberOfConnections(c)` for a class: the connected devices of exactly
   * class `c`; a connected connection without a device raises a
   * `NullPointerException`.
   */
  ghost function CountOfClass<M, S>(cs: seq<Connection<M, S>>, c: DeviceClass): Result<nat>
    reads set x | x in cs, set x | x in cs :: x.controller
    decreases |cs|
  {
    if cs == [] then Ok(0)
    else
      var last := cs[|cs| - 1];
      match CountOfClass(cs[..|cs| - 1], c)
      case Err(e) => Err(e)
      case Ok(n) =>
        if last.status != Connected then Ok(n)
        else if DeviceOf(last).None? then Err(NullPointer)
        else Ok(n + if DeviceOf(last).value.deviceClass == c then 1 else 0)
  }

  /** A count never exceeds the number of connected devices. */
  lemma {:induction false} CountOfClassBounded<M, S>(cs: seq<Connection<M, S>>, c: DeviceClass)
    ensures CountOfClass(cs, c).Ok? ==> CountOfClass(cs, c).value <= |ConnectedDevices(cs)|
    decreases |cs|
  {
    if cs != [] {
      CountOfClassBounded(cs[..|cs| - 1], c);
    }
  }

  /** Devices of a subclass are not counted under their superclass. */
  lemma {:induction false} CountOfClassIsExact<M, S>(cs: seq<Connection<M, S>>, c: DeviceClass)
    requires forall x | x in cs && x.status == Connected :: DeviceOf(x).Some? && DeviceOf(x).value.deviceClass != c
    ensures CountOfClass(cs, c) == Ok(0)
    decreases |cs|
  {
    if cs != [] {
      assert cs[|cs| - 1] in cs;
      assert forall x | x in cs[..|cs| - 1] :: x in cs;
      CountOfClassIsExact(cs[..|cs| - 1], c);
    }
  }

  /** Whether a connection has that type and device identifier. */
  predicate Identifies<M, S>(c: Connection<M, S>, connectionType: ConnectionType, deviceIdentifier: string)
  {
    c.connectionType == connectionType && c.deviceIdentifier == deviceIdentifier
  }

  /** The index of the first connection of `cs` with that type and identifier, or -1. */
  function FirstIdentified<M, S>(cs: seq<Connection<M, S>>, connectionType: ConnectionType, deviceIdentifier: string): (i: int)
    ensures -1 <= i < |cs|
    ensures 0 <= i ==> Identifies(cs[i], connectionType, deviceIdentifier)
    ensures forall j | 0 <= j < |cs| && (i < 0 || j < i) :: !Identifies(cs[j], connectionType, deviceIdentifier)
    decreases |cs|
  {
    if cs == [] then -1
    else if Identifies(cs[0], connectionType, deviceIdentifier) then 0
    else
      var k := FirstIdentified(cs[1..], connectionType, deviceIdentifier);
      assert forall j | 1 <= j < |cs| :: cs[j] == cs[1..][j - 1];
      if k < 0 then -1 else k + 1
  }

  /** `getConnection`: the first listed connection with that type and identifier, or null. */
  function FindConnection<M, S>(cs: seq<Connection<M, S>>, connectionType: ConnectionType, deviceIdentifier: string): Option<Connection<M, S>>
  {
    var i := FirstIdentified(cs, connectionType, deviceIdentifier);
    if i < 0 then None else Some(cs[i])
  }

  class Controller<M, S> {
    /** The device class `T` of `Controller<T>`. */
    const deviceClass: DeviceClass
    /** The state of a freshly constructed device, or None when its constructor throws. */
    const newDeviceState: Option<S>
    /** The device class's `processMessage`. */
    const logic: DeviceLogic<S, M>
    const encoder: Option<M -> Result<seq<byte>>>
    const decoder: Option<Decoder<M>>
    var device: Option<Device<S>>
    var beforeCallbacks: seq<Callback<M>>
    var afterCallbacks: seq<Callback<M>>
    var halted: bool
    /** What the `handleException...` hooks were given, in order. */
    var reports: seq<Report<M>>

    ghost predicate Valid()
      reads this
    {
      (decoder.Some? ==> WellBehaved(decoder.value)) &&
      (device.Some? ==> device.value.deviceClass == deviceClass)
    }

    constructor (deviceClass: DeviceClass, newDeviceState: Option<S>, logic: DeviceLogic<S, M>,
                 encoder: Option<M -> Result<seq<byte>>>, decoder: Option<Decoder<M>>)
      requires decoder.Some? ==> WellBehaved(decoder.value)
      ensures Valid()
      ensures this.deviceClass == deviceClass && this.newDeviceState == newDeviceState && this.logic == logic
      ensures this.encoder == encoder && this.decoder == decoder
      ensures device.None? && beforeCallbacks == [] && afterCallbacks == [] && !halted && reports == []
    {
      this.deviceClass := deviceClass;
      this.newDeviceState := newDeviceState;
      this.logic := logic;
      this.encoder := encoder;
      this.decoder := decoder;
      device := None;
      beforeCallbacks, afterCallbacks := [], [];
      halted := false;
      reports := [];
    }

    /** The controller's inbound pipeline, with the handler cache its notifications go through. */
    function PipelineWith(cache: map<DeviceClass, seq<Listener>>): Pipeline<M, S>
      reads this
    {
      Pipeline(decoder, beforeCallbacks, afterCallbacks, logic, cache)
    }

    /** `addCallbackBeforeProcessInboundMessage`: appends. */
    method AddCallbackBefore(callback: Callback<M>)
      modifies this`beforeCallbacks
      ensures beforeCallbacks == old(beforeCallbacks) + [callback]
    {
      beforeCallbacks := beforeCallbacks + [callback];
    }

    /** `addCallbackBeforeProcessInboundMessageAtFront`: inserts at index 0. */
    method AddCallbackBeforeAtFront(callback: Callback<M>)
      modifies this`beforeCallbacks
      ensures beforeCallbacks == [callback] + old(beforeCallbacks)
    {
      beforeCallbacks := [callback] + beforeCallbacks;
    }

    /** `removeCallbackBeforeProcessInboundMessage`: drops the first equal callback and says whether there was one. */
    method RemoveCallbackBefore(callback: Callback<M>) returns (found: bool)
      modifies this`beforeCallbacks
      ensures found == HasCallback(old(beforeCallbacks), callback.token)
      ensures beforeCallbacks == RemoveCallback(old(beforeCallbacks), callback.token)
    {
      found := HasCallback(beforeCallbacks, callback.token);
      beforeCallbacks := RemoveCallback(beforeCallbacks, callback.token);
    }

    /** `addCallbackAfterProcessInboundMessage`: appends. */
    method AddCallbackAfter(callback: Callback<M>)
      modifies this`afterCallbacks
      ensures afterCallbacks == old(afterCallbacks) + [callback]
    {
      afterCallbacks := afterCallbacks + [callback];
    }

    /** `addCallbackAfterProcessInboundMessageAtFront`: inserts at index 0. */
    method AddCallbackAfterAtFront(callback: Callback<M>)
      modifies this`afterCallbacks
      ensures afterCallbacks == [callback] + old(afterCallbacks)
    {
      afterCallbacks := [callback] + afterCallbacks;
    }

    /** `removeCallbackAfterProcessInboundMessage`: drops the first equal callback and says whether there was one. */
    method RemoveCallbackAfter(callback: Callback<M>) returns (found: bool)
      modifies this`afterCallbacks
      ensures found == HasCallback(old(afterCallbacks), callback.token)
      ensures afterCallbacks == RemoveCallback(old(afterCallbacks), callback.token)
    {
      found := HasCallback(afterCallbacks, callback.token);
      afterCallbacks := RemoveCallback(afterCallbacks, callback.token);
    }

    /**
     * `initializeDevice`: creates the device, once. With a device already in
     * place it throws `IllegalStateException` and keeps that device; a device
     * constructor that fails surfaces as a `RuntimeException`.
     */
    method InitializeDevice() returns (r: Outcome)
      requires Valid()
      modifies this`device
      ensures Valid()
      ensures old(device).Some? ==> r == Threw(IllegalState) && device == old(device)
      ensures old(device).None? && newDeviceState.None? ==> r == Threw(Runtime(Instantiation)) && device.None?
      ensures old(device).None? && newDeviceState.Some? ==>
                r == Done && device == Some(Device(deviceClass, newDeviceState.value))
    {
      if device.Some? {
        return Threw(IllegalState);
      }
      if newDeviceState.None? {
        return Threw(Runtime(Instantiation));
      }
      device := Some(Device(deviceClass, newDeviceState.value));
      return Done;
    }

    /** `halt`: sets the flag for good; no method of the model clears it. */
    method Halt()
      modifies this`halted
      ensures halted
    {
      halted := true;
    }

    /**
     * `encodeMessage`: null (None) without an encoder or without a message;
     * otherwise the encoder's bytes, with its exception wrapped in a
     * `RuntimeException`.
     */
    function EncodeMessage(message: Option<M>): (r: Result<Option<seq<byte>>>)
      ensures encoder.None? || message.None? ==> r == Ok(None)
      ensures encoder.Some? && message.Some? && encoder.value(message.value).Ok? ==>
                r == Ok(Some(encoder.value(message.value).value))
      ensures encoder.Some? && message.Some? && encoder.value(message.value).Err? ==>
                r == Err(Runtime(encoder.value(message.value).error))
    {
      if encoder.None? || message.None? then Ok(None)
      else
        match encoder.value(message.value)
        case Ok(bytes) => Ok(Some(bytes))
        case Err(e) => Err(Runtime(e))
    }

    /**
     * `processInboundMessage`: the callback chains and the device, as
     * `ProcessInbound` describes; an exception is handed to the reporting hook.
     */
    method ProcessInboundMessage(m: M, comm: Communicator<M, S>)
      requires Valid()
      modifies this`device, this`reports, comm`log
      ensures Valid()
      ensures var p := ProcessInbound(beforeCallbacks, afterCallbacks, old(device), logic, comm.connectedDeviceHandlers, m);
              device == p.device && comm.log == old(comm.log) + p.deliveries &&
              reports == old(reports) + FailureReports(p.failure, m)
    {
      var claimed := RunCallbacks(beforeCallbacks, m);
      if claimed.Err? {
        reports := reports + [ProcessingFailed(claimed.error, m)];
        return;
      }
      if claimed.value {
        return;
      }
      var failure := RunDeviceStep(m, comm);
      if failure.Some? {
        reports := reports + [ProcessingFailed(failure.value, m)];
        return;
      }
      claimed := RunCallbacks(afterCallbacks, m);
      if claimed.Err? {
        reports := reports + [ProcessingFailed(claimed.error, m)];
      }
    }

    /** The device's part of `processInboundMessage`, as `DeviceStep` describes; returns the exception it raised. */
    method RunDeviceStep(m: M, comm: Communicator<M, S>) returns (failure: Option<Exception>)
      requires Valid()
      modifies this`device, comm`log
      ensures Valid()
      ensures var p := DeviceStep(old(device), logic, comm.connectedDeviceHandlers, m);
              device == p.device && comm.log == old(comm.log) + p.deliveries && failure == p.failure
    {
      if device.Some? {
        var d := device.value;
        var outcome := logic(d.state, m);
        if outcome.Err? {
          return Some(outcome.error);
        }
        var updated := Device(d.deviceClass, outcome.value.0);
        device := Some(updated);
        comm.NotifyDeviceMessageProcessed(updated, m);
        if outcome.value.1 {
          comm.NotifyDeviceUpdated(updated);
        }
      }
      return None;
    }

    /**
     * `decodeRawMessageAndProcess`: while not halted, decode from the
     * connection's ring buffer and process each message; stop when the decoder
     * returns null or throws (the exception is reported).
     */
    method DecodeRawMessageAndProcess(conn: Connection<M, S>, comm: Communicator<M, S>)
      requires Valid() && conn.ringBuffer.Valid()
      modifies conn.ringBuffer`headIndex, conn.ringBuffer`contentSize, this`device, this`reports, comm`log
      ensures Valid() && conn.ringBuffer.Valid()
      ensures var pass := DecodePass(PipelineWith(comm.connectedDeviceHandlers), halted,
                                     old(conn.ringBuffer.Contents()), old(device));
              conn.ringBuffer.Contents() == pass.content && device == pass.device &&
              comm.log == old(comm.log) + pass.deliveries && reports == old(reports) + pass.reports
    {
      var buffer := conn.ringBuffer;
      ghost var p := PipelineWith(comm.connectedDeviceHandlers);
      ghost var full := DecodePass(p, halted, buffer.Contents(), device);
      ghost var log0, reports0 := comm.log, reports;
      var stop := decoder.None?;
      while !halted && !stop
        invariant Valid() && buffer.Valid() && (decoder.None? ==> stop)
        invariant Completes(p, full, halted || stop, buffer.Contents(), device, log0, comm.log, reports0, reports)
        decreases buffer.contentSize, !stop
      {
        stop := DecodeOne(conn, comm);
      }
    }

    /**
     * One turn of the decode loop: decode from the ring buffer, then stop on
     * null or on an exception (reported), or process the message. The rest of
     * the pass is unchanged by the turn.
     */
    method DecodeOne(conn: Connection<M, S>, comm: Communicator<M, S>) returns (stop: bool)
      requires Valid() && conn.ringBuffer.Valid() && decoder.Some? && !halted
      modifies conn.ringBuffer`headIndex, conn.ringBuffer`contentSize, this`device, this`reports, comm`log
      ensures Valid() && conn.ringBuffer.Valid()
      ensures conn.ringBuffer.contentSize <= old(conn.ringBuffer.contentSize)
      ensures !stop ==> conn.ringBuffer.contentSize < old(conn.ringBuffer.contentSize)
      ensures Completes(PipelineWith(comm.connectedDeviceHandlers), DecodePass(PipelineWith(comm.connectedDeviceHandlers), false, old(conn.ringBuffer.Contents()), old(device)),
                        stop, conn.ringBuffer.Contents(), device, old(comm.log), comm.log, old(reports), reports)
    {
      var buffer := conn.ringBuffer;
      ghost var p := PipelineWith(comm.connectedDeviceHandlers);
      ghost var content := buffer.Contents();
      var step := TakeStep(conn);
      ghost var rest := buffer.Contents();
      match step.outcome
      case NeedMore =>
        stop := true;
      case DecodeFailed(e) =>
        reports := reports + [DecodingFailed(e)];
        stop := true;
      case Decoded(m) =>
        ProcessDecoded(m, comm, p, content, rest);
        stop := false;
    }

    /** A decoded message is processed; the pass over the bytes after it is what remains of the pass. */
    method ProcessDecoded(m: M, comm: Communicator<M, S>, ghost p: Pipeline<M, S>, ghost content: seq<byte>, ghost rest: seq<byte>)
      requires Valid() && p == PipelineWith(comm.connectedDeviceHandlers) && p.decoder.Some?
      requires p.decoder.value(content).outcome == Decoded(m) && rest == content[p.decoder.value(content).consumed..]
      modifies this`device, this`reports, comm`log
      ensures Valid()
      ensures Completes(p, DecodePass(p, false, content, old(device)), false, rest, device, old(comm.log), comm.log, old(reports), reports)
    {
      DecodePassResumes(p, content, device, m, comm.log, reports);
      ProcessInboundMessage(m, comm);
    }

    /** The decoder's call on the ring buffer: what it returns and the bytes it consumed from the front. */
    method TakeStep(conn: Connection<M, S>) returns (step: DecodeStep<M>)
      requires Valid() && conn.ringBuffer.Valid() && decoder.Some?
      modifies conn.ringBuffer`headIndex, conn.ringBuffer`contentSize
      ensures conn.ringBuffer.Valid()
      ensures step == decoder.value(old(conn.ringBuffer.Contents()))
      ensures conn.ringBuffer.contentSize == old(conn.ringBuffer.contentSize) - step.consumed
      ensures conn.ringBuffer.Contents() == old(conn.ringBuffer.Contents())[step.consumed..]
    {
      step := decoder.value(conn.ringBuffer.Contents());
      var consumed := conn.ringBuffer.Consume(step.consumed);
    }
  }

  class Connection<M, S> {
    const connectionType: ConnectionType
    const deviceIdentifier: string
    const ringBuffer: ByteRingBuffer
    var controller: Controller<M, S>
    var status: Status
    /** What was handed to the transport's `write`, in order. */
    var written: seq<Option<seq<byte>>>
    /** How many times the transport's `disconnect` was requested. */
    var disconnectRequests: nat

    ghost predicate Valid()
      reads this, ringBuffer, controller
    {
      ringBuffer.Valid() && ringBuffer.buffer.Length == CONNECTION_BUFFER_CAPACITY &&
      ringBuffer.maxCapacity == BUFFER_DEFAULT_MAX_CAPACITY && controller.Valid()
    }

    /** A new connection: not connected, with an empty 2 MiB ring buffer whose maximum stays at the default. */
    constructor (connectionType: ConnectionType, deviceIdentifier: string, controller: Controller<M, S>)
      requires controller.Valid()
      ensures Valid() && fresh(ringBuffer) && fresh(ringBuffer.buffer)
      ensures this.connectionType == connectionType && this.deviceIdentifier == deviceIdentifier
      ensures this.controller == controller && status == NotConnected && ringBuffer.Contents() == []
      ensures written == [] && disconnectRequests == 0
    {
      this.connectionType := connectionType;
      this.deviceIdentifier := deviceIdentifier;
      this.controller := controller;
      status := NotConnected;
      ringBuffer := new ByteRingBuffer.WithCapacity(CONNECTION_BUFFER_CAPACITY);
      written := [];
      disconnectRequests := 0;
    }

    function Id(): ConnectionId
    {
      ConnectionId(connectionType, deviceIdentifier)
    }

    /** `isConnected`. */
    function IsConnected(): (r: bool)
      reads this
      ensures r <==> status == Connected
    {
      status == Connected
    }

    /** `sendMessage`: writes what the controller encodes; an encoding exception propagates. */
    method SendMessage(message: Option<M>) returns (r: Outcome)
      modifies this`written
      ensures var encoded := controller.EncodeMessage(message);
              if encoded.Err? then r == Threw(encoded.error) && written == old(written)
              else r == Done && written == old(written) + [encoded.value]
    {
      var encoded := controller.EncodeMessage(message);
      if encoded.Err? {
        return Threw(encoded.error);
      }
      written := written + [encoded.value];
      return Done;
    }

    /**
     * `handleReadData`: the bytes go into the ring buffer, which never grows
     * (its 2 MiB exceed the default maximum) and so drops its oldest bytes when
     * full; then the controller's decode pass runs.
     */
    method HandleReadData(data: seq<byte>, comm: Communicator<M, S>)
      requires Valid()
      modifies ringBuffer, ringBuffer.buffer, controller`device, controller`reports, comm`log
      ensures Valid()
      ensures var pass := DecodePass(controller.PipelineWith(comm.connectedDeviceHandlers), controller.halted,
                                     Keep(old(ringBuffer.Contents()) + data, CONNECTION_BUFFER_CAPACITY),
                                     old(controller.device));
              ringBuffer.Contents() == pass.content && controller.device == pass.device &&
              comm.log == old(comm.log) + pass.deliveries &&
              controller.reports == old(controller.reports) + pass.reports
    {
      ringBuffer.Put(data);
      controller.DecodeRawMessageAndProcess(this, comm);
    }

    /** `handleConnecting`: nothing while connecting; otherwise becomes connecting and is listed. */
    method HandleConnecting(comm: Communicator<M, S>)
      requires comm.Valid()
      modifies this`status, comm`connections, comm`log
      ensures comm.Valid() && status == Connecting
      ensures old(status) == Connecting ==> comm.connections == old(comm.connections) && comm.log == old(comm.log)
      ensures old(status) != Connecting ==>
                comm.connections == old(comm.connections) + [this] &&
                comm.log == old(comm.log) + Deliveries(CorrespondingHandlers(comm.registeredKeys, comm.registeredHandlers,
                                                                            controller.deviceClass), StartConnecting(Id()))
    {
      if status == Connecting {
        return;
      }
      status := Connecting;
      comm.NotifyStartConnecting(this, controller.deviceClass);
    }

    /** `handleFailedToConnect`: becomes not connected, unlisted, and reports the failure with its cause. */
    method HandleFailedToConnect(comm: Communicator<M, S>, cause: Exception)
      requires comm.Valid()
      modifies this`status, comm`connections, comm`log
      ensures comm.Valid() && status == NotConnected
      ensures comm.connections == RemoveFirst(old(comm.connections), this)
      ensures comm.log == old(comm.log) + Deliveries(CorrespondingHandlers(comm.registeredKeys, comm.registeredHandlers,
                                                                          controller.deviceClass), FailedToConnect(Some(Id()), cause))
    {
      status := NotConnected;
      comm.NotifyFailedToConnect(Some(this), controller.deviceClass, cause);
    }

    /**
     * `handleConnected`: nothing when connected already; otherwise becomes
     * connected, creates the device and notifies. When the device cannot be
     * created, the transport is asked to disconnect and the connection fails
     * with a plain `Exception` wrapping the reason.
     */
    method HandleConnected(comm: Communicator<M, S>)
      requires Valid() && comm.Valid()
      modifies this`status, this`disconnectRequests, controller`device, comm`connections, comm`connectedDeviceHandlers, comm`log
      ensures Valid() && comm.Valid()
      ensures old(status) == Connected ==>
                status == Connected && controller.device == old(controller.device) && disconnectRequests == old(disconnectRequests) &&
                comm.connections == old(comm.connections) && comm.connectedDeviceHandlers == old(comm.connectedDeviceHandlers) &&
                comm.log == old(comm.log)
      ensures old(status) != Connected && old(controller.device).None? && controller.newDeviceState.Some? ==>
                var device := Device(controller.deviceClass, controller.newDeviceState.value);
                status == Connected && controller.device == Some(device) && disconnectRequests == old(disconnectRequests) &&
                comm.connections == old(comm.connections) &&
                comm.connectedDeviceHandlers == HandlerCache(ClassesWithDevice(comm.connections), comm.registeredKeys, comm.registeredHandlers) &&
                comm.log == old(comm.log) + Notify(CachedHandlers(comm.connectedDeviceHandlers, device.deviceClass), DeviceConnected(device, false))
      ensures old(status) != Connected && (old(controller.device).Some? || controller.newDeviceState.None?) ==>
                status == NotConnected && controller.device == old(controller.device) &&
                disconnectRequests == old(disconnectRequests) + 1 &&
                comm.connections == RemoveFirst(old(comm.connections), this) &&
                comm.connectedDeviceHandlers == old(comm.connectedDeviceHandlers) &&
                comm.log == old(comm.log) + Deliveries(CorrespondingHandlers(comm.registeredKeys, comm.registeredHandlers,
                                                                            controller.deviceClass),
                                                      FailedToConnect(Some(Id()),
                                                                      FailureCausedBy(if old(controller.device).Some? then IllegalState
                                                                                      else Runtime(Instantiation))))
    {
      if status == Connected {
        return;
      }
      status := Connected;
      var initialized := controller.InitializeDevice();
      if initialized.Threw? {
        disconnectRequests := disconnectRequests + 1;
        HandleFailedToConnect(comm, FailureCausedBy(initialized.error));
        return;
      }
      comm.NotifyConnected(controller.device.value);
    }

    /** `handleDisconnected`: nothing when not connected; otherwise becomes not connected and notifies. */
    method HandleDisconnected(comm: Communicator<M, S>)
      requires comm.Valid()
      modifies this`status, comm`connections, comm`connectedDeviceHandlers, comm`log
      ensures comm.Valid()
      ensures old(status) == NotConnected ==>
                status == NotConnected && comm.connections == old(comm.connections) &&
                comm.connectedDeviceHandlers == old(comm.connectedDeviceHandlers) && comm.log == old(comm.log)
      ensures old(status) != NotConnected ==>
                status == NotConnected &&
                comm.log == old(comm.log) + Notify(CachedHandlers(old(comm.connectedDeviceHandlers), controller.deviceClass),
                                                   DeviceDisconnected(controller.device)) &&
                comm.connections == RemoveFirst(old(comm.connections), this) &&
                comm.connectedDeviceHandlers == HandlerCache(ClassesWithDevice(comm.connections), comm.registeredKeys, comm.registeredHandlers)
    {
      if status == NotConnected {
        return;
      }
      status := NotConnected;
      comm.NotifyDisconnected(this, controller.deviceClass);
    }

    /**
     * `replaceController`: installs the new controller and halts the old one.
     * Only when connected does the new controller create its device (an
     * exception propagates), the cache get rebuilt and the same ring buffer
     * get decoded again by the new controller.
     */
    method ReplaceController(newController: Controller<M, S>, comm: Communicator<M, S>) returns (r: Outcome)
      requires Valid() && newController.Valid() && comm.Valid()
      modifies this`controller, controller`halted, newController`device, newController`reports,
               comm`connectedDeviceHandlers, comm`log, ringBuffer`headIndex, ringBuffer`contentSize
      ensures Valid() && comm.Valid()
      ensures controller == newController && old(controller).halted
      ensures old(status) != Connected || old(newController.device).Some? || newController.newDeviceState.None? ==>
                newController.device == old(newController.device) && ringBuffer.Contents() == old(ringBuffer.Contents()) &&
                comm.connectedDeviceHandlers == old(comm.connectedDeviceHandlers) && comm.log == old(comm.log)
      ensures r == (if old(status) != Connected then Done
                    else if old(newController.device).Some? then Threw(IllegalState)
                    else if newController.newDeviceState.None? then Threw(Runtime(Instantiation))
                    else Done)
      ensures old(status) == Connected && old(newController.device).None? && newController.newDeviceState.Some? ==>
                var pass := DecodePass(newController.PipelineWith(comm.connectedDeviceHandlers), newController.halted,
                                       old(ringBuffer.Contents()),
                                       Some(Device(newController.deviceClass, newController.newDeviceState.value)));
                comm.connectedDeviceHandlers == HandlerCache(ClassesWithDevice(comm.connections), comm.registeredKeys, comm.registeredHandlers) &&
                ringBuffer.Contents() == pass.content && newController.device == pass.device &&
                comm.log == old(comm.log) + pass.deliveries &&
                newController.reports == old(newController.reports) + pass.reports
    {
      var oldController := controller;
      controller := newController;
      oldController.Halt();
      if status == Connected {
        r := StartController(comm);
      } else {
        r := Done;
      }
    }

    /**
     * The connected branch of `replaceController`: the current controller
     * creates its device, the cache is rebuilt and the ring buffer is decoded
     * by that controller.
     */
    method StartController(comm: Communicator<M, S>) returns (r: Outcome)
      requires Valid() && comm.Valid()
      modifies controller`device, controller`reports, comm`connectedDeviceHandlers, comm`log,
               ringBuffer`headIndex, ringBuffer`contentSize
      ensures Valid() && comm.Valid()
      ensures r == (if old(controller.device).Some? then Threw(IllegalState)
                    else if controller.newDeviceState.None? then Threw(Runtime(Instantiation))
                    else Done)
      ensures r.Threw? ==>
                controller.device == old(controller.device) && ringBuffer.Contents() == old(ringBuffer.Contents()) &&
                comm.connectedDeviceHandlers == old(comm.connectedDeviceHandlers) && comm.log == old(comm.log)
      ensures r.Done? ==>
                var pass := DecodePass(controller.PipelineWith(comm.connectedDeviceHandlers), controller.halted,
                                       old(ringBuffer.Contents()),
                                       Some(Device(controller.deviceClass, controller.newDeviceState.value)));
                comm.connectedDeviceHandlers == HandlerCache(ClassesWithDevice(comm.connections), comm.registeredKeys, comm.registeredHandlers) &&
                ringBuffer.Contents() == pass.content && controller.device == pass.device &&
                comm.log == old(comm.log) + pass.deliveries &&
                controller.reports == old(controller.reports) + pass.reports
    {
      r := controller.InitializeDevice();
      if r.Threw? {
        return;
      }
      comm.OnControllerReplaced();
      Redecode(comm);
    }

    /**
     * The current controller decodes what the ring buffer holds. Its device
     * keeps its presence and class, so the classes with a device stay the same.
     */
    method Redecode(comm: Communicator<M, S>)
      requires Valid()
      modifies controller`device, controller`reports, comm`log, ringBuffer`headIndex, ringBuffer`contentSize
      ensures Valid()
      ensures var pass := DecodePass(controller.PipelineWith(comm.connectedDeviceHandlers), controller.halted,
                                     old(ringBuffer.Contents()), old(controller.device));
              ringBuffer.Contents() == pass.content && controller.device == pass.device &&
              comm.log == old(comm.log) + pass.deliveries &&
              controller.reports == old(controller.reports) + pass.reports
      ensures ClassesWithDevice(comm.connections) == old(ClassesWithDevice(comm.connections))
    {
      ghost var devices := map c | c in comm.connections :: DeviceOf(c);
      DecodePassKeepsDevice(controller.PipelineWith(comm.connectedDeviceHandlers), controller.halted,
                            ringBuffer.Contents(), controller.device);
      controller.DecodeRawMessageAndProcess(this, comm);
      forall c | c in comm.connections
        ensures DeviceOf(c).Some? == devices[c].Some?
        ensures DeviceOf(c).Some? ==> DeviceOf(c).value.deviceClass == devices[c].value.deviceClass
      {
        if c.controller != controller {
          assert DeviceOf(c) == devices[c];
        }
      }
    }
  }

  class Communicator<M, S> {
    var connections: seq<Connection<M, S>>
    /** The classes of `registeredHandlers`, in insertion order. */
    var registeredKeys: seq<DeviceClass>
    var registeredHandlers: map<DeviceClass, seq<Listener>>
    var connectedDeviceHandlers: map<DeviceClass, seq<Listener>>
    /** Every listener callback posted, in order. */
    var log: seq<Delivery<M, S>>

    ghost predicate Valid()
      reads this`registeredKeys, this`registeredHandlers
    {
      KeysListed(registeredKeys, registeredHandlers) &&
      (forall k | k in registeredHandlers :: k in registeredKeys) &&
      (forall i, j | 0 <= i < j < |registeredKeys| :: registeredKeys[i] != registeredKeys[j])
    }

    constructor ()
      ensures Valid()
      ensures connections == [] && registeredKeys == [] && registeredHandlers == map[]
      ensures connectedDeviceHandlers == map[] && log == []
    {
      connections := [];
      registeredKeys := [];
      registeredHandlers := map[];
      connectedDeviceHandlers := map[];
      log := [];
    }

    /** The cache `refreshConnectedDeviceHandlers` builds from the current connections and registrations. */
    ghost function FreshCache(): map<DeviceClass, seq<Listener>>
      requires Valid()
      reads this`connections, this`registeredKeys, this`registeredHandlers
      reads set c | c in connections, set c | c in connections :: c.controller
    {
      HandlerCache(ClassesWithDevice(connections), registeredKeys, registeredHandlers)
    }

    /** Posts `event` to each of `listeners`, in order. */
    method Post(listeners: seq<Listener>, event: Event<M, S>)
      modifies this`log
      ensures log == old(log) + Deliveries(listeners, event)
    {
      var i := 0;
      while i < |listeners|
        invariant 0 <= i <= |listeners|
        invariant log == old(log) + Deliveries(listeners[..i], event)
      {
        assert Deliveries(listeners[..i + 1], event) == Deliveries(listeners[..i], event) + [Delivery(listeners[i], event)];
        log := log + [Delivery(listeners[i], event)];
        i := i + 1;
      }
      assert listeners[..i] == listeners;
    }

    /** `getHandlerIndexByListener`: the index of the listener in a handler list, or -1. */
    static method HandlerIndexByListener(handlers: seq<Listener>, listener: Listener) returns (i: int)
      ensures i == IndexOf(handlers, listener)
    {
      i := 0;
      while i < |handlers|
        invariant 0 <= i <= |handlers|
        invariant listener !in handlers[..i]
        invariant IndexOf(handlers, listener) == -1 || i <= IndexOf(handlers, listener)
      {
        if handlers[i] == listener {
          return i;
        }
        assert handlers[..i + 1] == handlers[..i] + [handlers[i]];
        i := i + 1;
      }
      assert handlers[..i] == handlers;
      return -1;
    }

    /** `refreshConnectedDeviceHandlers`: one entry per class of a device held by a listed connection. */
    method RefreshConnectedDeviceHandlers()
      requires Valid()
      modifies this`connectedDeviceHandlers
      ensures Valid() && connectedDeviceHandlers == FreshCache()
    {
      var cache := map[];
      var i := 0;
      while i < |connections|
        invariant 0 <= i <= |connections|
        invariant cache == HandlerCache(ClassesWithDevice(connections[..i]), registeredKeys, registeredHandlers)
      {
        var device := connections[i].controller.device;
        HandlerCacheStep(connections, i, registeredKeys, registeredHandlers);
        if device.Some? && device.value.deviceClass !in cache {
          cache := cache[device.value.deviceClass := CorrespondingHandlers(registeredKeys, registeredHandlers, device.value.deviceClass)];
        }
        i := i + 1;
      }
      assert connections[..i] == connections;
      connectedDeviceHandlers := cache;
    }

    /**
     * `registerListener`: a listener already registered under its class gets
     * null and nothing changes. Otherwise it is appended under its class (a new
     * class goes last in key order), the cache is rebuilt, and the listener is
     * told of every connected device of its class or a subclass.
     */
    method RegisterListener(listener: Listener) returns (handler: Option<Listener>)
      requires Valid()
      modifies this`registeredKeys, this`registeredHandlers, this`connectedDeviceHandlers, this`log
      ensures Valid()
      ensures var k := listener.deviceClass;
              if k in old(registeredHandlers) && listener in old(registeredHandlers[k]) then
                handler.None? && registeredKeys == old(registeredKeys) && registeredHandlers == old(registeredHandlers) &&
                connectedDeviceHandlers == old(connectedDeviceHandlers) && log == old(log)
              else
                handler == Some(listener) &&
                registeredKeys == (if k in old(registeredHandlers) then old(registeredKeys) else old(registeredKeys) + [k]) &&
                registeredHandlers == old(registeredHandlers)[k := (if k in old(registeredHandlers) then old(registeredHandlers[k]) else []) + [listener]] &&
                connectedDeviceHandlers == FreshCache() &&
                log == old(log) + ReplayDeliveries(connections, listener)
    {
      var k := listener.deviceClass;
      var handlers: seq<Listener>;
      if k in registeredHandlers {
        handlers := registeredHandlers[k];
        var index := HandlerIndexByListener(handlers, listener);
        if index != -1 {
          return None;
        }
      } else {
        handlers := [];
        registeredKeys := registeredKeys + [k];
      }
      registeredHandlers := registeredHandlers[k := handlers + [listener]];
      RefreshConnectedDeviceHandlers();
      NotifyNewListenerOfExistingDevices(listener);
      return Some(listener);
    }

    /**
     * `notifyNewListenerOfExistingDevices`: `onDeviceConnected(d, true)` for
     * each connected connection whose device is of the listener's class or a
     * subclass of it, in list order.
     */
    method NotifyNewListenerOfExistingDevices(listener: Listener)
      modifies this`log
      ensures log == old(log) + ReplayDeliveries(connections, listener)
    {
      var i := 0;
      while i < |connections|
        invariant 0 <= i <= |connections|
        invariant log == old(log) + ReplayDeliveries(connections[..i], listener)
      {
        assert connections[..i + 1][..i] == connections[..i];
        var connection := connections[i];
        if connection.IsConnected() {
          var device := connection.controller.device;
          if device.Some? && IsSameOrSuperClassDevice(device.value.deviceClass, listener.deviceClass) {
            log := log + [Delivery(listener, DeviceConnected(device.value, true))];
          }
        }
        i := i + 1;
      }
      assert connections[..i] == connections;
    }

    /**
     * `unregisterListener`: nothing when its class or the listener is not
     * registered; otherwise exactly that entry goes and the cache is rebuilt.
     * The class stays registered even with an empty list.
     */
    method UnregisterListener(listener: Listener)
      requires Valid()
      modifies this`registeredHandlers, this`connectedDeviceHandlers
      ensures Valid()
      ensures var k := listener.deviceClass;
              if k !in old(registeredHandlers) || listener !in old(registeredHandlers[k]) then
                registeredHandlers == old(registeredHandlers) && connectedDeviceHandlers == old(connectedDeviceHandlers)
              else
                var i := IndexOf(old(registeredHandlers[k]), listener);
                registeredHandlers == old(registeredHandlers)[k := old(registeredHandlers[k])[..i] + old(registeredHandlers[k])[i + 1..]] &&
                connectedDeviceHandlers == FreshCache()
    {
      var k := listener.deviceClass;
      if k !in registeredHandlers {
        return;
      }
      var handlers := registeredHandlers[k];
      var index := HandlerIndexByListener(handlers, listener);
      if index == -1 {
        return;
      }
      registeredHandlers := registeredHandlers[k := handlers[..index] + handlers[index + 1..]];
      RefreshConnectedDeviceHandlers();
    }

    /** `getConnection`: the first listed connection with that type and identifier. */
    method GetConnection(connectionType: ConnectionType, deviceIdentifier: string) returns (r: Option<Connection<M, S>>)
      ensures r == FindConnection(connections, connectionType, deviceIdentifier)
    {
      var i := 0;
      while i < |connections|
        invariant 0 <= i <= |connections|
        invariant forall j | 0 <= j < i :: !Identifies(connections[j], connectionType, deviceIdentifier)
      {
        var connection := connections[i];
        if connection.connectionType == connectionType && connection.deviceIdentifier == deviceIdentifier {
          return Some(connection);
        }
        i := i + 1;
      }
      return None;
    }

    /** `isConnected(type, identifier)`: listed, and connected. */
    method IsConnected(connectionType: ConnectionType, deviceIdentifier: string) returns (r: bool)
      ensures var found := FindConnection(connections, connectionType, deviceIdentifier);
              r <==> found.Some? && found.value.status == Connected
    {
      var connection := GetConnection(connectionType, deviceIdentifier);
      return connection.Some? && connection.value.IsConnected();
    }

    /** `findConnectedDevice`: the device of the listed connection, whatever its status. */
    method FindConnectedDevice(connectionType: ConnectionType, deviceIdentifier: string) returns (r: Option<Device<S>>)
      ensures var found := FindConnection(connections, connectionType, deviceIdentifier);
              r == if found.Some? then DeviceOf(found.value) else None
    {
      var connection := GetConnection(connectionType, deviceIdentifier);
      if connection.Some? {
        return connection.value.controller.device;
      }
      return None;
    }

    /** `getConnectedDevices`. */
    method GetConnectedDevices() returns (devices: seq<Option<Device<S>>>)
      ensures devices == ConnectedDevices(connections)
    {
      devices := [];
      var i := 0;
      while i < |connections|
        invariant 0 <= i <= |connections|
        invariant devices == ConnectedDevices(connections[..i])
      {
        assert connections[..i + 1][..i] == connections[..i];
        if connections[i].IsConnected() {
          devices := devices + [connections[i].controller.device];
        }
        i := i + 1;
      }
      assert connections[..i] == connections;
    }

    /**
     * `getNumberOfConnections`: with no class, every listed connection;
     * with a class, the connected devices of exactly that class.
     */
    method GetNumberOfConnections(deviceClass: Option<DeviceClass>) returns (r: Result<nat>)
      ensures deviceClass.None? ==> r == Ok(|connections|)
      ensures deviceClass.Some? ==> r == CountOfClass(connections, deviceClass.value)
    {
      if deviceClass.None? {
        return Ok(|connections|);
      }
      var count := 0;
      var i := 0;
      while i < |connections|
        invariant 0 <= i <= |connections|
        invariant CountOfClass(connections[..i], deviceClass.value) == Ok(count)
      {
        assert connections[..i + 1][..i] == connections[..i];
        var connection := connections[i];
        if connection.IsConnected() {
          var device := connection.controller.device;
          if device.None? {
            assert CountOfClass(connections[..i + 1], deviceClass.value) == Err(NullPointer);
            CountStaysFailed(connections, i + 1, deviceClass.value);
            return Err(NullPointer);
          }
          if device.value.deviceClass == deviceClass.value {
            count := count + 1;
          }
        }
        i := i + 1;
      }
      assert connections[..i] == connections;
      return Ok(count);
    }

    /** Once a prefix of the list raises, so does the whole list. */
    static lemma {:induction false} CountStaysFailed(cs: seq<Connection<M, S>>, i: nat, c: DeviceClass)
      requires i <= |cs| && CountOfClass(cs[..i], c) == Err(NullPointer)
      ensures CountOfClass(cs, c) == Err(NullPointer)
      decreases |cs| - i
    {
      if i < |cs| {
        assert cs[..i + 1][..i] == cs[..i];
        CountStaysFailed(cs, i + 1, c);
      } else {
        assert cs[..i] == cs;
      }
    }

    /**
     * The duplicate check of `connect`: an identifier already listed for the
     * same type is refused, whatever its status, with a failure posted for no
     * connection and a plain `Exception` as its cause. Otherwise the
     * connection factory's outcome (`created`) decides: its exception is posted
     * for no connection, and a built connection is connected, `transportOutcome`
     * being what its transport's `connect` did.
     */
    method Connect(connectionType: ConnectionType, deviceIdentifier: string, deviceClass: DeviceClass,
                   created: Result<Connection<M, S>>, transportOutcome: Outcome) returns (r: bool)
      requires Valid()
      modifies this`connections, this`log
      ensures Valid()
      ensures r <==> FindConnection(old(connections), connectionType, deviceIdentifier).None? && created.Ok? && transportOutcome.Done?
      ensures FindConnection(old(connections), connectionType, deviceIdentifier).Some? ==>
                connections == old(connections) &&
                log == old(log) + Deliveries(CorrespondingHandlers(registeredKeys, registeredHandlers, deviceClass), FailedToConnect(None, Failure))
      ensures FindConnection(old(connections), connectionType, deviceIdentifier).None? && created.Err? ==>
                connections == old(connections) &&
                log == old(log) + Deliveries(CorrespondingHandlers(registeredKeys, registeredHandlers, deviceClass),
                                             FailedToConnect(None, created.error))
      ensures FindConnection(old(connections), connectionType, deviceIdentifier).None? && created.Ok? && transportOutcome.Threw? ==>
                connections == RemoveFirst(old(connections), created.value) &&
                log == old(log) + Deliveries(CorrespondingHandlers(registeredKeys, registeredHandlers, created.value.controller.deviceClass),
                                             FailedToConnect(Some(created.value.Id()), transportOutcome.error))
      ensures FindConnection(old(connections), connectionType, deviceIdentifier).None? && created.Ok? && transportOutcome.Done? ==>
                connections == old(connections) && log == old(log)
    {
      var existing := GetConnection(connectionType, deviceIdentifier);
      if existing.Some? {
        NotifyFailedToConnect(None, deviceClass, Failure);
        return false;
      }
      if created.Err? {
        NotifyFailedToConnect(None, deviceClass, created.error);
        return false;
      }
      r := ConnectConnection(created.value, transportOutcome);
    }

    /** `connect(Connection)`: asks the transport to connect; its exception is posted as the failure's cause and unlists the connection. */
    method ConnectConnection(connection: Connection<M, S>, transportOutcome: Outcome) returns (r: bool)
      requires Valid()
      modifies this`connections, this`log
      ensures Valid()
      ensures r <==> transportOutcome.Done?
      ensures transportOutcome.Done? ==> connections == old(connections) && log == old(log)
      ensures transportOutcome.Threw? ==>
                connections == RemoveFirst(old(connections), connection) &&
                log == old(log) + Deliveries(CorrespondingHandlers(registeredKeys, registeredHandlers, connection.controller.deviceClass),
                                             FailedToConnect(Some(connection.Id()), transportOutcome.error))
    {
      if transportOutcome.Threw? {
        NotifyFailedToConnect(Some(connection), connection.controller.deviceClass, transportOutcome.error);
        return false;
      }
      return true;
    }

    /** `onControllerReplaced`: rebuilds the cache. */
    method OnControllerReplaced()
      requires Valid()
      modifies this`connectedDeviceHandlers
      ensures Valid() && connectedDeviceHandlers == FreshCache()
    {
      RefreshConnectedDeviceHandlers();
    }

    /** `notifyStartConnecting`: lists the connection and tells the listeners of its class. */
    method NotifyStartConnecting(connection: Connection<M, S>, deviceClass: DeviceClass)
      requires Valid()
      modifies this`connections, this`log
      ensures Valid()
      ensures connections == old(connections) + [connection]
      ensures log == old(log) + Deliveries(CorrespondingHandlers(registeredKeys, registeredHandlers, deviceClass),
                                           StartConnecting(connection.Id()))
    {
      connections := connections + [connection];
      Post(CorrespondingHandlers(registeredKeys, registeredHandlers, deviceClass), StartConnecting(connection.Id()));
    }

    /** `notifyFailedToConnect`: unlists the connection (if any) and tells the listeners of the class, with the cause. */
    method NotifyFailedToConnect(connection: Option<Connection<M, S>>, deviceClass: DeviceClass, cause: Exception)
      requires Valid()
      modifies this`connections, this`log
      ensures Valid()
      ensures connections == if connection.Some? then RemoveFirst(old(connections), connection.value) else old(connections)
      ensures log == old(log) + Deliveries(CorrespondingHandlers(registeredKeys, registeredHandlers, deviceClass),
                                           FailedToConnect(if connection.Some? then Some(connection.value.Id()) else None, cause))
    {
      if connection.Some? {
        connections := RemoveFirst(connections, connection.value);
      }
      Post(CorrespondingHandlers(registeredKeys, registeredHandlers, deviceClass),
           FailedToConnect(if connection.Some? then Some(connection.value.Id()) else None, cause));
    }

    /** `notifyConnected`: rebuilds the cache, then tells the cached listeners of the device's class. */
    method NotifyConnected(device: Device<S>)
      requires Valid()
      modifies this`connectedDeviceHandlers, this`log
      ensures Valid() && connectedDeviceHandlers == FreshCache()
      ensures log == old(log) + Notify(CachedHandlers(connectedDeviceHandlers, device.deviceClass), DeviceConnected(device, false))
    {
      RefreshConnectedDeviceHandlers();
      var handlers := CachedHandlers(connectedDeviceHandlers, device.deviceClass);
      if handlers.Some? {
        Post(handlers.value, DeviceConnected(device, false));
      }
    }

    /**
     * `notifyDisconnected`: tells the cached listeners of the class first, then
     * unlists the connection and rebuilds the cache.
     */
    method NotifyDisconnected(connection: Connection<M, S>, deviceClass: DeviceClass)
      requires Valid()
      modifies this`connections, this`connectedDeviceHandlers, this`log
      ensures Valid()
      ensures log == old(log) + Notify(CachedHandlers(old(connectedDeviceHandlers), deviceClass),
                                       DeviceDisconnected(DeviceOf(connection)))
      ensures connections == RemoveFirst(old(connections), connection)
      ensures connectedDeviceHandlers == FreshCache()
    {
      var handlers := CachedHandlers(connectedDeviceHandlers, deviceClass);
      if handlers.Some? {
        Post(handlers.value, DeviceDisconnected(connection.controller.device));
      }
      connections := RemoveFirst(connections, connection);
      RefreshConnectedDeviceHandlers();
    }

    /** `notifyDeviceMessageProcessed`: through the cache only. */
    method NotifyDeviceMessageProcessed(device: Device<S>, message: M)
      modifies this`log
      ensures log == old(log) + Notify(CachedHandlers(connectedDeviceHandlers, device.deviceClass),
                                       DeviceMessageProcessed(device, message))
    {
      var handlers := CachedHandlers(connectedDeviceHandlers, device.deviceClass);
      if handlers.Some? {
        Post(handlers.value, DeviceMessageProcessed(device, message));
      }
    }

    /** `notifyDeviceUpdated`: through the cache only. */
    method NotifyDeviceUpdated(device: Device<S>)
      modifies this`log
      ensures log == old(log) + Notify(CachedHandlers(connectedDeviceHandlers, device.deviceClass), DeviceUpdated(device))
    {
      var handlers := CachedHandlers(connectedDeviceHandlers, device.deviceClass);
      if handlers.Some? {
        Post(handlers.value, DeviceUpdated(device));
      }
    }
  }
}
