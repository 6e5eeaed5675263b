/**
 * What the controller does with inbound bytes, as functions of values: the
 * before/after callback chains, the processing of one message, and a whole
 * decode pass over the buffered bytes. The controller's methods are proved
 * against these.
 */
module Inbound {
  import opened JavaTypes
  import opened Results
  import opened MessageDecoding
  import opened Devices

  /**
   * An `InboundMessageCallback`: `token` is its identity, which the callback
   * lists compare by, and `process` its answer for a message: true to claim
   * the message, false to pass it on, or an exception.
   */
  datatype Callback<!M> = Callback(token: nat, process: M -> Result<bool>)

  /** A device class's `processMessage`: the new device state and whether it changed, or an exception. */
  type DeviceLogic<!S, !M> = (S, M) -> Result<(S, bool)>

  /** An exception the controller reports through its `handleException...` hooks. */
  datatype Report<M> = DecodingFailed(error: Exception) | ProcessingFailed(error: Exception, message: M)

  /**
   * A callback chain run over a message: Ok(true) when a callback claimed it,
   * Ok(false) when every callback passed, or the first exception.
   */
  function RunChain<M>(chain: seq<Callback<M>>, m: M): Result<bool>
    decreases |chain|
  {
    if chain == [] then Ok(false)
    else
      match chain[0].process(m)
      case Err(e) => Err(e)
      case Ok(claimed) => if claimed then Ok(true) else RunChain(chain[1..], m)
  }

  /** Whether every callback of `chain` passes `m` on. */
  ghost predicate AllPass<M>(chain: seq<Callback<M>>, m: M)
  {
    forall j | 0 <= j < |chain| :: chain[j].process(m) == Ok(false)
  }

  /** A chain claims a message exactly when some callback claims it and every earlier one passes. */
  lemma {:induction false} RunChainClaims<M>(chain: seq<Callback<M>>, m: M)
    ensures RunChain(chain, m) == Ok(true) <==>
              exists i | 0 <= i < |chain| :: chain[i].process(m) == Ok(true) && AllPass(chain[..i], m)
    decreases |chain|
  {
    if chain != [] {
      RunChainClaims(chain[1..], m);
      if RunChain(chain, m) == Ok(true) && chain[0].process(m) != Ok(true) {
        var i :| 0 <= i < |chain[1..]| && chain[1..][i].process(m) == Ok(true) && AllPass(chain[1..][..i], m);
        assert chain[..i + 1] == [chain[0]] + chain[1..][..i];
        assert AllPass(chain[..i + 1], m);
      }
      if exists i | 0 <= i < |chain| :: chain[i].process(m) == Ok(true) && AllPass(chain[..i], m) {
        var i :| 0 <= i < |chain| && chain[i].process(m) == Ok(true) && AllPass(chain[..i], m);
        if i > 0 {
          assert chain[..i][0] == chain[0];
          assert chain[1..][i - 1] == chain[i];
          assert chain[1..][..i - 1] == chain[..i][1..];
          assert AllPass(chain[1..][..i - 1], m);
        }
      }
    }
  }

  /** A chain passes a message on exactly when every callback passes it on. */
  lemma {:induction false} RunChainPasses<M>(chain: seq<Callback<M>>, m: M)
    ensures RunChain(chain, m) == Ok(false) <==> AllPass(chain, m)
    decreases |chain|
  {
    if chain != [] {
      RunChainPasses(chain[1..], m);
      assert forall j | 1 <= j < |chain| :: chain[j] == chain[1..][j - 1];
    }
  }

  /** The loop over a callback list: the first callback that claims the message or throws ends it. */
  method RunCallbacks<M>(chain: seq<Callback<M>>, m: M) returns (r: Result<bool>)
    ensures r == RunChain(chain, m)
  {
    var i := 0;
    while i < |chain|
      invariant 0 <= i <= |chain|
      invariant RunChain(chain, m) == RunChain(chain[i..], m)
    {
      assert chain[i..][1..] == chain[i + 1..];
      var answer := chain[i].process(m);
      if answer.Err? || answer.value {
        return answer;
      }
      i := i + 1;
    }
    return Ok(false);
  }

  /** The index of the first callback of `chain` with that token, or -1. */
  function CallbackIndex<M>(chain: seq<Callback<M>>, token: nat): (i: int)
    ensures -1 <= i < |chain|
    ensures 0 <= i ==> chain[i].token == token
    ensures forall j | 0 <= j < |chain| && (i < 0 || j < i) :: chain[j].token != token
    decreases |chain|
  {
    if chain == [] then -1
    else if chain[0].token == token then 0
    else
      var k := CallbackIndex(chain[1..], token);
      assert forall j | 1 <= j < |chain| :: chain[j] == chain[1..][j - 1];
      if k < 0 then -1 else k + 1
  }

  /**
   * `List.remove(callback)`: drops the first callback with that token, if
   * there is one; the others keep their order.
   */
  function RemoveCallback<M>(chain: seq<Callback<M>>, token: nat): (r: seq<Callback<M>>)
    ensures var i := CallbackIndex(chain, token);
            r == if i < 0 then chain else chain[..i] + chain[i + 1..]
    decreases |chain|
  {
    if chain == [] then []
    else if chain[0].token == token then
      assert CallbackIndex(chain, token) == 0;
      chain[1..]
    else
      var rest := RemoveCallback(chain[1..], token);
      var k := CallbackIndex(chain[1..], token);
      assert CallbackIndex(chain, token) == if k < 0 then -1 else k + 1;
      if k < 0 then
        assert rest == chain[1..];
        [chain[0]] + rest
      else
        assert rest == chain[1..][..k] + chain[1..][k + 1..];
        assert chain[..k + 1] == [chain[0]] + chain[1..][..k];
        assert chain[k + 2..] == chain[1..][k + 1..];
        ConsAppend(chain[0], chain[1..][..k], chain[1..][k + 1..]);
        [chain[0]] + rest
  }

  /** Putting an element in front of a concatenation is putting it in front of the first part. */
  lemma ConsAppend<T>(x: T, a: seq<T>, b: seq<T>)
    ensures [x] + (a + b) == ([x] + a) + b
  {
  }

  predicate HasCallback<M>(chain: seq<Callback<M>>, token: nat)
  {
    exists j | 0 <= j < |chain| :: chain[j].token == token
  }

  /** `connectedDeviceHandlers.get(c)`: the cached listeners of a device class, or null. */
  function CachedHandlers(cache: map<DeviceClass, seq<Listener>>, c: DeviceClass): Option<seq<Listener>>
  {
    if c in cache then Some(cache[c]) else None
  }

  /** A `notify...` through the cache: nothing when the class has no cached list. */
  function Notify<M, S>(handlers: Option<seq<Listener>>, event: Event<M, S>): seq<Delivery<M, S>>
  {
    if handlers.None? then [] else Deliveries(handlers.value, event)
  }

  /** What processing one message leaves: the device, the callbacks posted, and any exception. */
  datatype Processed<M, S> = Processed(device: Option<Device<S>>, deliveries: seq<Delivery<M, S>>, failure: Option<Exception>)

  /**
   * The device's part of `processInboundMessage`: `processMessage` runs when a
   * device exists; "message processed" is then always posted, and "device
   * updated" only when it reported a change.
   */
  function DeviceStep<M, S>(device: Option<Device<S>>, logic: DeviceLogic<S, M>,
                            cache: map<DeviceClass, seq<Listener>>, m: M): Processed<M, S>
  {
    match device
    case None => Processed(None, [], None)
    case Some(d) =>
      match logic(d.state, m)
      case Err(e) => Processed(device, [], Some(e))
      case Ok(outcome) =>
        var updated := Device(d.deviceClass, outcome.0);
        var handlers := CachedHandlers(cache, d.deviceClass);
        Processed(Some(updated),
                  Notify(handlers, DeviceMessageProcessed(updated, m)) +
                  (if outcome.1 then Notify(handlers, DeviceUpdated(updated)) else []),
                  None)
  }

  /**
   * `processInboundMessage`: the before-callbacks, then the device, then the
   * after-callbacks; a claiming callback ends processing and an exception
   * anywhere abandons the rest.
   */
  function ProcessInbound<M, S>(before: seq<Callback<M>>, after: seq<Callback<M>>, device: Option<Device<S>>,
                                logic: DeviceLogic<S, M>, cache: map<DeviceClass, seq<Listener>>, m: M): Processed<M, S>
  {
    match RunChain(before, m)
    case Err(e) => Processed(device, [], Some(e))
    case Ok(claimed) =>
      if claimed then Processed(device, [], None)
      else
        var p := DeviceStep(device, logic, cache, m);
        if p.failure.Some? then p
        else
          match RunChain(after, m)
          case Err(e) => Processed(p.device, p.deliveries, Some(e))
          case Ok(_) => p
  }

  /** A before-callback that claims a message keeps it from the device and from every listener. */
  lemma BeforeClaimSkipsDevice<M, S>(before: seq<Callback<M>>, after: seq<Callback<M>>, device: Option<Device<S>>,
                                     logic: DeviceLogic<S, M>, cache: map<DeviceClass, seq<Listener>>, m: M, i: nat)
    requires i < |before| && before[i].process(m) == Ok(true) && AllPass(before[..i], m)
    ensures ProcessInbound(before, after, device, logic, cache, m) == Processed(device, [], None)
  {
    RunChainClaims(before, m);
  }

  /**
   * When every before-callback passes and the device processes the message,
   * its listeners get "message processed" and, only if the device reported a
   * change, "device updated", whatever the after-callbacks do.
   */
  lemma {:induction false} DeviceNotifications<M, S>(before: seq<Callback<M>>, after: seq<Callback<M>>, d: Device<S>,
                                                    logic: DeviceLogic<S, M>, cache: map<DeviceClass, seq<Listener>>, m: M)
    requires AllPass(before, m) && logic(d.state, m).Ok?
    ensures var p := ProcessInbound(before, after, Some(d), logic, cache, m);
            var updated := Device(d.deviceClass, logic(d.state, m).value.0);
            var handlers := CachedHandlers(cache, d.deviceClass);
            && p.device == Some(updated)
            && p.deliveries == Notify(handlers, DeviceMessageProcessed(updated, m)) +
                               (if logic(d.state, m).value.1 then Notify(handlers, DeviceUpdated(updated)) else [])
            && (p.failure.Some? <==> RunChain(after, m).Err?)
  {
    RunChainPasses(before, m);
  }

  /** The constant parts of a controller that a decode pass depends on, and the handler cache. */
  datatype Pipeline<!M, !S> = Pipeline(decoder: Option<Decoder<M>>, before: seq<Callback<M>>, after: seq<Callback<M>>,
                                       logic: DeviceLogic<S, M>, cache: map<DeviceClass, seq<Listener>>)

  /** The decoder of a pipeline is well behaved, when there is one. */
  ghost predicate DecoderReady<M, S>(p: Pipeline<M, S>)
  {
    p.decoder.Some? ==> WellBehaved(p.decoder.value)
  }

  /** What a decode pass leaves: the buffered bytes, the device, the callbacks posted and the reports. */
  datatype PassResult<M, S> = PassResult(content: seq<byte>, device: Option<Device<S>>,
                                         deliveries: seq<Delivery<M, S>>, reports: seq<Report<M>>)

  /** The reports of one processed message. */
  function FailureReports<M>(failure: Option<Exception>, m: M): seq<Report<M>>
  {
    if failure.Some? then [ProcessingFailed(failure.value, m)] else []
  }

  /**
   * `decodeRawMessageAndProcess`: nothing without a decoder or once halted;
   * otherwise decode and process messages until the decoder returns null or
   * throws (reported, and the pass ends).
   */
  function DecodePass<M, S>(p: Pipeline<M, S>, halted: bool, content: seq<byte>, device: Option<Device<S>>): PassResult<M, S>
    requires DecoderReady(p)
    decreases |content|
  {
    if p.decoder.None? || halted then PassResult(content, device, [], [])
    else
      var step := p.decoder.value(content);
      var rest := content[step.consumed..];
      match step.outcome
      case NeedMore => PassResult(rest, device, [], [])
      case DecodeFailed(e) => PassResult(rest, device, [], [DecodingFailed(e)])
      case Decoded(m) =>
        var processed := ProcessInbound(p.before, p.after, device, p.logic, p.cache, m);
        var tail := DecodePass(p, false, rest, processed.device);
        PassResult(tail.content, tail.device, processed.deliveries + tail.deliveries,
                   FailureReports(processed.failure, m) + tail.reports)
  }

  /**
   * Whether the pass from `content` and `device` (halted or not) completes
   * `full`: it leaves what `full` leaves, and appending its deliveries and
   * reports to `logged` and `reported` gives what appending `full`'s to
   * `logged0` and `reported0` gives.
   */
  ghost predicate Completes<M, S>(p: Pipeline<M, S>, full: PassResult<M, S>, halted: bool, content: seq<byte>,
                                  device: Option<Device<S>>, logged0: seq<Delivery<M, S>>, logged: seq<Delivery<M, S>>,
                                  reported0: seq<Report<M>>, reported: seq<Report<M>>)
    requires DecoderReady(p)
  {
    var tail := DecodePass(p, halted, content, device);
    tail.content == full.content && tail.device == full.device &&
    logged0 + full.deliveries == logged + tail.deliveries && reported0 + full.reports == reported + tail.reports
  }

  /**
   * After a decoded message, the pass is the message's processing followed by
   * the pass over the bytes after it: appending the processing's deliveries and
   * reports to a log leaves exactly that remaining pass to append.
   */
  lemma DecodePassResumes<M, S>(p: Pipeline<M, S>, content: seq<byte>, device: Option<Device<S>>, m: M,
                                log: seq<Delivery<M, S>>, reports: seq<Report<M>>)
    requires DecoderReady(p) && p.decoder.Some? && p.decoder.value(content).outcome == Decoded(m)
    ensures var processed := ProcessInbound(p.before, p.after, device, p.logic, p.cache, m);
            var before := DecodePass(p, false, content, device);
            var after := DecodePass(p, false, content[p.decoder.value(content).consumed..], processed.device);
            after.content == before.content && after.device == before.device &&
            log + before.deliveries == (log + processed.deliveries) + after.deliveries &&
            reports + before.reports == (reports + FailureReports(processed.failure, m)) + after.reports
  {
    var processed := ProcessInbound(p.before, p.after, device, p.logic, p.cache, m);
    var after := DecodePass(p, false, content[p.decoder.value(content).consumed..], processed.device);
    assert DecodePass(p, false, content, device) ==
           PassResult(after.content, after.device, processed.deliveries + after.deliveries,
                      FailureReports(processed.failure, m) + after.reports);
    assert log + (processed.deliveries + after.deliveries) == (log + processed.deliveries) + after.deliveries;
    assert reports + (FailureReports(processed.failure, m) + after.reports) ==
           (reports + FailureReports(processed.failure, m)) + after.reports;
  }

  /** A pass never adds bytes: what remains is a suffix of what was buffered. */
  lemma {:induction false} DecodePassLeavesSuffix<M, S>(p: Pipeline<M, S>, halted: bool, content: seq<byte>, device: Option<Device<S>>)
    requires DecoderReady(p)
    ensures var r := DecodePass(p, halted, content, device);
            |r.content| <= |content| && r.content == content[|content| - |r.content|..]
    decreases |content|
  {
    if p.decoder.Some? && !halted {
      var step := p.decoder.value(content);
      var rest := content[step.consumed..];
      if step.outcome.Decoded? {
        var processed := ProcessInbound(p.before, p.after, device, p.logic, p.cache, step.outcome.message);
        DecodePassLeavesSuffix(p, false, rest, processed.device);
        var r := DecodePass(p, false, rest, processed.device);
        assert DecodePass(p, halted, content, device).content == r.content;
        assert rest[|rest| - |r.content|..] == content[|content| - |r.content|..];
      }
    }
  }

  /** Inbound processing neither creates nor drops the device, and the device keeps its class. */
  lemma {:induction false} DecodePassKeepsDevice<M, S>(p: Pipeline<M, S>, halted: bool, content: seq<byte>, device: Option<Device<S>>)
    requires DecoderReady(p)
    ensures var r := DecodePass(p, halted, content, device);
            (r.device.Some? <==> device.Some?) &&
            (device.Some? ==> r.device.value.deviceClass == device.value.deviceClass)
    decreases |content|
  {
    if p.decoder.Some? && !halted {
      var step := p.decoder.value(content);
      if step.outcome.Decoded? {
        var m := step.outcome.message;
        var processed := ProcessInbound(p.before, p.after, device, p.logic, p.cache, m);
        assert processed.device.Some? <==> device.Some?;
        assert device.Some? ==> processed.device.value.deviceClass == device.value.deviceClass;
        DecodePassKeepsDevice(p, false, content[step.consumed..], processed.device);
        DecodePassResumes(p, content, device, m, [], []);
      }
    }
  }
}
