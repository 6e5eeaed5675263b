/**
 * Device classes and the "same or superclass" relation the communicator
 * matches listeners by, the listeners themselves, and the events delivered to
 * them. Java classes become explicit class tags: a device class is the chain
 * of tags from the root `Device` class down to itself.
 */
module Devices {
  import opened Results

  /** A `Device` class, given by its tag chain from the root class `Device` down to itself. */
  datatype DeviceClass = DeviceClass(lineage: seq<nat>)

  /** The root class `Device`. */
  const DEVICE: DeviceClass := DeviceClass([0])

  /** The class `extends parent` that carries the tag `tag`. */
  function Subclass(parent: DeviceClass, tag: nat): DeviceClass
  {
    DeviceClass(parent.lineage + [tag])
  }

  /** `isSameOrSuperClassDevice(sub, sup)`: whether `sub.asSubclass(sup)` succeeds. */
  predicate IsSameOrSuperClassDevice(sub: DeviceClass, sup: DeviceClass)
  {
    sup.lineage <= sub.lineage
  }

  /** Every class is the same as itself. */
  lemma SameOrSuperReflexive(c: DeviceClass)
    ensures IsSameOrSuperClassDevice(c, c)
  {
  }

  /** A subclass matches its superclass, and not the other way round. */
  lemma SubclassMatchesOnlyUpwards(parent: DeviceClass, tag: nat)
    ensures IsSameOrSuperClassDevice(Subclass(parent, tag), parent)
    ensures !IsSameOrSuperClassDevice(parent, Subclass(parent, tag))
  {
    assert |Subclass(parent, tag).lineage| > |parent.lineage|;
  }

  /** The relation is transitive: a subclass of a subclass matches the ancestor. */
  lemma SameOrSuperTransitive(a: DeviceClass, b: DeviceClass, c: DeviceClass)
    requires IsSameOrSuperClassDevice(a, b) && IsSameOrSuperClassDevice(b, c)
    ensures IsSameOrSuperClassDevice(a, c)
  {
    assert c.lineage == b.lineage[..|c.lineage|];
    assert b.lineage == a.lineage[..|b.lineage|];
  }

  /** Two classes that match each other are the same class. */
  lemma SameOrSuperAntisymmetric(a: DeviceClass, b: DeviceClass)
    requires IsSameOrSuperClassDevice(a, b) && IsSameOrSuperClassDevice(b, a)
    ensures a == b
  {
  }

  /**
   * The six checks of the subclassing test, with `DummyDevice extends Device`
   * and `DummySubclassDevice extends DummyDevice`.
   */
  lemma SubclassingChecks()
    ensures var dummy := Subclass(DEVICE, 1);
            var dummySub := Subclass(dummy, 2);
            && IsSameOrSuperClassDevice(dummy, dummy)
            && IsSameOrSuperClassDevice(DEVICE, DEVICE)
            && IsSameOrSuperClassDevice(dummySub, dummy)
            && !IsSameOrSuperClassDevice(dummy, dummySub)
            && IsSameOrSuperClassDevice(dummySub, DEVICE)
            && !IsSameOrSuperClassDevice(DEVICE, dummySub)
  {
    var dummy := Subclass(DEVICE, 1);
    var dummySub := Subclass(dummy, 2);
    SubclassMatchesOnlyUpwards(dummy, 2);
    SubclassMatchesOnlyUpwards(DEVICE, 1);
    SameOrSuperTransitive(dummySub, dummy, DEVICE);
    assert |DEVICE.lineage| < |dummySub.lineage|;
  }

  /** A device instance: the class it was created from and the state its fields hold. */
  datatype Device<S> = Device(deviceClass: DeviceClass, state: S)

  /**
   * A `Communicator.Listener` (through the handler that wraps it): its identity
   * and the device class it listens for, its generic type argument.
   */
  datatype Listener = Listener(id: nat, deviceClass: DeviceClass)

  /** The connection types the transports of the library declare. */
  datatype ConnectionType = BluetoothSpp | BluetoothSppInsecure | BluetoothLe | UsbSerial | Tcp | Dummy

  /** What a listener learns of a connection: its type and device identifier. */
  datatype ConnectionId = ConnectionId(connectionType: ConnectionType, deviceIdentifier: string)

  /** The six `Listener` callbacks. */
  datatype Event<M, S> =
    | StartConnecting(connection: ConnectionId)
    | FailedToConnect(failed: Option<ConnectionId>, cause: Exception)
    | DeviceConnected(device: Device<S>, alreadyExisting: bool)
    | DeviceDisconnected(disconnected: Option<Device<S>>)
    | DeviceMessageProcessed(device: Device<S>, message: M)
    | DeviceUpdated(device: Device<S>)

  /** One callback posted to one listener. */
  datatype Delivery<M, S> = Delivery(listener: Listener, event: Event<M, S>)

  /** The callbacks posted when `event` is sent to each of `listeners`, in order. */
  function Deliveries<M, S>(listeners: seq<Listener>, event: Event<M, S>): seq<Delivery<M, S>>
  {
    seq(|listeners|, i requires 0 <= i < |listeners| => Delivery(listeners[i], event))
  }

  /** Whether every registered class in `keys` has a handler list in `registered`. */
  predicate KeysListed(keys: seq<DeviceClass>, registered: map<DeviceClass, seq<Listener>>)
  {
    forall k | k in keys :: k in registered
  }

  /**
   * `getCorrespondingHandlers(c)`: the handler lists of every registered class
   * that `c` is the same as or a subclass of, concatenated in key order.
   */
  function CorrespondingHandlers(keys: seq<DeviceClass>, registered: map<DeviceClass, seq<Listener>>,
                                 c: DeviceClass): (r: seq<Listener>)
    requires KeysListed(keys, registered)
    ensures forall l :: l in r <==>
              exists k | k in keys && IsSameOrSuperClassDevice(c, k) :: l in registered[k]
    decreases |keys|
  {
    if keys == [] then []
    else
      var rest := CorrespondingHandlers(keys[1..], registered, c);
      assert forall k | k in keys[1..] :: k in keys;
      assert forall k | k in keys :: k == keys[0] || k in keys[1..];
      (if IsSameOrSuperClassDevice(c, keys[0]) then registered[keys[0]] else []) + rest
  }

  /** Each class of `classes` mapped to its corresponding handlers. */
  function HandlerCache(classes: set<DeviceClass>, keys: seq<DeviceClass>,
                        registered: map<DeviceClass, seq<Listener>>): map<DeviceClass, seq<Listener>>
    requires KeysListed(keys, registered)
  {
    map c | c in classes :: CorrespondingHandlers(keys, registered, c)
  }

  /** One more class in the cache adds its entry; a class already there changes nothing. */
  lemma HandlerCacheAdd(classes: set<DeviceClass>, keys: seq<DeviceClass>,
                        registered: map<DeviceClass, seq<Listener>>, c: DeviceClass)
    requires KeysListed(keys, registered)
    ensures HandlerCache(classes + {c}, keys, registered) ==
            HandlerCache(classes, keys, registered)[c := CorrespondingHandlers(keys, registered, c)]
    ensures c in classes ==> HandlerCache(classes + {c}, keys, registered) == HandlerCache(classes, keys, registered)
  {
    assert classes + {c} == classes <== c in classes;
  }

  /** Handlers of an exact class only reach devices of that class or its subclasses. */
  lemma {:induction false} CorrespondingHandlersOfUnrelated(keys: seq<DeviceClass>,
                                                           registered: map<DeviceClass, seq<Listener>>, c: DeviceClass)
    requires KeysListed(keys, registered)
    requires forall k | k in keys && IsSameOrSuperClassDevice(c, k) :: registered[k] == []
    ensures CorrespondingHandlers(keys, registered, c) == []
    decreases |keys|
  {
    if keys != [] {
      assert keys[0] in keys;
      assert forall k | k in keys[1..] :: k in keys;
      CorrespondingHandlersOfUnrelated(keys[1..], registered, c);
    }
  }
}
