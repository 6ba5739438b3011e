/**
 * Shared types of `iDescriptor.h`: the property-list tree and the
 * null-absorbing `PlistNavigator` over it, and the battery and device
 * records the parsers fill in (`NetworkDevice` is in the `Network` module).
 */
module Descriptor {
  import opened Wrappers
  import opened Bytes

  /** A libplist node; kinds the core never reads are `POther`. */
  datatype Plist =
    | PBool(b: bool)
    | PUInt(u: uint64)
    | PString(s: string)
    | PArray(items: seq<Plist>)
    | PDict(entries: seq<(string, Plist)>)
    | POther

  /** `plist_dict_get_item`: the value stored under `key`, if any. */
  function DictGet(entries: seq<(string, Plist)>, key: string): (r: Option<Plist>)
    ensures r.None? <==> forall i :: 0 <= i < |entries| ==> entries[i].0 != key
    ensures r.Some? ==> exists i :: 0 <= i < |entries| && entries[i] == (key, r.value)
  {
    if |entries| == 0 then None
    else if entries[0].0 == key then Some(entries[0].1)
    else
      var r := DictGet(entries[1..], key);
      assert r.Some? ==> exists i :: 0 <= i < |entries| - 1 && entries[1..][i] == (key, r.value);
      r
  }

  /** A `PlistNavigator`: a possibly null node. */
  datatype Navigator = Navigator(node: Option<Plist>)
  {
    /** `valid()`: the wrapped node is not null. */
    predicate Valid() { node.Some? }

    predicate IsDict() { node.Some? && node.value.PDict? }

    predicate IsArray() { node.Some? && node.value.PArray? }

    /**
     * `operator[](const char *key)`: null unless the node is a dict,
     * otherwise whatever the dict holds under `key` (possibly null).
     */
    function Key(key: string): (r: Navigator)
      ensures !IsDict() ==> !r.Valid()
      ensures IsDict() ==> (r.Valid() <==> exists i :: 0 <= i < |node.value.entries| && node.value.entries[i].0 == key)
      ensures r.Valid() ==> exists i :: 0 <= i < |node.value.entries| && node.value.entries[i] == (key, r.node.value)
    {
      if IsDict() then Navigator(DictGet(node.value.entries, key)) else Navigator(None)
    }

    /** `operator[](int index)`: null unless the node is an array and the index is in range. */
    function Index(index: int): (r: Navigator)
      ensures r.Valid() <==> IsArray() && 0 <= index < |node.value.items|
      ensures r.Valid() ==> r.node.value == node.value.items[index]
    {
      if IsArray() && 0 <= index < |node.value.items| then Navigator(Some(node.value.items[index]))
      else Navigator(None)
    }

    /** `getBool()`: false on a null node and on any node that is not a boolean. */
    function GetBool(): (r: bool)
      ensures r <==> node == Some(PBool(true))
    {
      node.Some? && node.value.PBool? && node.value.b
    }

    /** `getUInt()`: 0 on a null node and on any node that is not an unsigned integer. */
    function GetUInt(): (r: uint64)
      ensures r != 0 ==> node == Some(PUInt(r))
      ensures node.Some? && node.value.PUInt? ==> r == node.value.u
    {
      if node.Some? && node.value.PUInt? then node.value.u else 0
    }

    /** `getString()`: "" on a null node and on any node that is not a string. */
    function GetString(): (r: string)
      ensures r != "" ==> node == Some(PString(r))
      ensures node.Some? && node.value.PString? ==> r == node.value.s
    {
      if node.Some? && node.value.PString? then node.value.s else ""
    }
  }

  const Null: Navigator := Navigator(None)

  /** One subscript in a navigation chain. */
  datatype Subscript = ByKey(key: string) | ByIndex(index: int)

  /** A chain of subscripts, applied left to right: `nav[a][b]...`. */
  function Walk(nav: Navigator, path: seq<Subscript>): Navigator
    decreases |path|
  {
    if |path| == 0 then nav
    else
      var next := match path[0]
        case ByKey(k) => nav.Key(k)
        case ByIndex(i) => nav.Index(i);
      Walk(next, path[1..])
  }

  /** Null is absorbing: no chain of subscripts leads away from a null navigator. */
  lemma {:induction false} NullAbsorbs(path: seq<Subscript>)
    ensures Walk(Null, path) == Null
  {
    if |path| > 0 {
      NullAbsorbs(path[1..]);
    }
  }

  /** A chain that reaches a node passed only through dicts and arrays on the way. */
  lemma {:induction false} WalkThroughContainers(nav: Navigator, path: seq<Subscript>)
    requires |path| > 0 && Walk(nav, path).Valid()
    ensures path[0].ByKey? ==> nav.IsDict()
    ensures path[0].ByIndex? ==> nav.IsArray()
  {
    var next := match path[0]
      case ByKey(k) => nav.Key(k)
      case ByIndex(i) => nav.Index(i);
    if !next.Valid() {
      assert next == Null;
      NullAbsorbs(path[1..]);
    }
  }

  datatype AddType = Regular | Pairing

  datatype ConnectionType = USB | USB_TYPEC

  datatype ActivationState = Activated | FactoryActivated | Unactivated

  /** The `BatteryInfo` fields the parsers set. */
  datatype BatteryInfo = BatteryInfo(
    health: string,
    cycleCount: uint64,
    serialNumber: string,
    isCharging: bool,
    fullyCharged: bool,
    currentBatteryLevel: uint64,
    usbConnectionType: ConnectionType,
    adapterVoltage: uint64,
    watts: uint64)

  /** The `DeviceInfo` fields the core reads or writes. */
  datatype DeviceInfo = DeviceInfo(
    productType: string,
    productVersion: string,
    deviceClass: string,
    activationState: ActivationState,
    productionDevice: bool,
    is_iPhone: bool,
    oldDevice: bool,
    totalDiskCapacity: uint64,
    totalDataCapacity: uint64,
    totalSystemCapacity: uint64,
    totalDataAvailable: uint64,
    batteryInfo: BatteryInfo)
}
