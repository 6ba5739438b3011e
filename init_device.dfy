/**
 * Decision logic of `init_device.cpp`: the first-match key lookups over
 * the children of the lockdown `<dict>`, the activation mapping, and the
 * battery parsers that fill `DeviceInfo::batteryInfo` from the
 * diagnostics `IORegistry` plist.
 */
module InitDevice {
  import opened Wrappers
  import opened Bytes
  import opened Text
  import opened Descriptor

  /** A child element of the `<dict>`: its tag and its text content. */
  datatype XmlNode = XmlNode(name: string, text: string)

  predicate IsKeyFor(n: XmlNode, key: string) {
    n.name == "key" && n.text == key
  }

  /** Child `k` is the first `<key>` for `key`. */
  predicate FirstKeyAt(children: seq<XmlNode>, key: string, k: nat) {
    k < |children| && IsKeyFor(children[k], key) && forall j :: 0 <= j < k ==> !IsKeyFor(children[j], key)
  }

  /** From `i` on, the first `<key>` for `key` that has a next sibling. */
  function KeyWithValueFrom(children: seq<XmlNode>, key: string, i: nat): (r: Option<nat>)
    requires i <= |children|
    ensures r.Some? ==> i <= r.value && r.value + 1 < |children| && IsKeyFor(children[r.value], key)
    ensures r.Some? ==> forall j :: i <= j < r.value ==> !IsKeyFor(children[j], key)
    ensures r.None? ==> forall j :: i <= j < |children| - 1 ==> !IsKeyFor(children[j], key)
    decreases |children| - i
  {
    if i == |children| then None
    else if IsKeyFor(children[i], key) && i + 1 < |children| then Some(i)
    else KeyWithValueFrom(children, key, i + 1)
  }

  /** From `i` on, the first `<key>` for `key`, whether or not a sibling follows. */
  function FirstKeyFrom(children: seq<XmlNode>, key: string, i: nat): (r: Option<nat>)
    requires i <= |children|
    ensures r.Some? ==> i <= r.value < |children| && IsKeyFor(children[r.value], key)
    ensures r.Some? ==> forall j :: i <= j < r.value ==> !IsKeyFor(children[j], key)
    ensures r.None? ==> forall j :: i <= j < |children| ==> !IsKeyFor(children[j], key)
    decreases |children| - i
  {
    if i == |children| then None
    else if IsKeyFor(children[i], key) then Some(i)
    else FirstKeyFrom(children, key, i + 1)
  }

  /**
   * The two searches find the same key whenever the first key has a
   * sibling; when it has none it is the last child, so no later key
   * has one either.
   */
  lemma {:induction false} SearchesAgree(children: seq<XmlNode>, key: string, i: nat)
    requires i <= |children|
    ensures FirstKeyFrom(children, key, i).Some? && FirstKeyFrom(children, key, i).value + 1 < |children| ==>
      KeyWithValueFrom(children, key, i) == FirstKeyFrom(children, key, i)
    ensures !(FirstKeyFrom(children, key, i).Some? && FirstKeyFrom(children, key, i).value + 1 < |children|) ==>
      KeyWithValueFrom(children, key, i).None?
    decreases |children| - i
  {
    if i < |children| && !IsKeyFor(children[i], key) {
      SearchesAgree(children, key, i + 1);
    }
  }

  /** What `safeGetXML` makes of the value element: boolean tags by name, anything else by text. */
  function RenderValue(value: XmlNode): string {
    if value.name == "true" then "true"
    else if value.name == "false" then "false"
    else value.text
  }

  /** `safeGetXML`: the rendered sibling of the first key that has one, or "". */
  function XmlLookup(children: seq<XmlNode>, key: string): (r: string)
    ensures (forall j :: 0 <= j < |children| - 1 ==> !IsKeyFor(children[j], key)) ==> r == ""
  {
    match KeyWithValueFrom(children, key, 0)
    case None => ""
    case Some(k) => RenderValue(children[k + 1])
  }

  /** `safeGet`: the text of the sibling of the first key that has one, or "". */
  function TextLookup(children: seq<XmlNode>, key: string): (r: string)
    ensures (forall j :: 0 <= j < |children| - 1 ==> !IsKeyFor(children[j], key)) ==> r == ""
  {
    match KeyWithValueFrom(children, key, 0)
    case None => ""
    case Some(k) => children[k + 1].text
  }

  /** `safeGetBool`: the first key decides; true iff its sibling exists and is `<true>`. */
  function BoolLookup(children: seq<XmlNode>, key: string): (r: bool)
    ensures r <==> (exists k :: 0 <= k < |children| - 1 && FirstKeyAt(children, key, k)
                              && children[k + 1].name == "true")
  {
    var f := FirstKeyFrom(children, key, 0);
    assert forall k: nat | FirstKeyAt(children, key, k) :: f == Some(k);
    assert f.Some? ==> FirstKeyAt(children, key, f.value);
    f.Some? && f.value + 1 < |children| && children[f.value + 1].name == "true"
  }

  /** A key that `safeGetBool` reads as true is one `safeGetXML` renders as "true". */
  lemma BoolAgreesWithXml(children: seq<XmlNode>, key: string)
    requires BoolLookup(children, key)
    ensures XmlLookup(children, key) == "true"
  {
    SearchesAgree(children, key, 0);
  }

  /** `safeGetXML` and `safeGet` read the same value, except where the element is a boolean one. */
  lemma XmlAgreesWithText(children: seq<XmlNode>, key: string)
    ensures XmlLookup(children, key) != TextLookup(children, key) ==>
      XmlLookup(children, key) == "true" || XmlLookup(children, key) == "false"
  {
  }

  /** A key whose first occurrence is the last child reads as "" and as false. */
  lemma TrailingKeyReadsEmpty(children: seq<XmlNode>, key: string)
    requires |children| > 0 && IsKeyFor(children[|children| - 1], key)
    requires forall j :: 0 <= j < |children| - 1 ==> !IsKeyFor(children[j], key)
    ensures XmlLookup(children, key) == "" && TextLookup(children, key) == "" && !BoolLookup(children, key)
  {
    SearchesAgree(children, key, 0);
  }

  /** The `safeGetXML` loop over the children. */
  method SafeGetXML(key: string, children: seq<XmlNode>) returns (r: string)
    ensures r == XmlLookup(children, key)
  {
    var i := 0;
    while i < |children|
      invariant 0 <= i <= |children|
      invariant KeyWithValueFrom(children, key, i) == KeyWithValueFrom(children, key, 0)
    {
      if children[i].name == "key" && children[i].text == key {
        if i + 1 < |children| {
          var value := children[i + 1];
          if value.name == "true" {
            return "true";
          } else if value.name == "false" {
            return "false";
          } else {
            return value.text;
          }
        }
      }
      i := i + 1;
    }
    return "";
  }

  /** The `safeGet` lambda of `fullDeviceInfo`. */
  method SafeGet(key: string, children: seq<XmlNode>) returns (r: string)
    ensures r == TextLookup(children, key)
  {
    var i := 0;
    while i < |children|
      invariant 0 <= i <= |children|
      invariant KeyWithValueFrom(children, key, i) == KeyWithValueFrom(children, key, 0)
    {
      if children[i].name == "key" && children[i].text == key && i + 1 < |children| {
        return children[i + 1].text;
      }
      i := i + 1;
    }
    return "";
  }

  /** The `safeGetBool` lambda of `fullDeviceInfo`. */
  method SafeGetBool(key: string, children: seq<XmlNode>) returns (r: bool)
    ensures r == BoolLookup(children, key)
  {
    var i := 0;
    while i < |children|
      invariant 0 <= i <= |children|
      invariant FirstKeyFrom(children, key, i) == FirstKeyFrom(children, key, 0)
    {
      if children[i].name == "key" && children[i].text == key {
        return i + 1 < |children| && children[i + 1].name == "true";
      }
      i := i + 1;
    }
    return false;
  }

  /** The `ActivationState` string as lockdown reports it, mapped to the enum. */
  function ActivationFrom(s: string): (r: ActivationState)
    ensures r == Activated <==> s == "Activated" || s == "WildcardActivated"
    ensures r == FactoryActivated <==> s == "FactoryActivated"
    ensures r == Unactivated <==> s !in {"Activated", "WildcardActivated", "FactoryActivated"}
  {
    if s == "Activated" then Activated
    else if s == "WildcardActivated" then Activated
    else if s == "FactoryActivated" then FactoryActivated
    else Unactivated
  }

  /** A device-database record: `displayName` may be null. */
  datatype DatabaseEntry = DatabaseEntry(displayName: Option<string>, marketingName: string)

  /** `productType`: the display name, else the marketing name, else "Unknown Device". */
  function ProductTypeName(info: Option<DatabaseEntry>): string {
    match info
    case None => "Unknown Device"
    case Some(e) => e.displayName.GetOr(e.marketingName)
  }

  const SerialPlaceholder: string := "Error retrieving serial number"

  function SerialOrPlaceholder(serial: string): (r: string)
    ensures r != ""
    ensures serial != "" ==> r == serial
  {
    if serial != "" then serial else SerialPlaceholder
  }

  /** `cur * 100 / max` in `uint64_t` when both are non-zero, else 0. */
  function BatteryLevel(cur: uint64, max: uint64): (r: uint64)
    ensures cur == 0 || max == 0 ==> r == 0
    ensures cur != 0 && max != 0 && cur * 100 < TwoTo64 ==> r == cur * 100 / max
    ensures cur <= max && cur * 100 < TwoTo64 ==> r <= 100
  {
    if cur == 0 || max == 0 then 0
    else
      var p := cur * 100;
      var w := Wrap64(p);
      DivAtMost(w, max);
      if p < TwoTo64 then
        assert w == p;
        if cur <= max then PercentAtMost(cur, max); w / max
        else w / max
      else w / max
  }

  /**
   * `parseOldDevice`'s health: `max * 100 / design` in `uint64_t`,
   * narrowed to `int`, then capped at 100.
   */
  function OldHealthPercent(max: uint64, design: uint64): (r: int)
    ensures r <= 100
    ensures design == 0 ==> r == 0
  {
    if design == 0 then 0
    else
      var h := ToInt32(CapacityPercent(max, design));
      if h < 100 then h else 100
  }

  /**
   * Without overflow the old-device health is the exact whole percentage,
   * capped at 100; for a capacity no larger than the design it is that
   * percentage itself.
   */
  lemma OldHealthExact(max: uint64, design: uint64)
    requires design != 0 && max * 100 < TwoTo64
    ensures max * 100 / design < 0x8000_0000 ==>
      OldHealthPercent(max, design) == if max * 100 / design < 100 then max * 100 / design else 100
    ensures max <= design ==> 0 <= OldHealthPercent(max, design) == max * 100 / design
  {
    var q := CapacityPercent(max, design);
    assert q == max * 100 / design;
    if max <= design {
      assert q <= 100;
    }
  }

  /** `QString::number(n) + "%"`. */
  function PercentText(n: int): (r: string)
    ensures |r| >= 2 && r[|r| - 1] == '%'
    ensures n >= 0 ==> AllDigits(r[..|r| - 1]) && DigitsValue(r[..|r| - 1]) == n
    ensures n < 0 ==> r[0] == '-' && AllDigits(r[1..|r| - 1]) && DigitsValue(r[1..|r| - 1]) == -n
  {
    var r := IntToString(n) + "%";
    if n >= 0 then
      assert r[..|r| - 1] == NatToString(n);
      NatToStringValue(n);
      r
    else
      assert r[1..|r| - 1] == NatToString(-n);
      NatToStringValue(-n);
      r
  }

  /** The connection type: USB-C iff the adapter describes itself as "usb type-c". */
  function ConnectionFrom(ioreg: Navigator): (r: ConnectionType)
    ensures r == USB_TYPEC <==> ioreg.Key("AdapterDetails").Key("Description").GetString() == "usb type-c"
  {
    if ioreg.Key("AdapterDetails").Key("Description").GetString() == "usb type-c" then USB_TYPEC else USB
  }

  /** `parseOldDeviceBattery`: charge flags, level, connection, no voltage, adapter watts. */
  function ParseOldDeviceBattery(ioreg: Navigator, b: BatteryInfo): (r: BatteryInfo)
    ensures r.health == b.health && r.cycleCount == b.cycleCount && r.serialNumber == b.serialNumber
    ensures r.isCharging <==> ioreg.Key("IsCharging").node == Some(PBool(true))
    ensures r.fullyCharged <==> ioreg.Key("FullyCharged").node == Some(PBool(true))
    ensures r.currentBatteryLevel ==
      BatteryLevel(ioreg.Key("AppleRawCurrentCapacity").GetUInt(), ioreg.Key("AppleRawMaxCapacity").GetUInt())
    ensures r.usbConnectionType == ConnectionFrom(ioreg)
    ensures r.adapterVoltage == 0
    ensures r.watts == ioreg.Key("AdapterDetails").Key("Watts").GetUInt()
  {
    b.(isCharging := ioreg.Key("IsCharging").GetBool(),
       fullyCharged := ioreg.Key("FullyCharged").GetBool(),
       currentBatteryLevel :=
         BatteryLevel(ioreg.Key("AppleRawCurrentCapacity").GetUInt(), ioreg.Key("AppleRawMaxCapacity").GetUInt()),
       usbConnectionType := ConnectionFrom(ioreg),
       adapterVoltage := 0,
       watts := ioreg.Key("AdapterDetails").Key("Watts").GetUInt())
  }

  /** `parseOldDevice`: health, cycle count and the serial placeholder, then the battery fields. */
  function ParseOldDevice(ioreg: Navigator, b: BatteryInfo): (r: BatteryInfo)
    ensures r.health ==
      PercentText(OldHealthPercent(ioreg.Key("MaxCapacity").GetUInt(), ioreg.Key("DesignCapacity").GetUInt()))
    ensures r.cycleCount == ioreg.Key("CycleCount").GetUInt()
    ensures r.serialNumber == SerialPlaceholder
    ensures r == ParseOldDeviceBattery(ioreg, r)
  {
    var withHealth := b.(
      health := PercentText(OldHealthPercent(ioreg.Key("MaxCapacity").GetUInt(), ioreg.Key("DesignCapacity").GetUInt())),
      cycleCount := ioreg.Key("CycleCount").GetUInt(),
      serialNumber := SerialOrPlaceholder(""));
    ParseOldDeviceBattery(ioreg, withHealth)
  }

  /** `parseDeviceBattery`: charge flags, state of charge, connection, first raw adapter. */
  function ParseDeviceBattery(ioreg: Navigator, b: BatteryInfo): (r: BatteryInfo)
    ensures r.health == b.health && r.cycleCount == b.cycleCount && r.serialNumber == b.serialNumber
    ensures r.isCharging <==> ioreg.Key("IsCharging").node == Some(PBool(true))
    ensures r.fullyCharged <==> ioreg.Key("FullyCharged").node == Some(PBool(true))
    ensures r.currentBatteryLevel == ioreg.Key("BatteryData").Key("StateOfCharge").GetUInt()
    ensures r.usbConnectionType == ConnectionFrom(ioreg)
    ensures r.adapterVoltage == ioreg.Key("AppleRawAdapterDetails").Index(0).Key("AdapterVoltage").GetUInt()
    ensures r.watts == ioreg.Key("AppleRawAdapterDetails").Index(0).Key("Watts").GetUInt()
  {
    var adapter := ioreg.Key("AppleRawAdapterDetails").Index(0);
    b.(isCharging := ioreg.Key("IsCharging").GetBool(),
       fullyCharged := ioreg.Key("FullyCharged").GetBool(),
       currentBatteryLevel := ioreg.Key("BatteryData").Key("StateOfCharge").GetUInt(),
       usbConnectionType := ConnectionFrom(ioreg),
       adapterVoltage := adapter.Key("AdapterVoltage").GetUInt(),
       watts := adapter.Key("Watts").GetUInt())
  }

  /** Both battery parsers read the charge flags and the connection type in the same way. */
  lemma BatteryParsersShareFlags(ioreg: Navigator, b: BatteryInfo, c: BatteryInfo)
    ensures ParseOldDeviceBattery(ioreg, b).isCharging == ParseDeviceBattery(ioreg, c).isCharging
    ensures ParseOldDeviceBattery(ioreg, b).fullyCharged == ParseDeviceBattery(ioreg, c).fullyCharged
    ensures ParseOldDeviceBattery(ioreg, b).usbConnectionType == ParseDeviceBattery(ioreg, c).usbConnectionType
  {
  }

  /** Reparsing is idempotent: a parser's output does not depend on the fields it overwrites. */
  lemma {:induction false} ParsersIdempotent(ioreg: Navigator, b: BatteryInfo)
    ensures ParseOldDeviceBattery(ioreg, ParseOldDeviceBattery(ioreg, b)) == ParseOldDeviceBattery(ioreg, b)
    ensures ParseDeviceBattery(ioreg, ParseDeviceBattery(ioreg, b)) == ParseDeviceBattery(ioreg, b)
    ensures ParseOldDevice(ioreg, ParseOldDevice(ioreg, b)) == ParseOldDevice(ioreg, b)
  {
  }

  /**
   * The capacity that newer devices report as maximum: the raw figure on
   * iPhones newer than iPhone8,1, otherwise `BatteryData.MaxCapacity`.
   */
  function MaxCapacity(ioreg: Navigator, isIPhone: bool, newerThaniPhone8: bool): uint64 {
    if isIPhone && newerThaniPhone8 then ioreg.Key("AppleRawMaxCapacity").GetUInt()
    else ioreg.Key("BatteryData").Key("MaxCapacity").GetUInt()
  }

  /** Old devices are those whose `IORegistry` has no `BatteryData`. */
  predicate IsOldDevice(ioreg: Navigator) {
    !ioreg.Key("BatteryData").Valid()
  }

  /**
   * What the newer-device branch of `fullDeviceInfo` demands: the health
   * division has no zero check.
   */
  predicate HealthDefined(ioreg: Navigator) {
    IsOldDevice(ioreg) || ioreg.Key("BatteryData").Key("DesignCapacity").GetUInt() != 0
  }

  /** `max * 100 / design` in `uint64_t`: the newer-device health as it is, the older one before narrowing. */
  function CapacityPercent(max: uint64, design: uint64): (r: uint64)
    requires design != 0
    ensures max * 100 < TwoTo64 ==> r == max * 100 / design
    ensures max <= design && max * 100 < TwoTo64 ==> r <= 100
  {
    var p := max * 100;
    var w := Wrap64(p);
    DivAtMost(w, design);
    if p < TwoTo64 then
      assert w == p;
      if max <= design then PercentAtMost(max, design); w / design
      else w / design
    else w / design
  }
  // ---------------------------------------------------------------------
  // The disk capacities

  /** The longest run of decimal digits at the start of `s`. */
  function LeadingDigits(s: string): (r: string)
    ensures r <= s && AllDigits(r)
    ensures |r| < |s| ==> !IsDigit(s[|r|])
  {
    if |s| > 0 && IsDigit(s[0]) then [s[0]] + LeadingDigits(s[1..]) else []
  }

  /**
   * `std::stoull` in base 10, reading as `strtoull` does: leading
   * whitespace is skipped, an optional sign comes before the digits and
   * whatever follows them is ignored. No digit at all, or a value above
   * 2^64 - 1, throws (None); a '-' negates modulo 2^64.
   */
  function Stoull(s: string): Option<uint64> {
    var t := TrimStart(s);
    var signed := |t| > 0 && (t[0] == '-' || t[0] == '+');
    var d := LeadingDigits(if signed then t[1..] else t);
    if |d| == 0 || DigitsValue(d) >= TwoTo64 then None
    else if signed && t[0] == '-' then Some(Wrap64(TwoTo64 - DigitsValue(d)))
    else Some(DigitsValue(d))
  }

  lemma {:induction false} LeadingDigitsOfNumber(x: string, rest: string)
    requires AllDigits(x)
    requires |rest| == 0 || !IsDigit(rest[0])
    ensures LeadingDigits(x + rest) == x
  {
    if |x| > 0 {
      assert (x + rest)[1..] == x[1..] + rest;
      LeadingDigitsOfNumber(x[1..], rest);
    } else {
      assert x + rest == rest;
    }
  }

  /** A number written in decimal, followed by anything but a digit, reads back as that number. */
  lemma StoullReadsDecimal(n: uint64, rest: string)
    requires |rest| == 0 || !IsDigit(rest[0])
    ensures Stoull(NatToString(n) + rest) == Some(n)
  {
    var x := NatToString(n);
    var s := x + rest;
    assert s[0] == x[0] && IsDigit(s[0]);
    assert TrimStart(s) == s;
    LeadingDigitsOfNumber(x, rest);
    NatToStringValue(n);
  }

  /** Text without a digit, such as the "" of a missing key, makes `std::stoull` throw. */
  lemma StoullNeedsDigit(s: string)
    requires forall i :: 0 <= i < |s| ==> !IsDigit(s[i])
    ensures Stoull(s).None?
  {
  }

  /** The four capacity lookups, in the order of the `try` block. */
  function DiskReadings(children: seq<XmlNode>): (r: seq<Option<uint64>>)
    ensures |r| == 4
  {
    [Stoull(TextLookup(children, "TotalDiskCapacity")), Stoull(TextLookup(children, "TotalDataCapacity")),
     Stoull(TextLookup(children, "TotalSystemCapacity")), Stoull(TextLookup(children, "TotalDataAvailable"))]
  }

  /** The readings before position `k` all parsed. */
  predicate ParsedBefore(readings: seq<Option<uint64>>, k: nat) {
    forall j :: 0 <= j < k && j < |readings| ==> readings[j].Some?
  }

  /**
   * The disk block of `fullDeviceInfo` over the four readings: the
   * capacities are set in turn, and the first `std::stoull` that throws
   * leaves its field and the later ones as they were.
   */
  function ReadDisk(v: seq<Option<uint64>>, d: DeviceInfo): (r: DeviceInfo)
    requires |v| == 4
    ensures ParsedBefore(v, 1) ==> r.totalDiskCapacity == v[0].value
    ensures !ParsedBefore(v, 1) ==> r.totalDiskCapacity == d.totalDiskCapacity
    ensures ParsedBefore(v, 2) ==> r.totalDataCapacity == v[1].value
    ensures !ParsedBefore(v, 2) ==> r.totalDataCapacity == d.totalDataCapacity
    ensures ParsedBefore(v, 3) ==> r.totalSystemCapacity == v[2].value
    ensures !ParsedBefore(v, 3) ==> r.totalSystemCapacity == d.totalSystemCapacity
    ensures ParsedBefore(v, 4) ==> r.totalDataAvailable == v[3].value
    ensures !ParsedBefore(v, 4) ==> r.totalDataAvailable == d.totalDataAvailable
    ensures r == d.(totalDiskCapacity := r.totalDiskCapacity, totalDataCapacity := r.totalDataCapacity,
                    totalSystemCapacity := r.totalSystemCapacity, totalDataAvailable := r.totalDataAvailable)
  {
    if v[0].None? then d
    else
      var d1 := d.(totalDiskCapacity := v[0].value);
      if v[1].None? then d1
      else
        var d2 := d1.(totalDataCapacity := v[1].value);
        if v[2].None? then d2
        else
          var d3 := d2.(totalSystemCapacity := v[2].value);
          if v[3].None? then d3 else d3.(totalDataAvailable := v[3].value)
  }

  /** The disk block of `fullDeviceInfo` on the lockdown `<dict>`. */
  function ReadDiskInfo(children: seq<XmlNode>, d: DeviceInfo): DeviceInfo {
    ReadDisk(DiskReadings(children), d)
  }

  /** Capacities that lockdown reports in decimal are all read. */
  lemma DiskInfoReadsBack(children: seq<XmlNode>, d: DeviceInfo, disk: uint64, data: uint64, system: uint64,
                          available: uint64)
    requires TextLookup(children, "TotalDiskCapacity") == NatToString(disk)
    requires TextLookup(children, "TotalDataCapacity") == NatToString(data)
    requires TextLookup(children, "TotalSystemCapacity") == NatToString(system)
    requires TextLookup(children, "TotalDataAvailable") == NatToString(available)
    ensures var r := ReadDiskInfo(children, d);
      r.totalDiskCapacity == disk && r.totalDataCapacity == data &&
      r.totalSystemCapacity == system && r.totalDataAvailable == available
  {
    ReadsDecimal(disk);
    ReadsDecimal(data);
    ReadsDecimal(system);
    ReadsDecimal(available);
    AllParsed(DiskReadings(children), d, disk, data, system, available);
  }

  lemma AllParsed(v: seq<Option<uint64>>, d: DeviceInfo, disk: uint64, data: uint64, system: uint64,
                  available: uint64)
    requires v == [Some(disk), Some(data), Some(system), Some(available)]
    ensures var r := ReadDisk(v, d);
      r.totalDiskCapacity == disk && r.totalDataCapacity == data &&
      r.totalSystemCapacity == system && r.totalDataAvailable == available
  {
    assert ParsedBefore(v, 4);
  }

  lemma ReadsDecimal(n: uint64)
    ensures Stoull(NatToString(n)) == Some(n)
  {
    StoullReadsDecimal(n, "");
    assert NatToString(n) + "" == NatToString(n);
  }

  /** A missing `TotalDiskCapacity` key stops the block before any capacity is set. */
  lemma MissingDiskKeySetsNothing(children: seq<XmlNode>, d: DeviceInfo)
    requires forall j :: 0 <= j < |children| - 1 ==> !IsKeyFor(children[j], "TotalDiskCapacity")
    ensures ReadDiskInfo(children, d) == d
  {
    StoullNeedsDigit("");
  }

  /**
   * The decision logic of `fullDeviceInfo` over the lockdown `<dict>`,
   * the database entry and the diagnostics plist: identity fields first,
   * then, when diagnostics arrived, the branch chosen by `BatteryData`.
   */
  function FullDeviceInfo(children: seq<XmlNode>, info: Option<DatabaseEntry>,
                          diagnostics: Option<Plist>, newerThaniPhone8: bool, d: DeviceInfo): (r: DeviceInfo)
    requires diagnostics.Some? ==> HealthDefined(Navigator(diagnostics).Key("IORegistry"))
    ensures r.deviceClass == TextLookup(children, "DeviceClass")
    ensures r.productVersion == TextLookup(children, "ProductVersion")
    ensures r.is_iPhone <==> TextLookup(children, "DeviceClass") == "iPhone"
    ensures r.productionDevice == BoolLookup(children, "ProductionSOC")
    ensures r.activationState == ActivationFrom(TextLookup(children, "ActivationState"))
    ensures r.productType == ProductTypeName(info)
    ensures diagnostics.None? ==> r.batteryInfo == d.batteryInfo && r.oldDevice == d.oldDevice
    ensures diagnostics.Some? ==> (r.oldDevice <==> IsOldDevice(Navigator(diagnostics).Key("IORegistry")))
    ensures diagnostics.Some? && r.oldDevice ==>
      r.batteryInfo == ParseOldDevice(Navigator(diagnostics).Key("IORegistry"), d.batteryInfo)
    ensures diagnostics.Some? && !r.oldDevice ==>
      var ioreg := Navigator(diagnostics).Key("IORegistry");
      var data := ioreg.Key("BatteryData");
      r.batteryInfo.health ==
        PercentText(CapacityPercent(MaxCapacity(ioreg, r.is_iPhone, newerThaniPhone8),
                                    data.Key("DesignCapacity").GetUInt())) &&
      r.batteryInfo.cycleCount == data.Key("CycleCount").GetUInt() &&
      r.batteryInfo.serialNumber == SerialOrPlaceholder(data.Key("BatterySerialNumber").GetString()) &&
      r.batteryInfo == ParseDeviceBattery(ioreg, r.batteryInfo)
    ensures var disk := ReadDiskInfo(children, d);
      r.totalDiskCapacity == disk.totalDiskCapacity && r.totalDataCapacity == disk.totalDataCapacity &&
      r.totalSystemCapacity == disk.totalSystemCapacity && r.totalDataAvailable == disk.totalDataAvailable
  {
    var deviceClass := TextLookup(children, "DeviceClass");
    var base := ReadDiskInfo(children, d).(
      deviceClass := deviceClass,
      productVersion := TextLookup(children, "ProductVersion"),
      productionDevice := BoolLookup(children, "ProductionSOC"),
      activationState := ActivationFrom(TextLookup(children, "ActivationState")),
      productType := ProductTypeName(info),
      is_iPhone := deviceClass == "iPhone");
    if diagnostics.None? then base
    else
      var ioreg := Navigator(diagnostics).Key("IORegistry");
      if IsOldDevice(ioreg) then
        base.(oldDevice := true, batteryInfo := ParseOldDevice(ioreg, base.batteryInfo))
      else
        var data := ioreg.Key("BatteryData");
        var max := MaxCapacity(ioreg, base.is_iPhone, newerThaniPhone8);
        var health := PercentText(CapacityPercent(max, data.Key("DesignCapacity").GetUInt()));
        var b := base.batteryInfo.(
          health := health,
          cycleCount := data.Key("CycleCount").GetUInt(),
          serialNumber := SerialOrPlaceholder(data.Key("BatterySerialNumber").GetString()));
        base.(oldDevice := false, batteryInfo := ParseDeviceBattery(ioreg, b))
  }

  /**
   * Without overflow, the newer-device health text is the whole
   * percentage of the maximum over the design capacity, followed by '%'.
   */
  lemma HealthTextReadsBack(max: uint64, design: uint64)
    requires design != 0 && max * 100 < TwoTo64
    ensures var health := PercentText(CapacityPercent(max, design));
      health[|health| - 1] == '%' && AllDigits(health[..|health| - 1]) &&
      DigitsValue(health[..|health| - 1]) == max * 100 / design
  {
  }
}
