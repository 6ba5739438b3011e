/**
 * `DeviceInfoWidget`: the device page's header (capacity, charging state,
 * adapter watts and cable), the two-column information grid, the
 * activation label, and the 30-second battery refresh that re-reads the
 * diagnostics `IORegistry` with the parser matching the device's age.
 */
module DeviceInfoView {
  import opened Wrappers
  import opened Bytes
  import opened Text
  import opened Descriptor
  import opened InitDevice

  // ---------------------------------------------------------------------
  // The information grid

  /** Rows of the grid for `n` items: the left half, rounded up. */
  function NumRows(n: nat): (r: nat)
    ensures r <= n && n <= 2 * r
  {
    (n + 1) / 2
  }

  /** The item shown at a cell: columns 0 and 1 hold item `row`, columns 2 and 3 item `row + rows`. */
  function ItemAt(row: nat, col: nat, n: nat): nat {
    if col < 2 then row else row + NumRows(n)
  }

  /** The cells the loop fills for `n` items. */
  predicate Occupied(row: nat, col: nat, n: nat) {
    row < NumRows(n) && col < 4 && ItemAt(row, col, n) < n
  }

  /** Even columns hold an item's key label, odd columns its value. */
  function CellText(item: (string, string), col: nat): string {
    if col % 2 == 0 then item.0 else item.1
  }

  /**
   * The loop of the constructor that distributes the `(key, value)` items
   * over the grid: `grid[(row, col)]` is what `addWidget` puts there.
   */
  method DistributeItems(items: seq<(string, string)>) returns (grid: map<(nat, nat), string>)
    ensures forall row: nat, col: nat :: (row, col) in grid <==> Occupied(row, col, |items|)
    ensures forall row: nat, col: nat :: (row, col) in grid ==>
      Occupied(row, col, |items|) && grid[(row, col)] == CellText(items[ItemAt(row, col, |items|)], col)
  {
    var n := |items|;
    var numRows := (n + 1) / 2;
    grid := map[];
    for i := 0 to numRows
      invariant forall row: nat, col: nat :: (row, col) in grid <==> row < i && Occupied(row, col, n)
      invariant forall row: nat, col: nat :: (row, col) in grid ==>
        grid[(row, col)] == CellText(items[ItemAt(row, col, n)], col)
    {
      grid := grid[(i, 0) := items[i].0][(i, 1) := items[i].1];
      var rightIndex := i + numRows;
      if rightIndex < n {
        grid := grid[(i, 2) := items[rightIndex].0][(i, 3) := items[rightIndex].1];
      }
    }
  }

  /** Where item `k`'s key label goes. */
  function KeyCell(k: nat, n: nat): (nat, nat) {
    if k < NumRows(n) then (k, 0) else (k - NumRows(n), 2)
  }

  /**
   * Every item is placed exactly once: its key label occupies one cell,
   * no other even column shows it, and its value sits just right of it.
   */
  lemma PlacedExactlyOnce(k: nat, n: nat)
    requires k < n
    ensures Occupied(KeyCell(k, n).0, KeyCell(k, n).1, n) && ItemAt(KeyCell(k, n).0, KeyCell(k, n).1, n) == k
    ensures Occupied(KeyCell(k, n).0, KeyCell(k, n).1 + 1, n) && ItemAt(KeyCell(k, n).0, KeyCell(k, n).1 + 1, n) == k
    ensures forall row: nat, col: nat :: Occupied(row, col, n) && col % 2 == 0 && ItemAt(row, col, n) == k ==>
      (row, col) == KeyCell(k, n)
  {
  }

  /** The labels in the grid's order: with 16 items there are 8 rows, the 9th item opens the right half. */
  lemma SixteenItems()
    ensures NumRows(16) == 8
    ensures KeyCell(0, 16) == (0, 0) && KeyCell(7, 16) == (7, 0)
    ensures KeyCell(8, 16) == (0, 2) && KeyCell(15, 16) == (7, 2)
  {
  }

  // ---------------------------------------------------------------------
  // Labels

  datatype Color = Green | Orange | Red

  datatype ActivationLabel = ActivationLabel(text: string, color: Color, tooltip: string)

  /** The activation state's label, colour and tooltip. */
  function ActivationView(state: ActivationState): (r: ActivationLabel)
    ensures state == Activated ==> r.text == "Activated" && r.color == Green
    ensures state == FactoryActivated ==> r.text == "Factory Activated" && r.color == Orange
    ensures state == Unactivated ==> r.text == "Unactivated" && r.color == Red
  {
    match state
    case Activated => ActivationLabel("Activated", Green, "Device is activated and ready for use.")
    case FactoryActivated => ActivationLabel("Factory Activated", Orange, "Activation is most likely bypassed.")
    case Unactivated => ActivationLabel("Unactivated", Red, "Device is not activated and requires setup.")
  }

  /** The label tells the three states apart. */
  lemma ActivationViewDistinct(a: ActivationState, b: ActivationState)
    ensures ActivationView(a).text == ActivationView(b).text <==> a == b
    ensures ActivationView(a).color == ActivationView(b).color <==> a == b
  {
  }

  /**
   * From lockdown's report to the label: "Activated" and "WildcardActivated"
   * show green, "FactoryActivated" orange, any other text red.
   */
  lemma ReportedActivation(s: string)
    ensures ActivationView(ActivationFrom(s)).color == Green <==> s == "Activated" || s == "WildcardActivated"
    ensures ActivationView(ActivationFrom(s)).color == Orange <==> s == "FactoryActivated"
    ensures ActivationView(ActivationFrom(s)).color == Red <==>
      s != "Activated" && s != "WildcardActivated" && s != "FactoryActivated"
  {
  }

  const BytesPerGB: nat := 1_000_000_000

  /** The capacity badge: whole decimal gigabytes and " GB". */
  function CapacityLabel(totalDiskCapacity: uint64): (r: string)
    ensures |r| >= 4 && EndsWith(r, " GB")
  {
    NatToString(totalDiskCapacity as nat / BytesPerGB) + " GB"
  }

  /** The digits of the badge are the capacity in gigabytes, rounded down. */
  lemma CapacityLabelReadsBack(totalDiskCapacity: uint64)
    ensures AllDigits(CapacityLabel(totalDiskCapacity)[..|CapacityLabel(totalDiskCapacity)| - 3])
    ensures var g := DigitsValue(CapacityLabel(totalDiskCapacity)[..|CapacityLabel(totalDiskCapacity)| - 3]);
      g * BytesPerGB <= totalDiskCapacity as nat < (g + 1) * BytesPerGB
  {
    var g := totalDiskCapacity as nat / BytesPerGB;
    var r := CapacityLabel(totalDiskCapacity);
    assert r[..|r| - 3] == NatToString(g);
    NatToStringValue(g);
  }

  function ChargingText(isCharging: bool): (r: string)
    ensures r == "Charging" <==> isCharging
  {
    if isCharging then "Charging" else "Not Charging"
  }

  function CableText(t: ConnectionType): (r: string)
    ensures r == "USB" <==> t == USB
  {
    if t == USB then "USB" else "USB-C"
  }

  /** The watts label: the adapter's watts, "W/", and the cable type. */
  function WattsLabel(watts: uint64, t: ConnectionType): (r: string)
    ensures |r| > |NatToString(watts)| && r[..|NatToString(watts)|] == NatToString(watts)
  {
    NatToString(watts) + "W" + "/" + CableText(t)
  }

  /** The label names the cable: it ends in "/USB-C" exactly for type C, in "/USB" exactly for USB. */
  lemma WattsLabelNamesCable(watts: uint64, t: ConnectionType)
    ensures EndsWith(WattsLabel(watts, t), "/USB-C") <==> t == USB_TYPEC
    ensures EndsWith(WattsLabel(watts, t), "/USB") <==> t == USB
    ensures DigitsValue(WattsLabel(watts, t)[..|NatToString(watts)|]) == watts as nat
  {
    var r := WattsLabel(watts, t);
    NatToStringValue(watts as nat);
    if t == USB {
      assert r[|r| - 4..] == "/USB";
      assert r[|r| - 1] == 'B';
    } else {
      assert r[|r| - 6..] == "/USB-C";
      assert r[|r| - 4..] == "SB-C";
    }
  }

  /** What the header shows of the battery. */
  datatype Header = Header(chargingText: string, lightningVisible: bool, wattsText: string,
                           batteryCharging: bool, batteryLevel: uint64)

  /** The lightning icon is shown exactly when the label says "Charging". */
  predicate IconAgrees(h: Header) {
    h.lightningVisible <==> h.chargingText == "Charging"
  }

  /** The header for a battery state, as `updateChargingStatusIcon` and the watts update leave it. */
  function HeaderFor(b: BatteryInfo): (h: Header)
    ensures IconAgrees(h)
    ensures h.lightningVisible <==> b.isCharging
  {
    Header(ChargingText(b.isCharging), b.isCharging, WattsLabel(b.watts, b.usbConnectionType),
           b.isCharging, b.currentBatteryLevel)
  }

  /** The constructor as written: the icon is added and never hidden, whatever the charging state. */
  function InitialHeaderAsWritten(b: BatteryInfo): Header {
    HeaderFor(b).(lightningVisible := true)
  }

  /** Until the first refresh, a battery that is not charging shows "Not Charging" beside the lightning icon. */
  lemma IconShownWhileNotCharging(b: BatteryInfo)
    requires !b.isCharging
    ensures !IconAgrees(InitialHeaderAsWritten(b))
    ensures InitialHeaderAsWritten(b).chargingText == "Not Charging" && InitialHeaderAsWritten(b).lightningVisible
  {
  }

  /** The parser `updateBatteryInfo` uses: the old-device one for old devices. */
  function RefreshedBattery(d: DeviceInfo, ioreg: Navigator): (r: BatteryInfo)
    ensures r.health == d.batteryInfo.health && r.cycleCount == d.batteryInfo.cycleCount
    ensures r.serialNumber == d.batteryInfo.serialNumber
    ensures d.oldDevice ==> r == ParseOldDeviceBattery(ioreg, d.batteryInfo)
    ensures !d.oldDevice ==> r == ParseDeviceBattery(ioreg, d.batteryInfo)
  {
    if d.oldDevice then ParseOldDeviceBattery(ioreg, d.batteryInfo) else ParseDeviceBattery(ioreg, d.batteryInfo)
  }

  /** Both parsers agree on the charging flag and the cable, so the header's text and icon do not depend on the dispatch. */
  lemma RefreshIndependentOfAge(d: DeviceInfo, ioreg: Navigator)
    ensures HeaderFor(RefreshedBattery(d, ioreg)).chargingText ==
            HeaderFor(RefreshedBattery(d.(oldDevice := !d.oldDevice), ioreg)).chargingText
    ensures HeaderFor(RefreshedBattery(d, ioreg)).lightningVisible ==
            HeaderFor(RefreshedBattery(d.(oldDevice := !d.oldDevice), ioreg)).lightningVisible
  {
    BatteryParsersShareFlags(ioreg, d.batteryInfo, d.batteryInfo);
  }

  class DeviceInfoWidget {
    /** `m_device->deviceInfo`. */
    var info: DeviceInfo
    var capacityText: string
    var header: Header

    ghost predicate Valid()
      reads this
    {
      header == HeaderFor(info.batteryInfo) && IconAgrees(header)
    }

    /** The constructor's header, with the icon hidden when the battery is not charging. */
    constructor(d: DeviceInfo)
      ensures Valid()
      ensures info == d && capacityText == CapacityLabel(d.totalDiskCapacity)
    {
      info := d;
      capacityText := NatToString(d.totalDiskCapacity as nat / BytesPerGB) + " GB";
      var b := d.batteryInfo;
      header := Header(ChargingText(b.isCharging), b.isCharging, WattsLabel(b.watts, b.usbConnectionType),
                       b.isCharging, b.currentBatteryLevel);
    }

    /** `updateChargingStatusIcon`: the text and the icon follow the charging flag. */
    method UpdateChargingStatusIcon()
      modifies this
      ensures header == old(header).(chargingText := ChargingText(info.batteryInfo.isCharging),
                                     lightningVisible := info.batteryInfo.isCharging)
      ensures info == old(info) && capacityText == old(capacityText)
    {
      if info.batteryInfo.isCharging {
        header := header.(chargingText := "Charging", lightningVisible := true);
      } else {
        header := header.(chargingText := "Not Charging", lightningVisible := false);
      }
    }

    /**
     * `updateBatteryInfo`: without a diagnostics plist nothing changes;
     * otherwise the battery is re-read from its `IORegistry` by the
     * parser for the device's age and the header redrawn from it.
     */
    method UpdateBatteryInfo(diagnostics: Option<Plist>)
      requires Valid()
      modifies this
      ensures Valid()
      ensures diagnostics.None? ==> info == old(info) && header == old(header)
      ensures diagnostics.Some? ==>
        info == old(info).(batteryInfo := RefreshedBattery(old(info), Navigator(diagnostics).Key("IORegistry")))
      ensures capacityText == old(capacityText)
    {
      if diagnostics.None? {
        return;
      }
      var ioreg := Navigator(diagnostics).Key("IORegistry");
      var b := info.batteryInfo;
      if info.oldDevice {
        b := ParseOldDeviceBattery(ioreg, b);
      } else {
        b := ParseDeviceBattery(ioreg, b);
      }
      info := info.(batteryInfo := b);
      UpdateChargingStatusIcon();
      header := header.(wattsText := WattsLabel(b.watts, b.usbConnectionType));
      header := header.(batteryCharging := b.isCharging, batteryLevel := b.currentBatteryLevel);
    }
  }
}
