/**
 * What the two wireless discovery services share: the `NetworkDevice`
 * record with its `operator==`, the list operations both apply to their
 * device lists, the port rule, `ntohs`, and the key=value split of a TXT
 * record (section 6.3 of RFC 6763 describes the `key=value` form).
 */
module Network {
  import opened Wrappers
  import opened Bytes
  import opened Text

  newtype uint16 = x: int | 0 <= x < 0x1_0000

  const SshPort: uint16 := 22

  /** `NetworkDevice`. */
  datatype NetworkDevice = NetworkDevice(name: string, hostname: string, address: string, port: uint16,
                                         txt: map<string, string>)

  /** `deviceAdded` and `deviceRemoved`. */
  datatype ServiceEvent = DeviceAdded(device: NetworkDevice) | DeviceRemoved(name: string)

  /** `NetworkDevice::operator==`: the same service name at the same address. */
  predicate SameDevice(a: NetworkDevice, b: NetworkDevice) {
    a.name == b.name && a.address == b.address
  }

  /** `std::any_of` with `operator==`: a device equal to `d` is listed. */
  predicate Listed(devices: seq<NetworkDevice>, d: NetworkDevice) {
    exists i :: 0 <= i < |devices| && SameDevice(devices[i], d)
  }

  /** No two listed devices are equal under `operator==`. */
  ghost predicate Distinct(devices: seq<NetworkDevice>) {
    forall i, j :: 0 <= i < j < |devices| ==> !SameDevice(devices[i], devices[j])
  }

  // ---------------------------------------------------------------------
  // The device list

  /** Append `d` unless an equal device is listed: the resolved-device step of both services. */
  function AddIfAbsent(devices: seq<NetworkDevice>, d: NetworkDevice): (r: seq<NetworkDevice>) {
    if Listed(devices, d) then devices else devices + [d]
  }

  /** After the step the device is listed, nothing was lost, and the list stays free of duplicates. */
  lemma AddIfAbsentShape(devices: seq<NetworkDevice>, d: NetworkDevice)
    ensures Listed(AddIfAbsent(devices, d), d)
    ensures AddIfAbsent(devices, d)[..|devices|] == devices
    ensures |AddIfAbsent(devices, d)| == |devices| + (if Listed(devices, d) then 0 else 1)
    ensures Distinct(devices) ==> Distinct(AddIfAbsent(devices, d))
  {
    var r := AddIfAbsent(devices, d);
    if !Listed(devices, d) {
      assert SameDevice(r[|devices|], d);
    }
  }

  /** `removeIf` on the service name: every device of that name goes, the rest keep their order. */
  function RemoveNamed(devices: seq<NetworkDevice>, name: string): (r: seq<NetworkDevice>)
    ensures |r| <= |devices|
  {
    if |devices| == 0 then []
    else
      var init := RemoveNamed(devices[..|devices| - 1], name);
      var last := devices[|devices| - 1];
      if last.name == name then init else init + [last]
  }

  /** Exactly the devices of other names remain. */
  lemma {:induction false} RemoveNamedMembers(devices: seq<NetworkDevice>, name: string)
    ensures forall d :: d in RemoveNamed(devices, name) <==> d in devices && d.name != name
  {
    if |devices| > 0 {
      var init := devices[..|devices| - 1];
      RemoveNamedMembers(init, name);
      assert devices == init + [devices[|devices| - 1]];
    }
  }

  /** Removal keeps a duplicate-free list duplicate-free. */
  lemma {:induction false} RemoveNamedDistinct(devices: seq<NetworkDevice>, name: string)
    requires Distinct(devices)
    ensures Distinct(RemoveNamed(devices, name))
  {
    if |devices| > 0 {
      var n := |devices| - 1;
      var init := devices[..n];
      assert Distinct(init);
      RemoveNamedDistinct(init, name);
      var r0 := RemoveNamed(init, name);
      var last := devices[n];
      if last.name != name {
        var r := r0 + [last];
        forall i, j | 0 <= i < j < |r|
          ensures !SameDevice(r[i], r[j])
        {
          if j == |r0| {
            RemoveNamedMembers(init, name);
            assert r[i] in init;
            var k :| 0 <= k < n && init[k] == r[i];
            assert devices[k] == r[i];
          }
        }
      }
    }
  }

  // ---------------------------------------------------------------------
  // Ports

  /** The device's port: the advertised one, or the SSH port when none (0) is advertised. */
  function DevicePort(advertised: uint16): (r: uint16)
    ensures r > 0
    ensures advertised > 0 ==> r == advertised
    ensures advertised == 0 ==> r == SshPort
  {
    if advertised > 0 then advertised else SshPort
  }

  /** `ntohs` on a little-endian host: the two bytes change places. */
  function Ntohs(x: uint16): (r: uint16)
    ensures r as int / 256 == x as int % 256 && r as int % 256 == x as int / 256
  {
    ((x as int % 256) * 256 + x as int / 256) as uint16
  }

  /** The two bytes as they arrive, most significant first, read back as the port they encode. */
  lemma NtohsReadsBigEndian(hi: byte, lo: byte)
    ensures Ntohs((hi as int + 256 * lo as int) as uint16) as int == 256 * hi as int + lo as int
  {
  }

  /** Swapping twice restores the value, so `htons` and `ntohs` undo each other. */
  lemma NtohsInvolutive(x: uint16)
    ensures Ntohs(Ntohs(x)) == x
  {
    var lo := x as int % 256;
    var hi := x as int / 256;
    assert Ntohs(x) as int == lo * 256 + hi;
    assert (lo * 256 + hi) % 256 == hi;
    assert (lo * 256 + hi) / 256 == lo;
  }

  // ---------------------------------------------------------------------
  // key=value

  /** Split at the first `=`: the key before it, the whole rest (which may hold more `=`) after it. */
  function SplitPair(record: string): (r: Option<(string, string)>)
    ensures r.None? <==> '=' !in record
    ensures r.Some? ==> '=' !in r.value.0 && r.value.0 + "=" + r.value.1 == record
  {
    var pos := IndexOf(record, '=');
    if pos < 0 then
      assert forall j :: 0 <= j < |record| ==> record[j] != '=';
      None
    else
      assert record == record[..pos] + "=" + record[pos + 1..];
      assert forall j :: 0 <= j < pos ==> record[..pos][j] == record[j];
      Some((record[..pos], record[pos + 1..]))
  }

  /** The split is the only one with a `=`-free key: the record determines its pair. */
  lemma SplitPairUnique(record: string, key: string, value: string)
    requires '=' !in key && key + "=" + value == record
    ensures SplitPair(record) == Some((key, value))
  {
    assert record[|key|] == '=';
    assert forall j :: 0 <= j < |key| ==> record[j] == key[j];
    var pos := IndexOf(record, '=');
    assert pos == |key|;
    assert record[..pos] == key;
    assert record[pos + 1..] == value;
  }
}
