/**
 * `AppContext`: the application-wide registry of connected devices
 * (keyed by udid), of devices waiting for the user to unlock or pair
 * (a list that may repeat a udid), and of devices in recovery mode
 * (keyed by ECID). Device initialisation is an oracle whose answer is a
 * parameter; the signals emitted are appended to a log.
 */
module AppContext {
  import opened Wrappers
  import opened Bytes
  import opened Lists

  /** `AddType`: a device plugged in, or one whose pairing has just been accepted. */
  datatype AddType = Regular | Pairing

  /** The `lockdownd_error_t` values `addDevice` tells apart. */
  datatype InitError = PasswordProtected | PairingDialogResponsePending | OtherError(code: int)

  /** What the registry keeps of an initialised device. */
  datatype DeviceRecord = DeviceRecord(udid: string, connType: int, handle: nat)

  /** `init_idescriptor_device`'s answer. */
  datatype InitResult = InitFailed(error: InitError) | Initialised(handle: nat)

  /** What the registry keeps of a device in recovery mode. */
  datatype RecoveryDevice = RecoveryDevice(ecid: uint64, mode: int, cpid: uint32, bdid: uint32, displayName: string)

  /** `init_idescriptor_recovery_device`'s answer. */
  datatype RecoveryInit = RecoveryFailed(code: int) | RecoveryReady(device: RecoveryDevice)

  datatype ContextEvent =
    | DeviceAdded(udid: string)
    | DevicePaired(udid: string)
    | DeviceRemoved(udid: string)
    | DevicePasswordProtected(udid: string)
    | DevicePairPending(udid: string)
    | DevicePairingExpired(udid: string)
    | RecoveryDeviceAdded(ecid: uint64)
    | RecoveryDeviceRemoved(ecid: uint64)
    | DeviceChange

  /** `getConnectedDeviceCount`, on the two maps. */
  function ConnectedCount(devices: map<string, DeviceRecord>, recovery: map<uint64, Option<RecoveryDevice>>): (n: nat)
    ensures n == 0 <==> devices == map[] && recovery == map[]
  {
    assert devices != map[] ==> exists u :: u in devices;
    assert recovery != map[] ==> exists e :: e in recovery;
    |devices| + |recovery|
  }

  /** A failed initialisation puts the udid on the pending list for these errors only. */
  predicate PendsOn(error: InitError, addType: AddType) {
    (error.PasswordProtected? && addType == Regular) || error.PairingDialogResponsePending?
  }

  class AppContext {
    /** `m_devices`. */
    var devices: map<string, DeviceRecord>
    /** `m_pendingDevices`, in insertion order, repetitions kept. */
    var pending: seq<string>
    /** `m_recoveryDevices`; `None` is a null pointer stored under a key. */
    var recovery: map<uint64, Option<RecoveryDevice>>
    var events: seq<ContextEvent>

    /** Each entry is filed under its own udid or ECID. */
    ghost predicate Valid()
      reads this
    {
      (forall u :: u in devices ==> devices[u].udid == u) &&
      (forall e :: e in recovery && recovery[e].Some? ==> recovery[e].value.ecid == e)
    }

    /** No recovery entry is a null pointer. */
    ghost predicate NoNullRecovery()
      reads this
    {
      forall e :: e in recovery ==> recovery[e].Some?
    }

    constructor()
      ensures Valid() && NoNullRecovery()
      ensures devices == map[] && pending == [] && recovery == map[] && events == []
    {
      devices := map[];
      pending := [];
      recovery := map[];
      events := [];
    }

    /**
     * `addDevice`. A failed initialisation appends the udid to the
     * pending list (without checking for repeats) when the device is
     * password protected and was plugged in, or when a pairing dialog is
     * awaiting an answer; any other failure changes nothing. A success
     * files the device under its udid; after a pairing the udid also
     * leaves the pending list.
     */
    method AddDevice(udid: string, connType: int, addType: AddType, init: InitResult)
      requires Valid()
      modifies this
      ensures Valid()
      ensures recovery == old(recovery)
      ensures init.InitFailed? ==> devices == old(devices)
      ensures init.InitFailed? && PendsOn(init.error, addType) ==>
        pending == old(pending) + [udid] &&
        events == old(events) +
          [if init.error.PasswordProtected? then DevicePasswordProtected(udid) else DevicePairPending(udid), DeviceChange]
      ensures init.InitFailed? && !PendsOn(init.error, addType) ==> pending == old(pending) && events == old(events)
      ensures init.Initialised? ==> devices == old(devices)[udid := DeviceRecord(udid, connType, init.handle)]
      ensures init.Initialised? && addType == Regular ==>
        pending == old(pending) && events == old(events) + [DeviceAdded(udid), DeviceChange]
      ensures init.Initialised? && addType == Pairing ==>
        pending == RemoveAll(old(pending), udid) && udid !in pending &&
        events == old(events) + [DevicePaired(udid), DeviceChange]
      ensures NoNullRecovery() == old(NoNullRecovery())
    {
      if init.InitFailed? {
        if init.error.PasswordProtected? {
          if addType == Regular {
            pending := pending + [udid];
            events := events + [DevicePasswordProtected(udid), DeviceChange];
          }
        } else if init.error.PairingDialogResponsePending? {
          pending := pending + [udid];
          events := events + [DevicePairPending(udid), DeviceChange];
        }
        return;
      }
      devices := devices[udid := DeviceRecord(udid, connType, init.handle)];
      if addType == Regular {
        events := events + [DeviceAdded(udid), DeviceChange];
        return;
      }
      events := events + [DevicePaired(udid), DeviceChange];
      RemoveAllCounts(pending, udid);
      pending := RemoveAll(pending, udid);
    }

    /**
     * The 30-second pairing timer `addDevice` arms: the udid leaves the
     * pending list, all of its occurrences, only if it is still there.
     */
    method PairingTimerFired(udid: string)
      requires Valid()
      modifies this
      ensures Valid()
      ensures devices == old(devices) && recovery == old(recovery)
      ensures udid in old(pending) ==>
        pending == RemoveAll(old(pending), udid) && udid !in pending &&
        events == old(events) + [DevicePairingExpired(udid), DeviceChange]
      ensures udid !in old(pending) ==> pending == old(pending) && events == old(events)
    {
      if udid in pending {
        RemoveAllCounts(pending, udid);
        pending := RemoveAll(pending, udid);
        events := events + [DevicePairingExpired(udid), DeviceChange];
      }
    }

    /**
     * `removeDevice`. A pending udid leaves the pending list and the
     * device map is not looked at; otherwise a known udid is removed
     * from the device map and an unknown one changes nothing.
     */
    method RemoveDevice(udid: string)
      requires Valid()
      modifies this
      ensures Valid()
      ensures recovery == old(recovery)
      ensures udid in old(pending) ==>
        pending == RemoveAll(old(pending), udid) && udid !in pending && devices == old(devices) &&
        events == old(events) + [DevicePairingExpired(udid), DeviceChange]
      ensures udid !in old(pending) && udid in old(devices) ==>
        pending == old(pending) && devices == old(devices) - {udid} &&
        events == old(events) + [DeviceRemoved(udid), DeviceChange]
      ensures udid !in old(pending) && udid !in old(devices) ==>
        pending == old(pending) && devices == old(devices) && events == old(events)
    {
      if udid in pending {
        events := events + [DevicePairingExpired(udid), DeviceChange];
        RemoveAllCounts(pending, udid);
        pending := RemoveAll(pending, udid);
        return;
      }
      if udid !in devices {
        return;
      }
      devices := devices - {udid};
      events := events + [DeviceRemoved(udid), DeviceChange];
    }

    /**
     * `removeRecoveryDevice` as written: after the removal, reading the
     * entry back with `operator[]` files a null pointer under the ECID
     * again.
     */
    method RemoveRecoveryDeviceAsWritten(ecid: uint64)
      requires Valid()
      modifies this
      ensures Valid()
      ensures devices == old(devices) && pending == old(pending)
      ensures ecid !in old(recovery) ==> recovery == old(recovery) && events == old(events)
      ensures ecid in old(recovery) ==>
        recovery == (old(recovery) - {ecid})[ecid := None] &&
        events == old(events) + [RecoveryDeviceRemoved(ecid), DeviceChange]
    {
      if ecid !in recovery {
        return;
      }
      recovery := recovery - {ecid};
      events := events + [RecoveryDeviceRemoved(ecid), DeviceChange];
      // `operator[]` on the key just removed default-constructs a null entry
      recovery := recovery[ecid := None];
    }

    /** `removeRecoveryDevice` as intended: a known ECID leaves the map, an unknown one changes nothing. */
    method RemoveRecoveryDevice(ecid: uint64)
      requires Valid()
      modifies this
      ensures Valid()
      ensures devices == old(devices) && pending == old(pending)
      ensures recovery == old(recovery) - {ecid}
      ensures ecid !in old(recovery) ==> recovery == old(recovery) && events == old(events)
      ensures ecid in old(recovery) ==> events == old(events) + [RecoveryDeviceRemoved(ecid), DeviceChange]
      ensures old(NoNullRecovery()) ==> NoNullRecovery()
    {
      if ecid !in recovery {
        return;
      }
      recovery := recovery - {ecid};
      events := events + [RecoveryDeviceRemoved(ecid), DeviceChange];
    }

    /**
     * `addRecoveryDevice`: a failed initialisation adds nothing; otherwise
     * the device is filed under the ECID the device reports.
     */
    method AddRecoveryDevice(ecid: uint64, init: RecoveryInit)
      requires Valid()
      modifies this
      ensures Valid()
      ensures devices == old(devices) && pending == old(pending)
      ensures init.RecoveryFailed? ==> recovery == old(recovery) && events == old(events)
      ensures init.RecoveryReady? ==>
        recovery == old(recovery)[init.device.ecid := Some(init.device)] &&
        events == old(events) + [RecoveryDeviceAdded(init.device.ecid), DeviceChange]
      ensures old(NoNullRecovery()) ==> NoNullRecovery()
    {
      if init.RecoveryFailed? {
        return;
      }
      recovery := recovery[init.device.ecid := Some(init.device)];
      events := events + [RecoveryDeviceAdded(init.device.ecid), DeviceChange];
    }

    /** `getDevice`: the device filed under the udid, null when there is none. */
    function GetDevice(udid: string): (r: Option<DeviceRecord>)
      reads this
      ensures r.Some? <==> udid in devices
      ensures r.Some? ==> r.value == devices[udid]
    {
      if udid in devices then Some(devices[udid]) else None
    }

    /** `getConnectedDeviceCount`: regular and recovery devices; pending ones are not counted. */
    function GetConnectedDeviceCount(): (n: nat)
      reads this
      ensures n == |devices| + |recovery|
    {
      ConnectedCount(devices, recovery)
    }

    /** `noDevicesConnected`: no device of any kind, pending ones included. */
    function NoDevicesConnected(): (r: bool)
      reads this
      ensures r <==> GetConnectedDeviceCount() == 0 && pending == []
    {
      devices == map[] && recovery == map[] && |pending| == 0
    }
  }

  /**
   * The removal as written leaves the ECID filed, so the connected
   * count does not drop and the registry never reads empty again.
   */
  lemma AsWrittenRemovalKeepsCount(devices: map<string, DeviceRecord>, recovery: map<uint64, Option<RecoveryDevice>>, ecid: uint64)
    requires ecid in recovery
    ensures var after := (recovery - {ecid})[ecid := None];
      ecid in after && after[ecid].None? &&
      ConnectedCount(devices, after) == ConnectedCount(devices, recovery) &&
      ConnectedCount(devices, after) > 0
  {
    var after := (recovery - {ecid})[ecid := None];
    assert after.Keys == recovery.Keys;
  }

  /** The intended removal takes one off the connected count. */
  lemma RemovalDropsCount(devices: map<string, DeviceRecord>, recovery: map<uint64, Option<RecoveryDevice>>, ecid: uint64)
    requires ecid in recovery
    ensures ConnectedCount(devices, recovery - {ecid}) + 1 == ConnectedCount(devices, recovery)
  {
    assert (recovery - {ecid}).Keys == recovery.Keys - {ecid};
  }

  /** One recovery device plugged in and removed again: as written the registry still counts one. */
  lemma RecoveryRoundTrip(d: RecoveryDevice)
    ensures var added := map[d.ecid := Some(d)];
      ConnectedCount(map[], (added - {d.ecid})[d.ecid := None]) == 1 &&
      ConnectedCount(map[], added - {d.ecid}) == 0
  {
    var added := map[d.ecid := Some(d)];
    AsWrittenRemovalKeepsCount(map[], added, d.ecid);
    RemovalDropsCount(map[], added, d.ecid);
  }
}
