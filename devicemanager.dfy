/**
 * `DeviceManagerWidget`: the per-device pages and sidebar entries for
 * connected devices and for devices waiting to be unlocked or trusted,
 * both kept in `QMap`s keyed by udid, and the device currently shown.
 * Widgets are reduced to what the manager decides about them: a device
 * page knows its title, a pending page the prompt it shows.
 */
module DeviceManager {
  import opened Wrappers
  import opened Text

  /** A device page and its sidebar entry, created together. */
  datatype DeviceTab = DeviceTab(udid: string, title: string)

  const UnlockPrompt := "Please unlock the screen"
  const TrustPrompt := "Please click on trust on the popup"

  /** A pending page: `DevicePendingWidget`'s label. */
  datatype PendingPage = PendingPage(prompt: string)

  datatype ManagerEvent = DeviceChanged(udid: string) | UpdateNoDevicesConnected

  class DeviceManagerWidget {
    /** `m_deviceWidgets`; `None` is a pair of null pointers stored under a key. */
    var deviceWidgets: map<string, Option<DeviceTab>>
    /** `m_pendingDeviceWidgets`. */
    var pendingWidgets: map<string, PendingPage>
    /** `m_currentDeviceUuid`. */
    var current: string
    var events: seq<ManagerEvent>

    /** Each page is filed under the udid it shows. */
    ghost predicate Valid()
      reads this
    {
      forall u :: u in deviceWidgets && deviceWidgets[u].Some? ==> deviceWidgets[u].value.udid == u
    }

    constructor()
      ensures Valid()
      ensures deviceWidgets == map[] && pendingWidgets == map[] && current == "" && events == []
    {
      deviceWidgets := map[];
      pendingWidgets := map[];
      current := "";
      events := [];
    }

    /**
     * `addDevice`: a udid that already has an entry, even a null one, is
     * ignored; otherwise its page is created, titled by the product type.
     */
    method AddDevice(udid: string, productType: string)
      requires Valid()
      modifies this
      ensures Valid()
      ensures udid in old(deviceWidgets) ==> deviceWidgets == old(deviceWidgets)
      ensures udid !in old(deviceWidgets) ==> deviceWidgets == old(deviceWidgets)[udid := Some(DeviceTab(udid, productType))]
      ensures pendingWidgets == old(pendingWidgets) && current == old(current) && events == old(events)
    {
      if udid in deviceWidgets {
        return;
      }
      deviceWidgets := deviceWidgets[udid := Some(DeviceTab(udid, productType))];
    }

    /**
     * `addPendingDevice`: with an entry already there, a call for a
     * device no longer locked moves its page on to the trust prompt and a
     * call for a locked one does nothing; without one, a page is created
     * with the prompt that fits.
     */
    method AddPendingDevice(udid: string, locked: bool)
      requires Valid()
      modifies this
      ensures Valid()
      ensures udid in old(pendingWidgets) && !locked ==> pendingWidgets == old(pendingWidgets)[udid := PendingPage(TrustPrompt)]
      ensures udid in old(pendingWidgets) && locked ==> pendingWidgets == old(pendingWidgets)
      ensures udid !in old(pendingWidgets) ==>
        pendingWidgets == old(pendingWidgets)[udid := PendingPage(if locked then UnlockPrompt else TrustPrompt)]
      ensures deviceWidgets == old(deviceWidgets) && current == old(current) && events == old(events)
    {
      if udid in pendingWidgets && !locked {
        pendingWidgets := pendingWidgets[udid := PendingPage(TrustPrompt)];
        return;
      } else if udid in pendingWidgets && locked {
        return;
      }
      pendingWidgets := pendingWidgets[udid := PendingPage(if locked then UnlockPrompt else TrustPrompt)];
    }

    /** `addPairedDevice`: the pending page goes, then the device is added. */
    method AddPairedDevice(udid: string, productType: string)
      requires Valid()
      modifies this
      ensures Valid()
      ensures pendingWidgets == old(pendingWidgets) - {udid}
      ensures udid in old(deviceWidgets) ==> deviceWidgets == old(deviceWidgets)
      ensures udid !in old(deviceWidgets) ==> deviceWidgets == old(deviceWidgets)[udid := Some(DeviceTab(udid, productType))]
      ensures current == old(current) && events == old(events)
    {
      if udid in pendingWidgets {
        pendingWidgets := pendingWidgets - {udid};
      }
      AddDevice(udid, productType);
    }

    /**
     * `setCurrentDevice`: the udid already shown, or one without an
     * entry, changes nothing; otherwise it becomes current and
     * `deviceChanged` is emitted.
     */
    method SetCurrentDevice(udid: string)
      requires Valid()
      modifies this
      ensures Valid()
      ensures deviceWidgets == old(deviceWidgets) && pendingWidgets == old(pendingWidgets)
      ensures udid == old(current) || udid !in deviceWidgets ==> current == old(current) && events == old(events)
      ensures udid != old(current) && udid in deviceWidgets ==> current == udid && events == old(events) + [DeviceChanged(udid)]
    {
      if current == udid {
        return;
      }
      if udid !in deviceWidgets {
        return;
      }
      current := udid;
      events := events + [DeviceChanged(udid)];
    }

    /**
     * `removeDevice` as written: reading the entry with `operator[]`
     * first files a null pair under an unknown udid. Only an entry with
     * both pointers set is removed, and when devices remain the first
     * udid in key order is made current.
     */
    method RemoveDeviceAsWritten(udid: string)
      requires Valid()
      modifies this
      ensures Valid()
      ensures pendingWidgets == old(pendingWidgets)
      ensures udid !in old(deviceWidgets) ==>
        deviceWidgets == old(deviceWidgets)[udid := None] && current == old(current) && events == old(events)
      ensures udid in old(deviceWidgets) && old(deviceWidgets)[udid].None? ==>
        deviceWidgets == old(deviceWidgets) && current == old(current) && events == old(events)
      ensures udid in old(deviceWidgets) && old(deviceWidgets)[udid].Some? ==> deviceWidgets == old(deviceWidgets) - {udid}
      ensures udid in old(deviceWidgets) && old(deviceWidgets)[udid].Some? && deviceWidgets != map[] ==>
        var first := FirstKey(deviceWidgets.Keys);
        current == first &&
        events == old(events) + (if first == old(current) then [] else [DeviceChanged(first)])
      ensures udid in old(deviceWidgets) && old(deviceWidgets)[udid].Some? && deviceWidgets == map[] ==>
        current == old(current) && events == old(events)
    {
      if udid !in deviceWidgets {
        deviceWidgets := deviceWidgets[udid := None];
      }
      var entry := deviceWidgets[udid];
      if entry.Some? {
        deviceWidgets := deviceWidgets - {udid};
        if |deviceWidgets| > 0 {
          SetCurrentDevice(FirstKey(deviceWidgets.Keys));
        }
      }
    }

    /**
     * `removeDevice` as intended: an unknown udid changes nothing; a
     * device's entry is removed, and when devices remain the first udid
     * in key order is made current. When the last device goes, no device
     * is current any more, so that the next one to arrive is selected.
     */
    method RemoveDevice(udid: string)
      requires Valid()
      modifies this
      ensures Valid()
      ensures pendingWidgets == old(pendingWidgets)
      ensures !(udid in old(deviceWidgets) && old(deviceWidgets)[udid].Some?) ==>
        deviceWidgets == old(deviceWidgets) && current == old(current) && events == old(events)
      ensures udid in old(deviceWidgets) && old(deviceWidgets)[udid].Some? ==> deviceWidgets == old(deviceWidgets) - {udid}
      ensures udid in old(deviceWidgets) && old(deviceWidgets)[udid].Some? && deviceWidgets != map[] ==>
        var first := FirstKey(deviceWidgets.Keys);
        current == first &&
        events == old(events) + (if first == old(current) then [] else [DeviceChanged(first)])
      ensures udid in old(deviceWidgets) && old(deviceWidgets)[udid].Some? && deviceWidgets == map[] ==>
        current == "" && events == old(events)
    {
      if udid in deviceWidgets && deviceWidgets[udid].Some? {
        deviceWidgets := deviceWidgets - {udid};
        if |deviceWidgets| > 0 {
          SetCurrentDevice(FirstKey(deviceWidgets.Keys));
        } else {
          current := "";
        }
      }
    }

    /** The `deviceAdded` handler: add the device, select it, refresh the "no devices" view. */
    method OnDeviceAdded(udid: string, productType: string)
      requires Valid()
      modifies this
      ensures Valid()
      ensures udid in old(deviceWidgets) ==> deviceWidgets == old(deviceWidgets)
      ensures udid !in old(deviceWidgets) ==> deviceWidgets == old(deviceWidgets)[udid := Some(DeviceTab(udid, productType))]
      ensures pendingWidgets == old(pendingWidgets)
      ensures current == udid
      ensures events == old(events) + (if udid == old(current) then [] else [DeviceChanged(udid)]) + [UpdateNoDevicesConnected]
    {
      AddDevice(udid, productType);
      SetCurrentDevice(udid);
      events := events + [UpdateNoDevicesConnected];
    }

    /** The `deviceRemoved` handler as written: remove the device, refresh the "no devices" view. */
    method OnDeviceRemovedAsWritten(udid: string)
      requires Valid()
      modifies this
      ensures Valid()
      ensures udid in old(deviceWidgets) && old(deviceWidgets)[udid].Some? ==> deviceWidgets == old(deviceWidgets) - {udid}
      ensures udid in old(deviceWidgets) && old(deviceWidgets)[udid].Some? && deviceWidgets == map[] ==>
        current == old(current) && events == old(events) + [UpdateNoDevicesConnected]
    {
      RemoveDeviceAsWritten(udid);
      events := events + [UpdateNoDevicesConnected];
    }

    /** The `deviceRemoved` handler with the intended removal. */
    method OnDeviceRemoved(udid: string)
      requires Valid()
      modifies this
      ensures Valid()
      ensures pendingWidgets == old(pendingWidgets)
      ensures !(udid in old(deviceWidgets) && old(deviceWidgets)[udid].Some?) ==>
        deviceWidgets == old(deviceWidgets) && current == old(current) && events == old(events) + [UpdateNoDevicesConnected]
      ensures udid in old(deviceWidgets) && old(deviceWidgets)[udid].Some? ==> deviceWidgets == old(deviceWidgets) - {udid}
      ensures udid in old(deviceWidgets) && old(deviceWidgets)[udid].Some? && deviceWidgets == map[] ==>
        current == "" && events == old(events) + [UpdateNoDevicesConnected]
    {
      RemoveDevice(udid);
      events := events + [UpdateNoDevicesConnected];
    }
  }

  /**
   * The only device unplugged and plugged back in, as written: the udid
   * is still current, so `setCurrentDevice` returns at once and no second
   * `deviceChanged` is emitted for the new page.
   */
  method ReplugAsWritten(udid: string, productType: string) returns (events: seq<ManagerEvent>)
    requires udid != ""
    ensures events == [DeviceChanged(udid), UpdateNoDevicesConnected, UpdateNoDevicesConnected, UpdateNoDevicesConnected]
  {
    var w := new DeviceManagerWidget();
    w.OnDeviceAdded(udid, productType);
    w.OnDeviceRemovedAsWritten(udid);
    assert w.deviceWidgets == map[];
    w.OnDeviceAdded(udid, productType);
    events := w.events;
  }

  /** The same sequence with the intended removal: the new page is selected and announced. */
  method Replug(udid: string, productType: string) returns (events: seq<ManagerEvent>)
    requires udid != ""
    ensures events == [DeviceChanged(udid), UpdateNoDevicesConnected, UpdateNoDevicesConnected,
                       DeviceChanged(udid), UpdateNoDevicesConnected]
  {
    var w := new DeviceManagerWidget();
    w.OnDeviceAdded(udid, productType);
    w.OnDeviceRemoved(udid);
    assert w.deviceWidgets == map[];
    w.OnDeviceAdded(udid, productType);
    events := w.events;
  }

  /**
   * A `deviceRemoved` for a udid the manager does not hold, then the
   * device arriving: as written the stale null entry makes `addDevice`
   * refuse it, so the device never gets a page.
   */
  method LockedOutAfterStrayRemoval(udid: string, productType: string) returns (entry: Option<DeviceTab>)
    ensures entry == None
  {
    var w := new DeviceManagerWidget();
    w.RemoveDeviceAsWritten(udid);
    w.AddDevice(udid, productType);
    entry := w.deviceWidgets[udid];
  }

  /** The same sequence with the intended removal: the device gets its page. */
  method PageAfterStrayRemoval(udid: string, productType: string) returns (entry: Option<DeviceTab>)
    ensures entry == Some(DeviceTab(udid, productType))
  {
    var w := new DeviceManagerWidget();
    w.RemoveDevice(udid);
    w.AddDevice(udid, productType);
    entry := w.deviceWidgets[udid];
  }
}
