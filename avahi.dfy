/**
 * `AvahiService`: the same discovery on Linux through Avahi. The poll
 * object, the client and the service browser are reduced to whether they
 * exist; the daemon's answers are the parameters of the callback methods.
 */
module Avahi {
  import opened Wrappers
  import opened Network

  datatype ClientState = ClientRunning | ClientFailure | ClientOtherState
  datatype BrowserEvent = BrowserNew | BrowserRemove | BrowserFailure | BrowserOtherEvent
  datatype ResolverEvent = ResolverFound | ResolverFailure

  /**
   * `avahi_string_list_get_pair` on one TXT string: the text before the
   * first `=` and the rest, or the whole string and no value when there
   * is no `=`.
   */
  function GetPair(item: string): (r: (string, Option<string>))
    ensures '=' in item ==> r.1.Some? && r.0 + "=" + r.1.value == item && '=' !in r.0
    ensures '=' !in item ==> r == (item, None)
  {
    match SplitPair(item)
    case None => (item, None)
    case Some(kv) => (kv.0, Some(kv.1))
  }

  /** `device.txt` after the strings in order: each sets its key, to "" when it carries no value. */
  function AvahiTxt(items: seq<string>): map<string, string> {
    if |items| == 0 then map[]
    else
      var pair := GetPair(items[|items| - 1]);
      AvahiTxt(items[..|items| - 1])[pair.0 := pair.1.GetOr("")]
  }

  /** A string without `=` is kept as a key with the empty value; the last string for a key wins. */
  lemma AvahiKeepsBareKeys(items: seq<string>, item: string)
    requires '=' !in item
    ensures item in AvahiTxt(items + [item]) && AvahiTxt(items + [item])[item] == ""
  {
    assert (items + [item])[..|items|] == items;
  }

  /** One more string files its pair over the pairs so far. */
  lemma AvahiTxtSnoc(items: seq<string>, item: string)
    ensures AvahiTxt(items + [item]) == AvahiTxt(items)[GetPair(item).0 := GetPair(item).1.GetOr("")]
  {
    assert (items + [item])[..|items|] == items;
  }

  /** A key filed comes from one of the strings. */
  lemma {:induction false} AvahiTxtKeyHasString(items: seq<string>, key: string)
    requires key in AvahiTxt(items)
    ensures exists i :: 0 <= i < |items| && GetPair(items[i]).0 == key
  {
    var n := |items| - 1;
    var init := items[..n];
    assert AvahiTxt(items) == AvahiTxt(init)[GetPair(items[n]).0 := GetPair(items[n]).1.GetOr("")];
    if GetPair(items[n]).0 != key {
      AvahiTxtKeyHasString(init, key);
      var i :| 0 <= i < |init| && GetPair(init[i]).0 == key;
      assert items[i] == init[i];
    }
  }

  /** Every string files its key. */
  lemma {:induction false} AvahiTxtStringFilesKey(items: seq<string>, i: nat, key: string)
    requires i < |items| && GetPair(items[i]).0 == key
    ensures key in AvahiTxt(items)
  {
    var n := |items| - 1;
    var init := items[..n];
    assert AvahiTxt(items) == AvahiTxt(init)[GetPair(items[n]).0 := GetPair(items[n]).1.GetOr("")];
    if i < n {
      assert init[i] == items[i];
      AvahiTxtStringFilesKey(init, i, key);
    }
  }

  /** The keys filed are exactly the keys of the strings. */
  lemma AvahiTxtKeys(items: seq<string>, key: string)
    ensures key in AvahiTxt(items) <==> exists i :: 0 <= i < |items| && GetPair(items[i]).0 == key
  {
    if key in AvahiTxt(items) {
      AvahiTxtKeyHasString(items, key);
    } else {
      forall i | 0 <= i < |items|
        ensures GetPair(items[i]).0 != key
      {
        if GetPair(items[i]).0 == key {
          AvahiTxtStringFilesKey(items, i, key);
        }
      }
    }
  }

  /** A repeated key keeps the value of its last string. */
  lemma {:induction false} AvahiTxtLastWins(items: seq<string>, i: nat, key: string)
    requires i < |items| && GetPair(items[i]).0 == key
    requires forall j :: i < j < |items| ==> GetPair(items[j]).0 != key
    ensures key in AvahiTxt(items) && AvahiTxt(items)[key] == GetPair(items[i]).1.GetOr("")
  {
    var n := |items| - 1;
    var init := items[..n];
    assert AvahiTxt(items) == AvahiTxt(init)[GetPair(items[n]).0 := GetPair(items[n]).1.GetOr("")];
    if i < n {
      assert init[i] == items[i];
      forall j | i < j < |init|
        ensures GetPair(init[j]).0 != key
      {
        assert init[j] == items[j];
      }
      AvahiTxtLastWins(init, i, key);
    }
  }

  /** The device a found resolution yields. */
  function ResolvedDevice(name: string, hostName: string, address: string, port: uint16, txt: seq<string>): NetworkDevice {
    NetworkDevice(name, hostName, address, DevicePort(port), AvahiTxt(txt))
  }

  class AvahiService {
    var running: bool
    /** `m_simplePoll`, `m_client` and `m_serviceBrowser` exist. */
    var poll: bool
    var client: bool
    var browser: bool
    /** The 100 ms poll timer is active. */
    var polling: bool
    var devices: seq<NetworkDevice>
    var events: seq<ServiceEvent>

    /** No device is listed twice, and a browser only exists with a client. */
    ghost predicate Valid()
      reads this
    {
      Distinct(devices) && (browser ==> client)
    }

    constructor()
      ensures Valid()
      ensures !running && !poll && !client && !browser && !polling && devices == [] && events == []
    {
      running := false;
      poll := false;
      client := false;
      browser := false;
      polling := false;
      devices := [];
      events := [];
    }

    /** `getNetworkDevices`. */
    function GetNetworkDevices(): (r: seq<NetworkDevice>)
      reads this
      ensures r == devices
    {
      devices
    }

    /** `cleanupAvahi`: browser, client and poll object are released. */
    method Cleanup()
      requires Valid()
      modifies this
      ensures Valid()
      ensures !poll && !client && !browser
      ensures running == old(running) && polling == old(polling) && devices == old(devices) && events == old(events)
    {
      browser := false;
      client := false;
      poll := false;
    }

    /**
     * `startBrowsing`: a no-op while running. Otherwise `initializeAvahi`
     * replaces the poll object; when none can be created the client and
     * the browser are left as they were. With a poll object the client is
     * replaced and the browser kept; a client that cannot be created
     * releases everything again. The service runs only if the poll object
     * survived.
     */
    method StartBrowsing(pollOk: bool, clientOk: bool)
      requires Valid()
      modifies this
      ensures Valid()
      ensures old(running) ==>
        running && poll == old(poll) && client == old(client) && browser == old(browser) && polling == old(polling)
      ensures !old(running) && !pollOk ==>
        !running && !poll && client == old(client) && browser == old(browser) && polling == old(polling)
      ensures !old(running) && pollOk && !clientOk ==>
        !running && !poll && !client && !browser && polling == old(polling)
      ensures !old(running) && pollOk && clientOk ==>
        running && poll && client && browser == old(browser) && polling
      ensures devices == old(devices) && events == old(events)
    {
      if running {
        return;
      }
      // initializeAvahi
      poll := pollOk;
      if pollOk {
        if clientOk {
          client := true;
        } else {
          Cleanup();
        }
      }
      if poll {
        polling := true;
        running := true;
      }
    }

    /** `stopBrowsing`: a no-op when stopped; otherwise everything is released and the list emptied. */
    method StopBrowsing()
      requires Valid()
      modifies this
      ensures Valid()
      ensures !old(running) ==>
        running == old(running) && poll == old(poll) && client == old(client) && browser == old(browser) &&
        polling == old(polling) && devices == old(devices)
      ensures old(running) ==> !running && !polling && !poll && !client && !browser && devices == []
      ensures events == old(events)
    {
      if !running {
        return;
      }
      running := false;
      polling := false;
      Cleanup();
      devices := [];
    }

    /** `clientCallback`: a running client gets its browser; a failed one stops the service. */
    method ClientCallback(state: ClientState, browserOk: bool)
      requires Valid()
      modifies this
      ensures Valid()
      ensures state == ClientRunning ==> browser == (browserOk && client) && running == old(running)
      ensures state == ClientFailure ==> !running && browser == old(browser)
      ensures state == ClientOtherState ==> running == old(running) && browser == old(browser)
      ensures poll == old(poll) && client == old(client) && polling == old(polling)
      ensures devices == old(devices) && events == old(events)
    {
      if state == ClientRunning {
        browser := browserOk && client;
      } else if state == ClientFailure {
        running := false;
      }
    }

    /**
     * `browseCallback`: a removed service is announced and every device
     * of that name goes; a new one is resolved (its answer arrives as
     * `ResolveCallback`); other events change nothing.
     */
    method BrowseCallback(event: BrowserEvent, name: string)
      requires Valid()
      modifies this
      ensures Valid()
      ensures event == BrowserRemove ==>
        devices == RemoveNamed(old(devices), name) && events == old(events) + [DeviceRemoved(name)]
      ensures event != BrowserRemove ==> devices == old(devices) && events == old(events)
      ensures running == old(running) && poll == old(poll) && client == old(client) && browser == old(browser)
    {
      if event == BrowserRemove {
        events := events + [DeviceRemoved(name)];
        RemoveNamedDistinct(devices, name);
        devices := RemoveNamed(devices, name);
      }
    }

    /** The TXT loop of `resolveCallback`, over the string list in order. */
    method ReadTxt(txt: seq<string>) returns (pairs: map<string, string>)
      ensures pairs == AvahiTxt(txt)
    {
      pairs := map[];
      var i := 0;
      while i < |txt|
        invariant 0 <= i <= |txt|
        invariant pairs == AvahiTxt(txt[..i])
      {
        assert txt[..i + 1][..i] == txt[..i];
        var pair := GetPair(txt[i]);
        pairs := pairs[pair.0 := if pair.1.Some? then pair.1.value else ""];
        i := i + 1;
      }
      assert txt[..i] == txt;
    }

    /**
     * `resolveCallback`: a found service becomes a device (port 0 read as
     * the SSH port), listed and announced unless an equal device is
     * listed; a failed resolution changes nothing.
     */
    method ResolveCallback(event: ResolverEvent, name: string, hostName: string, address: string,
                           port: uint16, txt: seq<string>)
      requires Valid()
      modifies this
      ensures Valid()
      ensures event == ResolverFailure ==> devices == old(devices) && events == old(events)
      ensures event == ResolverFound ==>
        var d := ResolvedDevice(name, hostName, address, port, txt);
        devices == AddIfAbsent(old(devices), d) &&
        events == old(events) + (if Listed(old(devices), d) then [] else [DeviceAdded(d)])
      ensures running == old(running) && poll == old(poll) && client == old(client) && browser == old(browser)
    {
      if event == ResolverFound {
        var pairs := ReadTxt(txt);
        var device := NetworkDevice(name, hostName, address, if port > 0 then port else 22, pairs);
        AddIfAbsentShape(devices, device);
        if !Listed(devices, device) {
          devices := devices + [device];
          events := events + [DeviceAdded(device)];
        }
      }
    }
  }
}
