/**
 * `DnssdService`: wireless discovery of `_apple-mobdev2._tcp` services
 * through the DNS-SD API. A browse event either removes a service or
 * starts its resolution; a resolution records a pending device (host,
 * port, TXT data); the address lookup for that host turns the pending
 * device into a listed `NetworkDevice`. The replies of the DNS-SD daemon
 * are the parameters of the callback methods.
 */
module Dnssd {
  import opened Wrappers
  import opened Bytes
  import opened Text
  import opened Network

  // ---------------------------------------------------------------------
  // TXT data: length-prefixed strings, section 6.1 of RFC 6763

  /** The records of TXT data: each is one length byte and that many bytes; one that would overrun ends the data. */
  function TxtRecords(data: seq<byte>): (r: seq<seq<byte>>)
    decreases |data|
  {
    if |data| == 0 then []
    else
      var len := data[0] as int;
      if |data| < 1 + len then []
      else [data[1..1 + len]] + TxtRecords(data[1 + len..])
  }

  /** The TXT data a list of records of at most 255 bytes each is sent as. */
  function EncodeTxt(records: seq<seq<byte>>): (r: seq<byte>)
    requires forall i :: 0 <= i < |records| ==> |records[i]| < 256
  {
    if |records| == 0 then []
    else [|records[0]| as byte] + records[0] + EncodeTxt(records[1..])
  }

  /** Parsing what was encoded gives back the records. */
  lemma {:induction false} TxtRoundTrip(records: seq<seq<byte>>)
    requires forall i :: 0 <= i < |records| ==> |records[i]| < 256
    ensures TxtRecords(EncodeTxt(records)) == records
  {
    if |records| > 0 {
      var rest := records[1..];
      TxtRoundTrip(rest);
      var data := EncodeTxt(records);
      var len := |records[0]|;
      assert data == [len as byte] + records[0] + EncodeTxt(rest);
      assert data[1..1 + len] == records[0];
      assert data[1 + len..] == EncodeTxt(rest);
    }
  }

  /** Every parsed record is short enough to be encoded again. */
  lemma {:induction false} TxtRecordsFit(data: seq<byte>)
    ensures forall i :: 0 <= i < |TxtRecords(data)| ==> |TxtRecords(data)[i]| < 256
    decreases |data|
  {
    if |data| > 0 && 1 + data[0] as int <= |data| {
      TxtRecordsFit(data[1 + data[0] as int..]);
    }
  }

  lemma PrefixAfter(a: seq<byte>, b: seq<byte>, c: seq<byte>)
    requires b <= c
    ensures a + b <= a + c
  {
    assert (a + c)[..|a| + |b|] == a + c[..|b|];
  }

  /** Encoding the records parsed from `data` starts with the first record, length byte included. */
  lemma TxtEncodeStep(data: seq<byte>, rest: seq<byte>)
    requires |data| > 0 && 1 + data[0] as int <= |data| && rest == data[1 + data[0] as int..]
    ensures forall i :: 0 <= i < |TxtRecords(rest)| ==> |TxtRecords(rest)[i]| < 256
    ensures EncodeTxt(TxtRecords(data)) == [data[0]] + data[1..1 + data[0] as int] + EncodeTxt(TxtRecords(rest))
  {
    var len := data[0] as int;
    TxtRecordsFit(data);
    TxtRecordsFit(rest);
    var r := TxtRecords(data);
    assert r == [data[1..1 + len]] + TxtRecords(rest);
    assert r[1..] == TxtRecords(rest);
  }

  /** What is parsed is a prefix of the data: bytes after an overrunning length are ignored. */
  lemma {:induction false} TxtRecordsPrefix(data: seq<byte>)
    ensures forall i :: 0 <= i < |TxtRecords(data)| ==> |TxtRecords(data)[i]| < 256
    ensures EncodeTxt(TxtRecords(data)) <= data
    decreases |data|
  {
    TxtRecordsFit(data);
    if |data| > 0 && 1 + data[0] as int <= |data| {
      var len := data[0] as int;
      var head := [data[0]] + data[1..1 + len];
      var rest := data[1 + len..];
      TxtRecordsPrefix(rest);
      TxtEncodeStep(data, rest);
      assert data == head + rest;
      PrefixAfter(head, EncodeTxt(TxtRecords(rest)), rest);
    }
  }

  /** `QString::fromUtf8` on ASCII bytes: one character per byte. */
  function ToText(bytes: seq<byte>): (s: string)
    ensures |s| == |bytes|
  {
    seq(|bytes|, i requires 0 <= i < |bytes| => bytes[i] as char)
  }

  /** A record's key and value, split at its first `=`; `None` for a record without one. */
  function RecordPair(record: seq<byte>): Option<(string, string)> {
    SplitPair(ToText(record))
  }

  /** The key of a record, when it has one. */
  function KeyOf(record: seq<byte>): Option<string> {
    if RecordPair(record).Some? then Some(RecordPair(record).value.0) else None
  }

  /** `pending.txt` after the records in order: a record with `=` sets its key, one without is dropped. */
  function TxtMap(records: seq<seq<byte>>): map<string, string> {
    if |records| == 0 then map[]
    else
      var m := TxtMap(records[..|records| - 1]);
      var pair := RecordPair(records[|records| - 1]);
      if pair.Some? then m[pair.value.0 := pair.value.1] else m
  }

  /** One more record: its pair, if any, is filed over what was there. */
  lemma TxtMapSnoc(records: seq<seq<byte>>, record: seq<byte>)
    ensures TxtMap(records + [record]) ==
      if RecordPair(record).Some? then TxtMap(records)[RecordPair(record).value.0 := RecordPair(record).value.1]
      else TxtMap(records)
  {
    assert (records + [record])[..|records|] == records;
  }

  /** The keys are exactly those of the records that hold a `=`. */
  lemma {:induction false} TxtMapKeys(records: seq<seq<byte>>, key: string)
    ensures key in TxtMap(records) <==> exists i :: 0 <= i < |records| && KeyOf(records[i]) == Some(key)
  {
    if |records| > 0 {
      var n := |records| - 1;
      var init := records[..n];
      TxtMapKeys(init, key);
      assert records == init + [records[n]];
      TxtMapSnoc(init, records[n]);
      if key in TxtMap(records) {
        if KeyOf(records[n]) != Some(key) {
          assert key in TxtMap(init);
          var i :| 0 <= i < |init| && KeyOf(init[i]) == Some(key);
          assert records[i] == init[i];
        }
      } else {
        forall i | 0 <= i < |records|
          ensures KeyOf(records[i]) != Some(key)
        {
          if i < n {
            assert init[i] == records[i];
          }
        }
      }
    }
  }

  /**
   * A repeated key keeps the value of its last record; section 6.4 of
   * RFC 6763 has the first one win instead.
   */
  lemma {:induction false} TxtLastWins(records: seq<seq<byte>>, i: nat, key: string, value: string)
    requires i < |records| && RecordPair(records[i]) == Some((key, value))
    requires forall j :: i < j < |records| ==> KeyOf(records[j]) != Some(key)
    ensures key in TxtMap(records) && TxtMap(records)[key] == value
  {
    var n := |records| - 1;
    var init := records[..n];
    assert records == init + [records[n]];
    TxtMapSnoc(init, records[n]);
    if i < n {
      assert init[i] == records[i];
      forall j | i < j < |init|
        ensures KeyOf(init[j]) != Some(key)
      {
        assert init[j] == records[j];
      }
      TxtLastWins(init, i, key, value);
    }
  }

  /** A record without `=` leaves the pairs as they were, where Avahi would file it with an empty value. */
  lemma TxtDropsBareRecord(records: seq<seq<byte>>, record: seq<byte>)
    requires '=' !in ToText(record)
    ensures TxtMap(records + [record]) == TxtMap(records)
  {
    TxtMapSnoc(records, record);
  }

  /** The record at `ptr` when it fits, followed by the rest. */
  lemma TxtRecordsAt(data: seq<byte>, ptr: nat)
    requires ptr < |data|
    ensures ptr + 1 + data[ptr] as int > |data| ==> TxtRecords(data[ptr..]) == []
    ensures ptr + 1 + data[ptr] as int <= |data| ==>
      TxtRecords(data[ptr..]) == [data[ptr + 1..ptr + 1 + data[ptr] as int]] + TxtRecords(data[ptr + 1 + data[ptr] as int..])
  {
    var len := data[ptr] as int;
    if ptr + 1 + len <= |data| {
      assert data[ptr..][1..1 + len] == data[ptr + 1..ptr + 1 + len];
      assert data[ptr..][1 + len..] == data[ptr + 1 + len..];
    }
  }

  /** Part way through the TXT loop: `consumed` has been filed and `ptr` is at the next length byte. */
  ghost predicate TxtState(data: seq<byte>, ptr: nat, consumed: seq<seq<byte>>, txt: map<string, string>) {
    ptr <= |data| && TxtRecords(data) == consumed + TxtRecords(data[ptr..]) && txt == TxtMap(consumed)
  }

  /** Where the loop ends, at the end of the data or at a record that would overrun it, every record is filed. */
  lemma TxtDone(data: seq<byte>, ptr: nat, consumed: seq<seq<byte>>, txt: map<string, string>)
    requires TxtState(data, ptr, consumed, txt)
    requires ptr == |data| || ptr + 1 + data[ptr] as int > |data|
    ensures txt == TxtMap(TxtRecords(data))
  {
    if ptr < |data| {
      TxtRecordsAt(data, ptr);
    } else {
      assert data[ptr..] == [];
    }
    assert consumed + [] == consumed;
  }

  /** Filing the record at `ptr` keeps the loop's account. */
  lemma TxtStateStep(data: seq<byte>, ptr: nat, consumed: seq<seq<byte>>, txt: map<string, string>)
    requires TxtState(data, ptr, consumed, txt)
    requires ptr < |data| && ptr + 1 + data[ptr] as int <= |data|
    ensures var next := ptr + 1 + data[ptr] as int;
      var record := data[ptr + 1..next];
      TxtState(data, next, consumed + [record], TxtMap(consumed + [record]))
  {
    TxtRecordsAt(data, ptr);
  }

  /** One pass of the TXT loop: the record at `ptr` is filed and `ptr` moves past it. */
  method ParseNextRecord(data: seq<byte>, ptr: nat, ghost consumed: seq<seq<byte>>, txt: map<string, string>)
    returns (ptr': nat, ghost consumed': seq<seq<byte>>, txt': map<string, string>)
    requires TxtState(data, ptr, consumed, txt)
    requires ptr < |data| && ptr + 1 + data[ptr] as int <= |data|
    ensures TxtState(data, ptr', consumed', txt') && ptr < ptr'
  {
    var len := data[ptr] as int;
    TxtStateStep(data, ptr, consumed, txt);
    var record := data[ptr + 1..ptr + 1 + len];
    TxtMapSnoc(consumed, record);
    var pair := SplitPair(ToText(record));
    txt' := txt;
    if pair.Some? {
      txt' := txt[pair.value.0 := pair.value.1];
    }
    consumed' := consumed + [record];
    ptr' := ptr + 1 + len;
  }

  /**
   * `resolveCallback`'s TXT loop: read a length byte, stop if the record
   * would overrun the data, otherwise file its key and value.
   */
  method ParseTxt(data: seq<byte>) returns (txt: map<string, string>)
    ensures txt == TxtMap(TxtRecords(data))
  {
    txt := map[];
    var ptr: nat := 0;
    ghost var consumed: seq<seq<byte>> := [];
    assert data[0..] == data;
    while ptr < |data|
      invariant TxtState(data, ptr, consumed, txt)
      decreases |data| - ptr
    {
      if ptr + 1 + data[ptr] as int > |data| {
        TxtDone(data, ptr, consumed, txt);
        return;
      }
      ptr, consumed, txt := ParseNextRecord(data, ptr, consumed, txt);
    }
    TxtDone(data, ptr, consumed, txt);
  }

  // ---------------------------------------------------------------------
  // The service

  /** The service type and domain that browse replies carry. */
  const ServiceType := "_apple-mobdev2._tcp."
  const LocalDomain := "local."

  /**
   * The full name a resolution reports for a service: the instance name,
   * its type and its domain joined, as `DNSServiceConstructFullName`
   * builds it for an instance name without `.` or `\`.
   */
  function FullName(serviceName: string, regtype: string, domain: string): (r: string)
    ensures serviceName + "." <= r && r != serviceName
  {
    serviceName + "." + regtype + domain
  }

  /**
   * A browse removal names the bare instance, which never equals the full
   * name a resolved device is listed and filed under: as written, such a
   * device outlives its removal.
   */
  lemma RemovalMissesResolved(devices: seq<NetworkDevice>, serviceName: string, regtype: string, domain: string)
    ensures forall d :: d in devices && d.name == FullName(serviceName, regtype, domain) ==>
      d in RemoveNamed(devices, serviceName)
  {
    RemoveNamedMembers(devices, serviceName);
  }

  /** `PendingDevice`: what a resolution reported, waiting for the host's address. */
  datatype PendingDevice = PendingDevice(name: string, hostname: string, port: uint16, interfaceIndex: uint32,
                                         txt: map<string, string>)

  /** The pending services reported on `hostname`. */
  function OnHost(pending: map<string, PendingDevice>, hostname: string): (keys: set<string>)
    ensures forall k :: k in keys <==> k in pending && pending[k].hostname == hostname
  {
    set k | k in pending && pending[k].hostname == hostname
  }

  class DnssdService {
    var running: bool
    /** A browse reference and its socket notifier exist. */
    var browsing: bool
    var devices: seq<NetworkDevice>
    /** `m_pendingDevices`, keyed by service name. */
    var pending: map<string, PendingDevice>
    var events: seq<ServiceEvent>

    /** No device is listed twice, and each pending device is filed under its own name. */
    ghost predicate Valid()
      reads this
    {
      Distinct(devices) && forall k :: k in pending ==> pending[k].name == k
    }

    constructor()
      ensures Valid()
      ensures !running && !browsing && devices == [] && pending == map[] && events == []
    {
      running := false;
      browsing := false;
      devices := [];
      pending := map[];
      events := [];
    }

    /** `getNetworkDevices`. */
    function GetNetworkDevices(): (r: seq<NetworkDevice>)
      reads this
      ensures r == devices
    {
      devices
    }

    /** `startBrowsing`: a no-op while running; running only once the browse was accepted. */
    method StartBrowsing(browseOk: bool)
      requires Valid()
      modifies this
      ensures Valid()
      ensures old(running) ==> running && browsing == old(browsing)
      ensures !old(running) ==> running == browseOk && browsing == (browseOk || old(browsing))
      ensures devices == old(devices) && pending == old(pending) && events == old(events)
    {
      if running {
        return;
      }
      if !browseOk {
        return;
      }
      browsing := true;
      running := true;
    }

    /** `stopBrowsing`: a no-op when stopped; otherwise browsing ends and both collections are emptied. */
    method StopBrowsing()
      requires Valid()
      modifies this
      ensures Valid()
      ensures !old(running) ==>
        running == old(running) && browsing == old(browsing) && devices == old(devices) && pending == old(pending)
      ensures old(running) ==> !running && !browsing && devices == [] && pending == map[]
      ensures events == old(events)
    {
      if !running {
        return;
      }
      running := false;
      browsing := false;
      devices := [];
      pending := map[];
    }

    /**
     * `browseCallback`: an error changes nothing; an added service is
     * resolved (its replies arrive as `ResolveCallback`); a removed one
     * is announced, and every device of that name and its pending entry go.
     */
    method BrowseCallback(errorOk: bool, added: bool, serviceName: string)
      requires Valid()
      modifies this
      ensures Valid()
      ensures !errorOk || added ==> devices == old(devices) && pending == old(pending) && events == old(events)
      ensures errorOk && !added ==>
        devices == RemoveNamed(old(devices), serviceName) && pending == old(pending) - {serviceName} &&
        events == old(events) + [DeviceRemoved(serviceName)]
      ensures running == old(running) && browsing == old(browsing)
    {
      if !errorOk {
        return;
      }
      if added {
        return;
      }
      events := events + [DeviceRemoved(serviceName)];
      RemoveNamedDistinct(devices, serviceName);
      devices := RemoveNamed(devices, serviceName);
      pending := pending - {serviceName};
    }

    /**
     * `browseCallback` as intended: a removed service is announced under
     * the full name it was resolved with, and the device and pending entry
     * filed under that name go.
     */
    method BrowseCallbackIntended(errorOk: bool, added: bool, serviceName: string, regtype: string, domain: string)
      requires Valid()
      modifies this
      ensures Valid()
      ensures !errorOk || added ==> devices == old(devices) && pending == old(pending) && events == old(events)
      ensures errorOk && !added ==>
        var full := FullName(serviceName, regtype, domain);
        devices == RemoveNamed(old(devices), full) && pending == old(pending) - {full} &&
        events == old(events) + [DeviceRemoved(full)]
      ensures running == old(running) && browsing == old(browsing)
    {
      if !errorOk || added {
        return;
      }
      var full := FullName(serviceName, regtype, domain);
      events := events + [DeviceRemoved(full)];
      RemoveNamedDistinct(devices, full);
      devices := RemoveNamed(devices, full);
      pending := pending - {full};
    }

    /**
     * `resolveCallback`: the service is filed as pending with its host,
     * its port converted from network order and its TXT pairs. The
     * address lookup it starts replies through `AddrInfoCallback`.
     */
    method ResolveCallback(errorOk: bool, fullname: string, hosttarget: string, port: uint16,
                           interfaceIndex: uint32, txt: seq<byte>)
      requires Valid()
      modifies this
      ensures Valid()
      ensures !errorOk ==> pending == old(pending)
      ensures errorOk ==>
        pending == old(pending)[fullname := PendingDevice(fullname, hosttarget, Ntohs(port), interfaceIndex,
                                                          TxtMap(TxtRecords(txt)))]
      ensures devices == old(devices) && events == old(events)
      ensures running == old(running) && browsing == old(browsing)
    {
      if !errorOk {
        return;
      }
      var parsed := ParseTxt(txt);
      pending := pending[fullname := PendingDevice(fullname, hosttarget, Ntohs(port), interfaceIndex, parsed)];
    }

    /** The search of `addrInfoCallback`: the first pending service, in key order, on `hostname`. */
    method PendingFor(hostname: string) returns (found: Option<string>)
      ensures found.None? ==> forall k :: k in pending ==> pending[k].hostname != hostname
      ensures found.Some? ==> IsFirstKey(OnHost(pending, hostname), found.value)
    {
      var remaining := pending.Keys;
      while remaining != {}
        invariant remaining <= pending.Keys
        invariant forall k :: k in pending && k !in remaining ==> pending[k].hostname != hostname
        decreases |remaining|
      {
        var k := FirstKey(remaining);
        if pending[k].hostname == hostname {
          forall j | j in OnHost(pending, hostname)
            ensures !StringLess(j, k)
          {
            assert j in remaining;
          }
          return Some(k);
        }
        remaining := remaining - {k};
      }
      return None;
    }

    /**
     * `addrInfoCallback`: with no pending service on the host (or one
     * filed under the empty name) nothing happens; otherwise the device
     * is listed unless an equal one is, and its pending entry goes.
     */
    method AddrInfoCallback(errorOk: bool, hostname: string, address: string)
      requires Valid()
      modifies this
      ensures Valid()
      ensures !errorOk ==> devices == old(devices) && pending == old(pending) && events == old(events)
      ensures errorOk && (forall k :: k in old(pending) ==> old(pending)[k].hostname != hostname) ==>
        devices == old(devices) && pending == old(pending) && events == old(events)
      ensures errorOk && (exists k :: k in old(pending) && old(pending)[k].hostname == hostname) ==>
        var first := FirstKey(OnHost(old(pending), hostname));
        var p := old(pending)[first];
        var d := NetworkDevice(p.name, p.hostname, address, DevicePort(p.port), map[]);
        if first == "" then devices == old(devices) && pending == old(pending) && events == old(events)
        else
          devices == AddIfAbsent(old(devices), d) && pending == old(pending) - {first} &&
          events == old(events) + (if Listed(old(devices), d) then [] else [DeviceAdded(d)])
      ensures running == old(running) && browsing == old(browsing)
    {
      if !errorOk {
        return;
      }
      var found := PendingFor(hostname);
      ghost var matching := OnHost(pending, hostname);
      if found.Some? {
        FirstKeyUnique(matching, found.value, FirstKey(matching));
      }
      if found.None? || found.value == "" {
        return;
      }
      var deviceName := found.value;
      var p := pending[deviceName];
      var device := NetworkDevice(p.name, p.hostname, address, DevicePort(p.port), map[]);
      AddIfAbsentShape(devices, device);
      if !Listed(devices, device) {
        devices := devices + [device];
        events := events + [DeviceAdded(device)];
      }
      pending := pending - {deviceName};
    }
  }

  /** The service `name` resolved on `host` and its address found: one device, listed under the full name. */
  method ResolvedService(name: string, host: string, address: string) returns (s: DnssdService)
    ensures fresh(s) && s.Valid()
    ensures s.devices == [NetworkDevice(FullName(name, ServiceType, LocalDomain), host, address, SshPort, map[])]
    ensures s.pending == map[]
  {
    var full := FullName(name, ServiceType, LocalDomain);
    s := new DnssdService();
    s.ResolveCallback(true, full, host, 0, 0, []);
    ghost var filed := s.pending;
    assert OnHost(filed, host) == {full};
    assert FirstKey({full}) == full;
    s.AddrInfoCallback(true, host, address);
    assert s.pending.Keys == filed.Keys - {full} == {};
  }

  /** A second address reply for a device already listed adds nothing: the list has no duplicates. */
  method ResolveTwice(name: string, host: string, address: string) returns (count: nat)
    ensures count == 1
  {
    var s := ResolvedService(name, host, address);
    var full := FullName(name, ServiceType, LocalDomain);
    var d := s.devices[0];
    s.ResolveCallback(true, full, host, 0, 0, []);
    assert OnHost(s.pending, host) == {full};
    assert FirstKey({full}) == full;
    assert SameDevice(s.devices[0], d);
    s.AddrInfoCallback(true, host, address);
    count := |s.devices|;
  }

  /** As written, the removal of a resolved service leaves its device listed. */
  method RemovedServiceStaysAsWritten(name: string, host: string, address: string) returns (count: nat)
    ensures count == 1
  {
    var s := ResolvedService(name, host, address);
    var before := s.devices;
    assert before[..0] == [];
    s.BrowseCallback(true, false, name);
    assert s.devices == before;
    count := |s.devices|;
  }

  /** With the intended removal, the device goes. */
  method RemovedServiceGoes(name: string, host: string, address: string) returns (count: nat)
    ensures count == 0
  {
    var s := ResolvedService(name, host, address);
    s.BrowseCallbackIntended(true, false, name, ServiceType, LocalDomain);
    count := |s.devices|;
  }
}
