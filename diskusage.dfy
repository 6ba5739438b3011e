/**
 * `DiskUsageWidget`: the storage bar of the device page. A background job
 * collects the capacities from the device information, the apps' disk
 * usage from the installation proxy and the media library size from
 * lockdown; when it finishes, the widget derives the "others" share and
 * becomes ready, or shows the job's error. Counters are unsigned 64-bit
 * and wrap.
 */
module DiskUsage {
  import opened Wrappers
  import opened Bytes

  /** A plist node as far as it matters here: an unsigned integer, or any other type. */
  datatype PlistValue = UInt(value: uint64) | OtherNode

  /** An entry of the browse result: a dictionary, or a null item. */
  type AppInfo = Option<map<string, PlistValue>>

  /** The unsigned value under `key`, 0 when it is absent or of another type. */
  function UIntOr0(dict: map<string, PlistValue>, key: string): uint64 {
    if key in dict && dict[key].UInt? then dict[key].value else 0
  }

  /** What one app counts: its static and dynamic disk usage. */
  function AppUsage(info: AppInfo): nat {
    match info
    case None => 0
    case Some(d) => UIntOr0(d, "StaticDiskUsage") + UIntOr0(d, "DynamicDiskUsage")
  }

  /** The usage of all apps, without wrap-around. */
  function AppsTotal(apps: seq<AppInfo>): nat {
    if |apps| == 0 then 0 else AppsTotal(apps[..|apps| - 1]) + AppUsage(apps[|apps| - 1])
  }

  /** The total adds up over any split of the list. */
  lemma {:induction false} AppsTotalSplit(a: seq<AppInfo>, b: seq<AppInfo>)
    ensures AppsTotal(a + b) == AppsTotal(a) + AppsTotal(b)
    decreases |b|
  {
    if |b| > 0 {
      var b' := b[..|b| - 1];
      assert (a + b)[..|a + b| - 1] == a + b';
      assert (a + b)[|a + b| - 1] == b[|b| - 1];
      AppsTotalSplit(a, b');
      assert AppsTotal(a + b) == AppsTotal(a + b') + AppUsage(b[|b| - 1]);
      assert AppsTotal(b) == AppsTotal(b') + AppUsage(b[|b| - 1]);
    } else {
      assert a + b == a;
    }
  }

  /** A null item, or one whose usage values are not unsigned integers, adds nothing. */
  lemma IgnoredAppAddsNothing(apps: seq<AppInfo>, info: AppInfo)
    requires info.Some? ==>
      (forall k :: k in info.value && (k == "StaticDiskUsage" || k == "DynamicDiskUsage") ==> !info.value[k].UInt?)
    ensures AppsTotal(apps + [info]) == AppsTotal(apps)
  {
    assert (apps + [info])[..|apps|] == apps;
  }

  /** Adding to a wrapped counter wraps like adding to the exact sum. */
  lemma WrapAdd(x: nat, y: nat)
    ensures Wrap64(Wrap64(x) + y) == Wrap64(x + y)
  {
    var q := x / TwoTo64;
    assert x == q * TwoTo64 + Wrap64(x);
    assert x + y == q * TwoTo64 + (Wrap64(x) + y);
  }

  /** What the loop adds for one app, the two values in turn, wrapping. */
  method AddApp(total: uint64, info: AppInfo) returns (r: uint64)
    ensures r == Wrap64(total + AppUsage(info))
  {
    r := total;
    if info.Some? {
      var d := info.value;
      if "StaticDiskUsage" in d && d["StaticDiskUsage"].UInt? {
        r := Wrap64(r + d["StaticDiskUsage"].value);
      }
      WrapAdd(total + UIntOr0(d, "StaticDiskUsage"), UIntOr0(d, "DynamicDiskUsage"));
      if "DynamicDiskUsage" in d && d["DynamicDiskUsage"].UInt? {
        r := Wrap64(r + d["DynamicDiskUsage"].value);
      }
    }
  }

  /** The apps loop of the background job: `totalAppsSpace` adds each UINT value, wrapping at 2^64. */
  method SumAppsUsage(apps: seq<AppInfo>) returns (total: uint64)
    ensures total == Wrap64(AppsTotal(apps))
  {
    total := 0;
    for i := 0 to |apps|
      invariant total == Wrap64(AppsTotal(apps[..i]))
    {
      assert apps[..i + 1][..i] == apps[..i];
      WrapAdd(AppsTotal(apps[..i]), AppUsage(apps[i]));
      total := AddApp(total, apps[i]);
    }
    assert apps[..|apps|] == apps;
  }

  /** `MediaLibrarySize` of the iTunes domain when it is an unsigned integer, else 0. */
  function MediaUsage(domain: Option<map<string, PlistValue>>): (r: uint64)
    ensures domain.None? ==> r == 0
  {
    match domain
    case None => 0
    case Some(d) => UIntOr0(d, "MediaLibrarySize")
  }

  /** The capacities the device information holds. */
  datatype DiskInfo = DiskInfo(totalDiskCapacity: uint64, totalDataAvailable: uint64, totalSystemCapacity: uint64)

  /** The map the job returns: an error, or the five values. */
  datatype FetchResult =
    | FetchError(message: string)
    | FetchData(totalCapacity: uint64, freeSpace: uint64, systemUsage: uint64, appsUsage: uint64, mediaUsage: uint64)

  /**
   * The background job of `fetchData`. An invalid device, a failed
   * handshake or no installation proxy client is an error; a failed
   * service start is ignored; a browse that fails or returns no array
   * counts no apps.
   */
  method FetchUsage(deviceOk: bool, info: DiskInfo, handshakeOk: bool, proxyOk: bool,
                    browsed: Option<seq<AppInfo>>, iTunes: Option<map<string, PlistValue>>)
    returns (r: FetchResult)
    ensures !deviceOk ==> r == FetchError("Invalid device.")
    ensures deviceOk && !handshakeOk ==> r == FetchError("Could not connect to lockdown service.")
    ensures deviceOk && handshakeOk && !proxyOk ==> r == FetchError("Could not connect to installation proxy.")
    ensures deviceOk && handshakeOk && proxyOk ==>
      r == FetchData(info.totalDiskCapacity, info.totalDataAvailable, info.totalSystemCapacity,
                     if browsed.Some? then Wrap64(AppsTotal(browsed.value)) else 0, MediaUsage(iTunes))
  {
    if !deviceOk {
      return FetchError("Invalid device.");
    }
    if !handshakeOk {
      return FetchError("Could not connect to lockdown service.");
    }
    if !proxyOk {
      return FetchError("Could not connect to installation proxy.");
    }
    var apps: uint64 := 0;
    if browsed.Some? {
      apps := SumAppsUsage(browsed.value);
    }
    return FetchData(info.totalDiskCapacity, info.totalDataAvailable, info.totalSystemCapacity, apps,
                     MediaUsage(iTunes));
  }

  /**
   * The space no category accounts for: the capacity less the free space
   * and the known usage, or 0 when that would not be positive; the sums
   * are computed in wrapping 64-bit arithmetic.
   */
  function OthersUsage(total: uint64, free: uint64, system: uint64, apps: uint64, media: uint64): (r: uint64)
    ensures r <= total
    ensures r == 0 <==> total <= Wrap64(free + Wrap64(system + apps + media))
    ensures r > 0 ==> r as int + Wrap64(free + Wrap64(system + apps + media)) as int == total as int
  {
    var usedKnown := Wrap64(system + apps + media);
    if total > Wrap64(free + usedKnown) then Wrap64(total - free - usedKnown) else 0
  }

  /** Without wrap-around, the five shares of the bar add up to the capacity exactly when it covers the rest. */
  lemma OthersFillBar(total: uint64, free: uint64, system: uint64, apps: uint64, media: uint64)
    requires free + system + apps + media < TwoTo64
    ensures total >= free + system + apps + media ==>
      system + apps + media + OthersUsage(total, free, system, apps, media) + free == total
    ensures total < free + system + apps + media ==> OthersUsage(total, free, system, apps, media) == 0
  {
  }

  datatype State = Loading | Error | Ready

  /** What `paintEvent` draws. */
  datatype Painting = LoadingText | ErrorText(message: string) | NoDiskInfo | Bar(segments: seq<uint64>)

  class DiskUsageWidget {
    var state: State
    var errorMessage: string
    var totalCapacity: uint64
    var systemUsage: uint64
    var appsUsage: uint64
    var mediaUsage: uint64
    var othersUsage: uint64
    var freeSpace: uint64

    /** The widget starts loading with every value 0. */
    constructor()
      ensures state == Loading && errorMessage == ""
      ensures totalCapacity == 0 && systemUsage == 0 && appsUsage == 0 && mediaUsage == 0
      ensures othersUsage == 0 && freeSpace == 0
    {
      state := Loading;
      errorMessage := "";
      totalCapacity := 0;
      systemUsage := 0;
      appsUsage := 0;
      mediaUsage := 0;
      othersUsage := 0;
      freeSpace := 0;
    }

    /**
     * The `finished` handler: an error is shown and the values are kept;
     * otherwise the values are copied, the "others" share derived, and
     * the widget is ready.
     */
    method OnFinished(result: FetchResult)
      modifies this
      ensures result.FetchError? ==>
        state == Error && errorMessage == result.message &&
        totalCapacity == old(totalCapacity) && systemUsage == old(systemUsage) && appsUsage == old(appsUsage) &&
        mediaUsage == old(mediaUsage) && othersUsage == old(othersUsage) && freeSpace == old(freeSpace)
      ensures result.FetchData? ==>
        state == Ready && errorMessage == old(errorMessage) &&
        totalCapacity == result.totalCapacity && systemUsage == result.systemUsage &&
        appsUsage == result.appsUsage && mediaUsage == result.mediaUsage && freeSpace == result.freeSpace &&
        othersUsage == OthersUsage(totalCapacity, freeSpace, systemUsage, appsUsage, mediaUsage)
    {
      if result.FetchError? {
        state := Error;
        errorMessage := result.message;
      } else {
        totalCapacity := result.totalCapacity;
        systemUsage := result.systemUsage;
        appsUsage := result.appsUsage;
        mediaUsage := result.mediaUsage;
        freeSpace := result.freeSpace;
        var usedKnown := Wrap64(systemUsage + appsUsage + mediaUsage);
        if totalCapacity > Wrap64(freeSpace + usedKnown) {
          othersUsage := Wrap64(totalCapacity - freeSpace - usedKnown);
        } else {
          othersUsage := 0;
        }
        state := Ready;
      }
    }

    /**
     * `paintEvent`: the loading or error text, the no-information text
     * when the capacity is 0, or a bar of the non-zero shares in the order
     * system, apps, media, others, free.
     */
    function Paint(): (p: Painting)
      reads this
      ensures (state == Ready && totalCapacity > 0) <==> p.Bar?
      ensures p.Bar? ==> forall i :: 0 <= i < |p.segments| ==> p.segments[i] > 0
    {
      if state == Loading then LoadingText
      else if state == Error then ErrorText(errorMessage)
      else if totalCapacity == 0 then NoDiskInfo
      else
        assert state == Ready && totalCapacity > 0;
        Bar(NonZero([systemUsage, appsUsage, mediaUsage, othersUsage, freeSpace]))
    }
  }

  /** The values that `drawSegment` draws: the non-zero ones, in order. */
  function NonZero(values: seq<uint64>): (r: seq<uint64>)
    ensures forall i :: 0 <= i < |r| ==> r[i] > 0
    ensures |r| <= |values|
  {
    if |values| == 0 then []
    else if values[|values| - 1] > 0 then NonZero(values[..|values| - 1]) + [values[|values| - 1]]
    else NonZero(values[..|values| - 1])
  }

  function Sum(values: seq<uint64>): nat {
    if |values| == 0 then 0 else Sum(values[..|values| - 1]) + values[|values| - 1]
  }

  /** Leaving out the zero shares keeps the width the bar covers. */
  lemma {:induction false} NonZeroKeepsSum(values: seq<uint64>)
    ensures Sum(NonZero(values)) == Sum(values)
  {
    if |values| > 0 {
      var init := values[..|values| - 1];
      NonZeroKeepsSum(init);
      if values[|values| - 1] > 0 {
        var r := NonZero(init) + [values[|values| - 1]];
        assert r[..|r| - 1] == NonZero(init);
      }
    }
  }
}
