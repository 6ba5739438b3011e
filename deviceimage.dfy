/**
 * `DeviceImageWidget`: the phone picture on the device page, a mockup
 * frame chosen from the product type with a wallpaper chosen from the iOS
 * version drawn into its screen. Images are reduced to their alpha
 * channel.
 */
module DeviceImage {
  import opened Wrappers
  import opened Bytes
  import opened Text

  // ---------------------------------------------------------------------
  // Wallpaper

  /** The wallpaper for an iOS major version: 18 and later share one, before 4 falls back to iOS 26's. */
  function WallpaperVersion(iosVersion: int): (r: string)
    ensures iosVersion >= 18 ==> r == "ios18"
    ensures 4 <= iosVersion < 18 ==> r == "ios" + NatToString(iosVersion)
    ensures iosVersion < 4 ==> r == "ios26"
  {
    if iosVersion >= 18 then "ios18"
    else if iosVersion >= 17 then "ios17"
    else if iosVersion >= 16 then "ios16"
    else if iosVersion >= 15 then "ios15"
    else if iosVersion >= 14 then "ios14"
    else if iosVersion >= 13 then "ios13"
    else if iosVersion >= 12 then "ios12"
    else if iosVersion >= 11 then "ios11"
    else if iosVersion >= 10 then "ios10"
    else if iosVersion >= 9 then "ios9"
    else if iosVersion >= 8 then "ios8"
    else if iosVersion >= 7 then "ios7"
    else if iosVersion >= 6 then "ios6"
    else if iosVersion >= 5 then "ios5"
    else if iosVersion >= 4 then "ios4"
    else "ios26"
  }

  function WallpaperPath(iosVersion: int): string {
    ":/resources/ios-wallpapers/iphone-" + WallpaperVersion(iosVersion) + ".png"
  }

  /** Two versions load the same wallpaper file exactly when they share a wallpaper. */
  lemma WallpaperPathIdentifies(a: int, b: int)
    ensures WallpaperPath(a) == WallpaperPath(b) <==> WallpaperVersion(a) == WallpaperVersion(b)
  {
    FramedEqual(":/resources/ios-wallpapers/iphone-", WallpaperVersion(a), WallpaperVersion(b), ".png");
  }

  const Int32Max := 0x7FFF_FFFF

  /** `QString::toInt(&ok)`: the 64-bit reading, accepted only inside the `int` range. */
  function ParseInt32(s: string): (r: Option<int>)
    ensures r.Some? ==> -Int32Max - 1 <= r.value <= Int32Max
  {
    match ParseInt64(s)
    case Some(v) => if -Int32Max - 1 <= v <= Int32Max then Some(v) else None
    case None => None
  }

  /**
   * `getIosVersionFromDevice`: the major version byte of the packed
   * version the device reports, or, when it reports none, the number
   * before the first `.` of the product version, or 0.
   */
  function IosVersion(packed: uint32, productVersion: string): (r: int)
    ensures packed > 0 ==> 0 <= r < 256 && r == packed as int / 0x1_0000 % 0x100
    ensures packed == 0 && ParseInt32(Split(productVersion, ".")[0]).None? ==> r == 0
  {
    if packed > 0 then packed as int / 0x1_0000 % 0x100
    else
      var parts := Split(productVersion, ".");
      match ParseInt32(parts[0])
      case Some(v) => v
      case None => 0
  }

  /** A product version beginning with a major number reads back as that number. */
  lemma IosVersionFromText(major: nat, rest: string)
    requires major <= Int32Max
    ensures IosVersion(0, NatToString(major) + "." + rest) == major
  {
    var d := NatToString(major);
    assert '.' !in d by {
      forall i | 0 <= i < |d|
        ensures d[i] != '.'
      {
        assert IsDigit(d[i]);
      }
    }
    SplitBeforeHead(d, ".", rest);
    ParseIntToString(major);
    assert IntToString(major) == d;
  }

  /** The packed form `major << 16 | minor << 8 | patch` gives its major version back. */
  lemma IosVersionFromPacked(major: nat, minor: nat, patch: nat)
    requires 0 < major < 256 && minor < 256 && patch < 256
    ensures IosVersion((major * 0x1_0000 + minor * 0x100 + patch) as uint32, "") == major
  {
    var x := major * 0x1_0000 + minor * 0x100 + patch;
    assert x / 0x1_0000 == major;
  }

  // ---------------------------------------------------------------------
  // Mockup

  /**
   * The substring rules of `getMockupNameFromDisplayName`, in order; the
   * patterns are written folded to lower case, and each rule names a
   * mockup.
   */
  const MockupRules: seq<(seq<string>, string)> := [
    (["iphone 16"], "16"),
    (["iphone 15"], "15"),
    (["iphone x", "iphone 11", "iphone 12", "iphone 13", "iphone 14"], "x"),
    (["iphone 6", "iphone 7", "iphone 8"], "6"),
    (["iphone 5", "iphone se"], "5"),
    (["iphone 4"], "4"),
    (["iphone 3"], "3")
  ]

  /** The mockups there are. */
  const MockupNames: set<string> := {"16", "15", "x", "6", "5", "4", "3"}

  /** Some pattern of the rule occurs in the folded name. */
  predicate RuleMatches(lower: string, patterns: seq<string>) {
    exists k :: 0 <= k < |patterns| && Contains(lower, patterns[k])
  }

  /** The mockup of the first rule that matches, or the iPhone X mockup. */
  function FirstRule(lower: string, rules: seq<(seq<string>, string)>): string {
    if |rules| == 0 then "x"
    else if RuleMatches(lower, rules[0].0) then rules[0].1
    else FirstRule(lower, rules[1..])
  }

  /** `getMockupNameFromDisplayName`, case-insensitively. */
  function MockupName(displayName: string): (r: string)
    ensures r in MockupNames
  {
    MockupNameAmong(Lower(displayName), MockupRules);
    FirstRule(Lower(displayName), MockupRules)
  }

  lemma {:induction false} MockupNameAmong(lower: string, rules: seq<(seq<string>, string)>)
    requires forall i :: 0 <= i < |rules| ==> rules[i].1 in MockupNames
    ensures FirstRule(lower, rules) in MockupNames
  {
    if |rules| > 0 && !RuleMatches(lower, rules[0].0) {
      MockupNameAmong(lower, rules[1..]);
    }
  }

  /** The first rule that matches decides, whatever later rules would say. */
  lemma {:induction false} FirstRuleWins(lower: string, rules: seq<(seq<string>, string)>, i: nat)
    requires i < |rules| && RuleMatches(lower, rules[i].0)
    requires forall j :: 0 <= j < i ==> !RuleMatches(lower, rules[j].0)
    ensures FirstRule(lower, rules) == rules[i].1
  {
    if i > 0 {
      assert !RuleMatches(lower, rules[0].0);
      FirstRuleWins(lower, rules[1..], i - 1);
    }
  }

  /** A name no rule matches gets the iPhone X mockup. */
  lemma {:induction false} NoRuleGivesX(lower: string, rules: seq<(seq<string>, string)>)
    requires forall j :: 0 <= j < |rules| ==> !RuleMatches(lower, rules[j].0)
    ensures FirstRule(lower, rules) == "x"
  {
    if |rules| > 0 {
      assert !RuleMatches(lower, rules[0].0);
      NoRuleGivesX(lower, rules[1..]);
    }
  }

  /**
   * Every pattern holds a space, so a name without one, such as a
   * one-word name, always gets the iPhone X mockup; the display names
   * the widget is given mostly hold a space and go through the rules.
   */
  lemma NameWithoutSpaceGivesX(displayName: string)
    requires ' ' !in displayName
    ensures MockupName(displayName) == "x"
  {
    var lower := Lower(displayName);
    assert ' ' !in lower by {
      forall i | 0 <= i < |lower|
        ensures lower[i] != ' '
      {
        assert displayName[i] in displayName;
      }
    }
    forall j, k | 0 <= j < |MockupRules| && 0 <= k < |MockupRules[j].0|
      ensures !Contains(lower, MockupRules[j].0[k])
    {
      var p := MockupRules[j].0[k];
      assert p[6] == ' ';
    }
    NoRuleGivesX(lower, MockupRules);
  }

  function MockupPath(displayName: string): string {
    ":/resources/iphone-mockups/iphone-" + MockupName(displayName) + ".png"
  }

  /** Two names load the same mockup file exactly when the rules give them the same mockup. */
  lemma MockupPathIdentifies(a: string, b: string)
    ensures MockupPath(a) == MockupPath(b) <==> MockupName(a) == MockupName(b)
  {
    FramedEqual(":/resources/iphone-mockups/iphone-", MockupName(a), MockupName(b), ".png");
  }

  // ---------------------------------------------------------------------
  // Screen areas

  /** `QRect(x, y, width, height)`. */
  datatype Rect = Rect(x: int, y: int, width: int, height: int)

  /** The measured screen rectangle of each mockup. */
  function ScreenRect(mockupName: string): (r: Option<Rect>)
    ensures r.Some? <==> mockupName in MockupNames
    ensures r.Some? ==> 0 <= r.value.x && 0 <= r.value.y && r.value.width > 0 && r.value.height > 0
  {
    if mockupName == "3" then Some(Rect(145, 72, 209, 310))
    else if mockupName == "4" then Some(Rect(414, 181, 380, 548))
    else if mockupName == "5" then Some(Rect(27, 106, 304, 537))
    else if mockupName == "6" then Some(Rect(68, 348, 1279, 2270))
    else if mockupName == "x" then Some(Rect(245, 429, 2389, 5003))
    else if mockupName == "15" then Some(Rect(15, 49, 337, 688))
    else if mockupName == "16" then Some(Rect(17, 54, 333, 682))
    else None
  }

  /** Every mockup chosen has a measured rectangle, so the proportional fallback of `createCompositeImage` is never used. */
  lemma EveryMockupHasScreen(displayName: string)
    ensures ScreenRect(MockupName(displayName)).Some?
    ensures ScreenRect(MockupName(displayName)).value.width > 0 && ScreenRect(MockupName(displayName)).value.height > 0
  {
  }

  // ---------------------------------------------------------------------
  // findScreenArea

  /** How far the transparent run through row `y` reaches to the left of `x`. */
  function LeftEnd(alpha: array2<byte>, x: nat, y: nat): (r: nat)
    requires x < alpha.Length0 && y < alpha.Length1
    reads alpha
    ensures r <= x
  {
    if x > 0 && alpha[x, y] == 0 then LeftEnd(alpha, x - 1, y) else x
  }

  /** How far the transparent run through row `y` reaches to the right of `x`. */
  function RightEnd(alpha: array2<byte>, x: nat, y: nat): (r: nat)
    requires x < alpha.Length0 && y < alpha.Length1
    reads alpha
    decreases alpha.Length0 - x
    ensures x <= r < alpha.Length0
  {
    if x < alpha.Length0 - 1 && alpha[x, y] == 0 then RightEnd(alpha, x + 1, y) else x
  }

  /** How far the transparent run through column `x` reaches above `y`. */
  function TopEnd(alpha: array2<byte>, x: nat, y: nat): (r: nat)
    requires x < alpha.Length0 && y < alpha.Length1
    reads alpha
    ensures r <= y
  {
    if y > 0 && alpha[x, y] == 0 then TopEnd(alpha, x, y - 1) else y
  }

  /** How far the transparent run through column `x` reaches below `y`. */
  function BottomEnd(alpha: array2<byte>, x: nat, y: nat): (r: nat)
    requires x < alpha.Length0 && y < alpha.Length1
    reads alpha
    decreases alpha.Length1 - y
    ensures y <= r < alpha.Length1
  {
    if y < alpha.Length1 - 1 && alpha[x, y] == 0 then BottomEnd(alpha, x, y + 1) else y
  }

  /** The left scan stops at the image edge or the first opaque pixel, having crossed only transparent ones. */
  lemma {:induction false} LeftEndStops(alpha: array2<byte>, x: nat, y: nat)
    requires x < alpha.Length0 && y < alpha.Length1
    ensures var l := LeftEnd(alpha, x, y);
      (l == 0 || alpha[l, y] != 0) && forall i :: l < i <= x ==> alpha[i, y] == 0
    decreases x
  {
    if x > 0 && alpha[x, y] == 0 {
      LeftEndStops(alpha, x - 1, y);
    }
  }

  /** The right scan stops at the image edge or the first opaque pixel, having crossed only transparent ones. */
  lemma {:induction false} RightEndStops(alpha: array2<byte>, x: nat, y: nat)
    requires x < alpha.Length0 && y < alpha.Length1
    ensures var r := RightEnd(alpha, x, y);
      (r == alpha.Length0 - 1 || alpha[r, y] != 0) && forall i :: x <= i < r ==> alpha[i, y] == 0
    decreases alpha.Length0 - x
  {
    if x < alpha.Length0 - 1 && alpha[x, y] == 0 {
      RightEndStops(alpha, x + 1, y);
    }
  }

  /** The upward scan stops at the image edge or the first opaque pixel, having crossed only transparent ones. */
  lemma {:induction false} TopEndStops(alpha: array2<byte>, x: nat, y: nat)
    requires x < alpha.Length0 && y < alpha.Length1
    ensures var t := TopEnd(alpha, x, y);
      (t == 0 || alpha[x, t] != 0) && forall j :: t < j <= y ==> alpha[x, j] == 0
    decreases y
  {
    if y > 0 && alpha[x, y] == 0 {
      TopEndStops(alpha, x, y - 1);
    }
  }

  /** The downward scan stops at the image edge or the first opaque pixel, having crossed only transparent ones. */
  lemma {:induction false} BottomEndStops(alpha: array2<byte>, x: nat, y: nat)
    requires x < alpha.Length0 && y < alpha.Length1
    ensures var b := BottomEnd(alpha, x, y);
      (b == alpha.Length1 - 1 || alpha[x, b] != 0) && forall j :: y <= j < b ==> alpha[x, j] == 0
    decreases alpha.Length1 - y
  {
    if y < alpha.Length1 - 1 && alpha[x, y] == 0 {
      BottomEndStops(alpha, x, y + 1);
    }
  }

  /** The result of `findScreenArea`: a null rectangle, the proportional fallback, or the scanned screen. */
  function ScreenArea(alpha: array2<byte>): (r: Rect)
    reads alpha
    ensures alpha.Length0 == 0 || alpha.Length1 == 0 ==> r == Rect(0, 0, 0, 0)
    ensures alpha.Length0 > 0 && alpha.Length1 > 0 && alpha[alpha.Length0 / 2, alpha.Length1 / 2] != 0 ==>
      0 <= r.x && 0 <= r.y && r.x + r.width <= alpha.Length0 && r.y + r.height <= alpha.Length1
  {
    var width := alpha.Length0;
    var height := alpha.Length1;
    if width == 0 || height == 0 then Rect(0, 0, 0, 0)
    else
      var cx := width / 2;
      var cy := height / 2;
      if alpha[cx, cy] != 0 then Rect(width / 10, height / 10, width * 8 / 10, height * 8 / 10)
      else
        var left := LeftEnd(alpha, cx, cy);
        var right := RightEnd(alpha, cx, cy);
        var top := TopEnd(alpha, cx, cy);
        var bottom := BottomEnd(alpha, cx, cy);
        Rect(left + 1, top + 1, right - left - 2, bottom - top - 2)
  }

  /** Scanning a non-empty image keeps every end inside it and the screen origin one past the frame. */
  lemma ScreenAreaInside(alpha: array2<byte>)
    requires alpha.Length0 > 0 && alpha.Length1 > 0 && alpha[alpha.Length0 / 2, alpha.Length1 / 2] == 0
    ensures 1 <= ScreenArea(alpha).x <= alpha.Length0 / 2 + 1
    ensures 1 <= ScreenArea(alpha).y <= alpha.Length1 / 2 + 1
    ensures ScreenArea(alpha).x + ScreenArea(alpha).width <= alpha.Length0 - 2
    ensures ScreenArea(alpha).y + ScreenArea(alpha).height <= alpha.Length1 - 2
  {
  }

  /**
   * `findScreenArea`: from the centre, four scans walk over transparent
   * pixels to the frame, and the rectangle inside the frame is returned.
   */
  method FindScreenArea(alpha: array2<byte>) returns (r: Rect)
    ensures r == ScreenArea(alpha)
  {
    var width := alpha.Length0;
    var height := alpha.Length1;
    if width == 0 || height == 0 {
      return Rect(0, 0, 0, 0);
    }
    var centerX := width / 2;
    var centerY := height / 2;
    if alpha[centerX, centerY] != 0 {
      return Rect(width / 10, height / 10, width * 8 / 10, height * 8 / 10);
    }
    var left, right, top, bottom := centerX, centerX, centerY, centerY;
    while left > 0 && alpha[left, centerY] == 0
      invariant 0 <= left <= centerX
      invariant LeftEnd(alpha, left, centerY) == LeftEnd(alpha, centerX, centerY)
    {
      left := left - 1;
    }
    while right < width - 1 && alpha[right, centerY] == 0
      invariant centerX <= right < width
      invariant RightEnd(alpha, right, centerY) == RightEnd(alpha, centerX, centerY)
    {
      right := right + 1;
    }
    while top > 0 && alpha[centerX, top] == 0
      invariant 0 <= top <= centerY
      invariant TopEnd(alpha, centerX, top) == TopEnd(alpha, centerX, centerY)
    {
      top := top - 1;
    }
    while bottom < height - 1 && alpha[centerX, bottom] == 0
      invariant centerY <= bottom < height
      invariant BottomEnd(alpha, centerX, bottom) == BottomEnd(alpha, centerX, centerY)
    {
      bottom := bottom + 1;
    }
    return Rect(left + 1, top + 1, right - left - 2, bottom - top - 2);
  }
}
