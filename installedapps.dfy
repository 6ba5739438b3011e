/**
 * `InstalledAppsWidget`: the list of installed apps. A background job
 * browses the installation proxy for "User" and then "System" apps and
 * keeps the ones with a bundle identifier; the widget sorts them by name,
 * makes one tab per app (optionally only the file-sharing ones), selects
 * the first, narrows the tabs by a search text, and lists an app's
 * container without the "." and ".." entries.
 */
module InstalledApps {
  import opened Wrappers
  import opened Text
  import opened Sorting
  import opened FileTree

  // ---------------------------------------------------------------------
  // The tab label

  const MaxLabel: nat := 20

  /** The label of a tab: a name longer than 20 characters is cut to 17 and "..." is added. */
  function DisplayText(name: string): (r: string)
    ensures |r| <= MaxLabel
    ensures |name| <= MaxLabel ==> r == name
    ensures |name| > MaxLabel ==> r == name[..17] + "..." && |r| == MaxLabel
  {
    if |name| > MaxLabel then name[..17] + "..." else name
  }

  // ---------------------------------------------------------------------
  // Collecting the apps

  /** A plist node as far as it matters here. */
  datatype Node = PString(s: string) | PBool(b: bool) | POther

  /** An item of the browse result: a dictionary, or a null item. */
  type BrowseItem = Option<map<string, Node>>

  /** The map kept for one app. */
  datatype AppData = AppData(bundleId: string, displayName: string, version: string,
                             fileSharingEnabled: bool, appType: string)

  /** The string under `key`, or the empty string when it is absent or not a string. */
  function StringOr(dict: map<string, Node>, key: string): string {
    if key in dict && dict[key].PString? then dict[key].s else ""
  }

  /** What the job reads from one dictionary; file sharing is on only for a boolean true. */
  function ReadApp(dict: map<string, Node>, appType: string): (r: AppData)
    ensures r.bundleId == StringOr(dict, "CFBundleIdentifier")
    ensures r.displayName == StringOr(dict, "CFBundleDisplayName")
    ensures r.version == StringOr(dict, "CFBundleShortVersionString")
    ensures r.fileSharingEnabled <==> "UIFileSharingEnabled" in dict && dict["UIFileSharingEnabled"] == PBool(true)
    ensures r.appType == appType
  {
    var fs := "UIFileSharingEnabled";
    AppData(StringOr(dict, "CFBundleIdentifier"), StringOr(dict, "CFBundleDisplayName"),
            StringOr(dict, "CFBundleShortVersionString"),
            fs in dict && dict[fs].PBool? && dict[fs].b, appType)
  }

  /** The item, read, when it is a dictionary with a non-empty bundle identifier. */
  function Kept(item: BrowseItem, appType: string): Option<AppData> {
    if item.Some? && ReadApp(item.value, appType).bundleId != "" then Some(ReadApp(item.value, appType)) else None
  }

  /** The apps one browse contributes, in the order of the array. */
  function Collected(items: seq<BrowseItem>, appType: string): seq<AppData> {
    if |items| == 0 then []
    else
      var init := Collected(items[..|items| - 1], appType);
      match Kept(items[|items| - 1], appType)
      case Some(a) => init + [a]
      case None => init
  }

  /**
   * Exactly the dictionaries with a bundle identifier are kept, each read
   * under the type of its browse.
   */
  lemma {:induction false} CollectedExactly(items: seq<BrowseItem>, appType: string, a: AppData)
    ensures a in Collected(items, appType) <==>
      exists i :: 0 <= i < |items| && Kept(items[i], appType) == Some(a)
    ensures a in Collected(items, appType) ==> a.bundleId != "" && a.appType == appType
  {
    if |items| > 0 {
      var init := items[..|items| - 1];
      CollectedExactly(init, appType, a);
      if a in Collected(init, appType) {
        var i :| 0 <= i < |init| && Kept(init[i], appType) == Some(a);
        assert items[i] == init[i];
      }
      if exists i :: 0 <= i < |items| && Kept(items[i], appType) == Some(a) {
        var i :| 0 <= i < |items| && Kept(items[i], appType) == Some(a);
        if i < |init| {
          assert init[i] == items[i];
        }
      }
    }
  }

  /** The browse of one type: no result, or the items of its array. */
  type Browse = Option<seq<BrowseItem>>

  function BrowseApps(b: Browse, appType: string): seq<AppData> {
    if b.Some? then Collected(b.value, appType) else []
  }

  /** The inner loop over the items of one browse result. */
  method CollectType(b: Browse, appType: string, apps: seq<AppData>) returns (r: seq<AppData>)
    ensures r == apps + BrowseApps(b, appType)
  {
    r := apps;
    if b.Some? {
      var items := b.value;
      for i := 0 to |items|
        invariant r == apps + Collected(items[..i], appType)
      {
        assert items[..i + 1][..i] == items[..i];
        if items[i].Some? {
          var data := ReadApp(items[i].value, appType);
          if data.bundleId != "" {
            r := r + [data];
          }
        }
      }
      assert items[..|items|] == items;
    }
  }

  /**
   * The job's loop over the two app types: the "User" apps, then the
   * "System" apps.
   */
  method CollectApps(user: Browse, system: Browse) returns (apps: seq<AppData>)
    ensures apps == BrowseApps(user, "User") + BrowseApps(system, "System")
    ensures forall a :: a in apps ==> a.bundleId != "" && (a.appType == "User" || a.appType == "System")
  {
    apps := CollectType(user, "User", []);
    apps := CollectType(system, "System", apps);
    forall a | a in apps
      ensures a.bundleId != "" && (a.appType == "User" || a.appType == "System")
    {
      if a in BrowseApps(user, "User") {
        CollectedExactly(user.value, "User", a);
      } else {
        CollectedExactly(system.value, "System", a);
      }
    }
  }

  // ---------------------------------------------------------------------
  // Sorting

  /** The name an app sorts by: its display name, or its bundle identifier when that is empty. */
  function SortName(a: AppData): string {
    if a.displayName == "" then a.bundleId else a.displayName
  }

  /** The comparator: case-insensitive comparison of the sort names. */
  predicate NameBefore(a: AppData, b: AppData) {
    StringLess(Lower(SortName(a)), Lower(SortName(b)))
  }

  /** The comparator meets what `std::sort` demands. */
  lemma NameBeforeIsStrictWeak()
    ensures StrictWeakOrder(NameBefore)
  {
    forall a: AppData
      ensures !NameBefore(a, a)
    {
      StringLessTrichotomy(Lower(SortName(a)), Lower(SortName(a)));
    }
    forall a: AppData, b: AppData | NameBefore(a, b)
      ensures !NameBefore(b, a)
    {
      StringLessTrichotomy(Lower(SortName(a)), Lower(SortName(b)));
    }
    forall a: AppData, b: AppData, c: AppData | !NameBefore(a, b) && !NameBefore(b, c)
      ensures !NameBefore(a, c)
    {
      var x, y, z := Lower(SortName(a)), Lower(SortName(b)), Lower(SortName(c));
      StringLessTrichotomy(x, y);
      StringLessTrichotomy(y, z);
      StringLessTrichotomy(x, z);
      if StringLess(x, z) {
        if StringLess(y, x) {
          StringLessTransitive(y, x, z);
          if StringLess(z, y) {
            StringLessTransitive(z, y, x);
          }
        }
      }
    }
  }

  /** Apps ordered by their lower-cased sort names. */
  ghost predicate NamesOrdered(s: seq<AppData>) {
    forall i, j :: 0 <= i < j < |s| ==> !StringLess(Lower(SortName(s[j])), Lower(SortName(s[i])))
  }

  function SortApps(apps: seq<AppData>): seq<AppData> {
    Sort(apps, NameBefore)
  }

  /** The sorted list is a permutation of the apps, ordered by name without regard to case. */
  lemma SortAppsOrdered(apps: seq<AppData>)
    ensures multiset(SortApps(apps)) == multiset(apps)
    ensures NamesOrdered(SortApps(apps))
  {
    NameBeforeIsStrictWeak();
    SortSorted(apps, NameBefore);
    var s := SortApps(apps);
    assert SortedBy(s, NameBefore);
    forall i, j | 0 <= i < j < |s|
      ensures !StringLess(Lower(SortName(s[j])), Lower(SortName(s[i])))
    {
      assert !NameBefore(s[j], s[i]);
    }
  }

  // ---------------------------------------------------------------------
  // Tabs

  /** An `AppTabWidget`: its name, bundle identifier and version, and whether it is selected and visible. */
  datatype Tab = Tab(appName: string, bundleId: string, version: string, selected: bool, visible: bool)

  /** The name of an app's tab: the sort name, with " (System)" for system apps. */
  function TabName(a: AppData): string {
    var name := if a.displayName == "" then a.bundleId else a.displayName;
    if a.appType == "System" then name + " (System)" else name
  }

  /**
   * A tab's name starts with the name the apps are sorted by, is never
   * empty for a collected app, and only a system app's carries the
   * " (System)" marker after it.
   */
  lemma TabNameShape(a: AppData)
    ensures SortName(a) <= TabName(a)
    ensures a.bundleId != "" ==> TabName(a) != ""
    ensures a.appType == "System" ==> EndsWith(TabName(a), " (System)")
    ensures a.appType != "System" ==> |TabName(a)| == |SortName(a)|
  {
  }

  /** An app gets a tab unless only file-sharing apps are shown and it has none. */
  predicate Listed(a: AppData, fileSharingOnly: bool) {
    !fileSharingOnly || a.fileSharingEnabled
  }

  /** The tab `createAppTab` makes: not selected, visible. */
  function NewTab(a: AppData): Tab {
    Tab(TabName(a), a.bundleId, a.version, false, true)
  }

  /** The tabs the loop makes from the apps, in order. */
  function TabsFor(apps: seq<AppData>, fileSharingOnly: bool): (r: seq<Tab>)
    ensures |r| <= |apps|
    ensures !fileSharingOnly ==> |r| == |apps|
  {
    if |apps| == 0 then []
    else
      var init := TabsFor(apps[..|apps| - 1], fileSharingOnly);
      var last := apps[|apps| - 1];
      if Listed(last, fileSharingOnly) then init + [NewTab(last)] else init
  }

  /** The tabs of one app more: its tab is appended exactly when it is listed. */
  lemma TabsForSnoc(apps: seq<AppData>, k: nat, fileSharingOnly: bool)
    requires k < |apps|
    ensures TabsFor(apps[..k + 1], fileSharingOnly) ==
      if Listed(apps[k], fileSharingOnly) then TabsFor(apps[..k], fileSharingOnly) + [NewTab(apps[k])]
      else TabsFor(apps[..k], fileSharingOnly)
  {
    assert apps[..k + 1][..k] == apps[..k];
  }

  /** A tab is made for exactly the listed apps; none is selected and all are visible. */
  lemma {:induction false} TabsForExactly(apps: seq<AppData>, fileSharingOnly: bool, t: Tab)
    ensures t in TabsFor(apps, fileSharingOnly) <==>
      exists i :: 0 <= i < |apps| && Listed(apps[i], fileSharingOnly) && NewTab(apps[i]) == t
    ensures t in TabsFor(apps, fileSharingOnly) ==> !t.selected && t.visible
  {
    if |apps| > 0 {
      var init := apps[..|apps| - 1];
      TabsForExactly(init, fileSharingOnly, t);
      if t in TabsFor(init, fileSharingOnly) {
        var i :| 0 <= i < |init| && Listed(init[i], fileSharingOnly) && NewTab(init[i]) == t;
        assert apps[i] == init[i];
      }
      if exists i :: 0 <= i < |apps| && Listed(apps[i], fileSharingOnly) && NewTab(apps[i]) == t {
        var i :| 0 <= i < |apps| && Listed(apps[i], fileSharingOnly) && NewTab(apps[i]) == t;
        if i < |init| {
          assert init[i] == apps[i];
        }
      }
    }
  }

  /** `filterApps`'s test: every tab for an empty text, else the lower-cased name or bundle identifier contains it. */
  predicate TabMatches(t: Tab, searchText: string) {
    var q := Lower(searchText);
    q == "" || Contains(Lower(t.appName), q) || Contains(Lower(t.bundleId), q)
  }

  /** The test is a case-insensitive substring test, and an empty text shows everything. */
  lemma TabMatchesIgnoringCase(t: Tab, searchText: string)
    ensures searchText == "" ==> TabMatches(t, searchText)
    ensures searchText != "" ==>
      (TabMatches(t, searchText) <==>
       ContainsIgnoreCase(t.appName, searchText) || ContainsIgnoreCase(t.bundleId, searchText))
  {
    assert |Lower(searchText)| == |searchText|;
  }

  /** Typing one more character only ever hides tabs. */
  lemma TypingNarrows(t: Tab, searchText: string, c: char)
    ensures TabMatches(t, searchText + [c]) ==> TabMatches(t, searchText)
  {
    var q := Lower(searchText);
    var q' := Lower(searchText + [c]);
    LowerAppend(searchText, [c]);
    assert q' == q + [LowerChar(c)];
    if q != "" {
      ContainsPrefix(Lower(t.appName), q, q');
      ContainsPrefix(Lower(t.bundleId), q, q');
    }
  }

  /** A text that contains a string contains each of its prefixes. */
  lemma ContainsPrefix(s: string, q: string, q': string)
    requires q <= q'
    ensures Contains(s, q') ==> Contains(s, q)
  {
    if Contains(s, q') {
      var i :| 0 <= i <= |s| - |q'| && OccursAt(s, q', i);
      assert s[i..i + |q|] == s[i..i + |q'|][..|q|];
      assert OccursAt(s, q, i);
    }
  }

  lemma {:induction false} LowerAppend(a: string, b: string)
    ensures Lower(a + b) == Lower(a) + Lower(b)
  {
    assert |Lower(a + b)| == |a + b|;
  }

  /** The system apps' names end with " (System)", so that text finds every one of them. */
  lemma SystemTextFindsSystemApps(a: AppData)
    requires a.appType == "System"
    ensures TabMatches(NewTab(a), "(system)")
  {
    var n := SortName(a);
    var suffix := " (System)";
    LowerAppend(n, suffix);
    var lowSuffix := Lower(suffix);
    assert LowerChar('S') == 's';
    assert lowSuffix == " (system)";
    var q := "(system)";
    assert Lower(q) == q;
    var l := Lower(NewTab(a).appName);
    assert l == Lower(n) + lowSuffix;
    assert l[|n| + 1..|n| + 9] == lowSuffix[1..];
    assert OccursAt(l, q, |n| + 1);
  }

  /** The tab selection: every tab except the selected one is deselected. */
  ghost predicate SelectionConsistent(tabs: seq<Tab>, selected: Option<nat>) {
    (selected.Some? ==> selected.value < |tabs|) &&
    forall i :: 0 <= i < |tabs| ==> (tabs[i].selected <==> selected == Some(i))
  }

  /** At most one tab is selected, and that is the one the widget remembers. */
  lemma AtMostOneSelected(tabs: seq<Tab>, selected: Option<nat>, i: nat, j: nat)
    requires SelectionConsistent(tabs, selected)
    requires i < |tabs| && j < |tabs| && tabs[i].selected && tabs[j].selected
    ensures i == j && selected == Some(i)
  {
  }

  /** What the widget shows: the error text, or the content with the tabs. */
  datatype View = Loading | ErrorView(message: string) | Content

  /** The map the job returns. */
  datatype AppsResult = AppsResult(success: bool, error: Option<string>, apps: seq<AppData>)

  // ---------------------------------------------------------------------
  // `m_appTabs` as written

  /**
   * `createAppTab` appends each new tab to `m_appTabs` twice: after `n`
   * tabs the list holds the identities 0, 0, 1, 1, ….
   */
  function AsWrittenTabList(n: nat): (r: seq<nat>)
    ensures |r| == 2 * n
  {
    if n == 0 then [] else AsWrittenTabList(n - 1) + [n - 1, n - 1]
  }

  /** How often `qDeleteAll(list)` deletes the tab `w`. */
  function Deletions(list: seq<nat>, w: nat): nat {
    if |list| == 0 then 0
    else Deletions(list[..|list| - 1], w) + (if list[|list| - 1] == w then 1 else 0)
  }

  lemma {:induction false} DeletionsAppend(a: seq<nat>, b: seq<nat>, w: nat)
    ensures Deletions(a + b, w) == Deletions(a, w) + Deletions(b, w)
    decreases |b|
  {
    if |b| > 0 {
      var b' := b[..|b| - 1];
      assert (a + b)[..|a + b| - 1] == a + b';
      DeletionsAppend(a, b', w);
    } else {
      assert a + b == a;
    }
  }

  /** Deleting a tab listed twice: two deletions of it, none of any other. */
  lemma DeletionsOfPair(x: nat, w: nat)
    ensures Deletions([x, x], w) == if x == w then 2 else 0
  {
    var one := if x == w then 1 else 0;
    assert [x, x][..1] == [x];
    assert [x][..0] == [];
    assert Deletions([x], w) == Deletions([], w) + one;
    assert Deletions([x, x], w) == Deletions([x], w) + one;
  }

  /** The next reload's `qDeleteAll(m_appTabs)` therefore deletes every tab twice. */
  lemma {:induction false} AsWrittenDeletesTwice(n: nat, w: nat)
    requires w < n
    ensures Deletions(AsWrittenTabList(n), w) == 2
  {
    var prev := AsWrittenTabList(n - 1);
    DeletionsAppend(prev, [n - 1, n - 1], w);
    DeletionsOfPair(n - 1, w);
    if w < n - 1 {
      AsWrittenDeletesTwice(n - 1, w);
    } else {
      AsWrittenNeverHolds(n - 1, w);
    }
  }

  lemma {:induction false} AsWrittenNeverHolds(n: nat, w: nat)
    requires w >= n
    ensures Deletions(AsWrittenTabList(n), w) == 0
  {
    if n > 0 {
      var prev := AsWrittenTabList(n - 1);
      DeletionsAppend(prev, [n - 1, n - 1], w);
      DeletionsOfPair(n - 1, w);
      AsWrittenNeverHolds(n - 1, w);
    }
  }

  /** The identities of `n` tabs appended once each, as the corrected `createAppTab` does. */
  function TabList(n: nat): (r: seq<nat>)
    ensures |r| == n
    ensures forall i :: 0 <= i < n ==> r[i] == i
  {
    if n == 0 then [] else TabList(n - 1) + [n - 1]
  }

  /** Appended once, every tab is deleted exactly once. */
  lemma {:induction false} EachTabDeletedOnce(n: nat, w: nat)
    requires w < n
    ensures Deletions(TabList(n), w) == 1
  {
    var list := TabList(n);
    var prev := TabList(n - 1);
    assert list[..n - 1] == prev;
    assert list[n - 1] == n - 1;
    assert Deletions(list, w) == Deletions(prev, w) + (if n - 1 == w then 1 else 0);
    if w < n - 1 {
      EachTabDeletedOnce(n - 1, w);
    } else {
      TabListMisses(n - 1, w);
    }
  }

  lemma {:induction false} TabListMisses(n: nat, w: nat)
    requires w >= n
    ensures Deletions(TabList(n), w) == 0
  {
    if n > 0 {
      assert TabList(n)[..n - 1] == TabList(n - 1);
      TabListMisses(n - 1, w);
    }
  }

  // ---------------------------------------------------------------------
  // The widget

  class InstalledAppsWidget {
    /** `m_appTabs`, one entry per tab. */
    var tabs: seq<Tab>
    /** `m_selectedTab`, as a position in `tabs`. */
    var selected: Option<nat>
    var view: View
    /** The "Show Only File Sharing Enabled" check box. */
    var fileSharingOnly: bool
    /** Whether `m_device` and its device handle are set. */
    var deviceOk: bool
    /** The bundle identifiers whose container `loadAppContainer` started to list, in order. */
    var containerLoads: seq<string>

    ghost predicate Valid()
      reads this
    {
      SelectionConsistent(tabs, selected)
    }

    /** The widget starts with no tabs and the check box on. */
    constructor(deviceOk: bool)
      ensures Valid()
      ensures tabs == [] && selected == None && view == Loading && fileSharingOnly
      ensures this.deviceOk == deviceOk && containerLoads == []
    {
      tabs := [];
      selected := None;
      view := Loading;
      fileSharingOnly := true;
      this.deviceOk := deviceOk;
      containerLoads := [];
    }

    /** `createAppTab`: a new tab, unselected and visible, at the end (appended once). */
    method CreateAppTab(appName: string, bundleId: string, version: string)
      requires Valid()
      modifies this
      ensures Valid()
      ensures tabs == old(tabs) + [Tab(appName, bundleId, version, false, true)]
      ensures selected == old(selected) && view == old(view) && fileSharingOnly == old(fileSharingOnly)
      ensures deviceOk == old(deviceOk) && containerLoads == old(containerLoads)
    {
      tabs := tabs + [Tab(appName, bundleId, version, false, true)];
    }

    /**
     * `selectAppTab`: the previous tab is deselected and the chosen one
     * selected; with a valid device its container starts loading.
     */
    method SelectAppTab(i: nat)
      requires Valid() && i < |tabs|
      modifies this
      ensures Valid()
      ensures selected == Some(i)
      ensures |tabs| == |old(tabs)|
      ensures forall j :: 0 <= j < |tabs| ==> tabs[j] == old(tabs[j]).(selected := j == i)
      ensures containerLoads == old(containerLoads) + (if deviceOk then [old(tabs[i]).bundleId] else [])
      ensures view == old(view) && fileSharingOnly == old(fileSharingOnly) && deviceOk == old(deviceOk)
    {
      if selected.Some? {
        var p := selected.value;
        tabs := tabs[p := tabs[p].(selected := false)];
      }
      selected := Some(i);
      tabs := tabs[i := tabs[i].(selected := true)];
      var bundleId := tabs[i].bundleId;
      if deviceOk {
        containerLoads := containerLoads + [bundleId];
      }
    }

    /** `filterApps`: each tab's visibility becomes the outcome of the search test. */
    method FilterApps(searchText: string)
      requires Valid()
      modifies this
      ensures Valid()
      ensures |tabs| == |old(tabs)|
      ensures forall j :: 0 <= j < |tabs| ==> tabs[j] == old(tabs[j]).(visible := TabMatches(old(tabs[j]), searchText))
      ensures selected == old(selected) && view == old(view) && fileSharingOnly == old(fileSharingOnly)
      ensures deviceOk == old(deviceOk) && containerLoads == old(containerLoads)
    {
      var lowerSearchText := Lower(searchText);
      var i := 0;
      while i < |tabs|
        invariant 0 <= i <= |tabs| == |old(tabs)|
        invariant selected == old(selected) && view == old(view) && fileSharingOnly == old(fileSharingOnly)
        invariant deviceOk == old(deviceOk) && containerLoads == old(containerLoads)
        invariant forall j :: 0 <= j < i ==> tabs[j] == old(tabs[j]).(visible := TabMatches(old(tabs[j]), searchText))
        invariant forall j :: i <= j < |tabs| ==> tabs[j] == old(tabs[j])
      {
        var shouldShow := false;
        if lowerSearchText == "" {
          shouldShow := true;
        } else {
          var appName := Lower(tabs[i].appName);
          var bundleId := Lower(tabs[i].bundleId);
          shouldShow := Contains(appName, lowerSearchText) || Contains(bundleId, lowerSearchText);
        }
        tabs := tabs[i := tabs[i].(visible := shouldShow)];
        i := i + 1;
      }
    }

    /** The loop of `onAppsDataReady` that makes the tabs of the sorted apps. */
    method MakeTabs(apps: seq<AppData>)
      requires tabs == [] && selected == None
      modifies this
      ensures Valid() && selected == None
      ensures tabs == TabsFor(apps, fileSharingOnly)
      ensures view == old(view) && containerLoads == old(containerLoads)
      ensures fileSharingOnly == old(fileSharingOnly) && deviceOk == old(deviceOk)
    {
      for k := 0 to |apps|
        invariant Valid() && selected == None
        invariant tabs == TabsFor(apps[..k], fileSharingOnly)
        invariant view == old(view) && containerLoads == old(containerLoads)
        invariant fileSharingOnly == old(fileSharingOnly) && deviceOk == old(deviceOk)
      {
        TabsForSnoc(apps, k, fileSharingOnly);
        var app := apps[k];
        if fileSharingOnly && !app.fileSharingEnabled {
          continue;
        }
        var displayName := app.displayName;
        if displayName == "" {
          displayName := app.bundleId;
        }
        var tabName := displayName;
        if app.appType == "System" {
          tabName := tabName + " (System)";
        }
        CreateAppTab(tabName, app.bundleId, app.version);
      }
      assert apps[..|apps|] == apps;
    }

    /**
     * `onAppsDataReady`: a failed job shows its error ("Unknown error"
     * without one) and an empty list "No apps found", leaving the tabs;
     * otherwise the apps are sorted, the old tabs dropped, one tab made
     * per listed app, and the first tab selected.
     */
    method OnAppsDataReady(result: AppsResult)
      requires Valid()
      modifies this
      ensures Valid()
      ensures !result.success ==>
        view == ErrorView(result.error.GetOr("Unknown error")) && tabs == old(tabs) && selected == old(selected) &&
        containerLoads == old(containerLoads)
      ensures result.success && result.apps == [] ==>
        view == ErrorView("No apps found") && tabs == old(tabs) && selected == old(selected) &&
        containerLoads == old(containerLoads)
      ensures result.success && result.apps != [] ==>
        view == Content &&
        var made := TabsFor(SortApps(result.apps), fileSharingOnly);
        |tabs| == |made| &&
        (made == [] ==> selected == None && containerLoads == old(containerLoads)) &&
        (made != [] ==> selected == Some(0) && tabs[0] == made[0].(selected := true) &&
                         (forall j :: 0 < j < |tabs| ==> tabs[j] == made[j]) &&
                         containerLoads == old(containerLoads) + (if deviceOk then [made[0].bundleId] else []))
      ensures fileSharingOnly == old(fileSharingOnly) && deviceOk == old(deviceOk)
    {
      if !result.success {
        view := ErrorView(result.error.GetOr("Unknown error"));
        return;
      }
      var apps := result.apps;
      if apps == [] {
        view := ErrorView("No apps found");
        return;
      }
      view := Content;
      apps := SortApps(apps);
      tabs := [];
      selected := None;
      MakeTabs(apps);
      if tabs != [] {
        SelectAppTab(0);
      }
    }
  }

  // ---------------------------------------------------------------------
  // The container listing

  /** Dropping the dot entries commutes with appending a name. */
  lemma {:induction false} NonDotSnoc(names: seq<string>, x: string)
    ensures NonDot(names + [x]) == NonDot(names) + (if IsDotName(x) then [] else [x])
  {
    if |names| == 0 {
      assert names + [x] == [x];
      assert [x][1..] == [];
    } else {
      assert (names + [x])[1..] == names[1..] + [x];
      NonDotSnoc(names[1..], x);
    }
  }

  /** The listing loop; a null listing gives no files. */
  method ListFiles(list: Option<seq<string>>) returns (files: seq<string>)
    ensures list.None? ==> files == []
    ensures list.Some? ==> files == NonDot(list.value)
  {
    files := [];
    if list.Some? {
      var names := list.value;
      var i := 0;
      while i < |names|
        invariant 0 <= i <= |names|
        invariant files == NonDot(names[..i])
      {
        assert names[..i + 1] == names[..i] + [names[i]];
        NonDotSnoc(names[..i], names[i]);
        var fileName := names[i];
        if fileName != "." && fileName != ".." {
          files := files + [fileName];
        }
        i := i + 1;
      }
      assert names[..|names|] == names;
    }
  }
}
