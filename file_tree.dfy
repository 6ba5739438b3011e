/**
 * `get_file_tree`: list a device directory and classify each entry as a
 * directory or not, asking the device for each entry's file info and,
 * for a symbolic link, whether its target can be listed.
 */
module FileTree {
  import opened Wrappers
  import opened Afc

  predicate IsDotName(name: string) { name == "." || name == ".." }

  /** The path of `name` inside `path`: one '/' between them unless `path` already ends in one. */
  function ChildPath(path: string, name: string): (r: string)
    requires |path| > 0
    ensures path <= r && |r| >= |name| && r[|r| - |name|..] == name
    ensures path[|path| - 1] == '/' ==> |r| == |path| + |name|
    ensures path[|path| - 1] != '/' ==> |r| == |path| + 1 + |name| && r[|path|] == '/'
  {
    if path[|path| - 1] == '/' then path + name else path + "/" + name
  }

  /** The listing names that become entries, in listing order. */
  function NonDot(names: seq<string>): seq<string> {
    if |names| == 0 then []
    else if IsDotName(names[0]) then NonDot(names[1..])
    else [names[0]] + NonDot(names[1..])
  }

  /** `NonDot` keeps exactly the names other than "." and "..". */
  lemma {:induction false} NonDotMembers(names: seq<string>)
    ensures |NonDot(names)| <= |names|
    ensures forall x :: x in NonDot(names) <==> x in names && !IsDotName(x)
  {
    if |names| > 0 {
      NonDotMembers(names[1..]);
      assert names == [names[0]] + names[1..];
    }
  }

  /**
   * Whether the entry at `child` counts as a directory: its first
   * `st_ifmt` is `S_IFDIR`, or it is `S_IFLNK` and the link lists as a
   * directory. Missing file info means not a directory.
   */
  function EntryIsDir(child: string, afc: AfcCall -> AfcOutcome): bool {
    match InfoPairs(afc(GetFileInfo(child)))
    case None => false
    case Some(info) =>
      var fmt := FirstValue(info, "st_ifmt");
      fmt == Some("S_IFDIR") || (fmt == Some("S_IFLNK") && Listing(afc(ReadDirectory(child))).Some?)
  }

  /** One entry per non-dot listing name, in listing order, classified by `EntryIsDir`. */
  function Entries(path: string, names: seq<string>, afc: AfcCall -> AfcOutcome): seq<MediaEntry>
    requires |path| > 0
  {
    if |names| == 0 then []
    else if IsDotName(names[0]) then Entries(path, names[1..], afc)
    else [MediaEntry(names[0], EntryIsDir(ChildPath(path, names[0]), afc))] + Entries(path, names[1..], afc)
  }

  /**
   * The entries are the non-dot names, in listing order, each with the
   * directory flag of its child path; stat failures still give an entry.
   */
  lemma {:induction false} EntriesShape(path: string, names: seq<string>, afc: AfcCall -> AfcOutcome)
    requires |path| > 0
    ensures |Entries(path, names, afc)| == |NonDot(names)|
    ensures forall k :: 0 <= k < |NonDot(names)| ==>
      Entries(path, names, afc)[k] == MediaEntry(NonDot(names)[k], EntryIsDir(ChildPath(path, NonDot(names)[k]), afc))
  {
    if |names| > 0 {
      EntriesShape(path, names[1..], afc);
    }
  }

  /** "." and ".." never appear among the entries. */
  lemma NoDotEntries(path: string, names: seq<string>, afc: AfcCall -> AfcOutcome)
    requires |path| > 0
    ensures forall e :: e in Entries(path, names, afc) ==> !IsDotName(e.name)
  {
    var r := Entries(path, names, afc);
    EntriesShape(path, names, afc);
    NonDotMembers(names);
    forall e | e in r
      ensures !IsDotName(e.name)
    {
      var k :| 0 <= k < |r| && r[k] == e;
      assert NonDot(names)[k] in NonDot(names);
    }
  }

  lemma EntriesStep(path: string, names: seq<string>, afc: AfcCall -> AfcOutcome)
    requires |path| > 0 && |names| > 0
    ensures Entries(path, names, afc) ==
      (if IsDotName(names[0]) then [] else [MediaEntry(names[0], EntryIsDir(ChildPath(path, names[0]), afc))])
      + Entries(path, names[1..], afc)
  {
  }

  /** The result `get_file_tree` builds from a successful listing. */
  function ListedTree(path: string, names: seq<string>, afc: AfcCall -> AfcOutcome): FileTree
    requires |path| > 0
  {
    FileTree(Entries(path, names, afc), true, path)
  }

  /** The per-entry classification: file info, its first `st_ifmt`, and the symbolic-link probe. */
  method ClassifyEntry(fullPath: string, afc: AfcCall -> AfcOutcome) returns (isDir: bool)
    ensures isDir == EntryIsDir(fullPath, afc)
  {
    isDir := false;
    var info := InfoPairs(afc(GetFileInfo(fullPath)));
    if info.Some? {
      var fmt := FindInfoValue(info.value, "st_ifmt");
      if fmt == Some("S_IFDIR") {
        isDir := true;
      } else if fmt == Some("S_IFLNK") {
        if Listing(afc(ReadDirectory(fullPath))).Some? {
          isDir := true;
        }
      }
    }
  }

  /**
   * `get_file_tree`. `clientSet` is `afcClient != nullptr`. The path is
   * non-empty whenever the listing is read, because the source calls
   * `back()` on it.
   */
  method GetFileTree(clientSet: bool, path: string, afc: AfcCall -> AfcOutcome) returns (result: FileTree)
    requires clientSet && Listing(afc(ReadDirectory(path))).Some? ==> |path| > 0
    ensures result.currentPath == path
    ensures !clientSet ==> !result.success && result.entries == []
    ensures clientSet && Listing(afc(ReadDirectory(path))).None? ==> !result.success && result.entries == []
    ensures clientSet && Listing(afc(ReadDirectory(path))).Some? ==>
              result == ListedTree(path, Listing(afc(ReadDirectory(path))).value, afc)
  {
    result := FileTree([], false, path);
    if !clientSet {
      return;
    }
    var listing := Listing(afc(ReadDirectory(path)));
    if listing.None? {
      return;
    }
    var dirs := listing.value;
    var entries: seq<MediaEntry> := [];
    var i := 0;
    while i < |dirs|
      invariant 0 <= i <= |dirs|
      invariant entries + Entries(path, dirs[i..], afc) == Entries(path, dirs, afc)
    {
      EntriesStep(path, dirs[i..], afc);
      assert dirs[i..][1..] == dirs[i + 1..];
      var entryName := dirs[i];
      if !IsDotName(entryName) {
        var isDir := ClassifyEntry(ChildPath(path, entryName), afc);
        assert entries + [MediaEntry(entryName, isDir)] + Entries(path, dirs[i + 1..], afc)
            == entries + ([MediaEntry(entryName, isDir)] + Entries(path, dirs[i + 1..], afc));
        entries := entries + [MediaEntry(entryName, isDir)];
      }
      i := i + 1;
    }
    assert dirs[i..] == [];
    result := FileTree(entries, true, path);
  }
}
