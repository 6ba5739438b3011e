/**
 * Local file-system path arithmetic shared by the two export engines:
 * `QDir::filePath`, the file-name extraction of a device path, the
 * `QFileInfo` split of a path into directory, base name and suffix, and
 * the `_<n>` renaming that picks an output path not yet on disk.
 */
module Paths {
  import opened Text

  /** The path a `QDir` keeps for `dir`: "." for the empty path, one trailing '/' dropped. */
  function DirPath(dir: string): (r: string)
    ensures |r| > 0
    ensures r == "/" || !EndsWith(r, "/") || EndsWith(dir, "//")
  {
    if dir == "" then "."
    else if |dir| > 1 && dir[|dir| - 1] == '/' then dir[..|dir| - 1]
    else dir
  }

  /**
   * `QDir(dir).filePath(name)`: an absolute name is returned as it is, an
   * empty one gives the directory, and otherwise the two are joined by a
   * single '/'.
   */
  function FilePath(dir: string, name: string): (r: string)
    ensures |r| > 0
  {
    var d := DirPath(dir);
    if StartsWith(name, "/") then name
    else if name == "" then d
    else if d[|d| - 1] == '/' then d + name
    else d + "/" + name
  }

  /**
   * An absolute name is kept; otherwise the path starts with the
   * directory, ends with the name, and a '/' separates the two.
   */
  lemma FilePathShape(dir: string, name: string)
    ensures StartsWith(name, "/") ==> FilePath(dir, name) == name
    ensures !StartsWith(name, "/") ==> StartsWith(FilePath(dir, name), DirPath(dir)) && EndsWith(FilePath(dir, name), name)
    ensures var r := FilePath(dir, name);
      !StartsWith(name, "/") && name != "" ==> '/' in r[..|r| - |name|]
  {
    var d := DirPath(dir);
    if !StartsWith(name, "/") && name != "" {
      if d[|d| - 1] == '/' {
        assert (d + name)[..|d + name| - |name|] == d;
        assert (d + name)[|d + name| - |name|..] == name;
      } else {
        assert (d + "/" + name)[..|d + "/" + name| - |name|] == d + "/";
        assert (d + "/" + name)[|d + "/" + name| - |name|..] == name;
      }
    }
  }

  /**
   * `extractFileName`: the text after the last '/', when there is a '/'
   * that is not the final character; otherwise the whole path.
   */
  function ExtractFileName(devicePath: string): string {
    var k := LastIndexOf(devicePath, '/');
    if k != -1 && k < |devicePath| - 1 then devicePath[k + 1..] else devicePath
  }

  /** With a '/' before the end, the name is the non-empty, slash-free text after the last one. */
  lemma ExtractFileNameShape(devicePath: string)
    ensures var k := LastIndexOf(devicePath, '/');
      var r := ExtractFileName(devicePath);
      if k != -1 && k < |devicePath| - 1 then
        r == devicePath[k + 1..] && r != "" && '/' !in r
      else r == devicePath
  {
    AfterLastAvoids(devicePath, '/');
  }

  /** Appending text free of `c` does not move the last `c`. */
  lemma {:induction false} LastIndexOfAppend(pre: string, name: string, c: char)
    requires c !in name
    ensures LastIndexOf(pre + name, c) == LastIndexOf(pre, c)
    decreases |name|
  {
    if |name| > 0 {
      var s := pre + name;
      assert s[..|s| - 1] == pre + name[..|name| - 1];
      assert s[|s| - 1] == name[|name| - 1];
      LastIndexOfAppend(pre, name[..|name| - 1], c);
    } else {
      assert pre + name == pre;
    }
  }

  /** Taking the file name back out of `dir/name` gives `name`, for a plain name. */
  lemma ExtractFileNameOfFilePath(dir: string, name: string)
    requires name != "" && '/' !in name
    ensures ExtractFileName(FilePath(dir, name)) == name
  {
    var d := DirPath(dir);
    var pre := if d[|d| - 1] == '/' then d else d + "/";
    assert FilePath(dir, name) == pre + name;
    assert pre[|pre| - 1] == '/';
    LastIndexOfAppend(pre, name, '/');
    assert (pre + name)[|pre|..] == name;
  }

  // ---------------------------------------------------------------------
  // QFileInfo decomposition

  /** Nothing after the last `c` is a `c`. */
  lemma AfterLastAvoids(s: string, c: char)
    ensures c !in s[LastIndexOf(s, c) + 1..]
  {
    var k := LastIndexOf(s, c);
    var t := s[k + 1..];
    LastIndexOfIsLast(s, c);
    forall j | 0 <= j < |t|
      ensures t[j] != c
    {
      assert t[j] == s[k + 1 + j];
    }
  }

  /** The last path component (`QFileInfo::fileName`). */
  function FileNameOf(path: string): string {
    path[LastIndexOf(path, '/') + 1..]
  }

  /** The last component holds no '/'. */
  lemma FileNameOfHasNoSlash(path: string)
    ensures '/' !in FileNameOf(path)
  {
    AfterLastAvoids(path, '/');
  }

  /**
   * The directory of a path (`QFileInfo::absolutePath` of an absolute
   * path): everything before the last '/', or "/" for a top-level entry.
   * A path without '/' gives "." and a doubled "//" is not cleaned up;
   * neither happens for the absolute paths it is applied to.
   */
  function DirectoryOf(path: string): (r: string)
    ensures |r| > 0
  {
    var k := LastIndexOf(path, '/');
    if k < 0 then "." else if k == 0 then "/" else path[..k]
  }

  /** `QFileInfo::completeBaseName`: the file name up to its last '.'. */
  function CompleteBaseName(fileName: string): string {
    var k := LastIndexOf(fileName, '.');
    if k < 0 then fileName else fileName[..k]
  }

  /** `QFileInfo::suffix`: the part after the last '.', or "" without one. */
  function Suffix(fileName: string): string {
    var k := LastIndexOf(fileName, '.');
    if k < 0 then "" else fileName[k + 1..]
  }

  /**
   * The base name is a prefix of the file name and the suffix a '.'-free
   * ending of it; with a '.' present, base name, '.' and suffix make up
   * the file name again, and without one the base name is all of it.
   */
  lemma BaseNameAndSuffix(fileName: string)
    ensures CompleteBaseName(fileName) <= fileName
    ensures '.' !in Suffix(fileName) && EndsWith(fileName, Suffix(fileName))
    ensures '.' !in fileName ==> Suffix(fileName) == "" && CompleteBaseName(fileName) == fileName
    ensures '.' in fileName ==> CompleteBaseName(fileName) + "." + Suffix(fileName) == fileName
  {
    var k := LastIndexOf(fileName, '.');
    AfterLastAvoids(fileName, '.');
    if '.' in fileName {
      var i :| 0 <= i < |fileName| && fileName[i] == '.';
      LastIndexOfIsLast(fileName, '.');
      assert k >= i;
      assert fileName == fileName[..k] + "." + fileName[k + 1..];
    }
  }

  /** The `n`-th renaming of a file name: `<completeBaseName>_<n>[.<suffix>]`. */
  function CandidateName(fileName: string, n: nat): string {
    var stem := CompleteBaseName(fileName) + "_" + NatToString(n);
    var suffix := Suffix(fileName);
    if suffix != "" then stem + "." + suffix else stem
  }

  /** The renaming keeps the base name and the suffix, with `_<n>` between them. */
  lemma CandidateNameShape(fileName: string, n: nat)
    ensures StartsWith(CandidateName(fileName, n), CompleteBaseName(fileName) + "_" + NatToString(n))
    ensures Suffix(fileName) != "" ==> EndsWith(CandidateName(fileName, n), "." + Suffix(fileName))
    ensures Suffix(fileName) == "" ==> CandidateName(fileName, n) == CompleteBaseName(fileName) + "_" + NatToString(n)
  {
    var stem := CompleteBaseName(fileName) + "_" + NatToString(n);
    var suffix := Suffix(fileName);
    if suffix != "" {
      assert (stem + "." + suffix)[|stem + "." + suffix| - |"." + suffix|..] == "." + suffix;
    }
  }

  /** The `n`-th candidate output path, in the directory of `basePath`. */
  function Candidate(basePath: string, n: nat): string {
    FilePath(DirectoryOf(basePath), CandidateName(FileNameOf(basePath), n))
  }

  // ---------------------------------------------------------------------
  // generateUniqueOutputPath

  /** The last counter value tried; the do-while stops once `counter` reaches 10000. */
  const LastCounter: nat := 9999

  /** Every candidate from `from` up to (not including) `n` is already on disk. */
  ghost predicate TakenBelow(candidate: nat -> string, existing: set<string>, from: nat, n: nat) {
    forall m :: from <= m < n ==> candidate(m) in existing
  }

  /** The first candidate from `n` on that is free, or the last one tried. */
  function FirstFree(candidate: nat -> string, existing: set<string>, n: nat): string
    requires 1 <= n <= LastCounter
    decreases LastCounter - n
  {
    if candidate(n) !in existing || n == LastCounter then candidate(n) else FirstFree(candidate, existing, n + 1)
  }

  /** Candidate `m` is the answer: every earlier one from `n` is taken, and it is free or the last. */
  ghost predicate FirstFreeIs(candidate: nat -> string, existing: set<string>, n: nat, m: nat, r: string) {
    n <= m <= LastCounter && r == candidate(m) &&
    (r !in existing || m == LastCounter) && TakenBelow(candidate, existing, n, m)
  }

  lemma {:induction false} FirstFreeChoice(candidate: nat -> string, existing: set<string>, n: nat) returns (m: nat)
    requires 1 <= n <= LastCounter
    decreases LastCounter - n
    ensures FirstFreeIs(candidate, existing, n, m, FirstFree(candidate, existing, n))
  {
    if candidate(n) !in existing || n == LastCounter {
      m := n;
    } else {
      m := FirstFreeChoice(candidate, existing, n + 1);
      assert TakenBelow(candidate, existing, n, m);
    }
  }

  /** The candidates `generateUniqueOutputPath` tries for `basePath`. */
  function Candidates(basePath: string): nat -> string {
    (n: nat) => Candidate(basePath, n)
  }

  /**
   * `generateUniqueOutputPath`: the base path when it is free, otherwise
   * the first free `_<n>` candidate for n = 1 .. 9999, or candidate 9999
   * when all of them are taken.
   */
  function UniqueOutputPath(basePath: string, existing: set<string>): (r: string)
    ensures basePath !in existing ==> r == basePath
  {
    if basePath !in existing then basePath else FirstFree(Candidates(basePath), existing, 1)
  }

  /** The renaming rule in full: the first free candidate, or the last one when none is free. */
  lemma UniqueOutputPathRule(basePath: string, existing: set<string>)
    requires basePath in existing
    ensures exists m :: FirstFreeIs(Candidates(basePath), existing, 1, m, UniqueOutputPath(basePath, existing))
  {
    var m := FirstFreeChoice(Candidates(basePath), existing, 1);
    assert FirstFreeIs(Candidates(basePath), existing, 1, m, UniqueOutputPath(basePath, existing));
  }

  /** When some candidate is free, the first-free search returns a free one. */
  lemma FirstFreeWhenRoom(candidate: nat -> string, existing: set<string>, n: nat)
    requires 1 <= n <= LastCounter && candidate(n) !in existing
    ensures FirstFree(candidate, existing, 1) !in existing
  {
    var m := FirstFreeChoice(candidate, existing, 1);
    assert n >= m;
  }

  /** When some candidate is free, the chosen path is free. */
  lemma UniquePathFreeWhenRoom(basePath: string, existing: set<string>, n: nat)
    requires 1 <= n <= LastCounter && Candidate(basePath, n) !in existing
    ensures UniqueOutputPath(basePath, existing) !in existing
  {
    if basePath in existing {
      assert Candidates(basePath)(n) == Candidate(basePath, n);
      FirstFreeWhenRoom(Candidates(basePath), existing, n);
    }
  }

  /** When every candidate is taken, the search ends on the last one. */
  lemma FirstFreeGivesUp(candidate: nat -> string, existing: set<string>)
    requires forall m :: 1 <= m <= LastCounter ==> candidate(m) in existing
    ensures FirstFree(candidate, existing, 1) == candidate(LastCounter)
  {
    var m := FirstFreeChoice(candidate, existing, 1);
  }

  /** When every candidate is taken, the path of candidate 9999 is returned although it exists. */
  lemma UniquePathGivesUp(basePath: string, existing: set<string>)
    requires basePath in existing
    requires forall m :: 1 <= m <= LastCounter ==> Candidate(basePath, m) in existing
    ensures UniqueOutputPath(basePath, existing) == Candidate(basePath, LastCounter)
    ensures UniqueOutputPath(basePath, existing) in existing
  {
    var c := Candidates(basePath);
    assert forall m :: 1 <= m <= LastCounter ==> c(m) == Candidate(basePath, m);
    FirstFreeGivesUp(c, existing);
  }

  /** The do-while loop of `generateUniqueOutputPath`, with the files on disk given as `existing`. */
  method GenerateUniqueOutputPath(basePath: string, existing: set<string>) returns (uniquePath: string)
    ensures uniquePath == UniqueOutputPath(basePath, existing)
  {
    if basePath !in existing {
      return basePath;
    }
    var counter := 1;
    while true
      invariant 1 <= counter <= LastCounter
      invariant FirstFree(Candidates(basePath), existing, 1) == FirstFree(Candidates(basePath), existing, counter)
      decreases LastCounter - counter
    {
      uniquePath := Candidate(basePath, counter);
      counter := counter + 1;
      if !(uniquePath in existing && counter < 10000) {
        return;
      }
    }
  }
}
