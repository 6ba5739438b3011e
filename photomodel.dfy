/**
 * `PhotoModel`: the list model behind the gallery's photo grid. It holds
 * every media file of one album (`m_allPhotos`), the filtered and sorted
 * rows the view shows (`m_photos`), and the bookkeeping that keeps one
 * thumbnail loader per file (`m_loadingPaths`, `m_activeLoaders`).
 *
 * The timestamp of a file is an integer supplied by the caller (the
 * device's file information is an input of the model); a cache key is
 * the pair of file path and thumbnail size that the MD5 digest is taken
 * of, so two keys are equal exactly when their inputs are.
 */
module PhotoModel {
  import opened Wrappers
  import opened Text
  import opened Sorting

  datatype FileType = Image | Video
  datatype SortOrder = NewestFirst | OldestFirst
  datatype FilterType = All | ImagesOnly | VideosOnly

  /** `PhotoInfo`; `dateTime` is the file's timestamp in seconds. */
  datatype PhotoInfo = PhotoInfo(filePath: string, fileName: string, thumbnailRequested: bool,
                                 fileType: FileType, dateTime: int)

  /** The input of `getThumbnailCacheKey`: the path and the thumbnail size. */
  datatype CacheKey = CacheKey(filePath: string, width: int, height: int)

  /** A `QModelIndex` handed to the model: invalid, or a row. */
  datatype ModelIndex = Invalid | Index(row: int)

  /** What the decoration role yields. */
  datatype Decoration = NoDecoration | CachedIcon(key: CacheKey) | VideoPlaceholder | ImagePlaceholder

  // ---------------------------------------------------------------------
  // File names

  /** A lower-case name ending in one of the video suffixes. */
  predicate VideoSuffix(lower: string) {
    EndsWith(lower, ".mov") || EndsWith(lower, ".mp4") || EndsWith(lower, ".m4v")
  }

  /** A lower-case name ending in an image or a video suffix. */
  predicate MediaSuffix(lower: string) {
    EndsWith(lower, ".jpg") || EndsWith(lower, ".png") || EndsWith(lower, ".heic") || VideoSuffix(lower)
  }

  /** A name ending, in any case, in .MOV, .MP4 or .M4V. */
  predicate IsVideoName(name: string) {
    VideoSuffix(Lower(name))
  }

  /** A name `populatePhotoPaths` keeps: .JPG, .PNG, .HEIC or a video suffix, in any case. */
  predicate IsMediaName(name: string) {
    MediaSuffix(Lower(name))
  }

  /** `determineFileType`: Video for the three video suffixes, Image for every other name. */
  function DetermineFileType(name: string): (t: FileType)
    ensures t == Video <==> IsVideoName(name)
  {
    if IsVideoName(name) then Video else Image
  }

  lemma LowerUpperChar(c: char)
    ensures LowerChar(UpperChar(c)) == LowerChar(c)
  {
  }

  /** Case folding erases the difference between a name and its upper-case form. */
  lemma LowerOfUpper(s: string)
    ensures Lower(Upper(s)) == Lower(s)
  {
    forall i | 0 <= i < |s|
      ensures Lower(Upper(s))[i] == Lower(s)[i]
    {
      LowerUpperChar(s[i]);
    }
  }

  /** The classification does not depend on the case of the name. */
  lemma FileTypeIgnoresCase(name: string)
    ensures DetermineFileType(Lower(name)) == DetermineFileType(name)
    ensures DetermineFileType(Upper(name)) == DetermineFileType(name)
    ensures IsMediaName(Lower(name)) == IsMediaName(name)
    ensures IsMediaName(Upper(name)) == IsMediaName(name)
  {
    LowerIdempotent(name);
    LowerOfUpper(name);
  }

  /** Every video name is kept, so a kept entry is an image exactly when it is not a video. */
  lemma VideosAreMedia(name: string)
    requires DetermineFileType(name) == Video
    ensures IsMediaName(name)
  {
  }

  // ---------------------------------------------------------------------
  // Listing, filtering and ordering

  /** The entry `populatePhotoPaths` creates for a kept name. */
  function EntryFor(albumPath: string, name: string, dateOf: string -> int): PhotoInfo {
    PhotoInfo(albumPath + "/" + name, name, false, DetermineFileType(name), dateOf(albumPath + "/" + name))
  }

  /** The entries of a directory listing, in listing order. */
  function Entries(albumPath: string, files: seq<string>, dateOf: string -> int): (r: seq<PhotoInfo>)
    ensures |r| <= |files|
  {
    if |files| == 0 then []
    else
      var init := Entries(albumPath, files[..|files| - 1], dateOf);
      var name := files[|files| - 1];
      if IsMediaName(name) then init + [EntryFor(albumPath, name, dateOf)] else init
  }

  /** The entries of one name more: it is appended exactly when it is a media name. */
  lemma EntriesSnoc(albumPath: string, files: seq<string>, i: nat, dateOf: string -> int)
    requires i < |files|
    ensures Entries(albumPath, files[..i + 1], dateOf) ==
      if IsMediaName(files[i]) then Entries(albumPath, files[..i], dateOf) + [EntryFor(albumPath, files[i], dateOf)]
      else Entries(albumPath, files[..i], dateOf)
  {
    assert files[..i + 1][..i] == files[..i];
  }

  /** The loop of `populatePhotoPaths` over the directory listing. */
  method ListEntries(albumPath: string, files: seq<string>, dateOf: string -> int) returns (all: seq<PhotoInfo>)
    ensures all == Entries(albumPath, files, dateOf)
  {
    all := [];
    var i := 0;
    while i < |files|
      invariant 0 <= i <= |files|
      invariant all == Entries(albumPath, files[..i], dateOf)
    {
      EntriesSnoc(albumPath, files, i, dateOf);
      var name := files[i];
      if IsMediaName(name) {
        all := all + [EntryFor(albumPath, name, dateOf)];
      }
      i := i + 1;
    }
    assert files[..i] == files;
  }

  /**
   * What a listing yields: only media names, each under the album path,
   * classified by its suffix and not yet asked for a thumbnail.
   */
  lemma {:induction false} EntriesShape(albumPath: string, files: seq<string>, dateOf: string -> int)
    ensures forall p :: p in Entries(albumPath, files, dateOf) ==>
      p.fileName in files && IsMediaName(p.fileName) && p == EntryFor(albumPath, p.fileName, dateOf)
  {
    if |files| > 0 {
      EntriesShape(albumPath, files[..|files| - 1], dateOf);
    }
  }

  /** Every media name of the listing gets its entry. */
  lemma {:induction false} EntriesComplete(albumPath: string, files: seq<string>, dateOf: string -> int, name: string)
    requires name in files && IsMediaName(name)
    ensures EntryFor(albumPath, name, dateOf) in Entries(albumPath, files, dateOf)
  {
    var n := |files| - 1;
    if files[n] != name {
      assert name in files[..n];
      EntriesComplete(albumPath, files[..n], dateOf, name);
    }
  }

  /** `matchesFilter`. */
  predicate Matches(filter: FilterType, info: PhotoInfo) {
    match filter
    case All => true
    case ImagesOnly => info.fileType == Image
    case VideosOnly => info.fileType == Video
  }

  /** Every entry passes exactly one of the two narrowing filters, and the wide one. */
  lemma FiltersPartition(info: PhotoInfo)
    ensures Matches(All, info)
    ensures Matches(ImagesOnly, info) != Matches(VideosOnly, info)
  {
  }

  /** The entries the filter keeps, in their original order. */
  function Filtered(s: seq<PhotoInfo>, filter: FilterType): (r: seq<PhotoInfo>)
    ensures |r| <= |s|
  {
    if |s| == 0 then []
    else
      var init := Filtered(s[..|s| - 1], filter);
      if Matches(filter, s[|s| - 1]) then init + [s[|s| - 1]] else init
  }

  /** The filter keeps every matching entry as often as it occurs, and nothing else. */
  lemma {:induction false} FilteredCounts(s: seq<PhotoInfo>, filter: FilterType, x: PhotoInfo)
    ensures multiset(Filtered(s, filter))[x] == if Matches(filter, x) then multiset(s)[x] else 0
  {
    if |s| > 0 {
      var init := s[..|s| - 1];
      FilteredCounts(init, filter, x);
      assert s == init + [s[|s| - 1]];
    }
  }

  /** Images and videos together are the whole list. */
  lemma FilteredPartition(s: seq<PhotoInfo>)
    ensures multiset(Filtered(s, ImagesOnly)) + multiset(Filtered(s, VideosOnly)) == multiset(s)
    ensures multiset(Filtered(s, All)) == multiset(s)
  {
    forall x
      ensures (multiset(Filtered(s, ImagesOnly)) + multiset(Filtered(s, VideosOnly)))[x] == multiset(s)[x]
      ensures multiset(Filtered(s, All))[x] == multiset(s)[x]
    {
      FilteredCounts(s, ImagesOnly, x);
      FilteredCounts(s, VideosOnly, x);
      FilteredCounts(s, All, x);
    }
  }

  /** The comparator `sortPhotos` hands to `std::sort`. */
  function Before(order: SortOrder): (less: (PhotoInfo, PhotoInfo) -> bool) {
    (a: PhotoInfo, b: PhotoInfo) =>
      if order == NewestFirst then a.dateTime > b.dateTime else a.dateTime < b.dateTime
  }

  /** Both comparators meet what `std::sort` demands. */
  lemma BeforeIsStrictWeak(order: SortOrder)
    ensures StrictWeakOrder(Before(order))
  {
  }

  /** Timestamps never increase down the rows for NewestFirst and never decrease for OldestFirst. */
  ghost predicate DatesOrdered(s: seq<PhotoInfo>, order: SortOrder) {
    forall i, j :: 0 <= i < j < |s| ==>
      if order == NewestFirst then s[j].dateTime <= s[i].dateTime else s[i].dateTime <= s[j].dateTime
  }

  /** The rows `applyFilterAndSort` computes. */
  function Arranged(all: seq<PhotoInfo>, filter: FilterType, order: SortOrder): seq<PhotoInfo> {
    Sort(Filtered(all, filter), Before(order))
  }

  /**
   * The rows are a permutation of the matching entries, ordered by
   * timestamp in the chosen direction.
   */
  lemma ArrangedShape(all: seq<PhotoInfo>, filter: FilterType, order: SortOrder)
    ensures multiset(Arranged(all, filter, order)) == multiset(Filtered(all, filter))
    ensures DatesOrdered(Arranged(all, filter, order), order)
    ensures forall x :: x in Arranged(all, filter, order) <==> x in all && Matches(filter, x)
  {
    var r := Arranged(all, filter, order);
    BeforeIsStrictWeak(order);
    SortSorted(Filtered(all, filter), Before(order));
    assert SortedBy(r, Before(order));
    forall i, j | 0 <= i < j < |r|
      ensures if order == NewestFirst then r[j].dateTime <= r[i].dateTime else r[i].dateTime <= r[j].dateTime
    {
      assert !Before(order)(r[j], r[i]);
    }
    forall x
      ensures x in r <==> x in all && Matches(filter, x)
    {
      FilteredCounts(all, filter, x);
      assert x in r <==> multiset(r)[x] > 0;
      assert x in all <==> multiset(all)[x] > 0;
    }
  }

  /** Checking the choice of filter against every entry: no entry of the wrong kind is shown. */
  lemma ArrangedKinds(all: seq<PhotoInfo>, order: SortOrder)
    ensures forall x :: x in Arranged(all, ImagesOnly, order) ==> x.fileType == Image
    ensures forall x :: x in Arranged(all, VideosOnly, order) ==> x.fileType == Video
    ensures |Arranged(all, All, order)| == |all|
  {
    ArrangedShape(all, ImagesOnly, order);
    ArrangedShape(all, VideosOnly, order);
    ArrangedShape(all, All, order);
    FilteredPartition(all);
    assert |Arranged(all, All, order)| == |multiset(Arranged(all, All, order))|;
  }

  // ---------------------------------------------------------------------
  // Row accessors specified on values

  /** `index.isValid() && index.row() < m_photos.size()`. */
  predicate RowOk(index: ModelIndex, rows: nat) {
    index.Index? && 0 <= index.row < rows
  }

  /** The paths of the given indexes, skipping the unusable ones. */
  function SelectedPaths(photos: seq<PhotoInfo>, indexes: seq<ModelIndex>): (r: seq<string>)
    ensures |r| <= |indexes|
  {
    if |indexes| == 0 then []
    else
      var init := SelectedPaths(photos, indexes[..|indexes| - 1]);
      var last := indexes[|indexes| - 1];
      if RowOk(last, |photos|) then init + [photos[last.row].filePath] else init
  }

  /** Every selected path is a row's path; with only usable indexes, one path per index, in order. */
  lemma {:induction false} SelectedPathsShape(photos: seq<PhotoInfo>, indexes: seq<ModelIndex>)
    ensures forall p :: p in SelectedPaths(photos, indexes) ==> exists i :: 0 <= i < |photos| && photos[i].filePath == p
    ensures (forall k :: 0 <= k < |indexes| ==> RowOk(indexes[k], |photos|)) ==>
      |SelectedPaths(photos, indexes)| == |indexes| &&
      forall k :: 0 <= k < |indexes| ==> SelectedPaths(photos, indexes)[k] == photos[indexes[k].row].filePath
  {
    if |indexes| > 0 {
      var init := indexes[..|indexes| - 1];
      SelectedPathsShape(photos, init);
      var last := indexes[|indexes| - 1];
      if RowOk(last, |photos|) {
        assert photos[last.row].filePath == photos[last.row].filePath;
      }
    }
  }

  /** Unusable indexes contribute nothing. */
  lemma {:induction false} SelectedPathsSkipInvalid(photos: seq<PhotoInfo>, indexes: seq<ModelIndex>)
    requires forall k :: 0 <= k < |indexes| ==> !RowOk(indexes[k], |photos|)
    ensures SelectedPaths(photos, indexes) == []
  {
    if |indexes| > 0 {
      SelectedPathsSkipInvalid(photos, indexes[..|indexes| - 1]);
    }
  }

  /** The paths of a list of entries, in order. */
  function PathsOf(s: seq<PhotoInfo>): (r: seq<string>)
    ensures |r| == |s|
    ensures forall i :: 0 <= i < |s| ==> r[i] == s[i].filePath
  {
    seq(|s|, i requires 0 <= i < |s| => s[i].filePath)
  }

  /** The rows of a `dataChanged` range from 0 to n - 1, in order. */
  function RowsUpTo(n: nat): (r: seq<int>)
    ensures |r| == n && forall i :: 0 <= i < n ==> r[i] == i
  {
    if n == 0 then [] else RowsUpTo(n - 1) + [n - 1]
  }

  class PhotoModel {
    var albumPath: string
    var allPhotos: seq<PhotoInfo>
    var photos: seq<PhotoInfo>
    var sortOrder: SortOrder
    var filterType: FilterType
    var thumbWidth: int
    var thumbHeight: int
    /** The keys held in the memory thumbnail cache. */
    var cache: set<CacheKey>
    var loadingPaths: set<string>
    var activeLoaders: set<CacheKey>
    /** `thumbnailNeedsToBeLoaded(row)` signals, queued for the model itself. */
    var queued: seq<int>
    /** Rows announced with `dataChanged`. */
    var changedRows: seq<int>

    /**
     * Each running loader is one file's: its key names a path that is
     * loading, each loading path has a running loader, and no two
     * loaders serve the same path.
     */
    ghost predicate Valid()
      reads this
    {
      (forall k :: k in activeLoaders ==> k.filePath in loadingPaths) &&
      (forall p :: p in loadingPaths ==> exists k :: k in activeLoaders && k.filePath == p) &&
      (forall k1, k2 :: k1 in activeLoaders && k2 in activeLoaders && k1.filePath == k2.filePath ==> k1 == k2)
    }

    /** New model: newest first, no filter, 256 by 256 thumbnails, nothing listed. */
    constructor()
      ensures Valid()
      ensures albumPath == "" && allPhotos == [] && photos == []
      ensures sortOrder == NewestFirst && filterType == All && thumbWidth == 256 && thumbHeight == 256
      ensures cache == {} && loadingPaths == {} && activeLoaders == {} && queued == [] && changedRows == []
    {
      albumPath := "";
      allPhotos := [];
      photos := [];
      sortOrder := NewestFirst;
      filterType := All;
      thumbWidth := 256;
      thumbHeight := 256;
      cache := {};
      loadingPaths := {};
      activeLoaders := {};
      queued := [];
      changedRows := [];
    }

    /** `getThumbnailCacheKey`. */
    function KeyFor(filePath: string): (k: CacheKey)
      reads this
      ensures k.filePath == filePath && k.width == thumbWidth && k.height == thumbHeight
    {
      CacheKey(filePath, thumbWidth, thumbHeight)
    }

    /** `rowCount`. */
    function RowCount(): (n: nat)
      reads this
      ensures n == |photos|
    {
      |photos|
    }

    /** `getFilePath`: the row's path, or "" for an unusable index. */
    function GetFilePath(index: ModelIndex): (p: string)
      reads this
      ensures RowOk(index, |photos|) ==> p == photos[index.row].filePath
      ensures !RowOk(index, |photos|) ==> p == ""
    {
      if RowOk(index, |photos|) then photos[index.row].filePath else ""
    }

    /** `getFileType`: the row's type, or Image for an unusable index. */
    function GetFileType(index: ModelIndex): (t: FileType)
      reads this
      ensures RowOk(index, |photos|) ==> t == photos[index.row].fileType
      ensures !RowOk(index, |photos|) ==> t == Image
    {
      if RowOk(index, |photos|) then photos[index.row].fileType else Image
    }

    /** `getSelectedFilePaths`. */
    method GetSelectedFilePaths(indexes: seq<ModelIndex>) returns (paths: seq<string>)
      ensures paths == SelectedPaths(photos, indexes)
    {
      paths := [];
      var i := 0;
      while i < |indexes|
        invariant 0 <= i <= |indexes|
        invariant paths == SelectedPaths(photos, indexes[..i])
      {
        assert indexes[..i + 1][..i] == indexes[..i];
        var index := indexes[i];
        if index.Index? && 0 <= index.row < |photos| {
          paths := paths + [photos[index.row].filePath];
        }
        i := i + 1;
      }
      assert indexes[..i] == indexes;
    }

    /** `getAllFilePaths`: every listed entry's path, in listing order. */
    method GetAllFilePaths() returns (paths: seq<string>)
      ensures paths == PathsOf(allPhotos)
    {
      paths := [];
      var i := 0;
      while i < |allPhotos|
        invariant 0 <= i <= |allPhotos|
        invariant paths == PathsOf(allPhotos[..i])
      {
        paths := paths + [allPhotos[i].filePath];
        i := i + 1;
      }
      assert allPhotos[..i] == allPhotos;
    }

    /** `getFilteredFilePaths`: the shown rows' paths, in row order. */
    method GetFilteredFilePaths() returns (paths: seq<string>)
      ensures paths == PathsOf(photos)
    {
      paths := [];
      var i := 0;
      while i < |photos|
        invariant 0 <= i <= |photos|
        invariant paths == PathsOf(photos[..i])
      {
        paths := paths + [photos[i].filePath];
        i := i + 1;
      }
      assert photos[..i] == photos;
    }

    /** `applyFilterAndSort`: the matching entries, then `sortPhotos` on them. */
    method ApplyFilterAndSort()
      modifies this
      ensures photos == Arranged(allPhotos, filterType, sortOrder)
      ensures allPhotos == old(allPhotos) && albumPath == old(albumPath)
      ensures sortOrder == old(sortOrder) && filterType == old(filterType)
      ensures thumbWidth == old(thumbWidth) && thumbHeight == old(thumbHeight) && cache == old(cache)
      ensures loadingPaths == old(loadingPaths) && activeLoaders == old(activeLoaders)
      ensures queued == old(queued) && changedRows == old(changedRows)
    {
      var kept: seq<PhotoInfo> := [];
      var i := 0;
      while i < |allPhotos|
        invariant 0 <= i <= |allPhotos|
        invariant kept == Filtered(allPhotos[..i], filterType)
      {
        assert allPhotos[..i + 1][..i] == allPhotos[..i];
        if Matches(filterType, allPhotos[i]) {
          kept := kept + [allPhotos[i]];
        }
        i := i + 1;
      }
      assert allPhotos[..i] == allPhotos;
      photos := Sort(kept, Before(sortOrder));
    }

    /** `setSortOrder`: re-arranges only when the order changes. */
    method SetSortOrder(order: SortOrder)
      modifies this
      ensures sortOrder == order
      ensures order == old(sortOrder) ==> photos == old(photos)
      ensures order != old(sortOrder) ==> photos == Arranged(allPhotos, filterType, order)
      ensures allPhotos == old(allPhotos) && albumPath == old(albumPath) && filterType == old(filterType)
      ensures thumbWidth == old(thumbWidth) && thumbHeight == old(thumbHeight) && cache == old(cache)
      ensures loadingPaths == old(loadingPaths) && activeLoaders == old(activeLoaders)
      ensures queued == old(queued) && changedRows == old(changedRows)
    {
      if sortOrder != order {
        sortOrder := order;
        ApplyFilterAndSort();
      }
    }

    /** `setFilterType`: re-arranges only when the filter changes. */
    method SetFilterType(filter: FilterType)
      modifies this
      ensures filterType == filter
      ensures filter == old(filterType) ==> photos == old(photos)
      ensures filter != old(filterType) ==> photos == Arranged(allPhotos, filter, sortOrder)
      ensures allPhotos == old(allPhotos) && albumPath == old(albumPath) && sortOrder == old(sortOrder)
      ensures thumbWidth == old(thumbWidth) && thumbHeight == old(thumbHeight) && cache == old(cache)
      ensures loadingPaths == old(loadingPaths) && activeLoaders == old(activeLoaders)
      ensures queued == old(queued) && changedRows == old(changedRows)
    {
      if filterType != filter {
        filterType := filter;
        ApplyFilterAndSort();
      }
    }

    /**
     * `populatePhotoPaths`. `albumExists` is the outcome of the file-info
     * query on the album, `listing` that of reading the directory (`None`
     * when it fails) and `dateOf` the timestamp of each file.
     */
    method PopulatePhotoPaths(albumExists: bool, listing: Option<seq<string>>, dateOf: string -> int)
      modifies this
      ensures albumPath == "" ==> allPhotos == old(allPhotos) && photos == old(photos)
      ensures albumPath != "" && (!albumExists || listing.None?) ==> allPhotos == [] && photos == []
      ensures albumPath != "" && albumExists && listing.Some? ==>
        allPhotos == Entries(albumPath, listing.value, dateOf) &&
        photos == Arranged(allPhotos, filterType, sortOrder)
      ensures albumPath == old(albumPath) && sortOrder == old(sortOrder) && filterType == old(filterType)
      ensures thumbWidth == old(thumbWidth) && thumbHeight == old(thumbHeight) && cache == old(cache)
      ensures loadingPaths == old(loadingPaths) && activeLoaders == old(activeLoaders)
      ensures queued == old(queued) && changedRows == old(changedRows)
    {
      if albumPath == "" {
        return;
      }
      allPhotos := [];
      photos := [];
      if !albumExists {
        return;
      }
      if listing.None? {
        return;
      }
      allPhotos := ListEntries(albumPath, listing.value, dateOf);
      ApplyFilterAndSort();
    }

    /** `setAlbumPath`: a new path is stored and listed; the same path changes nothing. */
    method SetAlbumPath(path: string, albumExists: bool, listing: Option<seq<string>>, dateOf: string -> int)
      modifies this
      ensures albumPath == path
      ensures path == old(albumPath) ==> allPhotos == old(allPhotos) && photos == old(photos)
      ensures path != old(albumPath) && path != "" && albumExists && listing.Some? ==>
        allPhotos == Entries(path, listing.value, dateOf) &&
        photos == Arranged(allPhotos, filterType, sortOrder)
      ensures path != old(albumPath) && path != "" && (!albumExists || listing.None?) ==>
        allPhotos == [] && photos == []
      ensures sortOrder == old(sortOrder) && filterType == old(filterType)
      ensures loadingPaths == old(loadingPaths) && activeLoaders == old(activeLoaders)
    {
      if albumPath != path {
        albumPath := path;
        PopulatePhotoPaths(albumExists, listing, dateOf);
      }
    }

    /**
     * `requestThumbnail`: an out-of-range row is ignored; otherwise the
     * row is marked as asked for, and a loader is started unless one is
     * already running for its key or its path.
     */
    method RequestThumbnail(index: int)
      requires Valid()
      modifies this
      ensures Valid()
      ensures !(0 <= index < |old(photos)|) ==>
        photos == old(photos) && loadingPaths == old(loadingPaths) && activeLoaders == old(activeLoaders)
      ensures 0 <= index < |old(photos)| ==>
        photos == old(photos)[index := old(photos)[index].(thumbnailRequested := true)]
      ensures 0 <= index < |old(photos)| ==>
        var p := old(photos)[index].filePath;
        var k := CacheKey(p, thumbWidth, thumbHeight);
        if k in old(activeLoaders) || p in old(loadingPaths) then
          loadingPaths == old(loadingPaths) && activeLoaders == old(activeLoaders)
        else
          loadingPaths == old(loadingPaths) + {p} && activeLoaders == old(activeLoaders) + {k}
      ensures allPhotos == old(allPhotos) && albumPath == old(albumPath)
      ensures sortOrder == old(sortOrder) && filterType == old(filterType)
      ensures thumbWidth == old(thumbWidth) && thumbHeight == old(thumbHeight) && cache == old(cache)
      ensures queued == old(queued) && changedRows == old(changedRows)
    {
      if index < 0 || index >= |photos| {
        return;
      }
      photos := photos[index := photos[index].(thumbnailRequested := true)];
      var path := photos[index].filePath;
      var key := KeyFor(path);
      if key in activeLoaders || path in loadingPaths {
        return;
      }
      loadingPaths := loadingPaths + {path};
      activeLoaders := activeLoaders + {key};
      assert key in activeLoaders && key.filePath == path;
    }

    /** The index of the first row showing `path`, if any: the `dataChanged` search. */
    method FirstRowOf(path: string) returns (row: Option<nat>)
      ensures row.Some? ==>
        row.value < |photos| && photos[row.value].filePath == path &&
        forall j :: 0 <= j < row.value ==> photos[j].filePath != path
      ensures row.None? ==> forall j :: 0 <= j < |photos| ==> photos[j].filePath != path
    {
      var i := 0;
      while i < |photos|
        invariant 0 <= i <= |photos|
        invariant forall j :: 0 <= j < i ==> photos[j].filePath != path
      {
        if photos[i].filePath == path {
          return Some(i);
        }
        i := i + 1;
      }
      return None;
    }

    /**
     * The `finished` handler of the loader for `key`: the file's path and
     * the key stop loading; a thumbnail that loaded is cached and the
     * first row showing the file is announced.
     */
    method LoaderFinished(key: CacheKey, loaded: bool)
      requires Valid() && key in activeLoaders
      modifies this
      ensures Valid()
      ensures loadingPaths == old(loadingPaths) - {key.filePath}
      ensures activeLoaders == old(activeLoaders) - {key}
      ensures !loaded ==> cache == old(cache) && changedRows == old(changedRows)
      ensures loaded ==> cache == old(cache) + {key}
      ensures loaded ==>
        |old(changedRows)| <= |changedRows| <= |old(changedRows)| + 1 && changedRows[..|old(changedRows)|] == old(changedRows)
      ensures loaded && |changedRows| > |old(changedRows)| ==>
        var r := changedRows[|old(changedRows)|];
        0 <= r < |photos| && photos[r].filePath == key.filePath &&
        forall j :: 0 <= j < r ==> photos[j].filePath != key.filePath
      ensures loaded && |changedRows| == |old(changedRows)| ==>
        forall j :: 0 <= j < |photos| ==> photos[j].filePath != key.filePath
      ensures photos == old(photos) && allPhotos == old(allPhotos) && queued == old(queued)
      ensures thumbWidth == old(thumbWidth) && thumbHeight == old(thumbHeight)
    {
      loadingPaths := loadingPaths - {key.filePath};
      activeLoaders := activeLoaders - {key};
      if loaded {
        cache := cache + {key};
        var row := FirstRowOf(key.filePath);
        if row.Some? {
          changedRows := changedRows + [row.value];
        }
      }
    }

    /**
     * The decoration role of `data`: nothing for an unusable row; the
     * cached icon when there is one; otherwise a placeholder by kind, and
     * a load is queued unless the file is already loading.
     */
    method DecorationData(index: ModelIndex) returns (d: Decoration)
      modifies this
      ensures !RowOk(index, |photos|) ==> d == NoDecoration && queued == old(queued)
      ensures RowOk(index, |photos|) && KeyFor(photos[index.row].filePath) in cache ==>
        d == CachedIcon(KeyFor(photos[index.row].filePath)) && queued == old(queued)
      ensures RowOk(index, |photos|) && KeyFor(photos[index.row].filePath) !in cache ==>
        d == (if IsVideoName(photos[index.row].fileName) then VideoPlaceholder else ImagePlaceholder)
      ensures RowOk(index, |photos|) && KeyFor(photos[index.row].filePath) !in cache ==>
        var loading := KeyFor(photos[index.row].filePath) in activeLoaders || photos[index.row].filePath in loadingPaths;
        queued == old(queued) + (if loading then [] else [index.row])
      ensures photos == old(photos) && allPhotos == old(allPhotos) && cache == old(cache)
      ensures loadingPaths == old(loadingPaths) && activeLoaders == old(activeLoaders)
      ensures thumbWidth == old(thumbWidth) && thumbHeight == old(thumbHeight) && changedRows == old(changedRows)
    {
      if !(index.Index? && 0 <= index.row < |photos|) {
        return NoDecoration;
      }
      var info := photos[index.row];
      var key := KeyFor(info.filePath);
      if key in cache {
        return CachedIcon(key);
      }
      if !(key in activeLoaders || info.filePath in loadingPaths) {
        queued := queued + [index.row];
      }
      d := if IsVideoName(info.fileName) then VideoPlaceholder else ImagePlaceholder;
    }

    /**
     * `clearCache`: the memory cache is emptied, every row may be asked
     * for again, and a non-empty model reports all its rows changed.
     */
    method ClearCache()
      modifies this
      ensures cache == {}
      ensures |photos| == |old(photos)|
      ensures forall i :: 0 <= i < |photos| ==> photos[i] == old(photos)[i].(thumbnailRequested := false)
      ensures allPhotos == old(allPhotos) && loadingPaths == old(loadingPaths) && activeLoaders == old(activeLoaders)
      ensures thumbWidth == old(thumbWidth) && thumbHeight == old(thumbHeight) && queued == old(queued)
      ensures changedRows == old(changedRows) + RowsUpTo(|photos|)
    {
      cache := {};
      var i := 0;
      while i < |photos|
        invariant 0 <= i <= |photos| && |photos| == |old(photos)|
        invariant forall j :: 0 <= j < i ==> photos[j] == old(photos)[j].(thumbnailRequested := false)
        invariant forall j :: i <= j < |photos| ==> photos[j] == old(photos)[j]
        invariant cache == {} && allPhotos == old(allPhotos)
        invariant loadingPaths == old(loadingPaths) && activeLoaders == old(activeLoaders)
        invariant thumbWidth == old(thumbWidth) && thumbHeight == old(thumbHeight)
        invariant queued == old(queued) && changedRows == old(changedRows)
      {
        photos := photos[i := photos[i].(thumbnailRequested := false)];
        i := i + 1;
      }
      if |photos| > 0 {
        changedRows := changedRows + RowsUpTo(|photos|);
      }
    }

    /** `setThumbnailSize`: a different size clears the cache, the same size changes nothing. */
    method SetThumbnailSize(width: int, height: int)
      requires Valid()
      modifies this
      ensures Valid()
      ensures thumbWidth == width && thumbHeight == height
      ensures width == old(thumbWidth) && height == old(thumbHeight) ==> cache == old(cache) && photos == old(photos)
      ensures width == old(thumbWidth) && height == old(thumbHeight) ==> changedRows == old(changedRows)
      ensures !(width == old(thumbWidth) && height == old(thumbHeight)) ==>
        cache == {} && |photos| == |old(photos)| && forall i :: 0 <= i < |photos| ==> !photos[i].thumbnailRequested
      ensures !(width == old(thumbWidth) && height == old(thumbHeight)) ==>
        changedRows == old(changedRows) + RowsUpTo(|photos|)
      ensures loadingPaths == old(loadingPaths) && activeLoaders == old(activeLoaders)
      ensures allPhotos == old(allPhotos) && queued == old(queued)
    {
      if thumbWidth != width || thumbHeight != height {
        thumbWidth := width;
        thumbHeight := height;
        ClearCache();
      }
    }
  }

  /**
   * Two requests for the same row start one loader; once it finishes,
   * neither set remembers the file and a new request may start another.
   */
  method RequestTwiceThenFinish() returns (loadersAfterTwo: nat, loadersAfterFinish: nat, pathsAfterFinish: nat)
    ensures loadersAfterTwo == 1 && loadersAfterFinish == 0 && pathsAfterFinish == 0
  {
    var m := new PhotoModel();
    m.photos := [PhotoInfo("/DCIM/100APPLE/IMG_0001.JPG", "IMG_0001.JPG", false, Image, 0)];
    m.RequestThumbnail(0);
    m.RequestThumbnail(0);
    loadersAfterTwo := |m.activeLoaders|;
    var key := m.KeyFor(m.photos[0].filePath);
    m.LoaderFinished(key, true);
    loadersAfterFinish := |m.activeLoaders|;
    pathsAfterFinish := |m.loadingPaths|;
  }
}
