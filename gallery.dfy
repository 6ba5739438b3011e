/**
 * `GalleryWidget`: the photo gallery tab. Its interface is built once,
 * on the first `load`; the albums are the DCIM folders with an Apple
 * album name; picking an album enables the sort, filter and export
 * controls, going back disables them again; both exports refuse to start
 * while the export manager is busy.
 */
module Gallery {
  import opened Wrappers
  import opened Text
  import opened Afc
  import PEM = PhotoExportManager

  // ---------------------------------------------------------------------
  // Albums

  /**
   * `^\d{3}APPLE$`: three digits, then "APPLE", at the end of the name or
   * just before a final newline (where a PCRE `$` also matches).
   */
  predicate ThreeDigitsApple(name: string) {
    var body := if |name| == 9 && name[8] == '\n' then name[..8] else name;
    |body| == 8 && AllDigits(body[..3]) && body[3..] == "APPLE"
  }

  /** `^\d{4}\d{2}\d{2}$`: eight digits, optionally followed by a final newline. */
  predicate EightDigits(name: string) {
    var body := if |name| == 9 && name[8] == '\n' then name[..8] else name;
    |body| == 8 && AllDigits(body)
  }

  /** The album test of `loadAlbumList`. */
  predicate IsAlbum(e: MediaEntry) {
    e.isDir && (Contains(e.name, "APPLE") || ThreeDigitsApple(e.name) || EightDigits(e.name))
  }

  /** The `^\d{3}APPLE$` alternative adds nothing: such a name contains "APPLE". */
  lemma AppleAlternativeImplied(e: MediaEntry)
    ensures IsAlbum(e) <==> e.isDir && (Contains(e.name, "APPLE") || EightDigits(e.name))
  {
    if ThreeDigitsApple(e.name) {
      assert e.name[3..8] == "APPLE";
      assert OccursAt(e.name, "APPLE", 3);
    }
  }

  /**
   * Camera folders (`<n>APPLE`) and date folders (eight digits) are
   * albums, a file never is, and no folder name shorter than "APPLE" is.
   */
  lemma AlbumFolders(prefix: string, date: string, name: string)
    ensures IsAlbum(MediaEntry(prefix + "APPLE", true))
    ensures |date| == 8 && AllDigits(date) ==> IsAlbum(MediaEntry(date, true))
    ensures !IsAlbum(MediaEntry(name, false))
    ensures |name| < 5 ==> !IsAlbum(MediaEntry(name, true))
  {
    var camera := prefix + "APPLE";
    assert OccursAt(camera, "APPLE", |prefix|);
  }

  /** An album row: the folder's name and the path stored with it. */
  datatype Album = Album(name: string, path: string)

  const DcimRoot := "/DCIM/"

  function AlbumOf(e: MediaEntry): (a: Album)
    ensures a.name == e.name && DcimRoot <= a.path && a.path[|DcimRoot|..] == e.name
  {
    Album(e.name, DcimRoot + e.name)
  }

  /** The rows of the album list, in the order of the DCIM listing. */
  function Albums(entries: seq<MediaEntry>): seq<Album> {
    if |entries| == 0 then []
    else
      var init := Albums(entries[..|entries| - 1]);
      var last := entries[|entries| - 1];
      if IsAlbum(last) then init + [AlbumOf(last)] else init
  }

  /** An album row is exactly the row of a DCIM entry that passes the test. */
  lemma {:induction false} AlbumsExactly(entries: seq<MediaEntry>, a: Album)
    ensures a in Albums(entries) <==> exists i :: 0 <= i < |entries| && IsAlbum(entries[i]) && AlbumOf(entries[i]) == a
  {
    if |entries| > 0 {
      var init := entries[..|entries| - 1];
      AlbumsExactly(init, a);
      if a in Albums(init) {
        var i :| 0 <= i < |init| && IsAlbum(init[i]) && AlbumOf(init[i]) == a;
        assert entries[i] == init[i];
      }
      if exists i :: 0 <= i < |entries| && IsAlbum(entries[i]) && AlbumOf(entries[i]) == a {
        var i :| 0 <= i < |entries| && IsAlbum(entries[i]) && AlbumOf(entries[i]) == a;
        if i < |init| {
          assert init[i] == entries[i];
        }
      }
    }
  }

  /** `loadAlbumList`: no rows when DCIM cannot be read, else one row per album folder. */
  method LoadAlbumList(dcimTree: FileTree) returns (albums: Option<seq<Album>>)
    ensures !dcimTree.success ==> albums.None?
    ensures dcimTree.success ==> albums == Some(Albums(dcimTree.entries))
  {
    if !dcimTree.success {
      return None;
    }
    var entries := dcimTree.entries;
    var rows: seq<Album> := [];
    for i := 0 to |entries|
      invariant rows == Albums(entries[..i])
    {
      assert entries[..i + 1][..i] == entries[..i];
      var entry := entries[i];
      var albumName := entry.name;
      if entry.isDir && (Contains(albumName, "APPLE") || ThreeDigitsApple(albumName) || EightDigits(albumName)) {
        rows := rows + [Album(albumName, DcimRoot + albumName)];
      }
    }
    assert entries[..|entries|] == entries;
    return Some(rows);
  }

  // ---------------------------------------------------------------------
  // The widget

  datatype Page = AlbumSelection | PhotoGallery

  /** How an export request ended. */
  datatype ExportOutcome =
    | NoModel          // `m_model` is null: nothing happens
    | NoSelection      // "Please select photos to export."
    | InProgress       // "An export is already in progress."
    | NoItems          // nothing to export
    | Declined         // the confirmation was not answered "Yes"
    | NoDirectory      // the directory dialog was cancelled
    | Requested(started: bool)  // `exportFiles` was called; whether it started

  class GalleryWidget {
    var loaded: bool
    /** How often `setupUI` has run. */
    var uiBuilds: nat
    var page: Page
    /** The album list's rows; `None` when DCIM could not be read. */
    var albums: Option<seq<Album>>
    var currentAlbumPath: string
    /** Whether `m_model` exists, the album its photos come from, and whether the view has a selection. */
    var hasModel: bool
    var modelAlbumPath: string
    var hasSelection: bool
    /** The sort box, the filter box and "Export All". */
    var controlsEnabled: bool
    var exportSelectedEnabled: bool
    var backVisible: bool
    const exportManager: PEM.PhotoExportManager
    const deviceValid: bool

    ghost predicate Valid()
      reads this
    {
      uiBuilds == (if loaded then 1 else 0) &&
      (exportSelectedEnabled ==> hasSelection) &&
      (hasSelection ==> hasModel)
    }

    /** The widget creates only the export manager; the interface waits for `load`. */
    constructor(deviceValid: bool)
      ensures Valid() && fresh(exportManager)
      ensures !loaded && uiBuilds == 0 && !hasModel && !hasSelection && currentAlbumPath == ""
      ensures !exportManager.isExporting && this.deviceValid == deviceValid
    {
      loaded := false;
      uiBuilds := 0;
      page := AlbumSelection;
      albums := None;
      currentAlbumPath := "";
      hasModel := false;
      modelAlbumPath := "";
      hasSelection := false;
      controlsEnabled := false;
      exportSelectedEnabled := false;
      backVisible := false;
      exportManager := new PEM.PhotoExportManager();
      this.deviceValid := deviceValid;
    }

    /**
     * `load`: the first call builds the interface (album page shown,
     * controls disabled, back button hidden, albums listed from DCIM);
     * later calls do nothing.
     */
    method Load(dcimTree: FileTree)
      requires Valid()
      modifies this
      ensures Valid() && loaded && uiBuilds == 1
      ensures old(loaded) ==> page == old(page) && albums == old(albums) && controlsEnabled == old(controlsEnabled)
      ensures !old(loaded) ==>
        page == AlbumSelection && !controlsEnabled && !exportSelectedEnabled && !backVisible &&
        (!dcimTree.success ==> albums.None?) && (dcimTree.success ==> albums == Some(Albums(dcimTree.entries)))
      ensures currentAlbumPath == old(currentAlbumPath) && hasModel == old(hasModel) && hasSelection == old(hasSelection)
    {
      if loaded {
        return;
      }
      loaded := true;
      uiBuilds := uiBuilds + 1;
      page := AlbumSelection;
      backVisible := false;
      // Disabling the controls also disables the export-selected button, whatever the selection.
      controlsEnabled := false;
      exportSelectedEnabled := false;
      albums := LoadAlbumList(dcimTree);
    }

    /** `setControlsEnabled`: "Export Selected" needs the controls on and a selection. */
    method SetControlsEnabled(enabled: bool)
      requires Valid()
      modifies this
      ensures Valid()
      ensures controlsEnabled == enabled
      ensures exportSelectedEnabled <==> enabled && hasSelection
      ensures loaded == old(loaded) && uiBuilds == old(uiBuilds) && page == old(page) && albums == old(albums)
      ensures currentAlbumPath == old(currentAlbumPath) && hasModel == old(hasModel)
      ensures modelAlbumPath == old(modelAlbumPath) && hasSelection == old(hasSelection) && backVisible == old(backVisible)
    {
      controlsEnabled := enabled;
      exportSelectedEnabled := enabled && hasModel && hasSelection;
    }

    /** The selection-changed handler connected when the model is created. */
    method OnSelectionChanged(selection: bool)
      requires Valid() && hasModel
      modifies this
      ensures Valid()
      ensures hasSelection == selection && exportSelectedEnabled == selection
      ensures controlsEnabled == old(controlsEnabled) && page == old(page) && currentAlbumPath == old(currentAlbumPath)
      ensures loaded == old(loaded) && uiBuilds == old(uiBuilds) && hasModel
    {
      hasSelection := selection;
      exportSelectedEnabled := selection;
    }

    /**
     * `onAlbumSelected`: the model (created on first use) shows the album,
     * the photo page is shown, and the controls and back button come on.
     * A new album reloads the model, which clears the selection.
     */
    method OnAlbumSelected(albumPath: string)
      requires Valid()
      modifies this
      ensures Valid()
      ensures currentAlbumPath == albumPath && hasModel && modelAlbumPath == albumPath
      ensures page == PhotoGallery && controlsEnabled && backVisible
      ensures hasSelection == (old(hasModel) && old(modelAlbumPath) == albumPath && old(hasSelection))
      ensures exportSelectedEnabled == hasSelection
      ensures loaded == old(loaded) && uiBuilds == old(uiBuilds) && albums == old(albums)
    {
      currentAlbumPath := albumPath;
      if !hasModel {
        hasModel := true;
        hasSelection := false;
        modelAlbumPath := "";
      }
      if modelAlbumPath != albumPath {
        // Reloading the photos resets the model, which clears the selection without a
        // selection change; "Export Selected" is set from the cleared selection when the
        // controls are enabled below, and is cleared here only to keep `Valid` until then.
        modelAlbumPath := albumPath;
        hasSelection := false;
        exportSelectedEnabled := false;
      }
      page := PhotoGallery;
      SetControlsEnabled(true);
      backVisible := true;
    }

    /** `onBackToAlbums`: the album page again, controls off, no current album. */
    method OnBackToAlbums()
      requires Valid()
      modifies this
      ensures Valid()
      ensures page == AlbumSelection && !controlsEnabled && !exportSelectedEnabled && !backVisible
      ensures currentAlbumPath == ""
      ensures hasModel == old(hasModel) && modelAlbumPath == old(modelAlbumPath) && hasSelection == old(hasSelection)
      ensures loaded == old(loaded) && uiBuilds == old(uiBuilds) && albums == old(albums)
    {
      page := AlbumSelection;
      SetControlsEnabled(false);
      backVisible := false;
      currentAlbumPath := "";
    }

    /**
     * `onExportSelected`: refused without a model or selection, while an
     * export runs, for no valid paths and for a cancelled directory
     * dialog; otherwise the export manager is asked to export.
     */
    method OnExportSelected(filePaths: seq<string>, exportDir: string, dirExists: bool, mkpathOk: bool)
      returns (r: ExportOutcome)
      requires Valid()
      modifies exportManager
      ensures !hasModel || !hasSelection ==> r == NoSelection
      ensures hasModel && hasSelection && old(exportManager.isExporting) ==> r == InProgress
      ensures hasModel && hasSelection && !old(exportManager.isExporting) && filePaths == [] ==> r == NoItems
      ensures hasModel && hasSelection && !old(exportManager.isExporting) && filePaths != [] && exportDir == "" ==>
        r == NoDirectory
      ensures r.Requested? <==>
        hasModel && hasSelection && !old(exportManager.isExporting) && filePaths != [] && exportDir != ""
      ensures r.Requested? ==> r.started == (deviceValid && (dirExists || mkpathOk))
      ensures r.Requested? && r.started ==>
        exportManager.isExporting && exportManager.filePaths == filePaths && exportManager.outputDirectory == exportDir
      ensures !r.Requested? ==> unchanged(exportManager)
    {
      if !hasModel || !hasSelection {
        return NoSelection;
      }
      if exportManager.isExporting {
        return InProgress;
      }
      if filePaths == [] {
        return NoItems;
      }
      if exportDir == "" {
        return NoDirectory;
      }
      var started := exportManager.ExportFiles(deviceValid, filePaths, exportDir, dirExists, mkpathOk);
      return Requested(started);
    }

    /**
     * `onExportAll`: nothing without a model; refused while an export
     * runs, with nothing shown, when the confirmation is declined and for
     * a cancelled directory dialog; otherwise the export manager is asked
     * to export the shown items.
     */
    method OnExportAll(filePaths: seq<string>, confirmed: bool, exportDir: string, dirExists: bool, mkpathOk: bool)
      returns (r: ExportOutcome)
      requires Valid()
      modifies exportManager
      ensures !hasModel ==> r == NoModel
      ensures hasModel && old(exportManager.isExporting) ==> r == InProgress
      ensures hasModel && !old(exportManager.isExporting) && filePaths == [] ==> r == NoItems
      ensures hasModel && !old(exportManager.isExporting) && filePaths != [] && !confirmed ==> r == Declined
      ensures r.Requested? <==>
        hasModel && !old(exportManager.isExporting) && filePaths != [] && confirmed && exportDir != ""
      ensures r.Requested? ==> r.started == (deviceValid && (dirExists || mkpathOk))
      ensures r.Requested? && r.started ==>
        exportManager.isExporting && exportManager.filePaths == filePaths && exportManager.outputDirectory == exportDir
      ensures !r.Requested? ==> unchanged(exportManager)
    {
      if !hasModel {
        return NoModel;
      }
      if exportManager.isExporting {
        return InProgress;
      }
      if filePaths == [] {
        return NoItems;
      }
      if !confirmed {
        return Declined;
      }
      if exportDir == "" {
        return NoDirectory;
      }
      var started := exportManager.ExportFiles(deviceValid, filePaths, exportDir, dirExists, mkpathOk);
      return Requested(started);
    }
  }
}
