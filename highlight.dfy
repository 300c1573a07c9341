/**
 * The active-class bookkeeping of `app.js`: `highlightTreeFile`
 * (app.js:261-275) marks the file rows whose `data-path` is the opened path,
 * `highlightTabForFile` (app.js:300-318) marks the folder tab the path lies
 * under (the Home tab when none does), and `loadFile` (app.js:278-297)
 * shows the file and then runs the header and both highlighters.
 *
 * The page is a `Page` object: the tab labels and the `data-path`s of the
 * file rows, in document order, with one `active` flag per element.
 */
module Highlight {
  import opened Text
  import opened Dict
  import opened Json
  import opened TitleCase
  import opened TreeView
  import opened Navigation

  /** The `data-path`s of the `.file-item` rows of a rendered tree, in document order. */
  function FileItemPaths(rows: seq<Row>): (paths: seq<string>)
    ensures |paths| <= RowCount(rows)
    ensures forall r :: r in rows && !r.FolderRow? ==> r.dataPath in paths
  {
    if rows == [] then []
    else
      var head := if rows[0].FolderRow? then FileItemPaths(rows[0].children) else [rows[0].dataPath];
      head + FileItemPaths(rows[1..])
  }

  /** The number of rows of a tree, nested ones included. */
  function RowCount(rows: seq<Row>): nat {
    if rows == [] then 0
    else (if rows[0].FolderRow? then 1 + RowCount(rows[0].children) else 1) + RowCount(rows[1..])
  }

  /** The rows of a tree in document order: each row, then the rows nested in it. */
  function Flatten(rows: seq<Row>): (flat: seq<Row>)
    ensures |flat| == RowCount(rows)
  {
    if rows == [] then []
    else [rows[0]] + (if rows[0].FolderRow? then Flatten(rows[0].children) else []) + Flatten(rows[1..])
  }

  /** The `data-path` of every file and notebook row of `flat`, in order: the rows marked `.file-item`. */
  function DataPaths(flat: seq<Row>): (paths: seq<string>)
    ensures |paths| <= |flat|
  {
    if flat == [] then []
    else (if flat[0].FolderRow? then [] else [flat[0].dataPath]) + DataPaths(flat[1..])
  }

  lemma {:induction false} DataPathsAppend(a: seq<Row>, b: seq<Row>)
    ensures DataPaths(a + b) == DataPaths(a) + DataPaths(b)
  {
    if a != [] {
      assert (a + b)[0] == a[0];
      assert (a + b)[1..] == a[1..] + b;
      DataPathsAppend(a[1..], b);
    } else {
      assert a + b == b;
    }
  }

  /**
   * `querySelectorAll('#fileTree .file-item')` (app.js:263, 267): the
   * collected paths are those of all file and notebook rows, nested ones
   * included, in document order.
   */
  lemma {:induction false} FileItemsInDocumentOrder(rows: seq<Row>)
    ensures FileItemPaths(rows) == DataPaths(Flatten(rows))
  {
    if rows != [] {
      var nested := if rows[0].FolderRow? then Flatten(rows[0].children) else [];
      var rest := Flatten(rows[1..]);
      FileItemsInDocumentOrder(rows[1..]);
      if rows[0].FolderRow? {
        FileItemsInDocumentOrder(rows[0].children);
      }
      assert Flatten(rows) == [rows[0]] + (nested + rest);
      DataPathsAppend([rows[0]], nested + rest);
      DataPathsAppend(nested, rest);
    }
  }

  /** Which file rows `highlightTreeFile(path)` leaves active. */
  function TreeHighlight(paths: seq<string>, path: string): (flags: seq<bool>)
    ensures |flags| == |paths|
    ensures forall i :: 0 <= i < |paths| ==> flags[i] == (paths[i] != "" && paths[i] == path)
  {
    seq(|paths|, i requires 0 <= i < |paths| => paths[i] != "" && paths[i] == path)
  }

  /** The row of the opened file is highlighted; with distinct paths, no other one. */
  lemma TreeHighlightUnique(paths: seq<string>, path: string)
    requires path != ""
    requires forall i, j :: 0 <= i < j < |paths| ==> paths[i] != paths[j]
    ensures forall i, j :: (0 <= i < |paths| && 0 <= j < |paths| && TreeHighlight(paths, path)[i]
              && TreeHighlight(paths, path)[j]) ==> i == j
    ensures (true in TreeHighlight(paths, path)) <==> path in paths
  {
    var flags := TreeHighlight(paths, path);
    if path in paths {
      var k :| 0 <= k < |paths| && paths[k] == path;
      assert flags[k];
    }
  }

  /** Whether the tab labelled `caption` stands for the folder `path` lies in. */
  predicate TabMatches(caption: string, path: string) {
    StartsWith(path, ContentPrefix + Slug(caption) + "/")
  }

  /** Some tab stands for the folder of `path`. */
  predicate AnyTabMatches(captions: seq<string>, path: string) {
    exists k :: 0 <= k < |captions| && TabMatches(captions[k], path)
  }

  /** For each tab, whether the path lies under its folder. */
  function MatchFlags(captions: seq<string>, path: string): (flags: seq<bool>)
    ensures |flags| == |captions|
    ensures forall i :: 0 <= i < |captions| ==> flags[i] == TabMatches(captions[i], path)
    ensures (true in flags) <==> AnyTabMatches(captions, path)
  {
    seq(|captions|, i requires 0 <= i < |captions| => TabMatches(captions[i], path))
  }

  /** Only the Home tab (tab 0) active. */
  function HomeOnly(n: nat): (flags: seq<bool>)
    ensures |flags| == n && forall i :: 0 <= i < n ==> flags[i] == (i == 0)
  {
    seq(n, i => i == 0)
  }

  /** Which tabs `highlightTabForFile(path)` leaves active; tab 0 is Home. */
  function TabHighlight(captions: seq<string>, path: string): (flags: seq<bool>)
    ensures |flags| == |captions|
    ensures (path == "" || path == "README.md" || !AnyTabMatches(captions, path)) ==> flags == HomeOnly(|captions|)
    ensures (path != "" && path != "README.md" && AnyTabMatches(captions, path))
            ==> forall i :: 0 <= i < |flags| ==> flags[i] == TabMatches(captions[i], path)
  {
    if path == "" || path == "README.md" || !AnyTabMatches(captions, path) then HomeOnly(|captions|)
    else MatchFlags(captions, path)
  }

  /** With at least one tab, some tab is always active. */
  lemma SomeTabActive(captions: seq<string>, path: string)
    requires |captions| > 0
    ensures true in TabHighlight(captions, path)
  {
    var flags := TabHighlight(captions, path);
    if path != "" && path != "README.md" && AnyTabMatches(captions, path) {
      var k :| 0 <= k < |captions| && TabMatches(captions[k], path);
      assert flags[k];
    } else {
      assert flags[0];
    }
  }

  /** The tab of folder `f` (labelled `toTitleCase(f)`) is active for every file below `content/f/`. */
  lemma FolderTabActive(captions: seq<string>, k: nat, folder: string, rest: string)
    requires k < |captions| && captions[k] == ToTitleCase(folder) && SlugSafe(folder)
    ensures TabHighlight(captions, ContentPrefix + folder + "/" + rest)[k]
  {
    var path := ContentPrefix + folder + "/" + rest;
    SlugOfTitleCase(folder);
    assert path[..|ContentPrefix + folder + "/"|] == ContentPrefix + folder + "/";
    assert TabMatches(captions[k], path);
    assert AnyTabMatches(captions, path);
    assert path[0] == 'c' && "README.md"[0] == 'R';
  }

  /** Two slash-free slugs that both lead the path after `content/` are the same slug. */
  lemma SameFolder(path: string, a: string, b: string)
    requires '/' !in a && '/' !in b
    requires StartsWith(path, ContentPrefix + a + "/") && StartsWith(path, ContentPrefix + b + "/")
    ensures a == b
  {
    var n := |ContentPrefix|;
    assert forall m :: 0 <= m < |a| ==> path[n + m] == a[m] by {
      assert path[..n + |a| + 1] == ContentPrefix + a + "/";
    }
    assert forall m :: 0 <= m < |b| ==> path[n + m] == b[m] by {
      assert path[..n + |b| + 1] == ContentPrefix + b + "/";
    }
    assert path[n + |a|] == '/' by {
      assert path[..n + |a| + 1] == ContentPrefix + a + "/";
    }
    assert path[n + |b|] == '/' by {
      assert path[..n + |b| + 1] == ContentPrefix + b + "/";
    }
    if |a| < |b| {
      assert false;
    } else if |b| < |a| {
      assert false;
    }
  }

  /** When the tabs stand for distinct slash-free folders, exactly one tab is active. */
  lemma ExactlyOneTab(captions: seq<string>, path: string)
    requires |captions| > 0
    requires forall i :: 0 <= i < |captions| ==> '/' !in Slug(captions[i])
    requires forall i, j :: 0 <= i < j < |captions| ==> Slug(captions[i]) != Slug(captions[j])
    ensures true in TabHighlight(captions, path)
    ensures forall i, j :: (0 <= i < |captions| && 0 <= j < |captions|
              && TabHighlight(captions, path)[i] && TabHighlight(captions, path)[j]) ==> i == j
  {
    SomeTabActive(captions, path);
    var flags := TabHighlight(captions, path);
    forall i, j | 0 <= i < |captions| && 0 <= j < |captions| && flags[i] && flags[j] ensures i == j {
      if path != "" && path != "README.md" && AnyTabMatches(captions, path) {
        SameFolder(path, Slug(captions[i]), Slug(captions[j]));
      }
    }
  }

  /** A prefix one element longer is the prefix followed by that element. */
  /** Some flag of `MatchFlags` is set exactly when some tab matches. */
  lemma FlagsFound(captions: seq<string>, path: string)
    ensures true in MatchFlags(captions, path) <==> AnyTabMatches(captions, path)
  {
    var flags := MatchFlags(captions, path);
    if true in flags {
      var k :| 0 <= k < |flags| && flags[k];
      assert TabMatches(captions[k], path);
    }
    if AnyTabMatches(captions, path) {
      var k :| 0 <= k < |captions| && TabMatches(captions[k], path);
      assert flags[k];
    }
  }

  lemma TakeOneMore<T>(s: seq<T>, i: nat)
    requires i < |s|
    ensures s[..i + 1] == s[..i] + [s[i]]
  {
  }

  /** The page: its tabs and file rows with their `active` flags, the content area and the header. */
  class Page {
    const tabCaptions: seq<string>
    const tabActive: array<bool>
    const itemPaths: seq<string>
    const itemActive: array<bool>
    var view: Option<View>
    var header: Header

    ghost predicate Valid()
      reads this
    {
      tabActive.Length == |tabCaptions| && itemActive.Length == |itemPaths| && tabActive != itemActive
    }

    /**
     * A page whose tree shows `rows` and whose tabs are `tabCaptions` (Home
     * first): only the Home tab is active, as `initTabs` creates it, no row is
     * active yet and the header is empty.
     */
    constructor (tabCaptions: seq<string>, rows: seq<Row>)
      ensures Valid() && fresh(tabActive) && fresh(itemActive)
      ensures this.tabCaptions == tabCaptions && itemPaths == FileItemPaths(rows)
      ensures tabActive[..] == HomeOnly(|tabCaptions|)
      ensures forall m :: 0 <= m < itemActive.Length ==> !itemActive[m]
      ensures view.None? && header == Blank
    {
      this.tabCaptions := tabCaptions;
      tabActive := new bool[|tabCaptions|](i => i == 0);
      itemPaths := FileItemPaths(rows);
      itemActive := new bool[|FileItemPaths(rows)|](_ => false);
      view := None;
      header := Blank;
    }

    /** `highlightTreeFile(path)`: clears every row, then marks those whose `data-path` is `path`. */
    method HighlightTreeFile(path: string)
      requires Valid()
      modifies itemActive
      ensures itemActive[..] == TreeHighlight(itemPaths, path)
    {
      var i := 0;
      while i < itemActive.Length
        invariant 0 <= i <= itemActive.Length
        invariant forall m :: 0 <= m < i ==> !itemActive[m]
      {
        itemActive[i] := false;
        i := i + 1;
      }
      i := 0;
      while i < itemActive.Length
        invariant 0 <= i <= itemActive.Length
        invariant forall m :: 0 <= m < i ==> itemActive[m] == (itemPaths[m] != "" && itemPaths[m] == path)
        invariant forall m :: i <= m < itemActive.Length ==> !itemActive[m]
      {
        if itemPaths[i] != "" && itemPaths[i] == path {
          itemActive[i] := true;
        }
        i := i + 1;
      }
    }

    /** `highlightTabForFile(path)`. */
    method HighlightTabForFile(path: string)
      requires Valid()
      modifies tabActive
      ensures tabActive[..] == TabHighlight(tabCaptions, path)
    {
      if path == "" || path == "README.md" {
        ActivateHome();
        return;
      }
      var found := MarkMatchingTabs(path);
      if !found && tabActive.Length > 0 {
        tabActive[0] := true;
        assert tabActive[..] == HomeOnly(|tabCaptions|);
      } else if !found {
        assert tabActive[..] == HomeOnly(|tabCaptions|);
      }
    }

    /** Clears every tab, then marks the Home tab when there is one (app.js:303-304). */
    method ActivateHome()
      requires Valid()
      modifies tabActive
      ensures tabActive[..] == HomeOnly(|tabCaptions|)
    {
      var i := 0;
      while i < tabActive.Length
        invariant 0 <= i <= tabActive.Length
        invariant forall m :: 0 <= m < i ==> !tabActive[m]
      {
        tabActive[i] := false;
        i := i + 1;
      }
      if tabActive.Length > 0 {
        tabActive[0] := true;
      }
    }

    /** The loop of app.js:308-316: a tab is marked exactly when the path lies under its folder. */
    method MarkMatchingTabs(path: string) returns (found: bool)
      requires Valid()
      modifies tabActive
      ensures tabActive[..] == MatchFlags(tabCaptions, path)
      ensures found <==> AnyTabMatches(tabCaptions, path)
    {
      ghost var flags := MatchFlags(tabCaptions, path);
      found := false;
      var i := 0;
      while i < tabActive.Length
        invariant 0 <= i <= tabActive.Length
        invariant tabActive[..i] == flags[..i]
        invariant found <==> true in flags[..i]
      {
        var hit := TabMatches(tabCaptions[i], path);
        assert flags[i] == hit;
        tabActive[i] := hit;
        found := found || hit;
        TakeOneMore(flags, i);
        TakeOneMore(tabActive[..], i);
        i := i + 1;
      }
      assert tabActive[..] == tabActive[..i];
      assert flags[..i] == flags;
      FlagsFound(tabCaptions, path);
    }

    /**
     * What `loadFile(path, ipynbPath)` does once the file's text `fetched`
     * has arrived: shows it, then sets the header and runs both
     * highlighters. When `setFileHeader` throws, the rest of the callback
     * is skipped and `ok` is false.
     */
    method LoadFile(manifest: Dict<Json>, path: string, ipynbPath: Json, fetched: string) returns (ok: bool)
      requires Valid()
      modifies this, tabActive, itemActive
      ensures Valid()
      ensures view == Some(ContentView(path, fetched))
      ensures ok <==> SetFileHeader(manifest, path, ipynbPath).Some?
      ensures ok ==> header == SetFileHeader(manifest, path, ipynbPath).value
      ensures ok ==> tabActive[..] == TabHighlight(tabCaptions, path)
      ensures ok ==> itemActive[..] == TreeHighlight(itemPaths, path)
      ensures !ok ==> header == old(header) && tabActive[..] == old(tabActive[..]) && itemActive[..] == old(itemActive[..])
    {
      view := Some(ContentView(path, fetched));
      var h := SetFileHeader(manifest, path, ipynbPath);
      if h.None? {
        return false;
      }
      header := h.value;
      HighlightTabForFile(path);
      HighlightTreeFile(path);
      ok := true;
    }
  }
}
