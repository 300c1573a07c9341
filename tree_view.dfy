/**
 * The navigation tree of `app.js`: `buildTree` (app.js:130-214) as a
 * function from a manifest value and an open path to the rows it renders,
 * with the per-folder open state that a click flips (app.js:198-209).
 */
module TreeView {
  import opened Text
  import opened Dict
  import opened Json
  import opened TitleCase
  import opened FileIcons
  import opened SiblingOrder

  /** What a manifest value is to the tree renderer. */
  datatype Node =
    | File(path: string)                 // a string: the file's path
    | Notebook(html: Json, ipynb: Json)  // an object with truthy `html` and `ipynb`
    | Folder(value: Json)                // anything else: rendered as a sub-tree

  /** The three-way test of app.js:143, 173 and 183. */
  function Classify(v: Json): (n: Node)
    ensures n.File? <==> v.JStr?
    ensures n.File? ==> n.path == v.s
    ensures n.Notebook? <==> v.JObj? && HasTruthy(v, "html") && HasTruthy(v, "ipynb")
    ensures n.Notebook? ==> Prop(v, "html") == Some(n.html) && Prop(v, "ipynb") == Some(n.ipynb)
    ensures n.Folder? ==> n.value == v
  {
    if v.JStr? then File(v.s)
    else if v.JObj? && HasTruthy(v, "html") && HasTruthy(v, "ipynb")
    then Notebook(Prop(v, "html").value, Prop(v, "ipynb").value)
    else Folder(v)
  }

  /** One rendered `li`: its key, its label, its icon class and what it holds. */
  datatype Row =
    | FileRow(name: string, caption: string, icon: string, dataPath: string)
    | NotebookRow(name: string, caption: string, icon: string, dataPath: string, html: Json, ipynb: Json)
    | FolderRow(name: string, caption: string, open: bool, icon: string, children: seq<Row>)

  /** The icon of a notebook row, as app.js:175 writes it. */
  const NotebookIcon: string := "bi bi bi-filetype-py tree-icon"

  /** The icon of a folder row (app.js:202 and 209). */
  function FolderIcon(open: bool): string {
    if open then "bi bi-folder2-open tree-icon" else "bi bi-folder tree-icon"
  }

  /** A folder starts open when the open path is not empty and starts with its name (app.js:193). */
  predicate IsOpen(name: string, openPath: seq<string>) {
    |openPath| > 0 && openPath[0] == name
  }

  /** The open path handed to a folder's children: the tail when it is open, nothing otherwise (app.js:194). */
  function ChildOpenPath(name: string, openPath: seq<string>): (p: seq<string>)
    ensures IsOpen(name, openPath) ==> p == openPath[1..]
    ensures !IsOpen(name, openPath) ==> p == []
  {
    if IsOpen(name, openPath) then openPath[1..] else []
  }

  /** The row that entry `e` renders as, apart from a folder's children. */
  predicate RowOf(e: (string, Json), openPath: seq<string>, row: Row) {
    && row.name == e.0
    && row.caption == ToTitleCase(e.0)
    && match Classify(e.1)
       case File(p) =>
         row.FileRow? && row.dataPath == p && row.icon == IconFor(e.0)
       case Notebook(h, i) =>
         row.NotebookRow? && row.dataPath == AttrString(h) && row.html == h && row.ipynb == i
         && row.icon == NotebookIcon
       case Folder(_) =>
         row.FolderRow? && row.open == IsOpen(e.0, openPath) && row.icon == FolderIcon(row.open)
  }

  /**
   * Whether `buildTree(v)` returns: `v` is not `null`, and neither is the
   * value of any folder entry at any depth (`Object.entries(null)` throws).
   */
  ghost predicate Renderable(v: Json)
    decreases Depth(v)
  {
    && !v.JNull?
    && forall e :: e in Entries(v) && Classify(e.1).Folder? ==> (DescendDepth(v, e); Renderable(e.1))
  }

  /** No `null` anywhere in `v`, as in a manifest whose every file has a date. */
  ghost predicate NullFree(v: Json)
    decreases Depth(v)
  {
    && !v.JNull?
    && (v.JObj? ==> forall e :: e in v.fields ==> (DepthBound(v.fields, e); NullFree(e.1)))
  }

  /** A manifest without `null` always renders, whatever the open path. */
  lemma {:induction false} NullFreeRenders(v: Json, openPath: seq<string>, lc: (string, string) -> int)
    requires NullFree(v)
    ensures BuildTree(v, openPath, lc).Some?
  {
    NullFreeRenderable(v);
  }

  lemma {:induction false} NullFreeRenderable(v: Json)
    requires NullFree(v)
    ensures Renderable(v)
    decreases Depth(v)
  {
    forall e | e in Entries(v) && Classify(e.1).Folder? ensures Renderable(e.1) {
      assert v.JObj?;
      DepthBound(v.fields, e);
      NullFreeRenderable(e.1);
    }
  }

  /** A `null` one folder down makes the whole call throw: `{"a": {"b": null}}` renders nothing. */
  lemma NestedNullNotRendered(openPath: seq<string>, lc: (string, string) -> int)
    ensures BuildTree(JObj([("a", JObj([("b", JNull)]))]), openPath, lc).None?
  {
    var inner := JObj([("b", JNull)]);
    assert ("b", JNull) in Entries(inner);
    assert !Renderable(inner);
    assert ("a", inner) in Entries(JObj([("a", inner)]));
  }

  /**
   * `buildTree(v, openPath)`: the rows of `v`'s entries in sibling order, or
   * `None` when the call throws (`Object.entries(null)` in some sub-folder).
   */
  function BuildTree(v: Json, openPath: seq<string>, lc: (string, string) -> int): (r: Option<seq<Row>>)
    ensures v.JNull? ==> r.None?
    ensures r.Some? <==> Renderable(v)
    ensures r.Some? ==>
      var sorted := SortEntries(Entries(v), lc);
      |r.value| == |sorted| && forall i :: 0 <= i < |sorted| ==> RowOf(sorted[i], openPath, r.value[i])
    decreases Depth(v), 1
  {
    if v.JNull? then None
    else BuildRows(v, SortEntries(Entries(v), lc), openPath, lc)
  }

  /** The rows of the entries `es` of `parent`, in order. */
  function BuildRows(parent: Json, es: Dict<Json>, openPath: seq<string>, lc: (string, string) -> int)
    : (r: Option<seq<Row>>)
    requires !parent.JNull?
    requires forall e :: e in es ==> e in Entries(parent)
    ensures r.Some? <==> forall e :: e in es && Classify(e.1).Folder? ==> Renderable(e.1)
    ensures r.Some? ==> |r.value| == |es| && forall i :: 0 <= i < |es| ==> RowOf(es[i], openPath, r.value[i])
    decreases Depth(parent), 0, |es|
  {
    if es == [] then Some([])
    else
      match BuildRow(parent, es[0], openPath, lc)
      case None => None
      case Some(row) =>
        match BuildRows(parent, es[1..], openPath, lc)
        case None => None
        case Some(rest) => Some([row] + rest)
  }

  /** The `li` of one entry `e` of `parent` (app.js:139-212). */
  function BuildRow(parent: Json, e: (string, Json), openPath: seq<string>, lc: (string, string) -> int)
    : (r: Option<Row>)
    requires !parent.JNull? && e in Entries(parent)
    ensures r.Some? <==> (Classify(e.1).Folder? ==> Renderable(e.1))
    ensures r.Some? ==> RowOf(e, openPath, r.value)
    decreases Depth(parent), 0, 0
  {
    var (name, value) := e;
    match Classify(value)
    case File(p) => Some(FileRow(name, ToTitleCase(name), IconFor(name), p))
    case Notebook(h, i) => Some(NotebookRow(name, ToTitleCase(name), NotebookIcon, AttrString(h), h, i))
    case Folder(_) =>
      var open := IsOpen(name, openPath);
      assert Depth(value) < Depth(parent) by { DescendDepth(parent, e); }
      match BuildTree(value, ChildOpenPath(name, openPath), lc)
      case None => None
      case Some(children) => Some(FolderRow(name, ToTitleCase(name), open, FolderIcon(open), children))
  }

  /** A folder-like entry of `parent` is shallower than `parent`. */
  lemma DescendDepth(parent: Json, e: (string, Json))
    requires !parent.JNull? && e in Entries(parent) && !e.1.JStr?
    ensures Depth(e.1) < Depth(parent)
  {
    if parent.JObj? {
      DepthBound(parent.fields, e);
    }
  }

  /** A folder row's children are the tree of the folder's value under the open path it passes down (app.js:194). */
  lemma RowChildren(parent: Json, e: (string, Json), openPath: seq<string>, lc: (string, string) -> int)
    requires !parent.JNull? && e in Entries(parent)
    requires BuildRow(parent, e, openPath, lc).Some? && Classify(e.1).Folder?
    ensures BuildTree(e.1, ChildOpenPath(e.0, openPath), lc) == Some(BuildRow(parent, e, openPath, lc).value.children)
  {
  }

  /** Every folder row of a list of siblings holds the tree of its entry's value. */
  lemma {:induction false} RowsChildren(parent: Json, es: Dict<Json>, openPath: seq<string>, lc: (string, string) -> int)
    requires !parent.JNull?
    requires forall e :: e in es ==> e in Entries(parent)
    requires BuildRows(parent, es, openPath, lc).Some?
    ensures var rows := BuildRows(parent, es, openPath, lc).value;
      forall i :: 0 <= i < |es| && Classify(es[i].1).Folder? ==>
        BuildTree(es[i].1, ChildOpenPath(es[i].0, openPath), lc) == Some(rows[i].children)
    decreases |es|
  {
    if es != [] {
      var rows := BuildRows(parent, es, openPath, lc).value;
      RowsChildren(parent, es[1..], openPath, lc);
      if Classify(es[0].1).Folder? {
        RowChildren(parent, es[0], openPath, lc);
      }
      assert rows[1..] == BuildRows(parent, es[1..], openPath, lc).value;
      forall i | 0 < i < |es| && Classify(es[i].1).Folder?
        ensures BuildTree(es[i].1, ChildOpenPath(es[i].0, openPath), lc) == Some(rows[i].children)
      {
        assert es[i] == es[1..][i - 1] && rows[i] == rows[1..][i - 1];
      }
    }
  }

  /**
   * The rendered tree is recursive: row i renders the i-th sorted entry, and
   * when that entry is a folder its row's children are `buildTree` of the
   * folder's value with the open path it passes down.
   */
  lemma TreeChildren(v: Json, openPath: seq<string>, lc: (string, string) -> int)
    requires BuildTree(v, openPath, lc).Some?
    ensures var sorted := SortEntries(Entries(v), lc);
      var rows := BuildTree(v, openPath, lc).value;
      forall i :: 0 <= i < |sorted| && Classify(sorted[i].1).Folder? ==>
        BuildTree(sorted[i].1, ChildOpenPath(sorted[i].0, openPath), lc) == Some(rows[i].children)
  {
    RowsChildren(v, SortEntries(Entries(v), lc), openPath, lc);
  }

  /**
   * At every depth a folder row is open exactly when the open path handed to
   * its level is not empty and starts with its name; its children get the
   * rest of the path when it is open and nothing otherwise.
   */
  predicate OpenAlong(rows: seq<Row>, openPath: seq<string>) {
    forall i :: 0 <= i < |rows| && rows[i].FolderRow? ==>
      && (rows[i].open <==> |openPath| > 0 && rows[i].name == openPath[0])
      && OpenAlong(rows[i].children, ChildOpenPath(rows[i].name, openPath))
  }

  /** The open chain of app.js:193-196, at every depth of the rendered tree. */
  lemma {:induction false} OpenChain(v: Json, openPath: seq<string>, lc: (string, string) -> int)
    requires BuildTree(v, openPath, lc).Some?
    ensures OpenAlong(BuildTree(v, openPath, lc).value, openPath)
    decreases Depth(v), 1
  {
    OpenChainRows(v, SortEntries(Entries(v), lc), openPath, lc);
  }

  lemma {:induction false} OpenChainRows(parent: Json, es: Dict<Json>, openPath: seq<string>, lc: (string, string) -> int)
    requires !parent.JNull?
    requires forall e :: e in es ==> e in Entries(parent)
    requires BuildRows(parent, es, openPath, lc).Some?
    ensures OpenAlong(BuildRows(parent, es, openPath, lc).value, openPath)
    decreases Depth(parent), 0, |es|
  {
    if es != [] {
      var rows := BuildRows(parent, es, openPath, lc).value;
      OpenChainRows(parent, es[1..], openPath, lc);
      var (name, value) := es[0];
      if Classify(value).Folder? {
        DescendDepth(parent, es[0]);
        OpenChain(value, ChildOpenPath(name, openPath), lc);
      }
      assert rows[1..] == BuildRows(parent, es[1..], openPath, lc).value;
      forall i | 0 < i < |rows| && rows[i].FolderRow?
        ensures && (rows[i].open <==> |openPath| > 0 && rows[i].name == openPath[0])
                && OpenAlong(rows[i].children, ChildOpenPath(rows[i].name, openPath))
      {
        assert rows[i] == rows[1..][i - 1];
      }
    }
  }

  /** Sorting keeps the keys of an object distinct. */
  lemma {:induction false} SortKeepsDistinct(es: Dict<Json>, lc: (string, string) -> int)
    requires DistinctKeys(es)
    ensures DistinctKeys(SortEntries(es, lc))
  {
    if es != [] {
      SortKeepsDistinct(es[1..], lc);
      var t := SortEntries(es[1..], lc);
      forall x | x in t ensures x.0 != es[0].0 {
        var k :| 0 <= k < |es[1..]| && es[1..][k] == x;
        assert es[k + 1] == x;
      }
      InsertDistinct(es[0], t, lc);
    }
  }

  lemma {:induction false} InsertDistinct(e: (string, Json), s: Dict<Json>, lc: (string, string) -> int)
    requires DistinctKeys(s) && forall x :: x in s ==> x.0 != e.0
    ensures DistinctKeys(Insert(e, s, lc))
  {
    if s != [] && Compare(e.0, s[0].0, lc) > 0 {
      InsertDistinct(e, s[1..], lc);
      var r := Insert(e, s, lc);
      forall j | 0 < j < |r| ensures r[0].0 != r[j].0 {
        assert r[j] in Insert(e, s[1..], lc);
      }
    }
  }

  /** Only an object has entries that render as folders: a string's entries are its characters. */
  lemma FolderEntryOfObject(parent: Json, e: (string, Json))
    requires !parent.JNull? && e in Entries(parent) && !e.1.JStr?
    ensures parent.JObj?
  {
  }

  /** At every level of the tree, at most one folder row is open. */
  predicate OneOpenPerLevel(rows: seq<Row>) {
    && (forall i, j :: 0 <= i < j < |rows| && rows[i].FolderRow? && rows[j].FolderRow? ==> !(rows[i].open && rows[j].open))
    && (forall i :: 0 <= i < |rows| && rows[i].FolderRow? ==> OneOpenPerLevel(rows[i].children))
  }

  /**
   * Since the keys of an object are distinct and an open folder carries the
   * head of the open path as its name, no two sibling folders are open.
   */
  lemma {:induction false} AtMostOneOpen(v: Json, openPath: seq<string>, lc: (string, string) -> int)
    requires WellFormed(v)
    requires BuildTree(v, openPath, lc).Some?
    ensures OneOpenPerLevel(BuildTree(v, openPath, lc).value)
    decreases Depth(v), 1
  {
    var es := Entries(v);
    if v.JObj? {
      SortKeepsDistinct(es, lc);
    }
    AtMostOneOpenRows(v, SortEntries(es, lc), openPath, lc);
  }

  lemma {:induction false} AtMostOneOpenRows(parent: Json, es: Dict<Json>, openPath: seq<string>, lc: (string, string) -> int)
    requires !parent.JNull? && WellFormed(parent)
    requires forall e :: e in es ==> e in Entries(parent)
    requires parent.JObj? ==> DistinctKeys(es)
    requires BuildRows(parent, es, openPath, lc).Some?
    ensures OneOpenPerLevel(BuildRows(parent, es, openPath, lc).value)
    decreases Depth(parent), 0, |es| + 1
  {
    var rows := BuildRows(parent, es, openPath, lc).value;
    forall i, j | 0 <= i < j < |rows| && rows[i].FolderRow? && rows[j].FolderRow?
      ensures !(rows[i].open && rows[j].open)
    {
      assert RowOf(es[i], openPath, rows[i]) && RowOf(es[j], openPath, rows[j]);
      FolderEntryOfObject(parent, es[i]);
    }
    ChildrenOneOpen(parent, es, openPath, lc);
  }

  lemma {:induction false} ChildrenOneOpen(parent: Json, es: Dict<Json>, openPath: seq<string>, lc: (string, string) -> int)
    requires !parent.JNull? && WellFormed(parent)
    requires forall e :: e in es ==> e in Entries(parent)
    requires BuildRows(parent, es, openPath, lc).Some?
    ensures var rows := BuildRows(parent, es, openPath, lc).value;
      forall i :: 0 <= i < |rows| && rows[i].FolderRow? ==> OneOpenPerLevel(rows[i].children)
    decreases Depth(parent), 0, |es|
  {
    if es != [] {
      var rows := BuildRows(parent, es, openPath, lc).value;
      var rest := BuildRows(parent, es[1..], openPath, lc).value;
      ChildrenOneOpen(parent, es[1..], openPath, lc);
      assert rows[1..] == rest;
      var (name, value) := es[0];
      if Classify(value).Folder? {
        DescendDepth(parent, es[0]);
        FolderEntryOfObject(parent, es[0]);
        assert WellFormed(value) by {
          var k :| 0 <= k < |parent.fields| && parent.fields[k] == es[0];
        }
        AtMostOneOpen(value, ChildOpenPath(name, openPath), lc);
      }
      forall i | 0 < i < |rows| && rows[i].FolderRow? ensures OneOpenPerLevel(rows[i].children) {
        assert rows[i] == rest[i - 1];
      }
    }
  }

  /**
   * The rows of `buildTree` follow the sibling order: one row per entry,
   * README rows last, the others in `localeCompare` order.
   */
  lemma TreeOrder(v: Json, openPath: seq<string>, lc: (string, string) -> int)
    requires TotalPreorder(lc)
    requires BuildTree(v, openPath, lc).Some?
    ensures var rows := BuildTree(v, openPath, lc).value;
      && |rows| == |Entries(v)|
      && (forall e :: e in Entries(v) ==> exists i :: 0 <= i < |rows| && RowOf(e, openPath, rows[i]))
      && (forall i, j :: 0 <= i < j < |rows| && IsReadme(rows[i].name) ==> IsReadme(rows[j].name))
      && (forall i, j :: 0 <= i < j < |rows| && !IsReadme(rows[i].name) && !IsReadme(rows[j].name)
            ==> lc(rows[i].name, rows[j].name) <= 0)
  {
    var sorted := SortEntries(Entries(v), lc);
    SortOrder(Entries(v), lc);
    assert |sorted| == |multiset(sorted)| == |multiset(Entries(v))| == |Entries(v)|;
    var rows := BuildTree(v, openPath, lc).value;
    RowsCoverEntries(Entries(v), sorted, rows, openPath);
    RowsInOrder(sorted, rows, openPath, lc);
  }

  /** Rows that render a rearrangement of `es` one for one render every entry of `es`. */
  lemma RowsCoverEntries(es: Dict<Json>, sorted: Dict<Json>, rows: seq<Row>, openPath: seq<string>)
    requires forall x :: x in sorted <==> x in es
    requires |rows| == |sorted| && forall i :: 0 <= i < |sorted| ==> RowOf(sorted[i], openPath, rows[i])
    ensures forall e :: e in es ==> exists i :: 0 <= i < |rows| && RowOf(e, openPath, rows[i])
  {
    forall e | e in es ensures exists i :: 0 <= i < |rows| && RowOf(e, openPath, rows[i]) {
      var i :| 0 <= i < |sorted| && sorted[i] == e;
      assert RowOf(sorted[i], openPath, rows[i]);
    }
  }

  /** Rows named after the entries of `sorted`, in order, inherit its order. */
  lemma RowsInOrder(sorted: Dict<Json>, rows: seq<Row>, openPath: seq<string>, lc: (string, string) -> int)
    requires ReadmeLast(sorted) && LocaleSorted(sorted, lc)
    requires |rows| == |sorted| && forall i :: 0 <= i < |sorted| ==> RowOf(sorted[i], openPath, rows[i])
    ensures forall i, j :: 0 <= i < j < |rows| && IsReadme(rows[i].name) ==> IsReadme(rows[j].name)
    ensures forall i, j :: 0 <= i < j < |rows| && !IsReadme(rows[i].name) && !IsReadme(rows[j].name)
              ==> lc(rows[i].name, rows[j].name) <= 0
  {
    assert forall i :: 0 <= i < |rows| ==> rows[i].name == sorted[i].0;
  }

  /** The README a folder click loads: only on opening, and only for an object folder with a truthy `README`. */
  function ReadmeOnOpen(value: Json, opening: bool): (r: Option<Json>)
    ensures r.Some? <==> opening && value.JObj? && HasTruthy(value, "README")
    ensures r.Some? ==> Prop(value, "README") == r && Truthy(r.value)
  {
    if opening && value.JObj? && HasTruthy(value, "README") then Prop(value, "README") else None
  }

  /**
   * The state a rendered folder keeps between clicks (app.js:192-209): the
   * `isOpen` flag of the closure, the `active` class of the nested list and
   * the folder icon's class.
   */
  class FolderToggle {
    const name: string
    const value: Json
    var isOpen: bool
    var nestedActive: bool
    var icon: string

    /** The nested list is shown and the icon drawn exactly as `isOpen` says. */
    ghost predicate Valid()
      reads this
    {
      nestedActive == isOpen && icon == FolderIcon(isOpen)
    }

    /** A folder as `buildTree` renders it for `openPath`. */
    constructor (name: string, value: Json, openPath: seq<string>)
      ensures this.name == name && this.value == value
      ensures isOpen == IsOpen(name, openPath)
      ensures Valid()
    {
      this.name := name;
      this.value := value;
      isOpen := IsOpen(name, openPath);
      nestedActive := IsOpen(name, openPath);
      icon := FolderIcon(IsOpen(name, openPath));
    }

    /** The click handler: flips the state and, when opening, names the README to load. */
    method Click() returns (load: Option<Json>)
      modifies this
      ensures isOpen == !old(isOpen)
      ensures nestedActive == isOpen && icon == FolderIcon(isOpen)
      ensures Valid()
      ensures load == ReadmeOnOpen(value, isOpen)
    {
      isOpen := !isOpen;
      nestedActive := isOpen;
      icon := if isOpen then "bi bi-folder2-open tree-icon" else "bi bi-folder tree-icon";
      load := ReadmeOnOpen(value, isOpen);
    }
  }

  /** Two clicks on a folder restore its open state, its list's visibility and its icon. */
  method ClickTwice(f: FolderToggle)
    requires f.Valid()
    modifies f
    ensures f.isOpen == old(f.isOpen) && f.nestedActive == old(f.nestedActive) && f.icon == old(f.icon)
    ensures f.Valid()
  {
    var _ := f.Click();
    var _ := f.Click();
  }
}
