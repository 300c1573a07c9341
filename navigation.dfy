/**
 * The path logic of `app.js` that sits between a URL hash and the page:
 * which sub-tree `renderTreeForFile` shows (app.js:381-389), the notebook
 * that `getIpynbForHtml` pairs with an HTML page (app.js:222-238), the
 * header link `setFileHeader` writes (app.js:240-259) and the view
 * `loadFile` picks by extension (app.js:283-292).
 *
 * The manifest `treeData` is always an object (it starts as `{}` and is
 * replaced by the parsed `tree.json`); it is passed as its list of fields.
 */
module Navigation {
  import opened Text
  import opened Dict
  import opened Json

  /** The folder every served file lives under. */
  const ContentPrefix: string := "content/"

  /** The page the header links into. */
  const RepoUrl: string := "https://github.com/mzsuetam/mzsuetam.github.io/blob/main/"

  /** `s.replace(/suffix$/, '')`: drops `suffix` when `s` ends with it. */
  function DropSuffix(s: string, suffix: string): (r: string)
    ensures EndsWith(s, suffix) ==> s == r + suffix
    ensures !EndsWith(s, suffix) ==> r == s
  {
    if EndsWith(s, suffix) then s[..|s| - |suffix|] else s
  }

  /**
   * `renderTreeForFile(filePath)`: the folder value and the open path it
   * renders the tree with, or `None` when it leaves the tree alone.
   * (`filePath.replace('content/', '')` replaces the first occurrence; once
   * the path starts with `content/`, that is the prefix.)
   */
  function RenderTreeForFile(manifest: Dict<Json>, filePath: string): (r: Option<(Json, seq<string>)>)
    ensures r.Some? ==> StartsWith(filePath, ContentPrefix) && Truthy(r.value.0)
    ensures r.Some? ==> exists folder :: Get(manifest, folder) == Some(r.value.0)
  {
    if !StartsWith(filePath, ContentPrefix) then None
    else
      var parts := Split(DropPrefix(filePath, ContentPrefix), '/');
      if |parts| < 2 then None
      else if HasTruthy(JObj(manifest), parts[0]) then Some((Get(manifest, parts[0]).value, parts[1..|parts| - 1]))
      else None
  }

  /**
   * For `content/<folder>/<d1>/…/<dn>/<file>`, the tree of `<folder>` is
   * rendered with the open path `[d1, …, dn]` when the manifest has a truthy
   * `<folder>`, and nothing happens otherwise.
   */
  lemma RenderTreeForFileOf(manifest: Dict<Json>, folder: string, dirs: seq<string>, file: string)
    requires '/' !in folder && '/' !in file
    requires forall i :: 0 <= i < |dirs| ==> '/' !in dirs[i]
    ensures var p := ContentPrefix + Join([folder] + dirs + [file], '/');
      RenderTreeForFile(manifest, p)
        == if HasTruthy(JObj(manifest), folder) then Some((Get(manifest, folder).value, dirs)) else None
  {
    var parts := [folder] + dirs + [file];
    PartsHaveNoSlash(folder, dirs, file);
    SplitJoin(parts, '/');
    DropPrefixOf(ContentPrefix, Join(parts, '/'));
    assert parts[0] == folder && parts[1..|parts| - 1] == dirs;
  }

  lemma PartsHaveNoSlash(folder: string, dirs: seq<string>, file: string)
    requires '/' !in folder && '/' !in file
    requires forall i :: 0 <= i < |dirs| ==> '/' !in dirs[i]
    ensures forall i :: 0 <= i < |[folder] + dirs + [file]| ==> '/' !in ([folder] + dirs + [file])[i]
  {
    var parts := [folder] + dirs + [file];
    forall i | 0 <= i < |parts| ensures '/' !in parts[i] {
      if 0 < i < |parts| - 1 {
        assert parts[i] == dirs[i - 1];
      }
    }
  }

  /** A path with no slash after `content/` names no folder, and the tree is left alone. */
  lemma RenderTreeForTopLevelFile(manifest: Dict<Json>, file: string)
    requires '/' !in file
    ensures RenderTreeForFile(manifest, ContentPrefix + file).None?
  {
    var p := ContentPrefix + file;
    assert p[..|ContentPrefix|] == ContentPrefix;
    assert DropPrefix(p, ContentPrefix) == file;
    SplitNoSep(file, '/');
  }

  /**
   * The node reached from `node` by following the directory names `dirs`,
   * one property access at a time; `None` as soon as a step gives a falsy
   * value.
   */
  function Descend(node: Json, dirs: seq<string>): (r: Option<Json>)
    ensures r.Some? && dirs != [] ==> Truthy(r.value)
    ensures dirs == [] ==> r == Some(node)
  {
    if dirs == [] then Some(node)
    else
      match Descend(node, dirs[..|dirs| - 1])
      case None => None
      case Some(n) => if HasTruthy(n, dirs[|dirs| - 1]) then Prop(n, dirs[|dirs| - 1]) else None
  }

  /** Once a step of the descent fails, every longer descent fails. */
  lemma {:induction false} DescendStops(node: Json, dirs: seq<string>, k: nat)
    requires k <= |dirs| && Descend(node, dirs[..k]).None?
    ensures Descend(node, dirs).None?
    decreases |dirs| - k
  {
    if k < |dirs| {
      assert dirs[..k + 1][..k] == dirs[..k];
      DescendStops(node, dirs, k + 1);
    } else {
      assert dirs[..k] == dirs;
    }
  }

  /** The relative name of a page: `content/` and `.html` taken off. */
  function HtmlBase(path: string): (r: string)
    ensures |r| <= |path|
  {
    DropSuffix(DropPrefix(path, ContentPrefix), ".html")
  }

  /**
   * `getIpynbForHtml(path)`: the truthy `ipynb` of the manifest leaf that the
   * page's relative name leads to, or `None` (`null`).
   */
  function IpynbFor(manifest: Dict<Json>, path: string): (r: Option<Json>)
    ensures !EndsWith(path, ".html") ==> r.None?
    ensures r.Some? ==> Truthy(r.value)
  {
    if !EndsWith(path, ".html") then None
    else
      var parts := Split(HtmlBase(path), '/');
      match Descend(JObj(manifest), parts[..|parts| - 1])
      case None => None
      case Some(node) => LeafIpynb(node, parts[|parts| - 1])
  }

  /** `node && node[base] && node[base].ipynb`, and that `ipynb` when it holds. */
  function LeafIpynb(node: Json, base: string): (r: Option<Json>)
    ensures r.Some? <==> Truthy(node) && HasTruthy(node, base) && HasTruthy(Prop(node, base).value, "ipynb")
    ensures r.Some? ==> r == Prop(Prop(node, base).value, "ipynb")
  {
    if Truthy(node) && HasTruthy(node, base) && HasTruthy(Prop(node, base).value, "ipynb")
    then Prop(Prop(node, base).value, "ipynb")
    else None
  }

  /** The loop of `getIpynbForHtml`, reassigning `node` one segment at a time. */
  method GetIpynbForHtml(manifest: Dict<Json>, path: string) returns (r: Option<Json>)
    ensures r == IpynbFor(manifest, path)
  {
    if !EndsWith(path, ".html") {
      return None;
    }
    var parts := Split(HtmlBase(path), '/');
    var node := JObj(manifest);
    var i := 0;
    while i < |parts| - 1
      invariant 0 <= i <= |parts| - 1
      invariant Descend(JObj(manifest), parts[..i]) == Some(node)
    {
      assert parts[..i + 1][..i] == parts[..i];
      if !HasTruthy(node, parts[i]) {
        assert Descend(JObj(manifest), parts[..i + 1]).None?;
        assert parts[..|parts| - 1][..i + 1] == parts[..i + 1];
        DescendStops(JObj(manifest), parts[..|parts| - 1], i + 1);
        return None;
      }
      node := Prop(node, parts[i]).value;
      i := i + 1;
    }
    r := LeafIpynb(node, parts[|parts| - 1]);
  }

  /** `content/` + a relative name + `.html` has that relative name back. */
  lemma HtmlBaseOf(rel: string)
    ensures var p := ContentPrefix + rel + ".html";
      EndsWith(p, ".html") && HtmlBase(p) == rel
  {
    var p := ContentPrefix + rel + ".html";
    assert p[|p| - 5..] == ".html";
    assert p[..|ContentPrefix|] == ContentPrefix;
    assert DropPrefix(p, ContentPrefix) == rel + ".html";
    assert (rel + ".html")[|rel + ".html"| - 5..] == ".html";
    assert (rel + ".html")[..|rel|] == rel;
  }

  /**
   * The page `content/<d1>/…/<dn>/<base>.html` is paired with the `ipynb`
   * of leaf `<base>` of the folder `<d1>/…/<dn>` when the leaf has a truthy
   * one, and with nothing otherwise.
   */
  lemma IpynbOfPage(manifest: Dict<Json>, dirs: seq<string>, base: string, node: Json)
    requires '/' !in base
    requires forall i :: 0 <= i < |dirs| ==> '/' !in dirs[i]
    requires Descend(JObj(manifest), dirs) == Some(node)
    ensures IpynbFor(manifest, ContentPrefix + Join(dirs + [base], '/') + ".html") == LeafIpynb(node, base)
  {
    var parts := dirs + [base];
    assert forall i :: 0 <= i < |parts| ==> '/' !in parts[i] by {
      forall i | 0 <= i < |parts| ensures '/' !in parts[i] {
        if i < |dirs| {
          assert parts[i] == dirs[i];
        }
      }
    }
    SplitJoin(parts, '/');
    HtmlBaseOf(Join(parts, '/'));
    assert parts[..|parts| - 1] == dirs;
  }

  /** A page below a folder that the manifest does not lead to has no notebook. */
  lemma IpynbOfMissingFolder(manifest: Dict<Json>, dirs: seq<string>, base: string, k: nat)
    requires '/' !in base
    requires forall i :: 0 <= i < |dirs| ==> '/' !in dirs[i]
    requires k <= |dirs| && Descend(JObj(manifest), dirs[..k]).None?
    ensures IpynbFor(manifest, ContentPrefix + Join(dirs + [base], '/') + ".html").None?
  {
    var parts := dirs + [base];
    assert forall i :: 0 <= i < |parts| ==> '/' !in parts[i] by {
      forall i | 0 <= i < |parts| ensures '/' !in parts[i] {
        if i < |dirs| {
          assert parts[i] == dirs[i];
        }
      }
    }
    SplitJoin(parts, '/');
    HtmlBaseOf(Join(parts, '/'));
    assert parts[..|parts| - 1] == dirs;
    DescendStops(JObj(manifest), dirs, k);
  }

  /** What the header shows: a link into the repository, or nothing. */
  datatype Header = Link(href: string, text: string) | Blank

  /**
   * `setFileHeader(path, ipynbPath)`: `None` when it throws, which happens
   * when the notebook path it settles on is truthy but not a string (it
   * calls `replace` on it).
   */
  function SetFileHeader(manifest: Dict<Json>, path: string, ipynbPath: Json): (r: Option<Header>)
    ensures r.Some? && r.value.Link? ==>
      exists target :: target != "" && r.value.href == RepoUrl + target && r.value.text == DropPrefix(target, ContentPrefix)
    ensures Truthy(ipynbPath) && ipynbPath.JStr? ==>
      r == Some(Link(RepoUrl + ipynbPath.s, DropPrefix(ipynbPath.s, ContentPrefix)))
    ensures Truthy(ipynbPath) && !ipynbPath.JStr? ==> r.None?
    ensures !Truthy(ipynbPath) && !EndsWith(path, ".html") ==>
      r == Some(if DropPrefix(path, ContentPrefix) == "" then Blank else Link(RepoUrl + path, DropPrefix(path, ContentPrefix)))
  {
    var displayPath := DropPrefix(path, ContentPrefix);
    var ipynb :=
      if !Truthy(ipynbPath) && path != "" && EndsWith(path, ".html") then
        match IpynbFor(manifest, path) case Some(j) => j case None => JNull
      else ipynbPath;
    if Truthy(ipynb) then
      if ipynb.JStr? then Some(Link(RepoUrl + ipynb.s, DropPrefix(ipynb.s, ContentPrefix))) else None
    else if displayPath != "" then Some(Link(RepoUrl + path, displayPath))
    else Some(Blank)
  }

  /** An HTML page opened without a notebook path links to the notebook the manifest pairs with it. */
  lemma HeaderOfPairedPage(manifest: Dict<Json>, path: string, ipynbPath: Json, nb: string)
    requires !Truthy(ipynbPath) && EndsWith(path, ".html")
    requires IpynbFor(manifest, path) == Some(JStr(nb))
    ensures SetFileHeader(manifest, path, ipynbPath) == Some(Link(RepoUrl + nb, DropPrefix(nb, ContentPrefix)))
  {
  }

  /**
   * An HTML page with no notebook in the manifest links to itself, shown
   * without `content/`; a notebook entry that is an object (as the manifest
   * builder writes them) makes the header throw.
   */
  lemma HeaderOfUnpairedPage(manifest: Dict<Json>, path: string, ipynbPath: Json)
    requires !Truthy(ipynbPath) && EndsWith(path, ".html")
    ensures IpynbFor(manifest, path).None? ==>
      SetFileHeader(manifest, path, ipynbPath) == Some(Link(RepoUrl + path, DropPrefix(path, ContentPrefix)))
    ensures IpynbFor(manifest, path).Some? && IpynbFor(manifest, path).value.JObj? ==>
      SetFileHeader(manifest, path, ipynbPath).None?
  {
    if IpynbFor(manifest, path).None? {
      assert DropPrefix(path, ContentPrefix) != "" by {
        if StartsWith(path, ContentPrefix) {
          assert path[|path| - 5..] == ".html";
          assert |path| >= |ContentPrefix| + 1 by {
            if |path| < |ContentPrefix| + 5 {
              assert path[..|ContentPrefix|] == ContentPrefix;
              assert path[7] == '/' && path[|path| - 5] == '.';
            }
          }
        }
      }
    }
  }

  /** The header shown on the Home tab (app.js:322). */
  lemma HomeHeader(manifest: Dict<Json>)
    ensures SetFileHeader(manifest, "", JNull) == Some(Blank)
  {
  }

  /** What `loadFile` puts into the content area. */
  datatype View =
    | Markdown(source: string)  // rendered by `marked`
    | Frame(src: string)        // an iframe showing the page
    | Unsupported

  /** `loadFile`'s choice by extension, given the fetched text. */
  function ContentView(path: string, fetched: string): (v: View)
    ensures v.Markdown? <==> EndsWith(path, ".md")
    ensures v.Markdown? ==> v.source == fetched
    ensures v.Frame? <==> EndsWith(path, ".html")
    ensures v.Frame? ==> v.src == path
  {
    ExtensionsExclusive(path);
    if EndsWith(path, ".md") then Markdown(fetched)
    else if EndsWith(path, ".html") then Frame(path)
    else Unsupported
  }

  /** No path ends in both `.md` and `.html`, so the order of the two tests does not matter. */
  lemma ExtensionsExclusive(path: string)
    ensures !(EndsWith(path, ".md") && EndsWith(path, ".html"))
  {
    if EndsWith(path, ".html") {
      assert path[|path| - 3..] == "tml";
    }
  }
}
