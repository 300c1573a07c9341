/**
 * The manifest builder `walk` of scripts/make_tree.py (lines 36-73): it
 * lists a directory, skips dot entries, recurses into sub-directories,
 * drops the files of the top directory, and groups the other files by the
 * name they have without their extension, pairing an `.html` page with its
 * `.ipynb` notebook.
 *
 * The file system is a value: a directory is the list of its entries in the
 * order `os.listdir` returns them. The date lookup `get_git_file_date`
 * (git and the file's mtime) is the parameter `dateOf`.
 */
module MakeTree {
  import opened Text
  import opened Dict

  /** A directory entry: a file, or a directory with its own listing. */
  datatype Entry = File(name: string) | Dir(name: string, listing: seq<Entry>)

  /** `{"path": …, "modification-date": …}`. */
  datatype FileRef = FileRef(path: string, modificationDate: Option<string>)

  /** A value of the manifest `walk` writes. */
  datatype Node =
    | Folder(tree: Dict<Node>)              // a sub-directory
    | Pair(html: FileRef, ipynb: FileRef)   // `{"html": …, "ipynb": …}`
    | Leaf(file: FileRef)                   // any other group of files

  /** `os.path.join(dir, name)` (POSIX). */
  function PathJoin(dir: string, name: string): (r: string)
    ensures !StartsWith(name, "/") && (dir == "" || EndsWith(dir, "/")) ==> r == dir + name
    ensures !StartsWith(name, "/") && dir != "" && !EndsWith(dir, "/") ==> r == dir + "/" + name
  {
    if StartsWith(name, "/") then name
    else if dir == "" || EndsWith(dir, "/") then dir + name
    else dir + "/" + name
  }

  /** Position of the last `c` in `s`, or -1. */
  function LastIndex(s: string, c: char): (r: int)
    ensures -1 <= r < |s|
    ensures r >= 0 ==> s[r] == c
    ensures forall k :: r < k < |s| ==> s[k] != c
  {
    if s == [] then -1
    else if s[|s| - 1] == c then |s| - 1
    else LastIndex(s[..|s| - 1], c)
  }

  /** Some character of `s[lo..hi]` is not a dot. */
  predicate HasNonDot(s: string, lo: int, hi: int)
    requires 0 <= lo && hi <= |s|
  {
    exists k :: lo <= k < hi && s[k] != '.'
  }

  /**
   * `os.path.splitext(p)`: splits before the last dot of the last path
   * component, unless only dots precede it in that component (so `.bashrc`
   * has no extension).
   */
  function SplitExt(p: string): (r: (string, string))
    ensures r.0 + r.1 == p
    ensures r.1 == [] || (r.1[0] == '.' && forall k :: 0 < k < |r.1| ==> r.1[k] != '.' && r.1[k] != '/')
    ensures |p| > 0 && p[0] != '.' ==> |r.0| > 0 && r.0[0] == p[0]
    ensures r.1 != [] <==>
      exists k :: LastIndex(p, '/') < k < |p| && p[k] == '.' && HasNonDot(p, LastIndex(p, '/') + 1, k)
  {
    var sep := LastIndex(p, '/');
    var dot := LastIndex(p, '.');
    if dot > sep && HasNonDot(p, sep + 1, dot) then
      assert p[..dot] + p[dot..] == p;
      (p[..dot], p[dot..])
    else
      assert forall k :: sep < k < |p| && p[k] == '.' && HasNonDot(p, sep + 1, k) ==> HasNonDot(p, sep + 1, dot);
      (p, [])
  }

  /**
   * A name made of a base with no `/` and some non-dot character, followed
   * by an extension (a dot and no further dot or `/`), splits into exactly
   * that base and extension: `notes.html` is (`notes`, `.html`).
   */
  lemma SplitExtOf(b: string, ext: string)
    requires '/' !in b && HasNonDot(b, 0, |b|)
    requires |ext| > 0 && ext[0] == '.' && forall k :: 0 < k < |ext| ==> ext[k] != '.' && ext[k] != '/'
    ensures SplitExt(b + ext) == (b, ext)
  {
    var p := b + ext;
    var sep := LastIndex(p, '/');
    var dot := LastIndex(p, '.');
    assert forall m :: 0 <= m < |p| ==> p[m] != '/';
    assert p[|b|] == '.';
    assert forall m :: |b| < m < |p| ==> p[m] != '.';
    var k :| 0 <= k < |b| && b[k] != '.';
    assert p[k] != '.';
    assert p[..dot] == b && p[dot..] == ext;
  }

  /** `get_git_file_date` applied to `path`, stored next to it. */
  function Ref(path: string, dateOf: string -> Option<string>): FileRef {
    FileRef(path, dateOf(path))
  }

  /** The manifest value of one group of files, `exts` mapping each extension to its path (lines 54-72). */
  function NodeFor(exts: Dict<string>, dateOf: string -> Option<string>): (n: Node)
    requires exts != []
    ensures n.Pair? <==> HasKey(exts, ".html") && HasKey(exts, ".ipynb")
    ensures n.Pair? ==> n.html.path == Get(exts, ".html").value && n.ipynb.path == Get(exts, ".ipynb").value
    ensures n.Leaf? ==> n.file.path == exts[0].1
    ensures !n.Folder?
  {
    if HasKey(exts, ".html") && HasKey(exts, ".ipynb")
    then Pair(Ref(Get(exts, ".html").value, dateOf), Ref(Get(exts, ".ipynb").value, dateOf))
    else Leaf(Ref(exts[0].1, dateOf))
  }

  /** `files.get(base, {})`. */
  function GroupOf(files: Dict<Dict<string>>, base: string): (exts: Dict<string>)
    ensures HasKey(files, base) ==> exts == Get(files, base).value
    ensures !HasKey(files, base) ==> exts == []
  {
    match Get(files, base)
    case None => []
    case Some(exts) => exts
  }

  /** Every group holds at least one file. */
  predicate NonEmptyGroups(files: Dict<Dict<string>>) {
    forall i :: 0 <= i < |files| ==> files[i].1 != []
  }

  /** `files[base][ext] = path` (lines 48-50). */
  function Record(files: Dict<Dict<string>>, base: string, ext: string, path: string): (r: Dict<Dict<string>>)
    ensures NonEmptyGroups(files) ==> NonEmptyGroups(r)
  {
    var group := Put(GroupOf(files, base), ext, path);
    assert NonEmptyGroups(files) ==> NonEmptyGroups(Put(files, base, group)) by {
      PutNonEmpty(files, base, group);
    }
    Put(files, base, group)
  }

  lemma PutNonEmpty(files: Dict<Dict<string>>, base: string, group: Dict<string>)
    requires group != []
    ensures NonEmptyGroups(files) ==> NonEmptyGroups(Put(files, base, group))
  {
    if NonEmptyGroups(files) {
      PutPairs(files, base, group);
      var r := Put(files, base, group);
      forall i | 0 <= i < |r| ensures r[i].1 != [] {
        assert r[i] in r;
        if r[i] != (base, group) {
          var k :| 0 <= k < |files| && files[k] == r[i];
        }
      }
    }
  }

  /** An entry the first loop looks at: its name does not start with a dot. */
  predicate Visible(e: Entry) {
    !StartsWith(e.name, ".")
  }

  /** An entry the first loop files under a group: a visible file below the top directory. */
  predicate Grouped(e: Entry, basedir: bool) {
    Visible(e) && e.File? && !basedir
  }

  /**
   * What the recursive call of line 45 returns for each entry: the walk of
   * the sub-directory for a directory (the empty manifest for a file, which
   * the loop never asks for).
   */
  function SubWalks(dir: string, listing: seq<Entry>, dateOf: string -> Option<string>): (subs: seq<Dict<Node>>)
    ensures |subs| == |listing|
    decreases listing, 0
  {
    seq(|listing|, i requires 0 <= i < |listing| =>
      if listing[i].Dir? then Walk(PathJoin(dir, listing[i].name), listing[i].listing, false, dateOf) else [])
  }

  /** `tree` after the first loop (lines 40-50) has seen `n` entries, `subs` holding the sub-directories' walks: one folder per visible sub-directory. */
  function TreeAfter(listing: seq<Entry>, n: nat, subs: seq<Dict<Node>>): Dict<Node>
    requires n <= |listing| == |subs|
  {
    if n == 0 then []
    else
      var tree := TreeAfter(listing, n - 1, subs);
      var item := listing[n - 1];
      if Visible(item) && item.Dir? then Put(tree, item.name, Folder(subs[n - 1])) else tree
  }

  /** `files` after the first loop has seen `n` entries: each grouped file recorded under its base and extension. */
  function FilesAfter(dir: string, listing: seq<Entry>, n: nat, basedir: bool): (files: Dict<Dict<string>>)
    requires n <= |listing|
    ensures NonEmptyGroups(files)
  {
    if n == 0 then []
    else
      var files := FilesAfter(dir, listing, n - 1, basedir);
      var item := listing[n - 1];
      if Grouped(item, basedir) then
        Record(files, SplitExt(item.name).0, SplitExt(item.name).1, PathJoin(dir, item.name))
      else files
  }

  /** The second loop of `walk` (lines 52-72) after the first `m` groups. */
  function Group(tree: Dict<Node>, files: Dict<Dict<string>>, m: nat, dateOf: string -> Option<string>): Dict<Node>
    requires m <= |files|
    requires NonEmptyGroups(files)
  {
    if m == 0 then tree
    else Put(Group(tree, files, m - 1, dateOf), files[m - 1].0, NodeFor(files[m - 1].1, dateOf))
  }

  /** `walk(dir, basedir)` for the directory whose entries are `listing`. */
  function Walk(dir: string, listing: seq<Entry>, basedir: bool, dateOf: string -> Option<string>): Dict<Node>
    decreases listing, 1
  {
    var files := FilesAfter(dir, listing, |listing|, basedir);
    Group(TreeAfter(listing, |listing|, SubWalks(dir, listing, dateOf)), files, |files|, dateOf)
  }

  /** `walk` as the script runs it: two loops filling `tree` and `files` in place, one recursive call per sub-directory. */
  method WalkDir(dir: string, listing: seq<Entry>, basedir: bool, dateOf: string -> Option<string>)
    returns (tree: Dict<Node>)
    ensures tree == Walk(dir, listing, basedir, dateOf)
    decreases listing, 2
  {
    var files;
    tree, files := ScanDir(dir, listing, basedir, dateOf);
    tree := AddGroups(tree, files, dateOf);
  }

  /** The first loop of `walk` (lines 40-50). */
  method ScanDir(dir: string, listing: seq<Entry>, basedir: bool, dateOf: string -> Option<string>)
    returns (tree: Dict<Node>, files: Dict<Dict<string>>)
    ensures tree == TreeAfter(listing, |listing|, SubWalks(dir, listing, dateOf))
    ensures files == FilesAfter(dir, listing, |listing|, basedir)
    decreases listing, 1
  {
    tree, files := [], [];
    var n := 0;
    while n < |listing|
      invariant 0 <= n <= |listing|
      invariant tree == TreeAfter(listing, n, SubWalks(dir, listing, dateOf))
      invariant files == FilesAfter(dir, listing, n, basedir)
    {
      tree, files := ScanEntry(dir, listing, n, basedir, dateOf, tree, files);
      n := n + 1;
    }
  }

  /** One round of the first loop (lines 41-50): a visible directory gets its own manifest from the recursive call, a visible file below the top directory is recorded in its group. */
  method ScanEntry(dir: string, listing: seq<Entry>, n: nat, basedir: bool, dateOf: string -> Option<string>,
                   priorTree: Dict<Node>, priorFiles: Dict<Dict<string>>)
    returns (tree: Dict<Node>, files: Dict<Dict<string>>)
    requires n < |listing|
    requires priorTree == TreeAfter(listing, n, SubWalks(dir, listing, dateOf))
    requires priorFiles == FilesAfter(dir, listing, n, basedir)
    ensures tree == TreeAfter(listing, n + 1, SubWalks(dir, listing, dateOf))
    ensures files == FilesAfter(dir, listing, n + 1, basedir)
    decreases listing, 0
  {
    tree, files := priorTree, priorFiles;
    var item := listing[n];
    if StartsWith(item.name, ".") {
      return;
    }
    var path := PathJoin(dir, item.name);
    if item.Dir? {
      var sub := WalkDir(path, item.listing, false, dateOf);
      tree := Put(tree, item.name, Folder(sub));
    } else if !basedir {
      var (base, ext) := SplitExt(item.name);
      files := RecordFile(files, base, ext, path);
    }
  }

  /** `if base not in files: files[base] = {}` followed by `files[base][ext] = path` (lines 48-50). */
  method RecordFile(prior: Dict<Dict<string>>, base: string, ext: string, path: string)
    returns (files: Dict<Dict<string>>)
    ensures files == Record(prior, base, ext, path)
  {
    files := prior;
    if !HasKey(files, base) {
      PutAbsentTwice(files, base, [], Put(GroupOf(files, base), ext, path));
      files := Put(files, base, []);
    }
    files := Put(files, base, Put(Get(files, base).value, ext, path));
  }

  /** The second loop of `walk`: one manifest entry per group of files, written over `tree`. */
  method AddGroups(scanned: Dict<Node>, files: Dict<Dict<string>>, dateOf: string -> Option<string>)
    returns (tree: Dict<Node>)
    requires NonEmptyGroups(files)
    ensures tree == Group(scanned, files, |files|, dateOf)
  {
    tree := scanned;
    var m := 0;
    while m < |files|
      invariant 0 <= m <= |files|
      invariant tree == Group(scanned, files, m, dateOf)
    {
      var node := NodeFor(files[m].1, dateOf);
      GroupStep(scanned, files, m, dateOf);
      tree := Put(tree, files[m].0, node);
      m := m + 1;
    }
  }

  /** One round of the second loop stores the node of group `m` under its base. */
  lemma GroupStep(tree: Dict<Node>, files: Dict<Dict<string>>, m: nat, dateOf: string -> Option<string>)
    requires m < |files| && NonEmptyGroups(files)
    ensures Group(tree, files, m + 1, dateOf) == Put(Group(tree, files, m, dateOf), files[m].0, NodeFor(files[m].1, dateOf))
  {
  }

  // ---------------------------------------------------------------------
  // What the first loop records

  /** `os.listdir` never lists a name twice. */
  predicate DistinctNames(listing: seq<Entry>) {
    forall i, j :: 0 <= i < j < |listing| ==> listing[i].name != listing[j].name
  }

  /** Entry `j` is a file the first loop records under base `b`. */
  predicate InGroup(listing: seq<Entry>, j: int, basedir: bool, b: string)
    requires 0 <= j < |listing|
  {
    Grouped(listing[j], basedir) && SplitExt(listing[j].name).0 == b
  }

  /** Entry `j` is a file the first loop records under base `b` and extension `e`. */
  predicate RecordedAt(listing: seq<Entry>, j: int, basedir: bool, b: string, e: string)
    requires 0 <= j < |listing|
  {
    InGroup(listing, j, basedir, b) && SplitExt(listing[j].name).1 == e
  }

  /** Some entry before `n` is a file the first loop records under base `b` and extension `e`. */
  predicate Recorded(listing: seq<Entry>, n: nat, basedir: bool, b: string, e: string)
    requires n <= |listing|
  {
    exists j :: 0 <= j < n && RecordedAt(listing, j, basedir, b, e)
  }

  /** How one `Record` changes the group of a base. */
  lemma RecordGroup(files: Dict<Dict<string>>, base: string, ext: string, path: string, b: string)
    ensures GroupOf(Record(files, base, ext, path), b) == if b == base then Put(GroupOf(files, base), ext, path) else GroupOf(files, b)
    ensures HasKey(Record(files, base, ext, path), b) <==> HasKey(files, b) || b == base
  {
    GetPut(files, base, Put(GroupOf(files, base), ext, path), b);
  }

  /** A base has a group exactly when some visible file below the top directory has that base (lines 46-50). */
  lemma {:induction false} FilesKeys(dir: string, listing: seq<Entry>, n: nat, basedir: bool, b: string)
    requires n <= |listing|
    ensures HasKey(FilesAfter(dir, listing, n, basedir), b) <==> exists j :: 0 <= j < n && InGroup(listing, j, basedir, b)
    decreases n
  {
    if n > 0 {
      FilesKeys(dir, listing, n - 1, basedir, b);
      FilesStepKeys(dir, listing, n, basedir, b);
      if HasKey(FilesAfter(dir, listing, n, basedir), b) {
        if !InGroup(listing, n - 1, basedir, b) {
          var j :| 0 <= j < n - 1 && InGroup(listing, j, basedir, b);
          assert 0 <= j < n && InGroup(listing, j, basedir, b);
        }
      } else {
        forall j | 0 <= j < n ensures !InGroup(listing, j, basedir, b) {
          if j < n - 1 {
            assert !(0 <= j < n - 1 && InGroup(listing, j, basedir, b));
          }
        }
      }
    }
  }

  /** One round of the first loop adds the base of the entry it records, and no other. */
  lemma FilesStepKeys(dir: string, listing: seq<Entry>, n: nat, basedir: bool, b: string)
    requires 0 < n <= |listing|
    ensures HasKey(FilesAfter(dir, listing, n, basedir), b) <==> HasKey(FilesAfter(dir, listing, n - 1, basedir), b) || InGroup(listing, n - 1, basedir, b)
  {
    var item := listing[n - 1];
    if Grouped(item, basedir) {
      RecordGroup(FilesAfter(dir, listing, n - 1, basedir), SplitExt(item.name).0, SplitExt(item.name).1, PathJoin(dir, item.name), b);
    }
  }

  /**
   * The path recorded under base `b` and extension `e` is the directory
   * joined with `b + e`, present exactly when such a file was seen (line 50).
   */
  lemma FilesPath(dir: string, listing: seq<Entry>, n: nat, basedir: bool, b: string, e: string)
    requires n <= |listing|
    ensures Get(GroupOf(FilesAfter(dir, listing, n, basedir), b), e) == if Recorded(listing, n, basedir, b, e) then Some(PathJoin(dir, b + e)) else None
  {
    if Recorded(listing, n, basedir, b, e) {
      var j :| 0 <= j < n && RecordedAt(listing, j, basedir, b, e);
      FilesPathFound(dir, listing, n, basedir, b, e, j);
    } else {
      FilesPathMissing(dir, listing, n, basedir, b, e);
    }
  }

  lemma FilesPathFound(dir: string, listing: seq<Entry>, n: nat, basedir: bool, b: string, e: string, j: nat)
    requires n <= |listing| && j < n && RecordedAt(listing, j, basedir, b, e)
    ensures Get(GroupOf(FilesAfter(dir, listing, n, basedir), b), e) == Some(PathJoin(dir, b + e))
  {
    FilesPathHere(dir, listing, j + 1, basedir, b, e);
    FilesPathStays(dir, listing, j + 1, n, basedir, b, e);
  }

  /** Once recorded, the path for `b + e` is never overwritten by a later entry. */
  lemma {:induction false} FilesPathStays(dir: string, listing: seq<Entry>, m: nat, n: nat, basedir: bool, b: string, e: string)
    requires m <= n <= |listing|
    requires Get(GroupOf(FilesAfter(dir, listing, m, basedir), b), e) == Some(PathJoin(dir, b + e))
    ensures Get(GroupOf(FilesAfter(dir, listing, n, basedir), b), e) == Some(PathJoin(dir, b + e))
    decreases n - m
  {
    if m < n {
      FilesPathNotOverwritten(dir, listing, m + 1, basedir, b, e);
      FilesPathStays(dir, listing, m + 1, n, basedir, b, e);
    }
  }

  lemma FilesPathNotOverwritten(dir: string, listing: seq<Entry>, n: nat, basedir: bool, b: string, e: string)
    requires 0 < n <= |listing|
    requires Get(GroupOf(FilesAfter(dir, listing, n - 1, basedir), b), e) == Some(PathJoin(dir, b + e))
    ensures Get(GroupOf(FilesAfter(dir, listing, n, basedir), b), e) == Some(PathJoin(dir, b + e))
  {
    FilesStepPath(dir, listing, n, basedir, b, e);
  }

  lemma FilesPathHere(dir: string, listing: seq<Entry>, n: nat, basedir: bool, b: string, e: string)
    requires 0 < n <= |listing| && RecordedAt(listing, n - 1, basedir, b, e)
    ensures Get(GroupOf(FilesAfter(dir, listing, n, basedir), b), e) == Some(PathJoin(dir, b + e))
  {
    FilesStepPath(dir, listing, n, basedir, b, e);
  }

  lemma FilesPathKept(dir: string, listing: seq<Entry>, n: nat, basedir: bool, b: string, e: string)
    requires 0 < n <= |listing| && !RecordedAt(listing, n - 1, basedir, b, e)
    ensures Get(GroupOf(FilesAfter(dir, listing, n, basedir), b), e) == Get(GroupOf(FilesAfter(dir, listing, n - 1, basedir), b), e)
  {
    FilesStepPath(dir, listing, n, basedir, b, e);
  }

  lemma {:induction false} FilesPathMissing(dir: string, listing: seq<Entry>, n: nat, basedir: bool, b: string, e: string)
    requires n <= |listing|
    requires forall j :: 0 <= j < n ==> !RecordedAt(listing, j, basedir, b, e)
    ensures Get(GroupOf(FilesAfter(dir, listing, n, basedir), b), e) == None
    decreases n
  {
    if n == 0 {
      FilesNoGroup(dir, listing, 0, basedir, b);
    } else {
      FilesPathMissing(dir, listing, n - 1, basedir, b, e);
      assert !RecordedAt(listing, n - 1, basedir, b, e);
      FilesPathKept(dir, listing, n, basedir, b, e);
    }
  }

  /** One round of the first loop stores the entry's path under its own base and extension, and changes nothing else. */
  lemma FilesStepPath(dir: string, listing: seq<Entry>, n: nat, basedir: bool, b: string, e: string)
    requires 0 < n <= |listing|
    ensures Get(GroupOf(FilesAfter(dir, listing, n, basedir), b), e)
         == if RecordedAt(listing, n - 1, basedir, b, e)
            then Some(PathJoin(dir, b + e))
            else Get(GroupOf(FilesAfter(dir, listing, n - 1, basedir), b), e)
  {
    var item := listing[n - 1];
    var files := FilesAfter(dir, listing, n - 1, basedir);
    if Grouped(item, basedir) {
      var (base, ext) := SplitExt(item.name);
      RecordGroup(files, base, ext, PathJoin(dir, item.name), b);
      if b == base {
        GetPut(GroupOf(files, base), ext, PathJoin(dir, item.name), e);
      }
    }
  }

  /** Entry `j` is the first entry before `n` that the first loop records under base `b`. */
  predicate FirstInGroup(listing: seq<Entry>, n: nat, basedir: bool, b: string, j: nat)
    requires n <= |listing|
  {
    j < n && InGroup(listing, j, basedir, b) && forall i :: 0 <= i < j ==> !InGroup(listing, i, basedir, b)
  }

  /** The first extension recorded for a base is that of the first file with that base, and keeps its path. */
  lemma {:induction false} FilesFirst(dir: string, listing: seq<Entry>, n: nat, basedir: bool, b: string, j: nat)
    requires n <= |listing|
    requires FirstInGroup(listing, n, basedir, b, j)
    ensures GroupOf(FilesAfter(dir, listing, n, basedir), b) != []
    ensures GroupOf(FilesAfter(dir, listing, n, basedir), b)[0] == (SplitExt(listing[j].name).1, PathJoin(dir, listing[j].name))
    decreases n
  {
    var first := (SplitExt(listing[j].name).1, PathJoin(dir, listing[j].name));
    if j == n - 1 {
      FilesGroupStarts(dir, listing, n, basedir, b);
    } else {
      FilesFirst(dir, listing, n - 1, basedir, b, j);
      var prior := GroupOf(FilesAfter(dir, listing, n - 1, basedir), b);
      assert prior[0] == first;
      assert listing[j].name == b + first.0;
      FilesGroupKeepsFirst(dir, listing, n, basedir, b);
    }
  }

  /** The round that records the first file of a base creates its group with that one file. */
  lemma FilesGroupStarts(dir: string, listing: seq<Entry>, n: nat, basedir: bool, b: string)
    requires 0 < n <= |listing|
    requires FirstInGroup(listing, n, basedir, b, n - 1)
    ensures GroupOf(FilesAfter(dir, listing, n, basedir), b) == [(SplitExt(listing[n - 1].name).1, PathJoin(dir, listing[n - 1].name))]
  {
    var e0 := SplitExt(listing[n - 1].name).1;
    assert listing[n - 1].name == b + e0;
    FilesNoGroup(dir, listing, n - 1, basedir, b);
    FilesStepGroup(dir, listing, n, basedir, b);
    assert Put([], e0, PathJoin(dir, b + e0)) == [(e0, PathJoin(dir, b + e0))];
  }

  /** A base no file has yet been recorded under has no group. */
  lemma {:induction false} FilesNoGroup(dir: string, listing: seq<Entry>, n: nat, basedir: bool, b: string)
    requires n <= |listing|
    requires forall j :: 0 <= j < n ==> !InGroup(listing, j, basedir, b)
    ensures GroupOf(FilesAfter(dir, listing, n, basedir), b) == []
    decreases n
  {
    if n > 0 {
      FilesNoGroup(dir, listing, n - 1, basedir, b);
      FilesStepGroup(dir, listing, n, basedir, b);
    }
  }

  /** Later rounds keep the first pair of a group that already exists. */
  lemma FilesGroupKeepsFirst(dir: string, listing: seq<Entry>, n: nat, basedir: bool, b: string)
    requires 0 < n <= |listing|
    requires GroupOf(FilesAfter(dir, listing, n - 1, basedir), b) != []
    requires var g := GroupOf(FilesAfter(dir, listing, n - 1, basedir), b); g[0].1 == PathJoin(dir, b + g[0].0)
    ensures GroupOf(FilesAfter(dir, listing, n, basedir), b) != []
    ensures GroupOf(FilesAfter(dir, listing, n, basedir), b)[0] == GroupOf(FilesAfter(dir, listing, n - 1, basedir), b)[0]
  {
    FilesStepGroup(dir, listing, n, basedir, b);
    var prior := GroupOf(FilesAfter(dir, listing, n - 1, basedir), b);
    if InGroup(listing, n - 1, basedir, b) {
      var ext := SplitExt(listing[n - 1].name).1;
      FirstKept(prior, ext, PathJoin(dir, b + ext));
    }
  }

  /** One round of the first loop changes only the group of the entry's own base, storing the entry's path under its extension. */
  lemma FilesStepGroup(dir: string, listing: seq<Entry>, n: nat, basedir: bool, b: string)
    requires 0 < n <= |listing|
    ensures GroupOf(FilesAfter(dir, listing, n, basedir), b)
         == if InGroup(listing, n - 1, basedir, b)
            then Put(GroupOf(FilesAfter(dir, listing, n - 1, basedir), b), SplitExt(listing[n - 1].name).1, PathJoin(dir, b + SplitExt(listing[n - 1].name).1))
            else GroupOf(FilesAfter(dir, listing, n - 1, basedir), b)
  {
    var item := listing[n - 1];
    if Grouped(item, basedir) {
      RecordGroup(FilesAfter(dir, listing, n - 1, basedir), SplitExt(item.name).0, SplitExt(item.name).1, PathJoin(dir, item.name), b);
    }
  }

  /** Storing into a non-empty dictionary keeps its first key; the value there changes only when the key is that one. */
  lemma FirstKept(d: Dict<string>, k: string, v: string)
    requires d != []
    ensures Put(d, k, v) != []
    ensures Put(d, k, v)[0] == if d[0].0 == k then (k, v) else d[0]
  {
  }

  /** Every recorded path names a file of the walked directory (lines 43 and 50). */
  lemma FilesPathIsEntry(dir: string, listing: seq<Entry>, b: string, e: string)
    requires Recorded(listing, |listing|, false, b, e)
    ensures exists j :: 0 <= j < |listing| && listing[j].File? && !StartsWith(listing[j].name, ".")
                        && PathJoin(dir, b + e) == PathJoin(dir, listing[j].name)
  {
    var j :| 0 <= j < |listing| && RecordedAt(listing, j, false, b, e);
    assert b + e == listing[j].name;
  }

  /** No group is ever created in the top directory (line 46). */
  lemma {:induction false} FilesOfTop(dir: string, listing: seq<Entry>, n: nat)
    requires n <= |listing|
    ensures FilesAfter(dir, listing, n, true) == []
    decreases n
  {
    if n > 0 {
      FilesOfTop(dir, listing, n - 1);
    }
  }

  /** `files` never holds a base twice. */
  lemma {:induction false} FilesDistinct(dir: string, listing: seq<Entry>, n: nat, basedir: bool)
    requires n <= |listing|
    ensures DistinctKeys(FilesAfter(dir, listing, n, basedir))
    decreases n
  {
    if n > 0 {
      FilesDistinct(dir, listing, n - 1, basedir);
      var item := listing[n - 1];
      if Grouped(item, basedir) {
        var files := FilesAfter(dir, listing, n - 1, basedir);
        var (base, ext) := SplitExt(item.name);
        PutDistinct(files, base, Put(GroupOf(files, base), ext, PathJoin(dir, item.name)));
      }
    }
  }

  // ---------------------------------------------------------------------
  // What the first loop puts in `tree`

  /** One round of the first loop writes only the entry's own name, and only for a visible directory. */
  lemma TreeStep(listing: seq<Entry>, n: nat, subs: seq<Dict<Node>>, k: string)
    requires 0 < n <= |listing| == |subs|
    ensures Get(TreeAfter(listing, n, subs), k)
         == if Visible(listing[n - 1]) && listing[n - 1].Dir? && listing[n - 1].name == k
            then Some(Folder(subs[n - 1]))
            else Get(TreeAfter(listing, n - 1, subs), k)
  {
    var item := listing[n - 1];
    if Visible(item) && item.Dir? {
      GetPut(TreeAfter(listing, n - 1, subs), item.name, Folder(subs[n - 1]), k);
    }
  }

  /** A visible sub-directory is stored under its full name, mapped to its own walk (lines 44-45). */
  lemma {:induction false} TreeSubdir(listing: seq<Entry>, n: nat, subs: seq<Dict<Node>>, j: nat)
    requires n <= |listing| == |subs|
    requires j < n && Visible(listing[j]) && listing[j].Dir?
    requires forall i :: j < i < n ==> listing[i].name != listing[j].name
    ensures Get(TreeAfter(listing, n, subs), listing[j].name) == Some(Folder(subs[j]))
    decreases n
  {
    TreeStep(listing, n, subs, listing[j].name);
    if j < n - 1 {
      TreeSubdir(listing, n - 1, subs, j);
    }
  }

  /** `tree` holds exactly the names of the visible sub-directories. */
  lemma {:induction false} TreeKeys(listing: seq<Entry>, n: nat, subs: seq<Dict<Node>>, k: string)
    requires n <= |listing| == |subs|
    ensures HasKey(TreeAfter(listing, n, subs), k) <==> exists j :: 0 <= j < n && Visible(listing[j]) && listing[j].Dir? && listing[j].name == k
    decreases n
  {
    if n > 0 {
      TreeKeys(listing, n - 1, subs, k);
      TreeStep(listing, n, subs, k);
      if exists j :: 0 <= j < n && Visible(listing[j]) && listing[j].Dir? && listing[j].name == k {
        var j :| 0 <= j < n && Visible(listing[j]) && listing[j].Dir? && listing[j].name == k;
        if j < n - 1 {
          assert 0 <= j < n - 1 && Visible(listing[j]) && listing[j].Dir? && listing[j].name == k;
        }
      }
    }
  }

  /** Every value the first loop stores is a folder. */
  lemma {:induction false} TreeFolders(listing: seq<Entry>, n: nat, subs: seq<Dict<Node>>)
    requires n <= |listing| == |subs|
    ensures forall i :: 0 <= i < |TreeAfter(listing, n, subs)| ==> TreeAfter(listing, n, subs)[i].1.Folder?
    decreases n
  {
    if n > 0 {
      TreeFolders(listing, n - 1, subs);
      var item := listing[n - 1];
      if Visible(item) && item.Dir? {
        var t := TreeAfter(listing, n - 1, subs);
        var r := Put(t, item.name, Folder(subs[n - 1]));
        PutPairs(t, item.name, Folder(subs[n - 1]));
        forall i | 0 <= i < |r| ensures r[i].1.Folder? {
          assert r[i] in r;
        }
      }
    }
  }

  /** `tree` never holds a name twice. */
  lemma {:induction false} TreeDistinct(listing: seq<Entry>, n: nat, subs: seq<Dict<Node>>)
    requires n <= |listing| == |subs|
    ensures DistinctKeys(TreeAfter(listing, n, subs))
    decreases n
  {
    if n > 0 {
      TreeDistinct(listing, n - 1, subs);
      var item := listing[n - 1];
      if Visible(item) && item.Dir? {
        PutDistinct(TreeAfter(listing, n - 1, subs), item.name, Folder(subs[n - 1]));
      }
    }
  }

  // ---------------------------------------------------------------------
  // The second loop and the whole of `walk`

  /** After the second loop, each base among the first `m` groups maps to its group's node (lines 52-72). */
  lemma {:induction false} GroupAt(tree: Dict<Node>, files: Dict<Dict<string>>, m: nat, dateOf: string -> Option<string>, i: nat)
    requires m <= |files|
    requires NonEmptyGroups(files)
    requires DistinctKeys(files)
    requires i < m
    ensures Get(Group(tree, files, m, dateOf), files[i].0) == Some(NodeFor(files[i].1, dateOf))
    decreases m
  {
    GetPut(Group(tree, files, m - 1, dateOf), files[m - 1].0, NodeFor(files[m - 1].1, dateOf), files[i].0);
    if i < m - 1 {
      GroupAt(tree, files, m - 1, dateOf, i);
    }
  }

  /** The second loop leaves every name that is not a base of the first `m` groups as the first loop stored it. */
  lemma {:induction false} GroupOutside(tree: Dict<Node>, files: Dict<Dict<string>>, m: nat, dateOf: string -> Option<string>, k: string)
    requires m <= |files|
    requires NonEmptyGroups(files)
    requires forall i :: 0 <= i < m ==> files[i].0 != k
    ensures Get(Group(tree, files, m, dateOf), k) == Get(tree, k)
    decreases m
  {
    if m > 0 {
      GroupOutside(tree, files, m - 1, dateOf, k);
      var node := NodeFor(files[m - 1].1, dateOf);
      assert Group(tree, files, m, dateOf) == Put(Group(tree, files, m - 1, dateOf), files[m - 1].0, node);
      GetPut(Group(tree, files, m - 1, dateOf), files[m - 1].0, node, k);
    }
  }

  /** The second loop keeps a dictionary free of duplicate keys. */
  lemma {:induction false} GroupDistinct(tree: Dict<Node>, files: Dict<Dict<string>>, m: nat, dateOf: string -> Option<string>)
    requires m <= |files|
    requires NonEmptyGroups(files)
    requires DistinctKeys(tree)
    ensures DistinctKeys(Group(tree, files, m, dateOf))
    decreases m
  {
    if m > 0 {
      GroupDistinct(tree, files, m - 1, dateOf);
      PutDistinct(Group(tree, files, m - 1, dateOf), files[m - 1].0, NodeFor(files[m - 1].1, dateOf));
    }
  }

  /** A name of `walk`'s result maps to its group's node when it is a base of a group, and to what the first loop stored otherwise. */
  lemma WalkGet(dir: string, listing: seq<Entry>, basedir: bool, dateOf: string -> Option<string>, k: string)
    ensures Get(Walk(dir, listing, basedir, dateOf), k)
         == if HasKey(FilesAfter(dir, listing, |listing|, basedir), k)
            then Some(NodeFor(GroupOf(FilesAfter(dir, listing, |listing|, basedir), k), dateOf))
            else Get(TreeAfter(listing, |listing|, SubWalks(dir, listing, dateOf)), k)
  {
    var files := FilesAfter(dir, listing, |listing|, basedir);
    var tree := TreeAfter(listing, |listing|, SubWalks(dir, listing, dateOf));
    FilesDistinct(dir, listing, |listing|, basedir);
    if HasKey(files, k) {
      var i := IndexOf(files, k);
      GroupAt(tree, files, |files|, dateOf, i);
    } else {
      GroupOutside(tree, files, |files|, dateOf, k);
    }
  }

  /**
   * The names of `walk`'s result: one per visible sub-directory and one per
   * distinct base of the visible files below the top directory (lines 40-52).
   */
  lemma WalkKeys(dir: string, listing: seq<Entry>, basedir: bool, dateOf: string -> Option<string>, k: string)
    ensures HasKey(Walk(dir, listing, basedir, dateOf), k)
        <==> ((exists j :: 0 <= j < |listing| && Visible(listing[j]) && listing[j].Dir? && listing[j].name == k)
              || (exists j :: 0 <= j < |listing| && InGroup(listing, j, basedir, k)))
  {
    WalkGet(dir, listing, basedir, dateOf, k);
    FilesKeys(dir, listing, |listing|, basedir, k);
    TreeKeys(listing, |listing|, SubWalks(dir, listing, dateOf), k);
  }

  /** `walk`'s result never holds a name twice. */
  lemma WalkDistinct(dir: string, listing: seq<Entry>, basedir: bool, dateOf: string -> Option<string>)
    ensures DistinctKeys(Walk(dir, listing, basedir, dateOf))
  {
    TreeDistinct(listing, |listing|, SubWalks(dir, listing, dateOf));
    var files := FilesAfter(dir, listing, |listing|, basedir);
    GroupDistinct(TreeAfter(listing, |listing|, SubWalks(dir, listing, dateOf)), files, |files|, dateOf);
  }

  /** The top-level call (`basedir=True`, line 77) keeps only folders: the files of the top directory are dropped. */
  lemma WalkTop(dir: string, listing: seq<Entry>, dateOf: string -> Option<string>)
    ensures forall i :: 0 <= i < |Walk(dir, listing, true, dateOf)| ==> Walk(dir, listing, true, dateOf)[i].1.Folder?
    ensures forall k :: HasKey(Walk(dir, listing, true, dateOf), k)
                    <==> exists j :: 0 <= j < |listing| && Visible(listing[j]) && listing[j].Dir? && listing[j].name == k
  {
    FilesOfTop(dir, listing, |listing|);
    TreeFolders(listing, |listing|, SubWalks(dir, listing, dateOf));
    forall k ensures HasKey(Walk(dir, listing, true, dateOf), k)
                 <==> exists j :: 0 <= j < |listing| && Visible(listing[j]) && listing[j].Dir? && listing[j].name == k {
      TreeKeys(listing, |listing|, SubWalks(dir, listing, dateOf), k);
    }
  }

  /**
   * A visible sub-directory whose name is no file's base appears under its
   * full name, mapped to the walk of that sub-directory with `basedir=False`
   * (lines 44-45).
   */
  lemma WalkSubdir(dir: string, listing: seq<Entry>, basedir: bool, dateOf: string -> Option<string>, j: nat)
    requires DistinctNames(listing)
    requires j < |listing| && Visible(listing[j]) && listing[j].Dir?
    requires forall i :: 0 <= i < |listing| ==> !InGroup(listing, i, basedir, listing[j].name)
    ensures Get(Walk(dir, listing, basedir, dateOf), listing[j].name)
         == Some(Folder(Walk(PathJoin(dir, listing[j].name), listing[j].listing, false, dateOf)))
  {
    WalkGet(dir, listing, basedir, dateOf, listing[j].name);
    FilesKeys(dir, listing, |listing|, basedir, listing[j].name);
    TreeSubdir(listing, |listing|, SubWalks(dir, listing, dateOf), j);
  }

  /**
   * Groups are written after the directory loop, so a file base equal to a
   * sub-directory's name replaces that folder (lines 45 and 52-72).
   */
  lemma WalkReplacesFolder(dir: string, listing: seq<Entry>, dateOf: string -> Option<string>, j: nat, i: nat)
    requires j < |listing| && Visible(listing[j]) && listing[j].Dir?
    requires i < |listing| && InGroup(listing, i, false, listing[j].name)
    ensures Get(Walk(dir, listing, false, dateOf), listing[j].name).Some?
    ensures !Get(Walk(dir, listing, false, dateOf), listing[j].name).value.Folder?
  {
    WalkGet(dir, listing, false, dateOf, listing[j].name);
    FilesKeys(dir, listing, |listing|, false, listing[j].name);
  }

  /**
   * A base with both an `.html` and an `.ipynb` file becomes a notebook pair
   * pointing at exactly those two files; its other extensions are dropped
   * (lines 54-64).
   */
  lemma WalkPair(dir: string, listing: seq<Entry>, dateOf: string -> Option<string>, b: string)
    requires Recorded(listing, |listing|, false, b, ".html")
    requires Recorded(listing, |listing|, false, b, ".ipynb")
    ensures Get(Walk(dir, listing, false, dateOf), b)
         == Some(Pair(Ref(PathJoin(dir, b + ".html"), dateOf), Ref(PathJoin(dir, b + ".ipynb"), dateOf)))
  {
    var files := FilesAfter(dir, listing, |listing|, false);
    FilesPath(dir, listing, |listing|, false, b, ".html");
    FilesPath(dir, listing, |listing|, false, b, ".ipynb");
    assert HasKey(files, b);
    WalkGet(dir, listing, false, dateOf, b);
  }

  /** A directory listing `<b>.html` and `<b>.ipynb` gets the pair of those two files under `<b>`. */
  lemma WalkPairOfFiles(dir: string, listing: seq<Entry>, dateOf: string -> Option<string>, b: string, i: nat, j: nat)
    requires i < |listing| && listing[i] == File(b + ".html")
    requires j < |listing| && listing[j] == File(b + ".ipynb")
    requires '/' !in b && |b| > 0 && b[0] != '.'
    ensures Get(Walk(dir, listing, false, dateOf), b)
         == Some(Pair(Ref(PathJoin(dir, b + ".html"), dateOf), Ref(PathJoin(dir, b + ".ipynb"), dateOf)))
  {
    assert HasNonDot(b, 0, |b|);
    SplitExtOf(b, ".html");
    SplitExtOf(b, ".ipynb");
    assert (b + ".html")[..1] == [b[0]] && (b + ".ipynb")[..1] == [b[0]];
    assert RecordedAt(listing, i, false, b, ".html");
    assert RecordedAt(listing, j, false, b, ".ipynb");
    WalkPair(dir, listing, dateOf, b);
  }

  /**
   * Any other base becomes one leaf whose path is the file of the first
   * extension recorded for it, that is, the first file with that base in
   * listing order (lines 65-72).
   */
  lemma WalkLeaf(dir: string, listing: seq<Entry>, dateOf: string -> Option<string>, b: string, j: nat)
    requires FirstInGroup(listing, |listing|, false, b, j)
    requires !(Recorded(listing, |listing|, false, b, ".html") && Recorded(listing, |listing|, false, b, ".ipynb"))
    ensures Get(Walk(dir, listing, false, dateOf), b) == Some(Leaf(Ref(PathJoin(dir, listing[j].name), dateOf)))
  {
    var files := FilesAfter(dir, listing, |listing|, false);
    FilesPath(dir, listing, |listing|, false, b, ".html");
    FilesPath(dir, listing, |listing|, false, b, ".ipynb");
    FilesFirst(dir, listing, |listing|, false, b, j);
    WalkGet(dir, listing, false, dateOf, b);
  }

  // ---------------------------------------------------------------------
  // Dot entries (lines 41-42)

  /** No name at any depth of the manifest below `node` starts with a dot. */
  predicate NoDotBelow(node: Node) {
    match node
    case Folder(t) => forall i :: 0 <= i < |t| ==> !StartsWith(t[i].0, ".") && NoDotBelow(t[i].1)
    case _ => true
  }

  /** The base of a name that does not start with a dot does not either. */
  lemma BaseNoDot(name: string)
    requires !StartsWith(name, ".")
    ensures !StartsWith(SplitExt(name).0, ".")
  {
    if name == [] {
      assert SplitExt(name).0 + SplitExt(name).1 == [];
    }
  }

  lemma PutNoDot(t: Dict<Node>, k: string, v: Node)
    requires NoDotBelow(Folder(t)) && !StartsWith(k, ".") && NoDotBelow(v)
    ensures NoDotBelow(Folder(Put(t, k, v)))
  {
    PutPairs(t, k, v);
    var r := Put(t, k, v);
    forall i | 0 <= i < |r| ensures !StartsWith(r[i].0, ".") && NoDotBelow(r[i].1) {
      assert r[i] in r;
      if r[i] != (k, v) {
        var i' :| 0 <= i' < |t| && t[i'] == r[i];
      }
    }
  }

  /** `walk` never puts a name that starts with a dot into its result, at any depth. */
  lemma {:induction false} WalkNoDot(dir: string, listing: seq<Entry>, basedir: bool, dateOf: string -> Option<string>)
    ensures NoDotBelow(Folder(Walk(dir, listing, basedir, dateOf)))
    decreases listing
  {
    var subs := SubWalks(dir, listing, dateOf);
    forall i | 0 <= i < |listing| ensures NoDotBelow(Folder(subs[i])) {
      if listing[i].Dir? {
        WalkNoDot(PathJoin(dir, listing[i].name), listing[i].listing, false, dateOf);
      }
    }
    TreeNoDot(listing, |listing|, subs);
    var files := FilesAfter(dir, listing, |listing|, basedir);
    forall i | 0 <= i < |files| ensures !StartsWith(files[i].0, ".") {
      FilesKeys(dir, listing, |listing|, basedir, files[i].0);
      var j :| 0 <= j < |listing| && InGroup(listing, j, basedir, files[i].0);
      BaseNoDot(listing[j].name);
    }
    GroupNoDot(TreeAfter(listing, |listing|, subs), files, |files|, dateOf);
  }

  lemma {:induction false} TreeNoDot(listing: seq<Entry>, n: nat, subs: seq<Dict<Node>>)
    requires n <= |listing| == |subs|
    requires forall i :: 0 <= i < |subs| ==> NoDotBelow(Folder(subs[i]))
    ensures NoDotBelow(Folder(TreeAfter(listing, n, subs)))
    decreases n
  {
    if n > 0 {
      TreeNoDot(listing, n - 1, subs);
      var item := listing[n - 1];
      if Visible(item) && item.Dir? {
        PutNoDot(TreeAfter(listing, n - 1, subs), item.name, Folder(subs[n - 1]));
      }
    }
  }

  lemma {:induction false} GroupNoDot(tree: Dict<Node>, files: Dict<Dict<string>>, m: nat, dateOf: string -> Option<string>)
    requires m <= |files|
    requires NonEmptyGroups(files)
    requires NoDotBelow(Folder(tree))
    requires forall i :: 0 <= i < |files| ==> !StartsWith(files[i].0, ".")
    ensures NoDotBelow(Folder(Group(tree, files, m, dateOf)))
    decreases m
  {
    if m > 0 {
      GroupNoDot(tree, files, m - 1, dateOf);
      PutNoDot(Group(tree, files, m - 1, dateOf), files[m - 1].0, NodeFor(files[m - 1].1, dateOf));
    }
  }
}
