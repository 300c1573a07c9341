# Notebook site navigation, modelled in Dafny

The site is a static page that shows a folder of course notes (Markdown files
and notebooks rendered to HTML). Two pieces of it carry real logic:

* `app.js`, the browser side. It reads a manifest (`tree.json`) and:
  * draws one tab per top-level folder, captioned by `toTitleCase`;
  * draws a file tree for the selected folder (`buildTree`): siblings are sorted with README entries last, each entry is classified as a file, a notebook or a folder, file icons are chosen from the extension, and the folders along an "open path" start expanded;
  * toggles folders on click;
  * turns a `content/...` path into the folder and open chain to render (`renderTreeForFile`);
  * finds the notebook paired with an HTML page (`getIpynbForHtml`);
  * builds the header link (`setFileHeader`);
  * marks the active tab and tree item (`highlightTabForFile`, `highlightTreeFile`);
  * chooses how to show a file from its extension (`loadFile`).
* `scripts/make_tree.py`, the build side. Its `walk` turns a directory into that manifest:
  * it skips dot-entries and recurses into sub-directories;
  * it drops files at the top level;
  * it groups the other files by base name, giving a notebook pair when a base has both `.html` and `.ipynb` and a single file reference otherwise.

The model is one Dafny module per concern:

| module | file | models |
|---|---|---|
| `Text` | text.dfy | string helpers of JavaScript/Python: ASCII case mapping, `startsWith`/`endsWith`, prefix stripping, `trim`, `split`/`join` on one character |
| `Dict` | dict.dfy | insertion-ordered dictionaries: a parsed JSON object (`Object.entries` order) and a Python `dict` |
| `Json` | json.dfy | the JSON values `app.js` receives, JavaScript truthiness, property access, `Object.entries` |
| `TitleCase` | title_case.dfy | `toTitleCase` and the inverse slug used for tab matching |
| `FileIcons` | file_icons.dfy | `SUPPORTED_FILE_ICONS` and the extension-to-icon choice |
| `SiblingOrder` | sibling_order.dfy | `buildTree`'s comparator and the sort |
| `TreeView` | tree_view.dfy | `buildTree` as rows (classification, icon, open chain) and the folder click handler |
| `Navigation` | navigation.dfy | `renderTreeForFile`, `getIpynbForHtml`, `setFileHeader`, `loadFile`'s dispatch |
| `Highlight` | highlight.dfy | the page state: active flags of tabs and tree items, the header, the shown view; `highlightTreeFile`, `highlightTabForFile`, `loadFile` |
| `MakeTree` | make_tree.dfy | `walk` as the loops of the script and as a specification function, with its properties |

## Modelling choices

* **JSON objects keep insertion order.** A JSON object is a sequence of (key, value) pairs, because `Object.entries` and Python dictionaries keep insertion order. A lookup returns the first pair with that key; a store replaces the value in place or appends a new pair.
* **Truthiness follows JavaScript.** `null`, `false`, `0` and `""` are falsy.
* **`localeCompare` is a parameter `lc`.** Ordering results assume only that `lc` is a total preorder.
* **The sort is a stable insertion sort.** It uses the source's comparator, and its properties are proved for any total preorder `lc`. The comparator answers 1 for two README entries in both directions, so their relative order is not specified; `SiblingOrder.ReadmesAreUnordered` states this.
* **`toTitleCase`'s regular expressions become a scan.** `/-/g` → space and `/\w\S*/g` → capitalised are modelled as one left-to-right scan that remembers whether it is inside a `\w\S*` match. `\s` is the ECMAScript white-space and line-terminator set.
* **`buildTree` returns rows instead of DOM nodes.** Each row holds the name, caption, icon and `data-path`, and for folders the open flag and child rows. Folder click state (`isOpen`, the nested list's `active` class, the folder icon) is a class, `TreeView.FolderToggle`, whose `Click` method is the handler at app.js:198-208.
* **`highlightTreeFile` and `highlightTabForFile` work on flag arrays.** They update arrays of `active` flags in place, one element per tab and per file item, as the source's `forEach` loops do on the class lists. `highlightTabForFile` matches a tab when the path starts with `content/<slug of its caption>/`.
* **`setFileHeader` returns the header as a value.** It returns `Some(Link(href, text))`, `Some(Blank)` or `None`. `None` stands for the `TypeError` thrown when the notebook value it settles on is truthy but not a string.
* **`walk` takes the directory as data.** An `Entry` is a file name or a directory name with its listing; the listing order stands for `os.listdir`'s order. `get_git_file_date` is the parameter `dateOf`. `walk` is specified by the function `MakeTree.Walk` and implemented by the method `MakeTree.WalkDir`:
  * `ScanDir` and `ScanEntry` model the first loop;
  * `AddGroups` models the second loop, building each group's value with `NodeFor`;
  * `RecordFile` models the `files[base][ext]` update.
* **The two manifest schemas differ.** `walk` writes `{path, modification-date}` objects for single files and `{html: {...}, ipynb: {...}}` for pairs (scripts/make_tree.py:55-72). `app.js` treats only string values as file leaves (app.js:143), so a single-file object from `walk` falls into the folder branch (app.js:183). Each side is modelled on its own schema, and the model does not claim they agree. Two consequences are stated:
  * `Navigation.HeaderOfUnpairedPage` shows that an object-valued `ipynb` makes `setFileHeader` throw.
  * `TreeView.Classify` shows that every non-string, non-pair value is a folder.

## Model

| member | source | states |
|---|---|---|
| Text.Split | app.js:383 | `split` on one character yields parts free of the separator that join back to the input |
| Text.SplitJoin | app.js:227 | splitting the join of separator-free parts gives back those parts |
| Text.Trim | app.js:309 | the result is a middle slice of the input, everything cut from either end is white space, and the result neither starts nor ends with white space |
| Text.DropPrefixOf | app.js:226 | stripping a prefix that is present gives exactly the rest |
| Dict.Put | scripts/make_tree.py:45 | storing under a present key keeps the length; under an absent key it appends that pair |
| Dict.GetPut | scripts/make_tree.py:50 | reading back a stored key gives the stored value; other keys are unchanged |
| Dict.PutKeys | scripts/make_tree.py:45 | storing keeps the key order and appends a new key last; the key set grows by exactly that key |
| Dict.PutDistinct | scripts/make_tree.py:50 | storing never creates a duplicate key |
| Dict.PutAbsentTwice | scripts/make_tree.py:48-50 | creating an empty entry for a new key and then storing into it is one store |
| Json.Prop | app.js:173 | a property read succeeds exactly on an object holding that key, and returns the value of the first pair with that key |
| Json.Entries | app.js:133 | `Object.entries` of an object gives its pairs in order, of a string one pair per character, keyed by its index written in decimal (`"0"`, `"1"`, …), of a boolean or number none |
| TitleCase.Capitalize | app.js:25-27 | the word-capitalising scan keeps the length of its input |
| TitleCase.ToTitleCase | app.js:24-28 | title-casing keeps the length of its input |
| TitleCase.TitleCaseAt | app.js:24-28 | each output character is the input character after `-`→space, upper-cased at the start of a `\w\S*` run and lower-cased inside it |
| TitleCase.TitleCaseWordStarts | app.js:24-28 | `-` becomes a space; a word character after a start, `-` or space is upper-cased; a non-space after a word character is lower-cased |
| TitleCase.LowerCapitalize | app.js:25-27 | capitalising changes only case: lower-casing the result equals lower-casing the input |
| TitleCase.CapitalizeKeepsSpaces | app.js:25-27 | capitalising keeps white space exactly where it was |
| TitleCase.Slug | app.js:309 | the slug of a caption has no spaces and is no longer than the caption |
| TitleCase.SlugOfTitleCase | app.js:309 | for a lower-case name without spaces or leading/trailing `-`, the slug of its title-cased caption is the name itself |
| FileIcons.Extension | app.js:156-158 | an extension exists exactly when a `.` is followed by a non-empty alphanumeric run to the end; it is that run |
| FileIcons.AlnumRunStart | app.js:156 | finds the start of the maximal trailing alphanumeric run |
| FileIcons.IconFor | app.js:145-163 | the icon is the default or the class of a supported `filetype-*` icon |
| FileIcons.IconIsSupported | app.js:78-128 | every chosen icon is a member of `SUPPORTED_FILE_ICONS` |
| FileIcons.IconChoice | app.js:156-163 | supported lower-cased extension → its icon; no extension or unsupported → the default `filetype-md` icon |
| FileIcons.UpperCaseExtension | app.js:158 | `X.PNG` gets the `filetype-png` icon |
| FileIcons.DefaultIconExamples | app.js:145 | `notes` and `a.tar-gz` get the default icon |
| SiblingOrder.Insert | app.js:134-138 | inserting adds exactly the one entry (as a multiset) |
| SiblingOrder.SortEntries | app.js:134-138 | the sort returns a permutation of its input |
| SiblingOrder.InsertSorted | app.js:134-138 | inserting into a README-last, locale-ordered list keeps it so |
| SiblingOrder.SortOrder | app.js:133-138 | the sorted siblings are a permutation, every README entry comes after every other entry, and the others are in `localeCompare` order |
| SiblingOrder.ReadmesAreUnordered | app.js:135-136 | the comparator puts each of two README entries after the other, so their order is unspecified |
| TreeView.Classify | app.js:143-183 | a string is a file with that path; an object with truthy `html` and `ipynb` is a notebook with those values; everything else is a folder |
| TreeView.ChildOpenPath | app.js:193-194 | an open folder passes the tail of the open path to its children, a closed one passes `[]` |
| TreeView.BuildTree | app.js:130-214 | the call returns exactly when the value is not `null` and no folder entry at any depth is `null` (`Object.entries(null)` throws, app.js:133 reached through app.js:195); when it returns there is one row per entry and row i renders the i-th sorted entry |
| TreeView.BuildRows | app.js:139-212 | the rows return exactly when every folder entry among them renders; then one row per entry, in order, each rendering its entry |
| TreeView.BuildRow | app.js:140-210 | a file or notebook entry always renders and a folder entry renders exactly when its value does; the row shows its entry: caption, icon, `data-path`, open flag |
| TreeView.NullFreeRenders | app.js:130-214 | a manifest with no `null` at any depth always renders, whatever the open path |
| TreeView.NullFreeRenderable | app.js:130-214 | the same, stated on the success condition |
| TreeView.NestedNullNotRendered | app.js:133-195 | `{"a": {"b": null}}` renders nothing: `b` is a folder entry and `buildTree(null)` throws |
| TreeView.RowChildren | app.js:194-195 | a folder row's children are `buildTree` of the folder's value under the open path the folder passes down |
| TreeView.RowsChildren | app.js:139-197 | in a list of sibling rows, every folder row's children are `buildTree` of its entry's value under the path it passes down |
| TreeView.TreeChildren | app.js:130-214 | the rendered tree is recursive: each folder row of `buildTree` holds `buildTree` of that folder's value with the tail of the open path when open and `[]` when closed |
| TreeView.SortKeepsDistinct | app.js:133-134 | sorting keeps sibling names distinct |
| TreeView.OpenChain | app.js:193-196 | at every depth, a folder row is open exactly when the open path handed to its level is non-empty and starts with its name; its children get the tail when it is open and `[]` when closed |
| TreeView.OpenChainRows | app.js:193-196 | the same exactly-when statement, at every depth, for a list of sibling rows |
| TreeView.AtMostOneOpen | app.js:193-194 | in a well-formed manifest at most one folder per level is open |
| TreeView.AtMostOneOpenRows | app.js:193-194 | the same for a list of sibling rows |
| TreeView.ChildrenOneOpen | app.js:193-194 | every folder row's children have at most one open folder per level |
| TreeView.TreeOrder | app.js:133-139 | the rows of one level cover every entry, README rows come last, the other rows follow `localeCompare`; with TreeView.TreeChildren this holds at every level |
| TreeView.ReadmeOnOpen | app.js:204-207 | a README is loaded exactly when the folder is being opened and its value has a truthy `README` |
| TreeView.FolderToggle.constructor | app.js:193-196 | a folder starts open exactly when it heads the open path |
| TreeView.FolderToggle.Click | app.js:198-208 | a click flips `isOpen`, sets the nested list's visibility and the icon to match, and asks to load the README exactly when opening a folder that has one |
| TreeView.ClickTwice | app.js:198-202 | two clicks restore the open flag, the visibility and the icon |
| Navigation.DropSuffix | app.js:226 | removes a suffix when present and changes nothing otherwise |
| Navigation.RenderTreeForFile | app.js:381-389 | a tree is rendered only for `content/` paths and only for a folder present and truthy in the manifest |
| Navigation.RenderTreeForFileOf | app.js:381-389 | `content/<folder>/<dirs...>/<file>` renders the manifest's `<folder>` with open chain `<dirs...>` exactly when that folder is truthy |
| Navigation.RenderTreeForTopLevelFile | app.js:383-384 | `content/<file>` with one segment renders nothing |
| Navigation.Descend | app.js:228-232 | descending no segments gives the start node; any node reached by a descent is truthy |
| Navigation.DescendStops | app.js:229-231 | a descent that fails on a prefix of the segments fails on all of them |
| Navigation.HtmlBase | app.js:226 | removing `content/` and `.html` never lengthens the path |
| Navigation.HtmlBaseOf | app.js:224-226 | `content/<rel>.html` ends in `.html` and strips to `<rel>` |
| Navigation.IpynbFor | app.js:222-238 | paths not ending in `.html` have no notebook; a notebook found is truthy |
| Navigation.LeafIpynb | app.js:234-236 | the leaf's `ipynb` is returned exactly when the node, its entry for the base, and that entry's `ipynb` are truthy |
| Navigation.GetIpynbForHtml | app.js:222-238 | the loop that reassigns `node` computes the notebook lookup |
| Navigation.IpynbOfPage | app.js:226-236 | for `content/<dirs...>/<base>.html` whose directories all exist, the result is the `ipynb` of `<base>` in the last directory |
| Navigation.IpynbOfMissingFolder | app.js:229-231 | a missing directory on the way gives no notebook |
| Navigation.SetFileHeader | app.js:240-259 | a string notebook path links to the notebook; a truthy non-string throws; a non-HTML page links to itself or is blank when nothing is left after `content/` |
| Navigation.HeaderOfPairedPage | app.js:245-251 | an HTML page opened without a notebook links to the notebook the manifest pairs with it |
| Navigation.HeaderOfUnpairedPage | app.js:245-254 | an unpaired HTML page links to itself; an object-valued `ipynb` from the manifest makes the header throw |
| Navigation.HomeHeader | app.js:322 | the header for the empty path is blank |
| Navigation.ContentView | app.js:283-292 | `.md` shows the fetched text as Markdown, `.html` shows the page in a frame, anything else is unsupported |
| Navigation.ExtensionsExclusive | app.js:283-286 | no path ends in both `.md` and `.html` |
| Highlight.FileItemPaths | app.js:166-177 | each top-level file or notebook row contributes its `data-path`, and there are no more paths than rows, nested rows counted |
| Highlight.Flatten | app.js:267 | the rows of a tree in document order, one per row, nested rows counted |
| Highlight.DataPaths | app.js:268-274 | the `data-path`s of the file and notebook rows of a row list, at most one per row |
| Highlight.FileItemsInDocumentOrder | app.js:267-274 | the file-item paths are the `data-path`s of all file and notebook rows, nested ones included, in document order |
| Highlight.TreeHighlight | app.js:261-275 | item i is active exactly when its non-empty path equals the opened path |
| Highlight.TreeHighlightUnique | app.js:268-274 | with distinct item paths at most one item is active, and one is active exactly when the path is among them |
| Highlight.MatchFlags | app.js:308-316 | tab i is flagged exactly when the path starts with `content/<slug of caption i>/`; some flag is set exactly when some tab matches |
| Highlight.HomeOnly | app.js:302-305 | exactly tab 0 is active |
| Highlight.TabHighlight | app.js:300-318 | the empty path, `README.md` or a path no tab matches activates only Home; otherwise exactly the matching tabs are active |
| Highlight.SomeTabActive | app.js:317 | with at least one tab, some tab is always active |
| Highlight.FolderTabActive | app.js:309-310 | the tab captioned with a slug-safe folder's title is active for every path under `content/<folder>/` |
| Highlight.SameFolder | app.js:310 | a path lies under at most one `content/<folder>/` |
| Highlight.ExactlyOneTab | app.js:300-318 | with distinct slash-free slugs exactly one tab is active |
| Highlight.Page.constructor | app.js:33-36 | a new page has only the Home tab active (its button is created with class `active`), no file row active, no view, a blank header, and the item paths of its rows (the empty header is the one app.js:322 sets) |
| Highlight.Page.HighlightTreeFile | app.js:261-275 | after the loops the item flags are exactly the tree highlight for the path |
| Highlight.Page.HighlightTabForFile | app.js:300-318 | after the loops the tab flags are exactly the tab highlight for the path |
| Highlight.Page.ActivateHome | app.js:302-305 | only the Home tab is left active |
| Highlight.Page.MarkMatchingTabs | app.js:307-316 | the loop sets exactly the matching tabs and reports whether any matched |
| Highlight.Page.LoadFile | app.js:278-297 | the view follows the extension; the header, tab and item highlights are updated when the header succeeds, and nothing else changes when it throws |
| MakeTree.PathJoin | scripts/make_tree.py:43 | `os.path.join` of a directory and a relative name inserts `/` only when the directory lacks one |
| MakeTree.LastIndex | scripts/make_tree.py:47 | the last position of a character, or -1 |
| MakeTree.SplitExt | scripts/make_tree.py:47 | base + extension is the name; the extension is empty or a `.` followed by no further `.` or `/`; it is non-empty exactly when the last path component has a `.` with a non-dot character before it; a name not starting with `.` keeps its first character in the base |
| MakeTree.SplitExtOf | scripts/make_tree.py:47 | a slash-free base with a non-dot character followed by a dot-led extension splits into exactly that base and extension |
| MakeTree.NodeFor | scripts/make_tree.py:54-72 | a pair exactly when the group has `.html` and `.ipynb`, pointing at those two paths; otherwise a single leaf at the first recorded path; never a folder |
| MakeTree.GroupOf | scripts/make_tree.py:48-50 | the extensions recorded for a base, empty when the base is absent |
| MakeTree.Record | scripts/make_tree.py:48-50 | recording a file keeps every group non-empty |
| MakeTree.PutNonEmpty | scripts/make_tree.py:50 | storing a non-empty group keeps every group non-empty |
| MakeTree.SubWalks | scripts/make_tree.py:44-45 | one sub-walk per listed entry |
| MakeTree.FilesAfter | scripts/make_tree.py:40-50 | the groups built by the first loop are never empty |
| MakeTree.WalkDir | scripts/make_tree.py:36-73 | the method's result is `Walk` of the directory |
| MakeTree.ScanDir | scripts/make_tree.py:40-50 | the first loop builds the sub-directory entries and the file groups of the whole listing |
| MakeTree.ScanEntry | scripts/make_tree.py:41-50 | one iteration extends both to one more listed entry |
| MakeTree.RecordFile | scripts/make_tree.py:48-50 | `files[base][ext] = path`, creating the group when absent |
| MakeTree.AddGroups | scripts/make_tree.py:52-72 | the second loop stores one node per file group, in order |
| MakeTree.RecordGroup | scripts/make_tree.py:48-50 | recording changes only the group of its own base, which gains the extension |
| MakeTree.FilesKeys | scripts/make_tree.py:46-50 | a base has a group exactly when some visible file below the top directory has that base |
| MakeTree.FilesStepKeys | scripts/make_tree.py:46-50 | one entry adds at most its own base |
| MakeTree.FilesPath | scripts/make_tree.py:43-50 | the group of base b maps extension e to `dir` joined with `b+e` exactly when such a file was listed, and lacks e otherwise |
| MakeTree.FilesPathStays | scripts/make_tree.py:50 | a path recorded for `b+e` is never overwritten by a later entry |
| MakeTree.FilesStepPath | scripts/make_tree.py:50 | one entry changes only the extension it records |
| MakeTree.FilesFirst | scripts/make_tree.py:48-50 | the first extension of a group is that of the first listed file with that base |
| MakeTree.FilesNoGroup | scripts/make_tree.py:48 | a base no listed file has gets no group |
| MakeTree.FilesPathIsEntry | scripts/make_tree.py:43-50 | every recorded path is `dir` joined with the name of a visible listed file |
| MakeTree.FilesOfTop | scripts/make_tree.py:46 | the top directory records no files |
| MakeTree.FilesDistinct | scripts/make_tree.py:48-49 | each base has one group |
| MakeTree.TreeSubdir | scripts/make_tree.py:44-45 | a visible sub-directory maps to its own sub-walk |
| MakeTree.TreeKeys | scripts/make_tree.py:44-45 | after the first loop the names are exactly the visible sub-directories |
| MakeTree.TreeFolders | scripts/make_tree.py:44-45 | after the first loop every value is a folder |
| MakeTree.TreeDistinct | scripts/make_tree.py:45 | the first loop stores each name once |
| MakeTree.GroupAt | scripts/make_tree.py:52-72 | after the second loop each base maps to the node of its group |
| MakeTree.GroupOutside | scripts/make_tree.py:52-72 | the second loop leaves every name that is no base unchanged |
| MakeTree.GroupDistinct | scripts/make_tree.py:52-72 | the second loop stores each name once |
| MakeTree.WalkGet | scripts/make_tree.py:36-73 | a name maps to its group's node when it is a file base and to its sub-directory walk otherwise |
| MakeTree.WalkKeys | scripts/make_tree.py:40-52 | the names are exactly the visible sub-directories and the bases of visible files below the top |
| MakeTree.WalkDistinct | scripts/make_tree.py:36-73 | no name appears twice |
| MakeTree.WalkTop | scripts/make_tree.py:77 | the top-level call holds only folders, one per visible sub-directory, and drops top-level files |
| MakeTree.WalkSubdir | scripts/make_tree.py:44-45 | a sub-directory maps to the walk of that sub-directory with `basedir=False` |
| MakeTree.WalkReplacesFolder | scripts/make_tree.py:45-72 | a file base equal to a sub-directory's name replaces that folder entry |
| MakeTree.WalkPair | scripts/make_tree.py:54-64 | a base with `.html` and `.ipynb` files maps to a pair pointing at exactly those two files |
| MakeTree.WalkPairOfFiles | scripts/make_tree.py:47-64 | a directory listing `<b>.html` and `<b>.ipynb` (with `b` visible and slash-free) maps `<b>` to the pair of those two files |
| MakeTree.WalkLeaf | scripts/make_tree.py:65-72 | any other base maps to one leaf at the path of its first listed file |
| MakeTree.BaseNoDot | scripts/make_tree.py:41-47 | a name not starting with `.` has a base not starting with `.` |
| MakeTree.PutNoDot | scripts/make_tree.py:45 | storing a dot-free name and node keeps a tree dot-free |
| MakeTree.WalkNoDot | scripts/make_tree.py:40-42 | no name starting with `.` appears anywhere in the result |
| MakeTree.TreeNoDot | scripts/make_tree.py:41-45 | the first loop stores no dot-name |
| MakeTree.GroupNoDot | scripts/make_tree.py:52-72 | the second loop stores no dot-name |

## Left out

- The `fetch` of `tree.json` and of file contents, and the promise chains (app.js:9-22, 279-297): I/O. `loadFile` takes the fetched text as a parameter.
- HTML built through `innerHTML`, and `marked.parse` (app.js:165, 175, 251-254, 284): string building and an outside library. The model keeps the values that go into them: caption, icon class, link target and text, view kind.
- `initTabs` and `renderTree` DOM construction (app.js:30-76, 216-220): only the tab captions (`toTitleCase`) and the rows of `buildTree` are modelled.
- The fullscreen toggle in `window.onload` (app.js:326-368) and script.js: UI styling only.
- `encodeURIComponent`/`decodeURIComponent` and `window.location.hash` (app.js:16, 66, 170, 205, 373): browser built-ins.
- Non-ASCII case mapping in `toUpperCase`/`toLowerCase`: ASCII letters only.
- `localeCompare`: a parameter, as noted above.
- The integer-like-key ordering of JavaScript objects (`Object.keys` puts array-index keys first): keys keep insertion order.
- JSON arrays and fractional numbers: the manifest holds none; numbers are integers.
- The null check `if (filePathDiv)` of `setFileHeader` (app.js:242): the model's page always has its header element.
- `get_git_file_date` (scripts/make_tree.py:6-33): git subprocesses and file times, given as the parameter `dateOf`.
- `os.listdir`, `os.path.isdir` and the JSON dump (scripts/make_tree.py:40, 44, 78-79): the directory is an input `Entry`, with the listing order given.
- MakeTree.WalkSubdir: assumes a listing without repeated names, as a real directory has.
- MakeTree.SubWalks: its entries for files are empty and unused.
- MakeTree.PathJoin: its contract states the result only for a relative name; the body also returns an absolute second argument unchanged, as `os.path.join` does, but listed names are never absolute.
- Json.Prop: only an object's own keys are read. Properties inherited from `Object.prototype` (`constructor`, `toString`, `hasOwnProperty`, …) and the index and `length` properties of a string read as absent, although JavaScript returns a value for them.
- Navigation.RenderTreeForFile: a first segment that names an inherited property missing from the manifest (`content/constructor/a.md`) renders nothing in the model, while the source finds a truthy function there and renders an empty tree.
- Navigation.RenderTreeForFileOf: the same inherited-property case for `content/<folder>/<dirs…>/<file>` paths is not covered; the lemma treats such a folder as absent.
- TreeView.BuildRows: its own contract does not mention a folder row's children; TreeView.RowsChildren and TreeView.TreeChildren state that they are `buildTree` of the folder's value under the open path it passes down.
- TreeView.BuildRow: the same; TreeView.RowChildren states its children.
- scripts/render_notebooks.py is not part of this model: file times and a `jupyter nbconvert` subprocess.
