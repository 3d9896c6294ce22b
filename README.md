# Instance state manager and file table, modelled in Dafny

The system manages a local *instance*: a directory tree found next to an
identity file. Opening an instance does four things in order:

- It resolves the identity file.
- Its parent becomes the instance root. The directories directly inside the root are the *sibling folders*.
- It scans the sibling folders recursively for content files, which are regular files whose suffix is not `.ameta`.
- It gives every content file an empty JSON *sidecar* (`<file name>.ameta`, holding `{}`) unless one is already there. It then makes sure the `folder_schema` table exists in the sqlite database stored in the identity file.

The session object also lists, adds and removes category-column names in
that table.

The browser page shows the scan result as a table. A filter box per column
keeps the rows whose cell contains the typed text, ignoring case. Clicking a
column header sorts by that column. A second click on the same header
reverses the direction.

The Dafny project models both parts.

- `wrappers.dfy` (`Wrappers`): `Option` and `Result`.
- `seqs.dfy` (`Seqs`): distinctness, element sets and subsequences.
- `filesystem.dfy` (`FileSystem`): the filesystem as a finite map from paths to entries.
  - A path is the list of its segments.
  - A `Disk` object holds the map and is updated in place by `write_text`.
- `purepaths.dfy` (`PurePaths`): `pathlib`'s `suffix` and `with_suffix` on one name, and the sidecar name built from them.
- `schema.dfy` (`SchemaStore`): the `folder_schema` table, as a `FolderSchemaTable` object.
  - It holds a created flag, its rows in id order and the AUTOINCREMENT counter.
  - The module also has the pure functions that describe `INSERT OR IGNORE` and `DELETE ... WHERE name = ?`.
- `state.dfy` (`InstanceState`): the `AppState` class.
  - Its fields are `identityPath`, `instanceRoot`, `siblingFolders` and `files`.
  - Its methods update the disk and the table in place.
  - The module also has the value-level functions and lemmas that specify the scan and the sidecar step.
- `ui_table.dfy` (`UiTable`): the data logic of the table page.
  - The filter callback (a method with the source's early-return loops) and the comparator.
  - The click state machine.
  - A `TableState` object holding `filterValues`, `sortColumn` and `sortAsc`, and the rows a render shows.

Two properties of the scan are easy to miss:

- The scan excludes exactly the names whose `suffix` is `.ameta`. A name is excluded iff it ends in `.ameta` after at least one character. So a dotfile named `.ameta` is scanned, and so is `x.AMETA`. `SuffixIsMetaIff` and `SuffixTestIsLiteral` state this.
- The scan result is unsorted. It is the discovery order.

## Model

| member | source | states |
|---|---|---|
| InstanceState.AppState.Open | app/core/state.py:15-24 | Opening fails with NotFound exactly when the identity is not an existing regular file, and then disk and table are unchanged. On success the instance is valid, the root is the identity's parent, the sibling folders are exactly the root's child directories, the files are exactly the scan, the disk gained exactly the missing sidecars, an existing table keeps its rows, and a missing table is created empty. |
| InstanceState.AppState.Init | app/core/state.py:15-19 | A fresh session starts with no sibling folders and no files. |
| InstanceState.AppState.LoadIdentity | app/core/state.py:54-66 | Fails with NotFound, changing nothing, iff the identity is missing or not a regular file. Otherwise it records the identity, sets the root to its parent and lists each child directory of the root exactly once. |
| InstanceState.ListChildDirs | app/core/state.py:64-66 | The `iterdir()`/`is_dir()` listing yields every directory directly in the root, and only those, each once. |
| InstanceState.AppState.ScanFiles | app/core/state.py:68-81 | `files` lists, each once, exactly the content files below the sibling folders. |
| InstanceState.WalkFolder | app/core/state.py:77-79 | Walking one folder appends exactly its content files to the result: the old result stays a prefix, and the result stays duplicate-free. |
| InstanceState.IsContent | app/core/state.py:78 | A path is scanned iff it is a regular file whose `suffix` is not `.ameta`, the code's own test. |
| InstanceState.ScanFolder | app/core/state.py:77-79 | A path is found in a folder iff it is a regular file strictly below the folder whose suffix is not `.ameta` (its name does not end in `.ameta` after at least one character). |
| InstanceState.ScanUnder | app/core/state.py:76-79 | Everything the scan collects is a content file. |
| InstanceState.ScanUnderMembership | app/core/state.py:76-79 | A file is in the scan iff it is a content file strictly below one of the scanned folders. |
| InstanceState.ScanSkipsRootFiles | app/core/state.py:64-79 | With the root's child directories as the scanned folders, every scanned file is at least two levels below the root. So no file directly in the root, the identity included, is ever scanned. |
| InstanceState.SiblingScanIsFresh | app/core/state.py:76-79 | Nothing found below one sibling folder was already found below an earlier one, so the scan has no duplicates. |
| InstanceState.WalkStep | app/core/state.py:77-79 | One step of the walk finds the visited path exactly when it is a content file. |
| PurePaths.Suffix | app/core/state.py:78 | `suffix` is empty or a dot followed by at least one non-dot character, taken from the end of the name, and shorter than the name. |
| PurePaths.RFindDot | app/core/state.py:78 | The position found is the last dot in the name, or -1 when there is none. |
| PurePaths.SuffixIsMetaIff | app/core/state.py:78 | A name's suffix is `.ameta` iff the name ends in `.ameta` after at least one character (both directions). |
| PurePaths.SuffixTestIsLiteral | app/core/state.py:6 | The test is case-sensitive and a dotfile named `.ameta` has no suffix, while `scan.dat.ameta` is excluded. |
| PurePaths.WithSuffix | app/core/state.py:89 | `with_suffix` keeps the stem (the name without its old suffix) and puts the new suffix at the end. |
| PurePaths.SidecarName | app/core/state.py:89 | `with_suffix(suffix + ".ameta")` always yields the full file name with `.ameta` appended. |
| PurePaths.SidecarNameIsMeta | app/core/state.py:78-89 | Every sidecar name has suffix `.ameta`, so sidecars are never scanned. |
| InstanceState.SidecarPath | app/core/state.py:89 | The sidecar sits in the file's own directory under the file's name plus `.ameta`. |
| InstanceState.SidecarPathIsMeta | app/core/state.py:78-89 | A sidecar path has a valid name ending in `.ameta`. |
| InstanceState.WriteMissingSidecars | app/core/state.py:88-93 | The loop leaves the disk well formed and equal to the original tree with every missing sidecar written as `{}`. |
| InstanceState.AppState.EnsureMetaFiles | app/core/state.py:83-93 | After the step every scanned file has a sidecar. The identity, sibling folders and scan stay valid, and the disk is the old tree plus exactly the missing sidecars. |
| InstanceState.SidecarStep | app/core/state.py:88-93 | One iteration adds the file's sidecar iff nothing exists at its path, and the sidecar's directory exists. |
| InstanceState.WithSidecars | app/core/state.py:88-93 | The sidecar step only adds paths: every path of the old tree is still there. |
| InstanceState.WithSidecarsExtends | app/core/state.py:88-93 | The step never overwrites: old entries are kept as they were, every new entry is a sidecar holding `{}`, and every file has its sidecar afterwards. |
| InstanceState.Missing | app/core/state.py:91 | The step writes only at paths where nothing exists yet. |
| InstanceState.WithSidecarsKeys | app/core/state.py:88-93 | The new paths are exactly the missing sidecars. |
| InstanceState.NothingMissingIsNoop | app/core/state.py:91-93 | When every sidecar exists, the step writes nothing. |
| InstanceState.SidecarCreationIdempotent | app/core/state.py:83-93 | A second run has nothing missing and leaves the tree as the first run left it. |
| InstanceState.SidecarsKeepWf | app/core/state.py:88-93 | Writing the sidecars keeps the tree well formed. |
| InstanceState.SidecarsKeepTree | app/core/state.py:88-93 | Writing the sidecars keeps the child directories of every directory and every content file unchanged. |
| InstanceState.ScanUnderSameContent | app/core/state.py:76-79 | Trees with the same content files give the same scan. |
| InstanceState.RescanIsStable | app/core/state.py:68-93 | Scanning again after the sidecar step finds the same files, and nothing is then missing. |
| InstanceState.SidecarCreationKeepsInstance | app/core/state.py:21-23 | The sidecar step keeps an opened instance's identity, sibling folders and scan valid, and leaves a sidecar for every file. |
| FileSystem.Disk.WriteText | app/core/state.py:93 | `write_text` in an existing directory creates or replaces that one file and keeps the tree well formed. |
| FileSystem.AddFileKeepsWf | app/core/state.py:93 | Adding a file to an existing directory keeps the tree well formed. |
| FileSystem.Disk.Exists | app/core/state.py:91 | `exists()` holds for the root of a well-formed disk, and every existing path is a file or a directory. |
| FileSystem.Disk.IsFile | app/core/state.py:57 | `is_file()` holds only for an existing path that is not a directory. |
| FileSystem.Children | app/core/state.py:65 | `iterdir()` yields exactly the entries one level below the directory. |
| FileSystem.ChildDirs | app/core/state.py:65 | The listing filtered by `is_dir()` holds only directories directly in the given directory. |
| FileSystem.Descendants | app/core/state.py:77 | `rglob("*")` yields exactly the entries strictly below the folder. |
| InstanceState.AppState.InitDb | app/core/state.py:95-108 | `CREATE TABLE IF NOT EXISTS` creates an empty table once. An existing table keeps all its rows and its counter. |
| InstanceState.AppState.LoadSchema | app/core/state.py:26-32 | Given a created, valid table, the listing holds one name per row, in id order, without duplicates. |
| InstanceState.AppState.AddSchema | app/core/state.py:35-40 | A name already present changes nothing. A fresh name becomes the last row with the next id. The listing is `AddName` of the old listing. It needs only a created, valid table, keeps it so, and keeps a valid instance valid. |
| SchemaStore.AddName | app/core/state.py:38 | After `INSERT OR IGNORE` the name is listed. A present name leaves the listing unchanged, an absent one is appended last, and a listing without duplicates stays without duplicates. |
| SchemaStore.AppendRowKeepsValid | app/core/state.py:38 | Appending a fresh name with the next id keeps ids ascending and names unique, and lists the name last. |
| SchemaStore.AddAllElems | app/core/state.py:35-40 | After a series of adds the listing holds exactly the names added. |
| SchemaStore.ListingIsFirstOccurrences | app/core/state.py:26-40 | From an empty table, a series of adds lists each distinct name once, in the order it was first added. |
| InstanceState.AppState.RemoveSchema | app/core/state.py:43-48 | The rows become `DeleteByName` of the old rows and the counter is unchanged. It needs only a created, valid table, keeps it so, and keeps a valid instance valid. |
| SchemaStore.DeleteByName | app/core/state.py:46 | A row survives iff it was there and carries a different name. |
| SchemaStore.DeleteByNameKeepsOrder | app/core/state.py:46 | The surviving rows keep their relative order. |
| SchemaStore.DeleteByNameAbsentIsNoop | app/core/state.py:46 | Removing a name no row has leaves the table unchanged. |
| SchemaStore.DeleteByNameKeepsAscending | app/core/state.py:46 | Deleting keeps ids ascending. |
| SchemaStore.DeleteByNameKeepsUnique | app/core/state.py:46 | Deleting keeps names unique. |
| SchemaStore.DeleteByNameKeepsValid | app/core/state.py:46 | Deleting keeps ids ascending and names unique. |
| UiTable.Lower | app/static/ui-table.js:102-119 | `toLowerCase` keeps the length, lower-cases each character, and leaves no upper-case ASCII letter. |
| UiTable.Includes | app/static/ui-table.js:102-119 | `includes` holds for every prefix of the text, the empty string among them, and never for a text longer than the string. |
| UiTable.Active | app/static/ui-table.js:102-119 | The `fv &&` test: a filter is on iff its key is present with non-empty text. |
| UiTable.FieldPasses | app/static/ui-table.js:102-119 | A cell passing an active filter is at least as long as the filter text. |
| UiTable.RowMatches | app/static/ui-table.js:99-125 | A row kept under an active name filter has a name at least as long as the filter text. |
| UiTable.RowPasses | app/static/ui-table.js:99-125 | The callback's early-return loops keep a row iff `RowMatches` holds (both directions). |
| UiTable.FilterRows | app/static/ui-table.js:99-125 | `files.filter` never yields more rows than the data holds. |
| UiTable.FilterMembership | app/static/ui-table.js:99-125 | A row is kept by `files.filter` iff it is in the data and passes every active filter (both directions). |
| UiTable.FilterKeepsOrder | app/static/ui-table.js:99 | The filtered rows are a subsequence of the data, in order. |
| UiTable.NoFilterMatches | app/static/ui-table.js:101-123 | With every filter absent or empty, a row passes. |
| UiTable.NoFilterKeepsAll | app/static/ui-table.js:99-125 | With every filter absent or empty, the filter keeps every row, in its original order. |
| UiTable.TypingNarrowsFilter | app/static/ui-table.js:56-62 | Extending the text of one filter box never brings back a row the shorter text removed. |
| UiTable.FieldNarrows | app/static/ui-table.js:102-119 | The same property for one cell. |
| UiTable.IncludesPrefix | app/static/ui-table.js:102 | A cell that includes the longer filter text includes its prefix. |
| UiTable.LowerPrefix | app/static/ui-table.js:102 | Lower-casing commutes with taking a prefix. |
| UiTable.SortKey | app/static/ui-table.js:133-146 | The key is the name, or the category or annotation cell of the column when present. A non-empty key of a cell column is one of the row's cells. |
| UiTable.At | app/static/ui-table.js:140-145 | A missing cell reads as the empty string: the result is the cell when it exists, and is always empty or one of the cells. |
| UiTable.RowCompare | app/static/ui-table.js:148-149 | Ascending, a row comes not after another iff `localeCompare` of their keys is at most 0. Descending, iff it is at least 0. |
| UiTable.RowCompareConsistent | app/static/ui-table.js:148-149 | With a consistent `localeCompare`, the comparator is a total preorder in either direction. |
| UiTable.DescendingIsReversedAscending | app/static/ui-table.js:149 | Rows are sorted descending iff their reverse is sorted ascending. |
| UiTable.ReverseOfDescending | app/static/ui-table.js:149 | Descending order reversed is ascending order. |
| UiTable.DescendingOfReverse | app/static/ui-table.js:149 | Ascending order reversed is descending order. |
| UiTable.InsertRow | app/static/ui-table.js:131 | Inserting a row adds exactly that row to the multiset. |
| UiTable.SortRows | app/static/ui-table.js:131 | Sorting is a permutation of the filtered rows. |
| UiTable.ConsSorted | app/static/ui-table.js:131 | A row that comes after none of a sorted list can be put in front of it. |
| UiTable.NotAfterInserted | app/static/ui-table.js:131 | Insertion keeps a lower bound a lower bound. |
| UiTable.InsertKeepsSorted | app/static/ui-table.js:131-150 | Inserting into sorted rows keeps them sorted under the comparator. |
| UiTable.SortRowsSorted | app/static/ui-table.js:130-151 | With a consistent `localeCompare`, the result is sorted under the comparator. |
| UiTable.ClickSort | app/static/ui-table.js:68-79 | A click makes its column the sort column. The same column flips the direction, and another column starts ascending. |
| UiTable.ClickTwiceRestores | app/static/ui-table.js:71-72 | Two clicks on the sorted column give back the original state. |
| UiTable.ClickElsewhereResets | app/static/ui-table.js:71-76 | After a click on another column, a click on a column sorts it ascending. |
| UiTable.TableState.constructor | app/static/ui-table.js:4-7 | No filters, no sort column, ascending. |
| UiTable.TableState.OnFilterInput | app/static/ui-table.js:56-62 | Only that column's filter text changes, its filter is active iff the text is non-empty, and the sort state is untouched. |
| UiTable.TableState.OnHeaderClick | app/static/ui-table.js:68-79 | The sort state steps by `ClickSort`, and the filters are untouched. |
| UiTable.TableState.RenderRows | app/static/ui-table.js:82-151 | Nothing is shown before the data has loaded. Otherwise a row is shown iff it is in the data and passes every filter, and the shown rows are a permutation of the filtered rows: exactly the filtered rows when there is no sort column, sorted by the comparator when there is one and `localeCompare` is consistent. |
| Seqs.AppendFresh | app/core/state.py:79 | Appending an element not yet present keeps a list duplicate-free and adds exactly that element. |

## Left out

- `Path.resolve()` and symbolic links. The identity path is taken as already absolute and resolved, and links are not modelled. So the scan cannot loop or escape through a link.
- The order in which `iterdir()` and `rglob("*")` yield entries. The model picks entries in an unspecified order (`:|`). So `siblingFolders` and `files` are pinned down as sets without duplicates, not as sequences.
- I/O errors: permission errors, a failing `write_text`, a `rglob` over a folder removed during the walk, and a disk that is full.
- sqlite errors. The identity file not being a database is one. The connect/commit/close bookkeeping is another: each statement is taken as applied atomically.
- `FolderSchemaTable` is a separate object. It is not tied to the identity file's bytes in the filesystem map, so writing the table does not change the identity file's `Entry`.
- PurePaths.WithSuffix: the `ValueError` paths of `with_suffix` (an invalid suffix, an empty name) are not modelled. A precondition excludes them, and `_ensure_meta_files` never reaches them, because its suffix always starts with a dot and has at least two characters.
- InstanceState.WithSidecars: a path without a name gets no sidecar. Scanned files always have one.
- UiTable.RowPasses: it requires each item to carry a cell for every category and annotation column, and so do `FilterRows` and `TableState.RenderRows`. With an active filter on a missing cell, the source throws a TypeError (`undefined.toLowerCase()`), and the model does not capture that throw.
- UiTable.Lower: lower-casing is ASCII only. `toLowerCase` also folds non-ASCII letters.
- `localeCompare` is a parameter `lc`. Sortedness is proved only when `lc` is a consistent comparator, meaning opposite signs for swapped arguments and a transitive "not after". Locale collation is not modelled.
- UiTable.SortRows: `Array.prototype.sort` is modelled as an insertion sort over a sequence, not in place. Its stability is not proved.
- Column keys are the `ColKey` datatype, not the strings `"cat_<i>"`/`"ann_<i>"`. So the `startsWith`/`split("_")`/`Number(...)` parsing and a malformed key (which sorts every row as equal) are not modelled.
- Writing the filter values back into the input boxes, building the HTML rows, and the DOM in general are out of scope.
- The edit handlers, the thumbnail upload, `load()` and the `fetch` calls are out of scope.
- `app/main.py` and the other UI scripts (`ui-annotation-columns.js`, `ui-category-columns.js`, `ui-edit-mode.js`, `ui-lightbox.js`) are not part of this model.
- Loading and saving sidecar contents, and the annotation-column table, are not part of this model. The `AppState` code modelled here does neither.
