/**
 * The instance state manager (`AppState`): resolves the identity file, scans
 * the sibling folders for content files, creates the missing sidecars and
 * keeps the category-column table in the identity file's database.
 */
module InstanceState {
  import opened Wrappers
  import opened Seqs
  import opened FileSystem
  import opened PurePaths
  import opened SchemaStore

  datatype OpenError = NotFound(path: Path)

  /**
   * A regular file whose suffix is not ".ameta", stated through `EndsWithMeta`
   * (see `SuffixIsMetaIff`).
   */
  predicate IsContent(t: Tree, p: Path)
    ensures IsContent(t, p) <==> p != [] && IsFileIn(t, p) && Suffix(Name(p)) != MetaSuffix
  {
    p != [] && (SuffixIsMetaIff(Name(p)); IsFileIn(t, p) && !EndsWithMeta(Name(p)))
  }

  /** The content files anywhere below the folder `d`. */
  function ScanFolder(t: Tree, d: Path): (r: set<Path>)
    ensures forall p :: p in r <==> IsContent(t, p) && IsStrictPrefix(d, p)
  {
    set p | p in t && IsStrictPrefix(d, p) && IsContent(t, p)
  }

  /** The content files found by scanning each of `folders`, as a set. */
  function ScanUnder(t: Tree, folders: seq<Path>): (r: set<Path>)
    ensures forall p :: p in r ==> IsContent(t, p)
    decreases |folders|
  {
    if folders == [] then {}
    else ScanUnder(t, folders[..|folders| - 1]) + ScanFolder(t, folders[|folders| - 1])
  }

  /** The scan finds exactly the content files lying below some scanned folder. */
  lemma {:induction false} ScanUnderMembership(t: Tree, folders: seq<Path>, p: Path)
    ensures p in ScanUnder(t, folders) <==>
              IsContent(t, p) && exists k :: 0 <= k < |folders| && IsStrictPrefix(folders[k], p)
    decreases |folders|
  {
    if folders != [] {
      var init := folders[..|folders| - 1];
      ScanUnderMembership(t, init, p);
      if exists k :: 0 <= k < |folders| && IsStrictPrefix(folders[k], p) {
        var k :| 0 <= k < |folders| && IsStrictPrefix(folders[k], p);
        if k < |init| {
          assert init[k] == folders[k];
        }
      }
      if exists k :: 0 <= k < |init| && IsStrictPrefix(init[k], p) {
        var k :| 0 <= k < |init| && IsStrictPrefix(init[k], p);
        assert folders[k] == init[k];
      }
    }
  }

  /**
   * With the sibling folders of `root` as the scanned folders, every scanned
   * file lies at least two levels below `root`: nothing directly in the
   * instance root, the identity file included, is ever scanned.
   */
  lemma ScanSkipsRootFiles(t: Tree, root: Path, folders: seq<Path>, p: Path)
    requires Elems(folders) == ChildDirs(t, root)
    requires p in ScanUnder(t, folders)
    ensures |p| >= |root| + 2 && p[..|root|] == root
  {
    ScanUnderMembership(t, folders, p);
    var k :| 0 <= k < |folders| && IsStrictPrefix(folders[k], p);
    assert folders[k] in Elems(folders);
    assert p[..|root|] == folders[k][..|root|];
  }

  /** One step of walking `folder`: `path` is found exactly when it is a content file. */
  lemma WalkStep(t: Tree, folder: Path, done: set<Path>, path: Path)
    requires Wf(t) && path in Descendants(t, folder)
    ensures path != [] && (IsContent(t, path) ==> Nameable(path))
    ensures ScanFolder(t, folder) * (done + {path}) ==
              ScanFolder(t, folder) * done + (if IsContent(t, path) then {path} else {})
  {
    assert Parent(path) in t;
  }

  /** A path that can carry a sidecar: it has a non-empty, separator-free name. */
  predicate Nameable(f: Path)
  {
    f != [] && Name(f) != "" && '/' !in Name(f)
  }

  /**
   * Where the sidecar of `f` lives: the same directory, with ".ameta" appended
   * to the full file name (what `SidecarName`, the `with_suffix` call, yields).
   */
  function SidecarPath(f: Path): (r: Path)
    requires Nameable(f)
    ensures r != [] && Parent(r) == Parent(f) && Name(r) == Name(f) + MetaSuffix
  {
    Parent(f) + [Name(f) + MetaSuffix]
  }

  /** The sidecar paths of `files`. */
  function Sidecars(files: seq<Path>): set<Path>
  {
    set f | f in files && Nameable(f) :: SidecarPath(f)
  }

  /** A sidecar path can itself be named, and its name ends in ".ameta". */
  lemma SidecarPathIsMeta(f: Path)
    requires Nameable(f)
    ensures Nameable(SidecarPath(f)) && EndsWithMeta(Name(SidecarPath(f)))
  {
  }

  /**
   * The tree after the creation step has walked `files` in order: a file whose
   * sidecar path is free gets a new sidecar holding "{}", and an existing entry
   * at that path is left alone. (A path without a name has no sidecar; scanned
   * files always have one.)
   */
  function WithSidecars(t: Tree, files: seq<Path>): (r: Tree)
    ensures t.Keys <= r.Keys
    decreases |files|
  {
    if files == [] then t
    else
      var w := WithSidecars(t, files[..|files| - 1]);
      var f := files[|files| - 1];
      if !Nameable(f) || SidecarPath(f) in w then w else w[SidecarPath(f) := File("{}")]
  }

  /** The sidecars a run of the creation step writes: those not yet on disk. */
  function Missing(t: Tree, files: seq<Path>): (r: set<Path>)
    ensures forall p :: p in r ==> p !in t
  {
    Sidecars(files) - t.Keys
  }

  /**
   * The creation step never overwrites: every existing entry is kept as it was,
   * every new entry is a sidecar holding "{}", and every file has its sidecar.
   */
  lemma {:induction false} WithSidecarsExtends(t: Tree, files: seq<Path>)
    ensures var w := WithSidecars(t, files);
            && (forall p :: p in t ==> p in w && w[p] == t[p])
            && (forall p :: p in w && p !in t ==> p in Sidecars(files) && w[p] == File("{}"))
            && (forall f :: f in files && Nameable(f) ==> SidecarPath(f) in w)
    decreases |files|
  {
    if files != [] {
      var init := files[..|files| - 1];
      var f := files[|files| - 1];
      WithSidecarsExtends(t, init);
      assert files == init + [f];
      assert forall g :: g in init ==> g in files;
      assert Nameable(f) ==> SidecarPath(f) in Sidecars(files);
    }
  }

  /** What the creation step adds is exactly what was missing. */
  lemma WithSidecarsKeys(t: Tree, files: seq<Path>)
    ensures WithSidecars(t, files).Keys == t.Keys + Missing(t, files)
  {
  }

  /** With every sidecar already present, the creation step writes nothing. */
  lemma {:induction false} NothingMissingIsNoop(t: Tree, files: seq<Path>)
    requires forall f :: f in files && Nameable(f) ==> SidecarPath(f) in t
    ensures WithSidecars(t, files) == t
    decreases |files|
  {
    if files != [] {
      var init := files[..|files| - 1];
      assert forall g :: g in init ==> g in files;
      NothingMissingIsNoop(t, init);
    }
  }

  /**
   * A second run writes nothing and leaves the tree as the first run left it.
   */
  lemma SidecarCreationIdempotent(t: Tree, files: seq<Path>)
    ensures Missing(WithSidecars(t, files), files) == {}
    ensures WithSidecars(WithSidecars(t, files), files) == WithSidecars(t, files)
  {
    WithSidecarsExtends(t, files);
    NothingMissingIsNoop(WithSidecars(t, files), files);
  }

  /**
   * One iteration of the creation loop over `files`: the sidecar of `files[i]`
   * is added unless something is already at its path, and its directory exists.
   */
  lemma SidecarStep(t: Tree, files: seq<Path>, i: nat)
    requires Wf(t) && i < |files|
    requires forall f :: f in files ==> f in t && Nameable(f)
    ensures var w := WithSidecars(t, files[..i]);
            var m := SidecarPath(files[i]);
            && Nameable(m) && IsDirIn(w, Parent(m))
            && WithSidecars(t, files[..i + 1]) == if m in w then w else w[m := File("{}")]
  {
    var f := files[i];
    assert files[..i + 1][..i] == files[..i];
    assert f in files;
    assert Parent(f) in t && t[Parent(f)].Dir?;
    WithSidecarsExtends(t, files[..i]);
    SidecarPathIsMeta(f);
  }

  /** Creating sidecars for files of a well-formed tree keeps it well formed. */
  lemma {:induction false} SidecarsKeepWf(t: Tree, files: seq<Path>)
    requires Wf(t)
    requires forall f :: f in files ==> f in t
    ensures Wf(WithSidecars(t, files))
    decreases |files|
  {
    if files != [] {
      var init := files[..|files| - 1];
      var f := files[|files| - 1];
      assert forall g :: g in init ==> g in files;
      SidecarsKeepWf(t, init);
      var w := WithSidecars(t, init);
      if Nameable(f) && SidecarPath(f) !in w {
        WithSidecarsExtends(t, init);
        assert f in files;
        assert Parent(f) in t && t[Parent(f)].Dir?;
        SidecarPathIsMeta(f);
        AddFileKeepsWf(w, SidecarPath(f), "{}");
      }
    }
  }

  /**
   * Creating sidecars for files of a well-formed tree keeps it well formed,
   * keeps its directories, and keeps its content files.
   */
  lemma SidecarsKeepTree(t: Tree, files: seq<Path>)
    requires Wf(t)
    requires forall f :: f in files ==> f in t
    ensures Wf(WithSidecars(t, files))
    ensures forall d :: ChildDirs(WithSidecars(t, files), d) == ChildDirs(t, d)
    ensures forall p :: IsContent(WithSidecars(t, files), p) <==> IsContent(t, p)
  {
    SidecarsKeepWf(t, files);
    WithSidecarsExtends(t, files);
    var w := WithSidecars(t, files);
    forall p | p in w && p !in t
      ensures w[p].File? && p != [] && EndsWithMeta(Name(p))
    {
      var f :| f in files && Nameable(f) && SidecarPath(f) == p;
      SidecarPathIsMeta(f);
    }
    forall d ensures ChildDirs(w, d) == ChildDirs(t, d) {
    }
    forall p ensures IsContent(w, p) <==> IsContent(t, p) {
    }
  }

  /** Two trees with the same content files give the same scan. */
  lemma {:induction false} ScanUnderSameContent(t1: Tree, t2: Tree, folders: seq<Path>)
    requires forall p :: IsContent(t1, p) <==> IsContent(t2, p)
    ensures ScanUnder(t1, folders) == ScanUnder(t2, folders)
    decreases |folders|
  {
    if folders != [] {
      ScanUnderSameContent(t1, t2, folders[..|folders| - 1]);
      var d := folders[|folders| - 1];
      assert ScanFolder(t1, d) == ScanFolder(t2, d);
    }
  }

  /**
   * Scanning again after the creation step finds the same files and the step
   * then has nothing left to write.
   */
  lemma RescanIsStable(t: Tree, files: seq<Path>, folders: seq<Path>)
    requires Wf(t)
    requires forall f :: f in files ==> f in t
    ensures ScanUnder(WithSidecars(t, files), folders) == ScanUnder(t, folders)
    ensures Missing(WithSidecars(t, files), files) == {}
  {
    SidecarsKeepTree(t, files);
    ScanUnderSameContent(WithSidecars(t, files), t, folders);
    SidecarCreationIdempotent(t, files);
  }

  /**
   * The identity is a regular file, the root is its parent, and the sibling
   * folders are the directories directly in the root, each listed once.
   */
  ghost predicate ResolvedIn(t: Tree, identity: Path, root: Path, folders: seq<Path>)
  {
    && identity != []
    && IsFileIn(t, identity)
    && root == Parent(identity)
    && Elems(folders) == ChildDirs(t, root)
    && Distinct(folders)
  }

  /** `files` lists the scan of `folders`, each file once. */
  ghost predicate ScannedIn(t: Tree, folders: seq<Path>, files: seq<Path>)
  {
    && Elems(files) == ScanUnder(t, folders)
    && Distinct(files)
    && forall f :: f in files ==> f in t && Nameable(f)
  }

  /** Every file of `files` has something at its sidecar path. */
  ghost predicate SidecarsIn(t: Tree, files: seq<Path>)
  {
    forall f :: f in files ==> Nameable(f) && SidecarPath(f) in t
  }

  /**
   * The creation step keeps an opened instance's identity, sibling folders and
   * scan valid, and afterwards every scanned file has its sidecar.
   */
  lemma SidecarCreationKeepsInstance(t: Tree, identity: Path, root: Path, folders: seq<Path>, files: seq<Path>)
    requires Wf(t) && ResolvedIn(t, identity, root, folders) && ScannedIn(t, folders, files)
    ensures var w := WithSidecars(t, files);
            Wf(w) && ResolvedIn(w, identity, root, folders) && ScannedIn(w, folders, files) && SidecarsIn(w, files)
  {
    var w := WithSidecars(t, files);
    SidecarsKeepTree(t, files);
    RescanIsStable(t, files, folders);
    WithSidecarsExtends(t, files);
    assert IsFileIn(w, identity);
    assert ChildDirs(w, root) == ChildDirs(t, root);
    assert forall f :: f in files ==> f in w && Nameable(f) && SidecarPath(f) in w;
  }

  /**
   * `[p for p in root.iterdir() if p.is_dir()]`: the directories directly in
   * `root`, each once, in the order the listing yields them.
   */
  method ListChildDirs(disk: Disk, root: Path) returns (folders: seq<Path>)
    ensures Elems(folders) == ChildDirs(disk.entries, root) && Distinct(folders)
  {
    var pending := Children(disk.entries, root);
    ghost var done: set<Path> := {};
    folders := [];
    while pending != {}
      invariant pending + done == Children(disk.entries, root) && pending !! done
      invariant Elems(folders) == ChildDirs(disk.entries, root) * done
      invariant Distinct(folders)
      decreases pending
    {
      var p :| p in pending;
      assert p !in Elems(folders);
      if disk.entries[p].Dir? {
        assert p in ChildDirs(disk.entries, root) by {
          assert Parent(p) == p[..|root|];
        }
        AppendFresh(folders, p);
        folders := folders + [p];
      }
      pending := pending - {p};
      done := done + {p};
    }
  }

  /** Nothing found below one sibling folder lies below an earlier one. */
  lemma SiblingScanIsFresh(t: Tree, root: Path, folders: seq<Path>, k: nat)
    requires Elems(folders) == ChildDirs(t, root) && Distinct(folders) && k < |folders|
    ensures ScanFolder(t, folders[k]) !! ScanUnder(t, folders[..k])
  {
    assert folders[k] in Elems(folders);
    forall p | p in ScanFolder(t, folders[k]) ensures p !in ScanUnder(t, folders[..k]) {
      ScanUnderMembership(t, folders[..k], p);
      forall j | 0 <= j < k ensures !IsStrictPrefix(folders[..k][j], p) {
        assert folders[..k][j] == folders[j] != folders[k];
        assert folders[j] in Elems(folders);
      }
    }
  }

  /**
   * The body of the scan loop for one sibling folder: `for path in
   * folder.rglob("*")`, appending each content file to `result`.
   */
  method WalkFolder(disk: Disk, folder: Path, result: seq<Path>) returns (r: seq<Path>)
    requires disk.Valid()
    requires Elems(result) !! ScanFolder(disk.entries, folder) && Distinct(result)
    requires forall f :: f in result ==> f in disk.entries && Nameable(f)
    ensures |r| >= |result| && r[..|result|] == result
    ensures Elems(r) == Elems(result) + ScanFolder(disk.entries, folder) && Distinct(r)
    ensures forall f :: f in r ==> f in disk.entries && Nameable(f)
  {
    ghost var t := disk.entries;
    var pending := Descendants(disk.entries, folder);
    ghost var done: set<Path> := {};
    r := result;
    while pending != {}
      invariant pending + done == Descendants(t, folder) && pending !! done
      invariant |r| >= |result| && r[..|result|] == result
      invariant Elems(r) == Elems(result) + ScanFolder(t, folder) * done
      invariant Distinct(r)
      invariant forall f :: f in r ==> f in t && Nameable(f)
      decreases pending
    {
      var path :| path in pending;
      SuffixIsMetaIff(Name(path));
      WalkStep(t, folder, done, path);
      if disk.IsFile(path) && Suffix(Name(path)) != MetaSuffix {
        assert path !in Elems(r);
        AppendFresh(r, path);
        r := r + [path];
      }
      pending := pending - {path};
      done := done + {path};
    }
    assert ScanFolder(t, folder) * done == ScanFolder(t, folder);
  }

  /**
   * The loop of `_ensure_meta_files`: for each file in order, write "{}" at its
   * sidecar path unless something already exists there.
   */
  method WriteMissingSidecars(disk: Disk, files: seq<Path>)
    requires disk.Valid()
    requires forall f :: f in files ==> f in disk.entries && Nameable(f)
    modifies disk
    ensures disk.Valid()
    ensures disk.entries == WithSidecars(old(disk.entries), files)
  {
    ghost var t := disk.entries;
    for i := 0 to |files|
      invariant disk.Valid()
      invariant disk.entries == WithSidecars(t, files[..i])
    {
      var f := files[i];
      assert f in files;
      var meta := Parent(f) + [SidecarName(Name(f))];
      SidecarStep(t, files, i);
      if !disk.Exists(meta) {
        disk.WriteText(meta, "{}");
      }
    }
    assert files[..|files|] == files;
  }

  /** Python's `AppState`: the session object for one instance. */
  class AppState {
    /** The filesystem the instance lives on. */
    const disk: Disk
    /** The `folder_schema` table inside the identity file's database. */
    const db: FolderSchemaTable

    var identityPath: Path
    var instanceRoot: Path
    var siblingFolders: seq<Path>
    var files: seq<Path>

    /** What `_load_identity` establishes. */
    ghost predicate Resolved()
      reads this, disk
    {
      disk.Valid() && ResolvedIn(disk.entries, identityPath, instanceRoot, siblingFolders)
    }

    /** What `_scan_files` establishes. */
    ghost predicate Scanned()
      reads this, disk
    {
      ScannedIn(disk.entries, siblingFolders, files)
    }

    /** What `_ensure_meta_files` establishes. */
    ghost predicate SidecarsPresent()
      reads this, disk
    {
      SidecarsIn(disk.entries, files)
    }

    /** The state of an opened instance. */
    ghost predicate Valid()
      reads this, disk, db
    {
      Resolved() && Scanned() && SidecarsPresent() && db.Valid() && db.created
    }

    /** The fields as `__init__` declares them, before `_load_identity` sets them. */
    constructor Init(disk: Disk, db: FolderSchemaTable)
      ensures this.disk == disk && this.db == db
      ensures siblingFolders == [] && files == []
    {
      this.disk := disk;
      this.db := db;
      identityPath := [];
      instanceRoot := [];
      siblingFolders := [];
      files := [];
    }

    /**
     * `AppState(identity_path)`: resolve the identity, scan, create the missing
     * sidecars and make sure the schema table exists. Fails with NotFound, and
     * changes nothing, when the identity is not an existing regular file.
     */
    static method Open(disk: Disk, db: FolderSchemaTable, identity: Path) returns (r: Result<AppState, OpenError>)
      requires disk.Valid() && db.Valid()
      modifies disk, db
      ensures r.Failure? <==> !IsFileIn(old(disk.entries), identity)
      ensures r.Failure? ==> r.error == NotFound(identity) && unchanged(disk, db)
      ensures r.Success? ==>
                && fresh(r.value) && r.value.disk == disk && r.value.db == db
                && r.value.Valid()
                && r.value.identityPath == identity
                && r.value.instanceRoot == Parent(identity)
                && Elems(r.value.siblingFolders) == ChildDirs(old(disk.entries), Parent(identity))
                && Elems(r.value.files) == ScanUnder(old(disk.entries), r.value.siblingFolders)
                && disk.entries == WithSidecars(old(disk.entries), r.value.files)
                && (old(db.created) ==> db.rows == old(db.rows) && db.lastId == old(db.lastId))
                && (!old(db.created) ==> db.rows == [])
    {
      var s := new AppState.Init(disk, db);
      var err := s.LoadIdentity(identity);
      if err.Some? {
        return Failure(err.value);
      }
      s.ScanFiles();
      s.EnsureMetaFiles();
      s.InitDb();
      return Success(s);
    }

    /**
     * `_load_identity`: the identity must exist and be a regular file; its parent
     * is the instance root and the sibling folders are the directories directly
     * in the root, in no particular order.
     */
    method LoadIdentity(identity: Path) returns (err: Option<OpenError>)
      requires disk.Valid()
      modifies this
      ensures err.Some? <==> !IsFileIn(disk.entries, identity)
      ensures err.Some? ==> err.value == NotFound(identity) && unchanged(this)
      ensures err.None? ==> Resolved() && identityPath == identity && files == old(files)
    {
      if !disk.Exists(identity) || !disk.IsFile(identity) {
        return Some(NotFound(identity));
      }
      identityPath := identity;
      instanceRoot := Parent(identity);
      var folders := ListChildDirs(disk, instanceRoot);
      siblingFolders := folders;
      err := None;
    }

    /**
     * `_scan_files`: walk every sibling folder recursively and collect the
     * regular files whose suffix is not ".ameta". Each file is found once.
     */
    method ScanFiles()
      requires Resolved()
      modifies this`files
      ensures Resolved() && Scanned()
    {
      var result: seq<Path> := [];
      for k := 0 to |siblingFolders|
        invariant Elems(result) == ScanUnder(disk.entries, siblingFolders[..k])
        invariant Distinct(result)
        invariant forall f :: f in result ==> f in disk.entries && Nameable(f)
      {
        SiblingScanIsFresh(disk.entries, instanceRoot, siblingFolders, k);
        result := WalkFolder(disk, siblingFolders[k], result);
        assert siblingFolders[..k + 1][..k] == siblingFolders[..k];
      }
      assert siblingFolders[..|siblingFolders|] == siblingFolders;
      files := result;
    }

    /**
     * `_ensure_meta_files`: give every scanned file a sidecar holding "{}" unless
     * something already exists at the sidecar path. Nothing is overwritten and
     * the scan result is not touched.
     */
    method EnsureMetaFiles()
      requires Resolved() && Scanned()
      modifies disk
      ensures Resolved() && Scanned() && SidecarsPresent()
      ensures disk.entries == WithSidecars(old(disk.entries), files)
    {
      ghost var t := disk.entries;
      WriteMissingSidecars(disk, files);
      SidecarCreationKeepsInstance(t, identityPath, instanceRoot, siblingFolders, files);
    }

    /**
     * `_init_db`: `CREATE TABLE IF NOT EXISTS`; an existing table keeps all its
     * rows and its counter.
     */
    method InitDb()
      requires db.Valid()
      modifies db
      ensures db.Valid() && db.created
      ensures old(db.created) ==> db.rows == old(db.rows) && db.lastId == old(db.lastId)
      ensures !old(db.created) ==> db.rows == []
    {
      if !db.created {
        db.created := true;
        db.rows := [];
      }
    }

    /** `load_schema`: the category-column names in id order, which is insertion order. */
    method LoadSchema() returns (names: seq<string>)
      requires db.Valid() && db.created
      ensures |names| == |db.rows|
      ensures forall i :: 0 <= i < |names| ==> names[i] == db.rows[i].name
      ensures forall i, j :: 0 <= i < j < |names| ==> db.rows[i].id < db.rows[j].id
      ensures Distinct(names)
    {
      names := [];
      for i := 0 to |db.rows|
        invariant |names| == i
        invariant forall k :: 0 <= k < i ==> names[k] == db.rows[k].name
      {
        names := names + [db.rows[i].name];
      }
    }

    /**
     * `add_schema`: `INSERT OR IGNORE`. A name already present changes nothing;
     * a fresh name becomes the last row, with the next id.
     */
    method AddSchema(name: string)
      requires db.Valid() && db.created
      modifies db
      ensures db.Valid() && db.created
      ensures old(Valid()) ==> Valid()
      ensures Names(db.rows) == AddName(old(Names(db.rows)), name)
      ensures name in old(Names(db.rows)) ==> db.rows == old(db.rows) && db.lastId == old(db.lastId)
      ensures name !in old(Names(db.rows)) ==>
                db.rows == old(db.rows) + [Row(old(db.lastId) + 1, name)] && db.lastId == old(db.lastId) + 1
    {
      if name !in Names(db.rows) {
        AppendRowKeepsValid(db.rows, db.lastId, name);
        db.lastId := db.lastId + 1;
        db.rows := db.rows + [Row(db.lastId, name)];
      }
    }

    /**
     * `remove_schema`: delete the row with exactly this name; the other rows keep
     * their order and ids, and the counter is not rewound.
     */
    method RemoveSchema(name: string)
      requires db.Valid() && db.created
      modifies db
      ensures db.Valid() && db.created
      ensures old(Valid()) ==> Valid()
      ensures db.rows == DeleteByName(old(db.rows), name)
      ensures db.lastId == old(db.lastId)
    {
      DeleteByNameKeepsValid(db.rows, name);
      db.rows := DeleteByName(db.rows, name);
    }
  }
}
