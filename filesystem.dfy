/**
 * The local filesystem as the instance manager sees it: a finite map from
 * absolute paths to entries. A path is the list of its segments below the
 * filesystem root, so `[]` is the root itself.
 */
module FileSystem {

  type Path = seq<string>

  datatype Entry = File(contents: string) | Dir

  type Tree = map<Path, Entry>

  /** `Path.parent` of a non-root path. */
  function Parent(p: Path): Path
    requires p != []
  {
    p[..|p| - 1]
  }

  /** `Path.name`: the last segment. */
  function Name(p: Path): string
    requires p != []
  {
    p[|p| - 1]
  }

  /** `b` lies somewhere below the directory `a`. */
  predicate IsStrictPrefix(a: Path, b: Path)
  {
    |a| < |b| && b[..|a|] == a
  }

  /**
   * A well-formed tree: the root is a directory, every other entry sits in a
   * directory that is itself in the tree, and every segment name is non-empty
   * and free of the separator.
   */
  ghost predicate Wf(t: Tree)
  {
    && [] in t && t[[]].Dir?
    && forall p {:trigger Parent(p)} :: p in t && p != [] ==>
         Parent(p) in t && t[Parent(p)].Dir? && Name(p) != "" && '/' !in Name(p)
  }

  predicate IsFileIn(t: Tree, p: Path)
  {
    p in t && t[p].File?
  }

  predicate IsDirIn(t: Tree, p: Path)
  {
    p in t && t[p].Dir?
  }

  /** The entries directly inside `d` (what `d.iterdir()` yields). */
  function Children(t: Tree, d: Path): (r: set<Path>)
    ensures forall p :: p in r <==> p in t && |p| == |d| + 1 && p[..|d|] == d
  {
    set p | p in t && p != [] && Parent(p) == d
  }

  /** The directories directly inside `d` (`iterdir()` filtered by `is_dir()`). */
  function ChildDirs(t: Tree, d: Path): (r: set<Path>)
    ensures forall p :: p in r ==> |p| == |d| + 1 && p[..|d|] == d && IsDirIn(t, p)
  {
    set p | p in t && p != [] && Parent(p) == d && t[p].Dir?
  }

  /** Every entry strictly below `d` (what `d.rglob("*")` yields). */
  function Descendants(t: Tree, d: Path): (r: set<Path>)
    ensures forall p :: p in r <==> p in t && IsStrictPrefix(d, p)
  {
    set p | p in t && IsStrictPrefix(d, p)
  }

  /**
   * Writing a file into an existing directory, at a path that is not a
   * directory, keeps the tree well formed.
   */
  lemma AddFileKeepsWf(t: Tree, p: Path, text: string)
    requires Wf(t)
    requires p != [] && Name(p) != "" && '/' !in Name(p) && IsDirIn(t, Parent(p)) && !IsDirIn(t, p)
    ensures Wf(t[p := File(text)])
  {
    var t' := t[p := File(text)];
    forall q {:trigger Parent(q)} | q in t' && q != []
      ensures Parent(q) in t' && t'[Parent(q)].Dir? && Name(q) != "" && '/' !in Name(q)
    {
      if q != p {
        assert Parent(q) in t && t[Parent(q)].Dir?;
      }
    }
  }

  /** The disk, updated in place by the writes the instance manager performs. */
  class Disk {
    var entries: Tree

    ghost predicate Valid()
      reads this
    {
      Wf(entries)
    }

    /** `Path.exists()`. */
    predicate Exists(p: Path)
      reads this
      ensures p == [] && Valid() ==> Exists(p)
      ensures Exists(p) ==> IsFileIn(entries, p) || IsDirIn(entries, p)
    {
      p in entries
    }

    /** `Path.is_file()`. */
    predicate IsFile(p: Path)
      reads this
      ensures IsFile(p) ==> p in entries && !IsDirIn(entries, p)
    {
      IsFileIn(entries, p)
    }

    /**
     * `Path.write_text(text)` on a path whose directory exists and which is not
     * itself a directory: the file is created, or replaced, with `text`.
     */
    method WriteText(p: Path, text: string)
      requires Valid()
      requires p != [] && Name(p) != "" && '/' !in Name(p) && IsDirIn(entries, Parent(p)) && !IsDirIn(entries, p)
      modifies this
      ensures Valid()
      ensures entries == old(entries)[p := File(text)]
    {
      AddFileKeepsWf(entries, p, text);
      entries := entries[p := File(text)];
    }
  }
}
