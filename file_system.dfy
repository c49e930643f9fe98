/**
 * The filesystem as the fingerprint collector sees it at one moment: for each
 * path, whether `Path.is_dir()` holds, what `stat()` reports and what
 * `iterdir()` lists. A failing `stat()` or `iterdir()` (permission denied, a
 * path that vanished meanwhile) is an absent value; a path that is not in the
 * snapshot does not exist.
 */
module FileSystem {
  import opened Wrappers

  /** Paths are compared as strings; no normalisation is modelled. */
  type Path = string

  /** A float `st_mtime`; the collector only ever compares two of them for equality. */
  type MTime = real

  /**
   * `isDir`: the answer of `Path.is_dir()`; `mtime`: `None` when `stat()` raises `OSError`;
   * `listing`: the full paths `iterdir()` yields, `None` when it raises `OSError`.
   */
  datatype Node = Node(isDir: bool, mtime: Option<MTime>, listing: Option<seq<Path>>)

  type Snapshot = map<Path, Node>

  /** `Path(p).is_dir()`: false for a missing path. */
  predicate IsDir(fs: Snapshot, p: Path) {
    p in fs && fs[p].isDir
  }

  /** `Path(p).stat().st_mtime`, or `None` where it raises. */
  function Stat(fs: Snapshot, p: Path): Option<MTime> {
    if p in fs then fs[p].mtime else None
  }

  /** `Path(p).iterdir()`, or `None` where it raises. */
  function IterDir(fs: Snapshot, p: Path): Option<seq<Path>> {
    if p in fs then fs[p].listing else None
  }

  /** Everything the snapshot says about `p`; `None` for a missing path. */
  function Lookup(fs: Snapshot, p: Path): Option<Node> {
    if p in fs then Some(fs[p]) else None
  }

  /** Every directory of `root`'s two tracked levels can be stat'ed, and `root` can be listed. */
  ghost predicate RootReadable(fs: Snapshot, root: Path) {
    IsDir(fs, root) ==>
      && Stat(fs, root).Some?
      && IterDir(fs, root).Some?
      && forall c :: c in IterDir(fs, root).value && IsDir(fs, c) ==> Stat(fs, c).Some?
  }

  /** No `OSError` anywhere: every directory can be stat'ed and listed. */
  ghost predicate Healthy(fs: Snapshot) {
    forall p :: IsDir(fs, p) ==> Stat(fs, p).Some? && IterDir(fs, p).Some?
  }

  lemma HealthyRootsReadable(fs: Snapshot, root: Path)
    requires Healthy(fs)
    ensures RootReadable(fs, root)
  {
  }
}
