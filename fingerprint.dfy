/**
 * The fingerprint collector `_scan_mtimes`: a map from each root that is a
 * directory, and each directory directly inside such a root, to its mtime.
 *
 * The specification functions follow the loops of the source step by step
 * (the accumulator is the `mtimes` dict); `ScanMtimes` is the loop itself.
 */
module FingerprintCollector {
  import opened Wrappers
  import opened FileSystem

  type Mtimes = map<Path, MTime>

  /** Every recorded value is the path's own mtime in `fs`. */
  ghost predicate Recorded(fs: Snapshot, m: Mtimes) {
    forall k :: k in m ==> Stat(fs, k) == Some(m[k])
  }

  /** `k` is tracked because of `root`: `root` is a directory and `k` is `root` or a directory listed in it. */
  ghost predicate TrackedUnder(fs: Snapshot, root: Path, k: Path) {
    && IsDir(fs, root)
    && (k == root || (IterDir(fs, root).Some? && k in IterDir(fs, root).value && IsDir(fs, k)))
  }

  /** `k` is tracked because of one of `roots`. */
  ghost predicate Tracked(fs: Snapshot, roots: seq<Path>, k: Path) {
    exists root :: root in roots && TrackedUnder(fs, root, k)
  }

  /**
   * The inner loop over `root.iterdir()`, from the dict `acc`: directories are
   * recorded, other children skipped; the first child whose `stat()` raises
   * ends the loop (the `except OSError` of the source), keeping what was recorded.
   */
  function ScanChildren(fs: Snapshot, acc: Mtimes, children: seq<Path>): Mtimes
    decreases children
  {
    if children == [] then acc
    else
      var c := children[0];
      if !IsDir(fs, c) then ScanChildren(fs, acc, children[1..])
      else match Stat(fs, c)
        case None => acc
        case Some(t) => ScanChildren(fs, acc[c := t], children[1..])
  }

  /** One pass of the outer loop body: the `try` block for one root. */
  function ScanRoot(fs: Snapshot, acc: Mtimes, root: Path): Mtimes {
    if !IsDir(fs, root) then acc
    else match Stat(fs, root)
      case None => acc
      case Some(t) =>
        match IterDir(fs, root)
        case None => acc[root := t]
        case Some(children) => ScanChildren(fs, acc[root := t], children)
  }

  /** The outer loop over `roots`, from the dict `acc`. */
  function ScanRoots(fs: Snapshot, acc: Mtimes, roots: seq<Path>): Mtimes
    decreases roots
  {
    if roots == [] then acc else ScanRoots(fs, ScanRoot(fs, acc, roots[0]), roots[1..])
  }

  /** `_scan_mtimes(roots)`: the fingerprint of `roots` in `fs`. */
  function Fingerprint(fs: Snapshot, roots: seq<Path>): Mtimes {
    ScanRoots(fs, map[], roots)
  }

  /**
   * The child loop keeps what was recorded, adds only directories among the
   * children, records their own mtimes, and records every directory child when
   * none of them fails to stat.
   */
  lemma {:induction false} ScanChildrenSpec(fs: Snapshot, acc: Mtimes, children: seq<Path>)
    ensures acc.Keys <= ScanChildren(fs, acc, children).Keys
    ensures forall k :: k in ScanChildren(fs, acc, children) && k !in acc ==> k in children && IsDir(fs, k)
    ensures Recorded(fs, acc) ==> Recorded(fs, ScanChildren(fs, acc, children))
    ensures (forall c :: c in children && IsDir(fs, c) ==> Stat(fs, c).Some?) ==>
              forall c :: c in children && IsDir(fs, c) ==> c in ScanChildren(fs, acc, children)
    decreases children
  {
    if children != [] {
      var c := children[0];
      assert forall d :: d in children[1..] ==> d in children;
      assert forall d :: d in children ==> d == c || d in children[1..];
      if !IsDir(fs, c) {
        ScanChildrenSpec(fs, acc, children[1..]);
      } else if Stat(fs, c).Some? {
        ScanChildrenSpec(fs, acc[c := Stat(fs, c).value], children[1..]);
      }
    }
  }

  /** One root contributes only itself and its directory children, with their own mtimes; all of them when it is readable. */
  lemma ScanRootSpec(fs: Snapshot, acc: Mtimes, root: Path)
    ensures acc.Keys <= ScanRoot(fs, acc, root).Keys
    ensures forall k :: k in ScanRoot(fs, acc, root) && k !in acc ==> TrackedUnder(fs, root, k)
    ensures Recorded(fs, acc) ==> Recorded(fs, ScanRoot(fs, acc, root))
    ensures RootReadable(fs, root) ==> forall k :: TrackedUnder(fs, root, k) ==> k in ScanRoot(fs, acc, root)
  {
    if IsDir(fs, root) && Stat(fs, root).Some? && IterDir(fs, root).Some? {
      ScanChildrenSpec(fs, acc[root := Stat(fs, root).value], IterDir(fs, root).value);
    }
  }

  /**
   * The root loop keeps what was recorded, adds only tracked directories with
   * their own mtimes, and records everything tracked under each readable root,
   * whatever happens with the other roots.
   */
  lemma {:induction false} ScanRootsSpec(fs: Snapshot, acc: Mtimes, roots: seq<Path>)
    ensures acc.Keys <= ScanRoots(fs, acc, roots).Keys
    ensures forall k :: k in ScanRoots(fs, acc, roots) && k !in acc ==> Tracked(fs, roots, k)
    ensures Recorded(fs, acc) ==> Recorded(fs, ScanRoots(fs, acc, roots))
    ensures forall k, root :: root in roots && RootReadable(fs, root) && TrackedUnder(fs, root, k) ==>
              k in ScanRoots(fs, acc, roots)
    decreases roots
  {
    if roots != [] {
      var next := ScanRoot(fs, acc, roots[0]);
      ScanRootSpec(fs, acc, roots[0]);
      ScanRootsSpec(fs, next, roots[1..]);
      assert forall root :: root in roots[1..] ==> root in roots;
      assert forall root :: root in roots ==> root == roots[0] || root in roots[1..];
    }
  }

  /**
   * `_scan_mtimes` records only roots that are directories and directories
   * directly inside them, each with its own mtime; every readable root
   * contributes all of these, even when other roots fail.
   */
  lemma FingerprintSpec(fs: Snapshot, roots: seq<Path>)
    ensures forall k :: k in Fingerprint(fs, roots) ==> Tracked(fs, roots, k)
    ensures Recorded(fs, Fingerprint(fs, roots))
    ensures forall k, root :: root in roots && RootReadable(fs, root) && TrackedUnder(fs, root, k) ==>
              k in Fingerprint(fs, roots)
  {
    ScanRootsSpec(fs, map[], roots);
  }

  /**
   * `_scan_mtimes` as written: a dict built in place by two nested loops. It
   * returns a map for every input; an `OSError` abandons the rest of one root.
   */
  method ScanMtimes(fs: Snapshot, roots: seq<Path>) returns (mtimes: Mtimes)
    ensures mtimes == Fingerprint(fs, roots)
  {
    mtimes := map[];
    for i := 0 to |roots|
      invariant ScanRoots(fs, mtimes, roots[i..]) == Fingerprint(fs, roots)
    {
      var root := roots[i];
      assert roots[i..][1..] == roots[i + 1..];
      if !IsDir(fs, root) {
        continue;
      }
      var st := Stat(fs, root);
      if st.None? {
        continue;
      }
      ghost var target := ScanRoot(fs, mtimes, root);
      mtimes := mtimes[root := st.value];
      var listing := IterDir(fs, root);
      if listing.None? {
        continue;
      }
      var children := listing.value;
      for j := 0 to |children|
        invariant ScanChildren(fs, mtimes, children[j..]) == target
      {
        var child := children[j];
        assert children[j..][1..] == children[j + 1..];
        if IsDir(fs, child) {
          var cst := Stat(fs, child);
          if cst.None? {
            break;
          }
          mtimes := mtimes[child := cst.value];
        }
      }
    }
  }

  // ---------------------------------------------------------------------------
  // Properties of the fingerprint
  // ---------------------------------------------------------------------------

  /** Scanning `a + b` is scanning `a`, then scanning `b` from what `a` recorded. */
  lemma {:induction false} ScanRootsConcat(fs: Snapshot, acc: Mtimes, a: seq<Path>, b: seq<Path>)
    ensures ScanRoots(fs, acc, a + b) == ScanRoots(fs, ScanRoots(fs, acc, a), b)
    decreases a
  {
    if a == [] {
      assert a + b == b;
    } else {
      assert (a + b)[0] == a[0];
      assert (a + b)[1..] == a[1..] + b;
      ScanRootsConcat(fs, ScanRoot(fs, acc, a[0]), a[1..], b);
    }
  }

  /** A configured root that does not exist (or is not a directory) contributes nothing. */
  lemma FingerprintSkipsNonDirectory(fs: Snapshot, a: seq<Path>, root: Path, b: seq<Path>)
    requires !IsDir(fs, root)
    ensures Fingerprint(fs, a + [root] + b) == Fingerprint(fs, a + b)
  {
    ScanRootsConcat(fs, map[], a, [root] + b);
    ScanRootsConcat(fs, map[], a, b);
    assert a + [root] + b == a + ([root] + b);
    assert ([root] + b)[1..] == b;
  }

  /**
   * A child whose `stat()` raises ends the scan of its root: the children listed
   * after it are never looked at, and what was recorded before it is kept.
   */
  lemma {:induction false} ChildFailureAbandonsRest(fs: Snapshot, acc: Mtimes, children: seq<Path>, j: nat)
    requires j < |children| && IsDir(fs, children[j]) && Stat(fs, children[j]).None?
    ensures ScanChildren(fs, acc, children) == ScanChildren(fs, acc, children[..j])
    decreases j
  {
    if j == 0 {
      assert children[..j] == [];
    } else {
      var c := children[0];
      assert children[..j][0] == c;
      assert children[..j][1..] == children[1..][..j - 1];
      if IsDir(fs, c) && Stat(fs, c).Some? {
        ChildFailureAbandonsRest(fs, acc[c := Stat(fs, c).value], children[1..], j - 1);
      } else if !IsDir(fs, c) {
        ChildFailureAbandonsRest(fs, acc, children[1..], j - 1);
      }
    }
  }

  /** The two snapshots give the same `is_dir()` and `stat()` answers for `c`; its listing may differ. */
  ghost predicate SameChildView(fs1: Snapshot, fs2: Snapshot, c: Path) {
    IsDir(fs1, c) == IsDir(fs2, c) && Stat(fs1, c) == Stat(fs2, c)
  }

  /**
   * The two snapshots agree on everything the scan of `roots` asks: all of
   * each root, and `is_dir()` and `stat()` of each child a root lists.
   */
  ghost predicate SameTrackedNodes(fs1: Snapshot, fs2: Snapshot, roots: seq<Path>) {
    forall root :: root in roots ==>
      && Lookup(fs1, root) == Lookup(fs2, root)
      && (IterDir(fs1, root).Some? ==>
            forall c :: c in IterDir(fs1, root).value ==> SameChildView(fs1, fs2, c))
  }

  lemma {:induction false} ScanChildrenLocal(fs1: Snapshot, fs2: Snapshot, acc: Mtimes, children: seq<Path>)
    requires forall c :: c in children ==> SameChildView(fs1, fs2, c)
    ensures ScanChildren(fs1, acc, children) == ScanChildren(fs2, acc, children)
    decreases children
  {
    if children != [] {
      var c := children[0];
      assert SameChildView(fs1, fs2, c);
      assert forall d :: d in children[1..] ==> d in children;
      ScanChildrenLocal(fs1, fs2, acc, children[1..]);
      if Stat(fs1, c).Some? {
        ScanChildrenLocal(fs1, fs2, acc[c := Stat(fs1, c).value], children[1..]);
      }
    }
  }

  lemma {:induction false} ScanRootsLocal(fs1: Snapshot, fs2: Snapshot, acc: Mtimes, roots: seq<Path>)
    requires SameTrackedNodes(fs1, fs2, roots)
    ensures ScanRoots(fs1, acc, roots) == ScanRoots(fs2, acc, roots)
    decreases roots
  {
    if roots != [] {
      var root := roots[0];
      assert root in roots;
      assert Lookup(fs1, root) == Lookup(fs2, root);
      assert IsDir(fs1, root) == IsDir(fs2, root) && Stat(fs1, root) == Stat(fs2, root);
      assert IterDir(fs1, root) == IterDir(fs2, root);
      if IsDir(fs1, root) && Stat(fs1, root).Some? && IterDir(fs1, root).Some? {
        ScanChildrenLocal(fs1, fs2, acc[root := Stat(fs1, root).value], IterDir(fs1, root).value);
      }
      assert ScanRoot(fs1, acc, root) == ScanRoot(fs2, acc, root);
      assert forall d :: d in roots[1..] ==> d in roots;
      ScanRootsLocal(fs1, fs2, ScanRoot(fs1, acc, root), roots[1..]);
    }
  }

  /**
   * Only two levels are watched: snapshots that agree on the roots and on the
   * `is_dir()` and `stat()` of what the roots list have the same fingerprint,
   * whatever differs deeper down (including what those children list).
   */
  lemma FingerprintLocal(fs1: Snapshot, fs2: Snapshot, roots: seq<Path>)
    requires SameTrackedNodes(fs1, fs2, roots)
    ensures Fingerprint(fs1, roots) == Fingerprint(fs2, roots)
  {
    ScanRootsLocal(fs1, fs2, map[], roots);
  }

  /** A directory that is tracked now and was not tracked before changes the fingerprint. */
  lemma NewDirectoryChangesFingerprint(fs1: Snapshot, fs2: Snapshot, roots: seq<Path>, root: Path, k: Path)
    requires root in roots && RootReadable(fs2, root) && TrackedUnder(fs2, root, k)
    requires !Tracked(fs1, roots, k)
    ensures k in Fingerprint(fs2, roots) && k !in Fingerprint(fs1, roots)
  {
    FingerprintSpec(fs1, roots);
    FingerprintSpec(fs2, roots);
  }

  /** A tracked directory whose own mtime changed changes the fingerprint. */
  lemma TouchedDirectoryChangesFingerprint(fs1: Snapshot, fs2: Snapshot, roots: seq<Path>, root: Path, k: Path)
    requires root in roots && RootReadable(fs2, root) && TrackedUnder(fs2, root, k)
    requires Stat(fs1, k) != Stat(fs2, k)
    ensures Fingerprint(fs1, roots) != Fingerprint(fs2, roots)
  {
    var f1, f2 := Fingerprint(fs1, roots), Fingerprint(fs2, roots);
    FingerprintSpec(fs1, roots);
    FingerprintSpec(fs2, roots);
    assert k in f2 && Stat(fs2, k) == Some(f2[k]);
    if k in f1 {
      assert Stat(fs1, k) == Some(f1[k]);
    }
  }

  /** Without `OSError`s the fingerprint covers exactly the tracked directories. */
  lemma HealthyFingerprintKeys(fs: Snapshot, roots: seq<Path>, k: Path)
    requires Healthy(fs)
    ensures k in Fingerprint(fs, roots) <==> Tracked(fs, roots, k)
  {
    FingerprintSpec(fs, roots);
    if Tracked(fs, roots, k) {
      var root :| root in roots && TrackedUnder(fs, root, k);
      HealthyRootsReadable(fs, root);
    }
  }
}
