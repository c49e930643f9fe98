/**
 * The cache of discovered bundles: `local_bundles.json` (the bundle list) and
 * its sidecar `local_bundles_meta.json` (the root string and the fingerprint
 * it was written for), the decision whether they are stale, and their
 * regeneration by `write_local_bundles`.
 */
module BundleCache {
  import opened Wrappers
  import opened FileSystem
  import opened RootList
  import opened FingerprintCollector

  /** The environment variable holding the separator-delimited root directories. */
  const RootsVariable := "ENVOY_BNDL_ROOTS"
  const ResultFileName := "local_bundles.json"
  const MetaFileName := "local_bundles_meta.json"

  /** `local_bundles.json`; the staleness check only asks whether it exists. */
  datatype ResultFile = Bundles(paths: seq<string>) | Unreadable

  /**
   * The `depth2_mtimes` entry of the metadata: absent, an object whose values
   * are numbers or booleans, or any other JSON value. A boolean is entered in
   * the table as 1 or 0, since Python compares `True == 1.0` and `False == 0.0`.
   */
  datatype StoredMtimes = Missing | Table(entries: Mtimes) | NotATable

  /**
   * `local_bundles_meta.json` as `json.loads` sees it: unreadable or not JSON,
   * JSON that is not an object, or an object. `bndlRoots` is `None` when the
   * key is absent or its value is not a string.
   */
  datatype MetaFile =
    | Corrupt
    | NotAnObject
    | Parsed(bndlRoots: Option<string>, depth2Mtimes: StoredMtimes)

  /** What the staleness check of the source can raise. */
  datatype Exception = AttributeError

  /** `';'` on Windows (`os.name == 'nt'`), `':'` elsewhere. */
  function ListSeparator(osName: string): char {
    if osName == "nt" then ';' else ':'
  }

  /** `os.environ.get('ENVOY_BNDL_ROOTS', '')`. */
  function RootsSetting(env: map<string, string>): string {
    if RootsVariable in env then env[RootsVariable] else ""
  }

  /** `meta.get('depth2_mtimes', {})`, or `None` for a value no fingerprint can equal. */
  function StoredFingerprint(d: StoredMtimes): Option<Mtimes> {
    match d
    case Missing => Some(map[])
    case Table(m) => Some(m)
    case NotATable => None
  }

  /** The fingerprint `_is_stale` and `write_local_bundles` compute for a root string. */
  function CurrentFingerprint(fs: Snapshot, rootsStr: string, sep: char): Mtimes {
    Fingerprint(fs, SplitRoots(rootsStr, sep))
  }

  /**
   * `_is_stale` as written, given the fingerprint `current` that `_scan_mtimes`
   * returns for the split root string: a missing file, unreadable metadata,
   * another root string or another fingerprint mean stale; metadata that
   * parses to a non-object makes `meta.get` raise outside the `try`.
   */
  function DecideAsWritten(result: Option<ResultFile>, meta: Option<MetaFile>, rootsStr: string, current: Mtimes): Result<bool, Exception> {
    if result.None? || meta.None? then Success(true)
    else match meta.value
      case Corrupt => Success(true)
      case NotAnObject => Failure(AttributeError)
      case Parsed(roots, d) => Success(roots != Some(rootsStr) || StoredFingerprint(d) != Some(current))
  }

  /** The decision as intended: metadata that cannot be used, whatever the reason, means stale. */
  predicate Decide(result: Option<ResultFile>, meta: Option<MetaFile>, rootsStr: string, current: Mtimes) {
    match DecideAsWritten(result, meta, rootsStr, current)
    case Success(stale) => stale
    case Failure(_) => true
  }

  /** `_is_stale(roots_str)` as written, against the filesystem snapshot `fs`. */
  function StaleAsWritten(result: Option<ResultFile>, meta: Option<MetaFile>, fs: Snapshot, rootsStr: string, sep: char): Result<bool, Exception> {
    DecideAsWritten(result, meta, rootsStr, CurrentFingerprint(fs, rootsStr, sep))
  }

  /** `_is_stale(roots_str)` as intended, against the filesystem snapshot `fs`. */
  predicate Stale(result: Option<ResultFile>, meta: Option<MetaFile>, fs: Snapshot, rootsStr: string, sep: char) {
    Decide(result, meta, rootsStr, CurrentFingerprint(fs, rootsStr, sep))
  }

  /** The metadata `write_local_bundles` writes for a root string. */
  function FreshMeta(fs: Snapshot, rootsStr: string, sep: char): MetaFile {
    Parsed(Some(rootsStr), Table(CurrentFingerprint(fs, rootsStr, sep)))
  }

  // ---------------------------------------------------------------------------
  // The staleness decision
  // ---------------------------------------------------------------------------

  /**
   * Both files present and metadata holding a JSON array, `null` or a number:
   * the source raises `AttributeError` instead of regenerating.
   */
  lemma NonObjectMetadataRaises(result: ResultFile, fs: Snapshot, rootsStr: string, sep: char)
    ensures StaleAsWritten(Some(result), Some(NotAnObject), fs, rootsStr, sep) == Failure(AttributeError)
    ensures Stale(Some(result), Some(NotAnObject), fs, rootsStr, sep)
  {
  }

  /** The corrected decision agrees with the source wherever the source does not raise. */
  lemma DecideAgreesWithSource(result: Option<ResultFile>, meta: Option<MetaFile>, rootsStr: string, current: Mtimes)
    ensures DecideAsWritten(result, meta, rootsStr, current).Failure? <==> result.Some? && meta == Some(NotAnObject)
    ensures DecideAsWritten(result, meta, rootsStr, current).Success? ==>
              Decide(result, meta, rootsStr, current) == DecideAsWritten(result, meta, rootsStr, current).value
  {
  }

  /** Either file missing, or metadata that cannot be read or parsed, means stale and is never an error. */
  lemma MissingOrCorruptIsStale(result: Option<ResultFile>, meta: Option<MetaFile>, rootsStr: string, current: Mtimes)
    requires result.None? || meta.None? || meta == Some(Corrupt)
    ensures DecideAsWritten(result, meta, rootsStr, current) == Success(true)
  {
  }

  /** A different root string means stale, whatever the fingerprint. */
  lemma RootStringChangeIsStale(result: Option<ResultFile>, stored: Option<string>, d: StoredMtimes, rootsStr: string, current: Mtimes)
    requires stored != Some(rootsStr)
    ensures Decide(result, Some(Parsed(stored, d)), rootsStr, current)
  {
  }

  /**
   * With both files present and the same root string, the fingerprint decides:
   * stale exactly when the recomputed one differs from the stored one, a missing
   * `depth2_mtimes` counting as the empty map.
   */
  lemma FingerprintDecides(result: ResultFile, d: StoredMtimes, rootsStr: string, current: Mtimes)
    ensures Decide(Some(result), Some(Parsed(Some(rootsStr), d)), rootsStr, current) <==>
              match d
              case Missing => current != map[]
              case Table(m) => current != m
              case NotATable => true
  {
  }

  /**
   * The cache is fresh exactly when the result file exists and the metadata is
   * what a regeneration would write now (or lacks `depth2_mtimes` while the
   * fingerprint is empty).
   */
  lemma FreshIffMatchesRegeneration(result: Option<ResultFile>, meta: Option<MetaFile>, rootsStr: string, current: Mtimes)
    ensures !Decide(result, meta, rootsStr, current) <==>
              && result.Some?
              && (|| meta == Some(Parsed(Some(rootsStr), Table(current)))
                  || (meta == Some(Parsed(Some(rootsStr), Missing)) && current == map[]))
  {
    if !Decide(result, meta, rootsStr, current) {
      assert result.Some? && meta.Some?;
      match meta.value
      case Parsed(roots, d) =>
        assert roots == Some(rootsStr);
        match d
        case Missing =>
        case Table(m) =>
          assert m == current;
    }
  }

  /** The contents of the result file play no part: only its existence does. */
  lemma ResultContentIgnored(x: ResultFile, y: ResultFile, meta: Option<MetaFile>, rootsStr: string, current: Mtimes)
    ensures Decide(Some(x), meta, rootsStr, current) == Decide(Some(y), meta, rootsStr, current)
  {
  }

  /**
   * A stale cache that already had a result file stays stale when a
   * regeneration rewrites that file and stops before the metadata, so the next
   * call regenerates again.
   */
  lemma InterruptedRegenerationStaysStale(previous: ResultFile, bundles: seq<string>, meta: Option<MetaFile>, rootsStr: string, current: Mtimes)
    requires Decide(Some(previous), meta, rootsStr, current)
    ensures Decide(Some(Bundles(bundles)), meta, rootsStr, current)
  {
    ResultContentIgnored(previous, Bundles(bundles), meta, rootsStr, current);
  }

  /** A directory created among the tracked ones since the metadata was written makes the cache stale. */
  lemma NewDirectoryMakesStale(fs1: Snapshot, fs2: Snapshot, result: ResultFile, rootsStr: string, sep: char, root: Path, k: Path)
    requires root in SplitRoots(rootsStr, sep) && RootReadable(fs2, root) && TrackedUnder(fs2, root, k)
    requires !Tracked(fs1, SplitRoots(rootsStr, sep), k)
    ensures Stale(Some(result), Some(FreshMeta(fs1, rootsStr, sep)), fs2, rootsStr, sep)
  {
    NewDirectoryChangesFingerprint(fs1, fs2, SplitRoots(rootsStr, sep), root, k);
  }

  /** A tracked directory touched since the metadata was written makes the cache stale. */
  lemma TouchedDirectoryMakesStale(fs1: Snapshot, fs2: Snapshot, result: ResultFile, rootsStr: string, sep: char, root: Path, k: Path)
    requires root in SplitRoots(rootsStr, sep) && RootReadable(fs2, root) && TrackedUnder(fs2, root, k)
    requires Stat(fs1, k) != Stat(fs2, k)
    ensures Stale(Some(result), Some(FreshMeta(fs1, rootsStr, sep)), fs2, rootsStr, sep)
  {
    TouchedDirectoryChangesFingerprint(fs1, fs2, SplitRoots(rootsStr, sep), root, k);
  }

  /** Changes below the two tracked levels never make the cache stale. */
  lemma DeepChangesKeepFreshness(fs1: Snapshot, fs2: Snapshot, result: Option<ResultFile>, meta: Option<MetaFile>, rootsStr: string, sep: char)
    requires SameTrackedNodes(fs1, fs2, SplitRoots(rootsStr, sep))
    ensures Stale(result, meta, fs1, rootsStr, sep) == Stale(result, meta, fs2, rootsStr, sep)
  {
    FingerprintLocal(fs1, fs2, SplitRoots(rootsStr, sep));
  }

  // ---------------------------------------------------------------------------
  // The two cache files
  // ---------------------------------------------------------------------------

  /** The pair of files in the user-local configuration directory; `None` is a file that does not exist. */
  class Cache {
    const configDir: string
    const resultPath: string
    const metaPath: string
    var resultFile: Option<ResultFile>
    var metaFile: Option<MetaFile>

    /** The cache as found on disk under `configDir`. */
    constructor (configDir: string, resultFile: Option<ResultFile>, metaFile: Option<MetaFile>)
      ensures this.configDir == configDir
      ensures resultPath == configDir + "/" + ResultFileName && metaPath == configDir + "/" + MetaFileName
      ensures this.resultFile == resultFile && this.metaFile == metaFile
    {
      this.configDir := configDir;
      resultPath := configDir + "/" + ResultFileName;
      metaPath := configDir + "/" + MetaFileName;
      this.resultFile := resultFile;
      this.metaFile := metaFile;
    }

    /** `_is_stale(roots_str)`: reads the two files and, only when needed, scans the mtimes. */
    method IsStale(fs: Snapshot, rootsStr: string, sep: char) returns (stale: bool)
      ensures stale == Stale(resultFile, metaFile, fs, rootsStr, sep)
    {
      if resultFile.None? || metaFile.None? {
        return true;
      }
      match metaFile.value
      case Corrupt =>
        return true;
      case NotAnObject =>
        return true;
      case Parsed(stored, d) =>
        if stored != Some(rootsStr) {
          return true;
        }
        var roots := SplitRoots(rootsStr, sep);
        var current := ScanMtimes(fs, roots);
        return StoredFingerprint(d) != Some(current);
    }

    /**
     * `write_local_bundles(force=force)`: unless `force` is set and unless the
     * cache is stale, returns the result path without scanning or writing.
     * Otherwise the external scan yields `discovered`; the result file, then the
     * metadata file, are overwritten. `scanned` tells whether the scan ran.
     */
    method WriteLocalBundles(fs: Snapshot, env: map<string, string>, osName: string, force: bool, discovered: seq<string>)
      returns (path: string, scanned: bool)
      modifies this
      ensures path == resultPath
      ensures scanned <==> force || old(Stale(resultFile, metaFile, fs, RootsSetting(env), ListSeparator(osName)))
      ensures !scanned ==> resultFile == old(resultFile) && metaFile == old(metaFile)
      ensures scanned ==> resultFile == Some(Bundles(discovered))
      ensures scanned ==> metaFile == Some(FreshMeta(fs, RootsSetting(env), ListSeparator(osName)))
      ensures !Stale(resultFile, metaFile, fs, RootsSetting(env), ListSeparator(osName))
    {
      var sep := ListSeparator(osName);
      var rootsStr := RootsSetting(env);
      if !force {
        var stale := IsStale(fs, rootsStr, sep);
        if !stale {
          return resultPath, false;
        }
      }
      scanned := true;
      resultFile := Some(Bundles(discovered));
      var roots := SplitRoots(rootsStr, sep);
      var mtimes := ScanMtimes(fs, roots);
      assert mtimes == CurrentFingerprint(fs, rootsStr, sep);
      metaFile := Some(Parsed(Some(rootsStr), Table(mtimes)));
      assert metaFile == Some(FreshMeta(fs, rootsStr, sep));
      FreshIffMatchesRegeneration(resultFile, metaFile, rootsStr, mtimes);
      assert !Decide(resultFile, metaFile, rootsStr, mtimes);
      path := resultPath;
    }
  }

  /**
   * Two launches in a row against the same filesystem: the second is a cache
   * hit, so the expensive scan runs at most once, and the files the second call
   * leaves are those the first call left: the first call's bundle list and
   * metadata when the cache was stale, the files as they were otherwise.
   */
  method SecondLaunchIsCacheHit(cache: Cache, fs: Snapshot, env: map<string, string>, osName: string, first: seq<string>, second: seq<string>)
    returns (scannedAgain: bool)
    modifies cache
    ensures !scannedAgain
    ensures old(cache.resultFile) == None ==> cache.resultFile == Some(Bundles(first))
    ensures old(Stale(cache.resultFile, cache.metaFile, fs, RootsSetting(env), ListSeparator(osName))) ==>
              && cache.resultFile == Some(Bundles(first))
              && cache.metaFile == Some(FreshMeta(fs, RootsSetting(env), ListSeparator(osName)))
    ensures !old(Stale(cache.resultFile, cache.metaFile, fs, RootsSetting(env), ListSeparator(osName))) ==>
              cache.resultFile == old(cache.resultFile) && cache.metaFile == old(cache.metaFile)
  {
    var _, _ := cache.WriteLocalBundles(fs, env, osName, false, first);
    var _, again := cache.WriteLocalBundles(fs, env, osName, false, second);
    scannedAgain := again;
  }
}
