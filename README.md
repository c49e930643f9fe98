# Bundle-list cache of the VS Code wrapper

Before it launches VS Code, the wrapper in `py/gt/vscode/wrapper/_wrapper.py`
makes sure that `local_bundles.json` holds the list of envoy bundles found
under the root directories named by `ENVOY_BNDL_ROOTS`. Discovering bundles is
an expensive scan. The wrapper therefore keeps a sidecar file,
`local_bundles_meta.json`, which records two things: the root string the list
was made for, and a fingerprint of the roots. The fingerprint maps each root
directory, and each directory directly inside a root, to its mtime. The scan
is repeated only when one of these holds:

- `force` is set;
- either file is missing;
- the sidecar cannot be read or parsed;
- the root string changed;
- the fingerprint changed.

This project models that cache in Dafny and proves what it promises.

- `wrappers.dfy` defines `Option` and `Result`.
- `root_list.dfy` (module `RootList`) models how the root string is split into
  roots: `str.split` with one separator character, `str.strip()`, and the list
  comprehension that keeps the non-blank stripped segments.
- `file_system.dfy` (module `FileSystem`) is the filesystem at one moment. For
  each path it records what `is_dir()`, `stat()` and `iterdir()` report. A
  `stat()` or `iterdir()` that raises `OSError` is an absent value. `is_dir()`
  and `exists()` are plain booleans: they never raise in this model (see
  "## Left out").
- `fingerprint.dfy` (module `FingerprintCollector`) models `_scan_mtimes`. The
  functions `ScanChildren`, `ScanRoot` and `ScanRoots` follow its loops step by
  step; `Fingerprint` is the whole scan. The method `ScanMtimes` is the
  nested-loop code itself, proved equal to `Fingerprint`.
- `bundle_cache.dfy` (module `BundleCache`) holds the rest:
  - the two files as datatypes;
  - the staleness decision `Decide` and `Stale`;
  - the class `Cache`, whose fields are the two files and whose methods are
    `IsStale` (`_is_stale`) and `WriteLocalBundles` (`write_local_bundles`).

Inputs that the source reads from its environment are parameters here:

- the filesystem snapshot;
- the process environment, as a map;
- `os.name`;
- the result of `envoy.discover_bundles_auto`, as the sequence of bundle root
  paths it yields.

Two consequences of the code are worth stating:

- Only the existence of `local_bundles.json` is checked (line 74). A result
  file left by another run, or one whose content does not match the metadata,
  is not detected (`ResultContentIgnored`).
- The two files are written one after the other (lines 124-140). A stale cache
  that already had a result file stays stale when a regeneration rewrites that
  file and stops before the metadata, so the next call regenerates again
  (`InterruptedRegenerationStaysStale`). When the result file was missing and
  the metadata was current, the same interruption leaves a fresh cache holding
  the new bundle list with the old metadata. This holds as long as the
  configuration directory is not among the tracked directories: the model keeps
  the two cache files outside the filesystem snapshot, so creating one of them
  never changes the fingerprint (see "## Left out").

## Model

| member | source | states |
|---|---|---|
| RootList.Split | py/gt/vscode/wrapper/_wrapper.py:87 | `roots_str.split(sep)` gives at least one segment, no segment contains the separator, and joining the segments with the separator gives back the input |
| RootList.SplitJoin | py/gt/vscode/wrapper/_wrapper.py:87 | splitting a join of separator-free segments gives back exactly those segments, so `split` loses nothing and invents nothing |
| RootList.SplitConcat | py/gt/vscode/wrapper/_wrapper.py:87 | splitting `a + sep + b` gives the segments of `a` followed by those of `b` |
| RootList.Strip | py/gt/vscode/wrapper/_wrapper.py:87 | `r.strip()`: the string without its leading and trailing whitespace (no contract of its own; `StripSpec` and `StripUnique` state what it returns) |
| RootList.TrimLeftSpec | py/gt/vscode/wrapper/_wrapper.py:87 | the left half of `strip()` leaves a suffix of its input that does not start with whitespace, and removes only whitespace |
| RootList.TrimRightSpec | py/gt/vscode/wrapper/_wrapper.py:87 | the right half of `strip()` leaves a prefix of its input that does not end with whitespace, and removes only whitespace |
| RootList.StripSpec | py/gt/vscode/wrapper/_wrapper.py:87 | `r.strip()` has no whitespace at either end, sits in `r` between two runs of whitespace, and contains no character that `r` lacks |
| RootList.StripUnique | py/gt/vscode/wrapper/_wrapper.py:87 | whitespace, then a stripped string, then whitespace: `strip()` returns exactly that string |
| RootList.Clean | py/gt/vscode/wrapper/_wrapper.py:87 | the filter and map of the comprehension: the stripped segments that are not empty, in order (stated by `CleanElements` and `CleanConcat`) |
| RootList.SplitRoots | py/gt/vscode/wrapper/_wrapper.py:87 | `[r.strip() for r in roots_str.split(sep) if r.strip()]` (stated by `SplitRootsElements`, `SplitRootsOfJoin` and `SplitRootsConcat`) |
| RootList.CleanElements | py/gt/vscode/wrapper/_wrapper.py:87 | the comprehension keeps at most one root per segment, and every root it keeps is non-empty, stripped and free of the separator |
| RootList.CleanConcat | py/gt/vscode/wrapper/_wrapper.py:87 | the comprehension works segment by segment: cleaning `p + q` gives the roots of `p` followed by those of `q` |
| RootList.SplitRootsElements | py/gt/vscode/wrapper/_wrapper.py:87 | every root split from the root string is non-empty, has no whitespace at either end, and contains no separator |
| RootList.SplitRootsOfJoin | py/gt/vscode/wrapper/_wrapper.py:87 | the roots of a joined string are exactly the stripped non-blank segments, in their order |
| RootList.SplitRootsConcat | py/gt/vscode/wrapper/_wrapper.py:130 | order is kept across a separator: the roots of `a:b` are the roots of `a` followed by the roots of `b` |
| RootList.SplitRootsSegment | py/gt/vscode/wrapper/_wrapper.py:87 | a separator-free string names its stripped self, or nothing when it is blank |
| RootList.CleanRootSegment | py/gt/vscode/wrapper/_wrapper.py:87 | a non-empty, stripped, separator-free string names exactly itself |
| RootList.OrderAndDuplicatesKept | py/gt/vscode/wrapper/_wrapper.py:130 | no de-duplication and no reordering: `r1:r2:r1` names `r1`, `r2`, `r1` |
| RootList.BlankSegmentDropped | py/gt/vscode/wrapper/_wrapper.py:87 | a whitespace-only segment adds no root |
| FingerprintCollector.ScanChildren | py/gt/vscode/wrapper/_wrapper.py:64-68 | the child loop: directory children are recorded with their mtimes, other children skipped, and a `stat()` that raises ends the loop with what was recorded so far (stated by `ScanChildrenSpec` and `ChildFailureAbandonsRest`) |
| FingerprintCollector.ScanRoot | py/gt/vscode/wrapper/_wrapper.py:58-68 | one pass of the root loop: skip a non-directory, else record the root and then its directory children, an `OSError` keeping what was recorded (stated by `ScanRootSpec`) |
| FingerprintCollector.ScanRoots | py/gt/vscode/wrapper/_wrapper.py:57-69 | the root loop over the roots in order, from a given dict (stated by `ScanRootsSpec` and `ScanRootsConcat`) |
| FingerprintCollector.Fingerprint | py/gt/vscode/wrapper/_wrapper.py:47-69 | `_scan_mtimes(roots)`, starting from the empty dict (stated by `FingerprintSpec`, `HealthyFingerprintKeys` and `FingerprintLocal`) |
| FingerprintCollector.ScanChildrenSpec | py/gt/vscode/wrapper/_wrapper.py:64-68 | the child loop keeps what was already recorded and adds only directories among the children, each with its own mtime; it records every directory child when none of them fails to stat |
| FingerprintCollector.ScanRootSpec | py/gt/vscode/wrapper/_wrapper.py:58-68 | one root adds only itself and its directory children, with their own mtimes, and adds nothing unless it is a directory; a readable root adds all of them |
| FingerprintCollector.ScanRootsSpec | py/gt/vscode/wrapper/_wrapper.py:57-69 | the root loop keeps earlier entries and adds only tracked directories with their own mtimes; each readable root contributes everything tracked under it, whatever fails at other roots |
| FingerprintCollector.FingerprintSpec | py/gt/vscode/wrapper/_wrapper.py:47-69 | every key of `_scan_mtimes` is a listed root that is a directory, or a directory directly inside one; every value is that path's own mtime; readable roots are fully covered |
| FingerprintCollector.ScanMtimes | py/gt/vscode/wrapper/_wrapper.py:47-69 | the nested loops, with the `except OSError` that abandons the rest of one root, return the fingerprint for every input; with `is_dir()` assumed never to raise, the scan never fails |
| FingerprintCollector.ScanRootsConcat | py/gt/vscode/wrapper/_wrapper.py:58-69 | roots are scanned in order: scanning `a + b` is scanning `b` from what `a` recorded |
| FingerprintCollector.FingerprintSkipsNonDirectory | py/gt/vscode/wrapper/_wrapper.py:60-61 | a missing root, or one that is not a directory, contributes nothing: the fingerprint is the one without it |
| FingerprintCollector.ChildFailureAbandonsRest | py/gt/vscode/wrapper/_wrapper.py:62-68 | a child whose `stat()` raises ends its root's scan: later children are ignored and earlier entries stay |
| FingerprintCollector.FingerprintLocal | py/gt/vscode/wrapper/_wrapper.py:47-69 | only two levels are watched: snapshots that agree on the roots, and on `is_dir()` and `stat()` of the children the roots list, give the same fingerprint, whatever those children list |
| FingerprintCollector.NewDirectoryChangesFingerprint | py/gt/vscode/wrapper/_wrapper.py:58-66 | a directory that is now tracked under a readable root, and was not tracked before, is a key now and was not one before |
| FingerprintCollector.TouchedDirectoryChangesFingerprint | py/gt/vscode/wrapper/_wrapper.py:63-66 | a tracked directory under a readable root whose mtime changed changes the fingerprint |
| FingerprintCollector.HealthyFingerprintKeys | py/gt/vscode/wrapper/_wrapper.py:58-66 | when no `OSError` occurs, the keys are exactly the roots that are directories and the directories directly inside them |
| BundleCache.ListSeparator | py/gt/vscode/wrapper/_wrapper.py:112 | `';'` when `os.name == 'nt'`, `':'` otherwise |
| BundleCache.RootsSetting | py/gt/vscode/wrapper/_wrapper.py:113 | `os.environ.get('ENVOY_BNDL_ROOTS', '')` |
| BundleCache.StoredFingerprint | py/gt/vscode/wrapper/_wrapper.py:88 | `meta.get('depth2_mtimes', {})`: the empty map when absent, the stored map when it is an object of numbers or booleans (read as 1 and 0), and nothing a fingerprint can equal otherwise |
| BundleCache.CurrentFingerprint | py/gt/vscode/wrapper/_wrapper.py:87-88 | `_scan_mtimes([r.strip() for r in roots_str.split(sep) if r.strip()])`, the fingerprint computed at lines 87-88 and again at lines 130 and 135 (stated by `FingerprintSpec` and `FingerprintLocal` through `SplitRoots` and `Fingerprint`) |
| BundleCache.FreshMeta | py/gt/vscode/wrapper/_wrapper.py:131-140 | the metadata object written at lines 131-140: `bndl_roots` is the root string and `depth2_mtimes` is the current fingerprint (stated by `FreshIffMatchesRegeneration`: exactly this metadata, with a result file present, is fresh) |
| BundleCache.DecideAsWritten | py/gt/vscode/wrapper/_wrapper.py:72-92 | `_is_stale` as written, for a given current fingerprint: the checks at lines 74, 77-80, 82 and 88 in order, with `AttributeError` for metadata that is not an object (stated by `NonObjectMetadataRaises`, `DecideAgreesWithSource` and `MissingOrCorruptIsStale`) |
| BundleCache.StaleAsWritten | py/gt/vscode/wrapper/_wrapper.py:72-92 | `_is_stale(roots_str)` as written, with the fingerprint `_scan_mtimes` computes from the snapshot (stated by `NonObjectMetadataRaises`) |
| BundleCache.Decide | py/gt/vscode/wrapper/_wrapper.py:72-92 | the corrected decision: as written, except that metadata that is not an object means stale (stated by `DecideAgreesWithSource`, `FingerprintDecides` and `FreshIffMatchesRegeneration`) |
| BundleCache.Stale | py/gt/vscode/wrapper/_wrapper.py:72-92 | the corrected `_is_stale(roots_str)` against the snapshot (stated by `NewDirectoryMakesStale`, `TouchedDirectoryMakesStale` and `DeepChangesKeepFreshness`) |
| BundleCache.NonObjectMetadataRaises | py/gt/vscode/wrapper/_wrapper.py:77-82 | with both files present, metadata that parses to a non-object makes the source raise `AttributeError`; the corrected decision calls it stale |
| BundleCache.DecideAgreesWithSource | py/gt/vscode/wrapper/_wrapper.py:72-92 | of the exceptions modelled, the source's decision fails only on non-object metadata, and everywhere else the corrected decision returns what the source returns |
| BundleCache.MissingOrCorruptIsStale | py/gt/vscode/wrapper/_wrapper.py:74-80 | a missing result file, a missing metadata file, or metadata that cannot be read or parsed gives "stale" and never an error |
| BundleCache.RootStringChangeIsStale | py/gt/vscode/wrapper/_wrapper.py:82-84 | a stored `bndl_roots` that is not exactly the current root string means stale, whatever the fingerprint |
| BundleCache.FingerprintDecides | py/gt/vscode/wrapper/_wrapper.py:86-92 | with both files present and the same root string, stale exactly when the recomputed fingerprint differs from `depth2_mtimes`; a missing `depth2_mtimes` counts as the empty map |
| BundleCache.FreshIffMatchesRegeneration | py/gt/vscode/wrapper/_wrapper.py:72-92 | fresh exactly when the result file exists and the metadata is what a regeneration would write now, or lacks `depth2_mtimes` while the fingerprint is empty |
| BundleCache.ResultContentIgnored | py/gt/vscode/wrapper/_wrapper.py:74-75 | the result file's content plays no part in the decision, only its existence |
| BundleCache.InterruptedRegenerationStaysStale | py/gt/vscode/wrapper/_wrapper.py:124-140 | a stale cache that already had a result file stays stale when only the result file is rewritten |
| BundleCache.NewDirectoryMakesStale | py/gt/vscode/wrapper/_wrapper.py:86-90 | a directory created among the tracked ones since the metadata was written makes the cache stale |
| BundleCache.TouchedDirectoryMakesStale | py/gt/vscode/wrapper/_wrapper.py:86-90 | a tracked directory whose mtime changed since the metadata was written makes the cache stale |
| BundleCache.DeepChangesKeepFreshness | py/gt/vscode/wrapper/_wrapper.py:86-90 | changes below the two tracked levels never change the decision |
| BundleCache.Cache.constructor | py/gt/vscode/wrapper/_wrapper.py:35-41 | the cache files are `local_bundles.json` and `local_bundles_meta.json` in the configuration directory |
| BundleCache.Cache.IsStale | py/gt/vscode/wrapper/_wrapper.py:72-92 | reading the files and scanning the mtimes gives the staleness decision |
| BundleCache.Cache.WriteLocalBundles | py/gt/vscode/wrapper/_wrapper.py:99-141 | on a hit (not forced, not stale) nothing is scanned or written; otherwise the result file holds the scan's paths in scan order and the metadata holds the root string and the current fingerprint; either way the path is returned and the cache is fresh afterwards |
| BundleCache.SecondLaunchIsCacheHit | py/gt/vscode/wrapper/_wrapper.py:115-141 | a second call against an unchanged filesystem does not scan, and leaves the files the first call left: the first call's bundle list and fresh metadata when the cache was stale, the files as they were otherwise |

## Findings

| source | as written | input that shows it | evidently intended | confidence | as-written member | corrected member |
|---|---|---|---|---|---|---|
| py/gt/vscode/wrapper/_wrapper.py:77-82 | `meta.get('bndl_roots')` is called outside the `try`, so metadata that parses to a JSON value other than an object raises `AttributeError` out of `_is_stale` and out of `write_local_bundles` | both cache files exist and `local_bundles_meta.json` contains `[]` (or `null`, or `5`) | unusable metadata is treated as stale and the cache is regenerated, as the docstring and the `except Exception` around `json.loads` intend | not executed; high | BundleCache.NonObjectMetadataRaises | BundleCache.Cache.IsStale |

## Left out

- `resolve_code_exe`, `launch_vscode` and `__main__.py` are not part of this model. They do environment and `PATH` lookups, spawn processes and handle the command line, with no cache logic.
- `envoy.discover_bundles_auto` and the `str(b.root)` mapping are not modelled. The scan's bundle root paths are the parameter `discovered`.
- JSON text is not modelled: `indent=2`, UTF-8 and the exact parse. The files are datatypes instead. A stored `depth2_mtimes` object whose values are numbers or booleans is a `Table` of reals, with `true` and `false` entered as 1 and 0, because Python compares `True == 1.0` at line 88. Any other JSON value there is `NotATable`, which no fingerprint equals (a string, `null`, a list or a nested object never equals a float).
- Float mtimes are modelled as `real`. They are only compared for equality.
- `Path(...)` and `str(...)` normalisation is not modelled, so a root such as `/a/` is not rewritten to `/a`. Paths are plain strings, and `iterdir()` is given as the full child paths.
- FingerprintCollector.ScanMtimes: `is_dir()` is assumed never to raise. On Python 3.12 and earlier, `Path.is_dir()` re-raises every `OSError` other than a missing path, a non-directory on the path, a bad descriptor or a symlink loop. An example is `PermissionError` for a root under a directory without search permission. `root.is_dir()` at line 60 is outside the `try`, so such an error escapes `_scan_mtimes`; the model instead treats that root as a directory that cannot be read, or as not a directory. The "never fails" claim holds only under this assumption.
- BundleCache.DecideAgreesWithSource: its failure set covers only the `AttributeError` for metadata that is not an object. Under the same assumption, it leaves out the `PermissionError` that `exists()` at line 74 and `_scan_mtimes` (line 60, reached from line 88) can raise on Python 3.12 and earlier. `write_local_bundles` would let that error propagate as well.
- An `iterdir()` that fails part-way through is modelled as failing before it yields anything.
- The configuration directory is a constructor parameter. Its derivation from `LOCALAPPDATA` or `~` (lines 34-35) is not modelled.
- `os.name` and `os.environ` are parameters.
- Directory creation (`mkdir`) is not modelled, and writes always succeed. The source lets write errors propagate.
- Logging is not modelled.
- BundleCache.Cache.WriteLocalBundles: the two cache files are not part of the filesystem snapshot. In the source they live in the configuration directory `<LOCALAPPDATA or ~>/gt/envoy`. Creating `local_bundles.json` (line 124) or `local_bundles_meta.json` (line 131) there changes that directory's mtime, and line 131 creates the file only after the fingerprint written into it was computed. If the configuration directory is a root, or a directory directly inside a root (for instance when `.../gt` is a root), the stored fingerprint is out of date as soon as a file is created, and the next call regenerates once more. The "not stale afterwards" ensures holds only when the configuration directory is outside the two tracked levels.
- BundleCache.SecondLaunchIsCacheHit: for the same reason, "the second call is a hit" assumes the configuration directory is neither a root nor a directory directly inside a root. Otherwise the first creation of a cache file makes the second call scan again.
- BundleCache.Cache.WriteLocalBundles: one filesystem snapshot serves both the staleness check and the metadata write. The source fingerprints again after the external scan, so a change made during the scan is not modelled. Concurrent processes writing the cache files are not modelled either.
