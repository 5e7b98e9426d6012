# player_sync synchronizer, modelled in Dafny

`synchronizer.py` keeps a destination directory (a music player) in step
with a playlist of files that live under a source directory. The
`Synchronizer` works in three steps:

- **Building the key set.** Each playlist line is stripped, normalised, made
  absolute and made relative to the source root. The results are the keys of
  a dictionary, so repeated lines collapse.
- **Negative sync.** A bottom-up `os.walk` of the destination unlinks every
  non-directory whose path is not a key. It then removes each directory whose
  listing is empty, the destination root included.
- **Positive sync.** The keys are visited in `sorted` order. A source that is
  not a regular file is skipped, and a source whose `stat` fails ends the run.
  A destination with the source's size and an mtime at least as new is left
  alone. Anything else gets its parent chain made (`EEXIST` ignored) and the
  file copied.

The project has six modules.

- `Paths` (paths.dfy): paths as sequences of segments, their key-string form,
  Python's string order and `sorted` over a set of keys.
- `Resolve` (resolve.dfy): `str.strip`, POSIX `normpath`, `abspath` and
  `relpath`, and the key set.
- `FileSystem` (filesystem.dfy): a directory tree as a map from path to
  `stat` result, with `stat`, `mkdir`, `makedirs` and `copyfile`.
- `PositivePass` (positive.dfy): `_positive_sync_one` and the `positive_sync`
  loop, run as a `Run` that records a log and whether it completed.
- `NegativePass` (negative.dfy): the walk as it happens, children before
  their parent. `Prune` is an independent, declarative description of its
  result, and the walk is proved equal to it.
- `Synchronizer` (synchronizer.dfy): the two passes in the order a run makes
  them.

Modelling choices:

- **Trees.** A tree maps each path below its root to what `stat` reports:
  kind (regular file, directory, named pipe, socket, device), `st_size` and
  `st_mtime`.
  `WellFormed` says that every entry's parent is a directory of the tree.
- **Key comparison.** Keys are paths. The dictionary compares key *strings*,
  and `Paths.KeyStringInjective` shows that comparing the strings is
  comparing the paths.
- **The world.** The clock that stamps a copied file or a new directory, and
  the size `stat` reports for a new directory, are the parameter `Env`. The
  working directory that `abspath` reads is a parameter too.
- **Copied files.** `copyfile` keeps no timestamps, so a copy gets `Env.now`
  as its mtime. Idempotence of positive sync therefore assumes the clock is
  not behind any source file (`ClockAhead`).
- **The walk.** The subdirectories of a directory are walked in whatever
  order `os.scandir` yields them. The model picks them in an arbitrary order,
  and the result is proved independent of that order.
- **Directories under a key.** The staleness test compares `stat` of the
  destination whatever its kind. So a destination directory at a key, whose
  `st_size` matches and whose mtime is newer, is reported as up to date. The
  model keeps this, as the code does.

## Model

| member | source | states |
|---|---|---|
| Resolve.Strip | synchronizer.py:14 | the stripped line is the input with only whitespace cut from both ends, and it neither starts nor ends with whitespace |
| Resolve.StripPadding | synchronizer.py:14 | stripping text that is padded with whitespace gives back exactly the text |
| Resolve.NormCompsNormal | synchronizer.py:14 | normpath's component loop leaves well-formed segments, with parent steps only in front and none under an absolute root |
| Resolve.NormPathRooted | synchronizer.py:14 | normpath leaves an absolute path of plain names unchanged |
| Resolve.AbsCompsNames | synchronizer.py:14 | an absolute path's components, once normalised, hold no parent steps |
| Resolve.CommonPrefixLen | synchronizer.py:14 | relpath's common prefix is shared by both paths and cannot be extended |
| Resolve.NormPath | synchronizer.py:14 | normpath never returns the empty string, and its result is absolute exactly when its input is |
| Resolve.JoinPath | synchronizer.py:14 | joining onto an absolute part gives that part; otherwise the result is the directory, then a "/" exactly when the directory is non-empty and does not already end in one, then the part; it is absolute when the directory is |
| Resolve.AbsPath | synchronizer.py:14 | abspath gives an absolute path whenever the line or the working directory is absolute |
| Resolve.RelPath | synchronizer.py:14 | relpath gives well-formed segments with parent steps only in front; for a path under the start directory it is exactly the components after the start's, all plain names |
| Resolve.ResolveLine | synchronizer.py:14 | the chain strip, normpath, abspath, relpath gives a well-formed relative path whose parent steps, if any, come first |
| Resolve.RelativeUnderRoot | synchronizer.py:14 | abspath of a relative path of names, read in a directory of names, is the directory's path extended by those names |
| Resolve.Elements | synchronizer.py:13-15 | building the dictionary keeps exactly the distinct resolved lines and never more keys than lines |
| Resolve.ResolveAll | synchronizer.py:13-15 | one key per playlist line, in line order, each that line's resolution |
| Resolve.ResolveKeys | synchronizer.py:13-15 | every playlist line's key is in the key set, and there are no more keys than lines |
| Resolve.KeysComeFromLines | synchronizer.py:13-15 | every key is the resolution of some playlist line |
| Resolve.KeysUnderSource | synchronizer.py:13-15 | when every line names something under the source root, every key stays inside the root |
| Resolve.ResolveAbsoluteLine | synchronizer.py:14 | an absolute line under the source, with any surrounding whitespace, resolves to its path relative to the source |
| Resolve.ResolveRelativeLine | synchronizer.py:14 | a relative line, read with the source as working directory, resolves to itself |
| Paths.KeyString | synchronizer.py:27 | the key string of a well-formed path is never empty, is "." exactly for the root, and splits at "/" back into the path |
| Paths.KeyStringInjective | synchronizer.py:27 | distinct well-formed paths have distinct key strings, so dictionary lookup by string is lookup by path |
| Paths.SplitJoin | synchronizer.py:25-27 | splitting a joined path at "/" gives its segments back |
| Paths.LexLess | synchronizer.py:39 | in Python's string order a proper prefix comes first, and nothing comes before its own prefix |
| Paths.LexTransitive | synchronizer.py:39 | Python's string order is transitive |
| Paths.LexTotal | synchronizer.py:39 | any two distinct strings are ordered one way or the other |
| Paths.LeastUnique | synchronizer.py:39 | a set of keys has at most one least key |
| Paths.SortKeys | synchronizer.py:39 | sorted keys: each key of the set exactly once, as many as the set holds, strictly ascending in string order |
| FileSystem.Stat | synchronizer.py:45-54 | stat succeeds exactly when the path exists, and then reports that entry; otherwise it raises |
| FileSystem.StatThroughFile | synchronizer.py:51-54 | stat of a path below an existing non-directory raises |
| FileSystem.RootlessIsEmpty | synchronizer.py:23 | a well-formed tree without its root holds nothing, so a walk of a missing destination visits nothing |
| FileSystem.Mkdir | synchronizer.py:65-67 | mkdir fails with EEXIST on an existing path; otherwise it succeeds exactly when the parent is an existing directory, and then adds the path alone as a new directory, keeping the tree well formed |
| FileSystem.MakeDirs | synchronizer.py:65 | a successful makedirs adds the path and its missing ancestors as new directories and changes nothing else |
| FileSystem.MakeDirsOutcome | synchronizer.py:64-68 | makedirs fails with EEXIST exactly when the path exists; otherwise it succeeds exactly when no existing ancestor is a non-directory, and the path then exists |
| FileSystem.CopyFile | synchronizer.py:70 | copyfile succeeds exactly when the parent is a directory and the target is absent, a regular file or a device; a named pipe raises SpecialFileError, a socket fails to open (ENXIO) and a directory raises IsADirectoryError; a write leaves a regular file of the source's size stamped now, or the device as it was, and changes nothing else |
| PositivePass.Fresh | synchronizer.py:51-58 | the destination is up to date exactly when it exists with the source's size and an mtime no older than the source's; a failing stat makes it stale |
| PositivePass.EnsureParent | synchronizer.py:64-68 | the makedirs step fails exactly when the parent is missing and an ancestor is in the way; an existing parent leaves the tree alone |
| PositivePass.Install | synchronizer.py:64-70 | making the parent chain and copying keeps the destination well formed |
| PositivePass.InstallOutcome | synchronizer.py:64-70 | the copy succeeds exactly when no ancestor is in the way and the key is absent, a regular file or a device; it then leaves a regular file at the key (or the device that was there) and directories at all its ancestors, and touches nothing but the key and its new ancestors |
| PositivePass.SyncOne | synchronizer.py:44-70 | a key that is handled has a source, and the destination stays well formed |
| PositivePass.SyncOneOutcome | synchronizer.py:44-70 | one key fails exactly when its source is missing, or when it is stale and cannot be written; a non-regular source is skipped, a copy happens exactly when the source is regular and the staleness test fails, and otherwise the destination is unchanged |
| PositivePass.SyncOneFrame | synchronizer.py:44-70 | a step changes only its key and adds only directories on the way to it; a device at the key leaves the tree as it was |
| PositivePass.SyncOneInstalls | synchronizer.py:62-70 | a copy leaves a regular file of the source's size at the key (or the device that was there) and directories at all its ancestors |
| PositivePass.SyncKeys | synchronizer.py:39-42 | the log follows the given order, every logged key exists in the source, and the pass completes exactly when every key is logged |
| PositivePass.LogFollowsOrder | synchronizer.py:39-42 | the keys a pass logs are a prefix of the order it was given |
| PositivePass.PositiveSync | synchronizer.py:35-42 | the pass keeps the destination well formed |
| PositivePass.PositiveSyncOrder | synchronizer.py:35-42 | keys are visited in strictly ascending order, and a completed pass visits each key exactly once |
| PositivePass.SyncOneSyncs | synchronizer.py:44-70 | after a successful step the key is handled: a regular source has a destination that is a device, or has the source's size and is at least as new once the clock has passed the source |
| PositivePass.SyncKeysKeepsSynced | synchronizer.py:39-42 | a key once handled stays handled through the rest of the pass |
| PositivePass.SyncKeysComplete | synchronizer.py:39-70 | when the pass completes, every key in the order is handled |
| PositivePass.StepNothingToDo | synchronizer.py:45-60 | a key whose source exists and whose regular source is already up to date, or lands on a device, is handled without error and leaves the destination as it was; it is copied only onto a device |
| PositivePass.SyncKeysNothingToDo | synchronizer.py:51-60 | when every regular source is already up to date or lands on a device, the pass completes, changes nothing, and copies only onto devices |
| PositivePass.SyncKeysFrame | synchronizer.py:39-70 | entries that are not keys keep their value; an added entry is an ancestor of a key, and it is a directory unless it is a key |
| PositivePass.StepKeepsVerdict | synchronizer.py:51-60 | a step for one key does not change the staleness verdict of another regular key |
| PositivePass.SyncKeysCopiesExactlyStale | synchronizer.py:51-70 | with distinct keys, a key is copied exactly when its source is regular and the destination failed the staleness test before the pass |
| PositivePass.PositiveSyncComplete | synchronizer.py:35-70 | when positive sync completes, every key is handled |
| PositivePass.PositiveSyncIdempotent | synchronizer.py:51-70 | when the clock is not behind the sources, a second pass over the result completes, changes nothing, and copies only onto devices |
| PositivePass.PositiveSyncFrame | synchronizer.py:35-70 | positive sync leaves non-key entries alone, and adds only keys and directories above keys |
| PositivePass.PositiveSyncAddsOnlyPrefixes | synchronizer.py:35-70 | every entry positive sync adds is a key or an ancestor of a key |
| PositivePass.PositiveSyncCopiesExactlyStale | synchronizer.py:51-70 | positive sync copies exactly the regular-source keys that were stale before it started |
| NegativePass.SurvivesUp | synchronizer.py:31-33 | the parent of an entry the walk keeps is kept too |
| NegativePass.PruneUnderWellFormed | synchronizer.py:23-33 | pruning any set of subtrees leaves a well-formed tree |
| NegativePass.PruneOneMore | synchronizer.py:23 | walking one more subdirectory prunes its subtree and leaves the sibling subtrees already walked as they were |
| NegativePass.ListDir | synchronizer.py:23 | the walk's listing of a directory splits its entries into subdirectories and the rest |
| NegativePass.WalkSubdirs | synchronizer.py:23 | walking every subdirectory, in any order, prunes exactly their subtrees |
| NegativePass.UnlinkFiles | synchronizer.py:24-29 | the file loop removes exactly the listed files whose path is not a key |
| NegativePass.DirListing | synchronizer.py:31-33 | after its contents are handled, a directory lists nothing exactly when no kept file lies below it |
| NegativePass.DirMembers | synchronizer.py:23-33 | removing the directory when its listing is empty, or keeping it otherwise, yields the pruned subtree |
| NegativePass.WalkDir | synchronizer.py:23-33 | the bottom-up walk of a directory leaves exactly the declarative pruning of its subtree |
| NegativePass.NegativeSync | synchronizer.py:19-33 | a missing or non-directory root is left alone. Otherwise the result is the pruned tree. It only removes entries, keeps the tree well formed and keeps every key file. Every non-directory left is a key, and every directory left holds something |
| NegativePass.PruneLeavesNoEmptyDirectory | synchronizer.py:24-33 | after pruning, every non-directory is a key and every directory has a child |
| NegativePass.PruneIdempotent | synchronizer.py:19-33 | a second negative sync with the same keys removes nothing |
| Synchronizer.SyncLeavesOnlyKeys | synchronizer.py:93-98 | over a destination whose root is a directory or missing, after a negative sync and a completed positive sync with the same keys, every non-directory of the destination is a key and every key is handled |

## Left out

- `main` (synchronizer.py:73-104) is not modelled: argument parsing, logging
  set-up and opening the playlist. Only the order it runs the passes in
  (negative unless `--no-delete`, then positive) appears, in
  `Synchronizer.SyncLeavesOnlyKeys`.
- Logging calls have no effect on the model.
- Symbolic links are not modelled. `os.walk(followlinks=True)` and `os.stat`
  follow them; a tree here has no links, so every entry is what it is.
- Errors the source does not handle are not modelled: permission errors,
  a full disk, I/O errors from `unlink`, `rmdir` or `copyfile`, entries that
  change while the walk runs, and copyfile's `SameFileError` when source and
  destination are one file. The source lets all of these propagate.
- Floating-point `st_mtime` is not modelled. Times are integers; only the
  order comparison at line 58 uses them.
- The working directory is not read from the process. It is an absolute
  string passed in.
- The directory containing the destination root is taken to exist. `makedirs`
  can create the root itself.
- Of the special kinds, `copyfile` refuses only a named pipe
  (`SpecialFileError`). Opening a socket fails with `ENXIO`, and a device
  takes the bytes.
- `FileSystem.CopyFile`: a device that takes the bytes keeps its entry as it
  was. What the device does with the data, and its size and time afterwards,
  are not modelled.
- `PositivePass.SyncOne`: requires the source root, when present, to be a
  directory. A source root that is itself a file is not modelled; a missing
  source root is, and every key then fails its `stat`.
- Strings are sequences of code points. The file-system encoding and
  surrogate escapes are not modelled.
- `PositivePass.PositiveSync`: requires every key to lie inside the source
  root. A playlist line that names something outside the source gives a key
  with `..` steps; what `stat` finds outside the source tree is not part of
  this model. `Resolve.KeysUnderSource` gives the condition under which every
  key lies inside.
- `PositivePass.PositiveSyncComplete`: says a handled key's destination is
  a device, or has the source's size and, once the clock has passed the
  source's mtime, a time no older than it. It does not say the destination is
  a regular file: the source's staleness test ignores the kind, so a
  directory of matching size counts as up to date.
- Directory timestamps do not move. A directory's `st_size` and `st_mtime`
  are recorded because lines 56-58 may compare them, but creating, unlinking
  or removing an entry inside it leaves them as they were, where a real file
  system sets the directory's mtime to the present. The frame statements
  ("keeps its value") hold in this abstraction only.
- Overlapping trees are not modelled. Source and destination are separate
  trees, so a destination inside the source tree (or the reverse), where a
  copy could change a later key's source, is outside the model.
- `Synchronizer.SyncLeavesOnlyKeys`: requires the destination root, when
  present, to be a directory; a destination root that is a regular file is
  not modelled.
- `Resolve.NormPath`: its own contract says only that the result is
  non-empty and keeps the input's absoluteness. Its shape is stated by
  `Resolve.NormCompsNormal` and `Resolve.NormPathRooted`, and
  `Resolve.ResolveLine` covers the whole chain.
