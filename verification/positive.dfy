/** Positive sync (`Synchronizer.positive_sync` and `_positive_sync_one`):
    visit the keys in sorted order and copy each regular source file whose
    destination is missing or stale. Source and destination of a key are the
    same relative path under the two roots. */
module PositivePass {
  import opened Paths
  import opened FileSystem

  /** What happened to one key. */
  datatype Outcome =
    | NotRegular   // source is not a regular file: warned, skipped
    | UpToDate     // destination passed the staleness check
    | Copied

  datatype Step = Step(key: Path, outcome: Outcome)

  /** Whether the pass ran to the end or an uncaught `OSError` stopped it. */
  datatype Status = Completed | Aborted(error: Error)

  /** The destination tree after a pass, the steps taken and how it ended. */
  datatype Run = Run(tree: Tree, log: seq<Step>, status: Status)

  /** Lines 51-58, the staleness rule: `stat` the destination, and skip the
      copy when that succeeds with the source's size and a time no older
      than the source's. A destination that cannot be stat'ed is stale. */
  function Fresh(source: Entry, dest: Tree, k: Path): (r: bool)
    ensures r <==> k in dest && dest[k].size == source.size && dest[k].mtime >= source.mtime
  {
    match Stat(dest, k)
    case Err(_) => false
    case Ok(destStat) => destStat.size == source.size && destStat.mtime >= source.mtime
  }

  /** A file can be written at `k`: no ancestor in the way is a
      non-directory, and whatever sits at `k` opens for writing. */
  ghost predicate Writable(t: Tree, k: Path) {
    !Blocked(t, k) && (k in t ==> OpensForWriting(t[k].kind))
  }

  /** What a copy of a key into `t` leaves behind in `t'`: directories for
      all its ancestors, and at the key a regular file written now with the
      source's size, or the device that was there and took the bytes. */
  ghost predicate Installed(t: Tree, t': Tree, k: Path, size: nat, env: Env) {
    && k in t'
    && t'[k] == (if k in t && t[k].kind == Device then t[k] else Entry(Regular, size, env.now))
    && (forall q :: q < k ==> q in t' && t'[q].kind == Directory)
  }

  /** Only `k` and missing ancestors of `k` can differ, and the ancestors
      are added as directories. */
  ghost predicate TouchesOnly(t: Tree, t': Tree, k: Path) {
    && (forall p :: p in t && p != k ==> p in t' && t'[p] == t[p])
    && (forall p :: p in t' && p !in t ==> p <= k)
    && (forall p :: p in t' && p !in t && p != k ==> t'[p].kind == Directory)
  }

  /** Lines 64-68: `makedirs` of the parent, with EEXIST ignored. It
      fails only when an existing ancestor is not a directory and the
      parent itself is missing. */
  function EnsureParent(t: Tree, k: Path, env: Env): (r: Result<Tree>)
    requires WellFormed(t) && k != []
    ensures r.Ok? <==> Parent(k) in t || !Blocked(t, Parent(k))
    ensures r.Ok? ==> WellFormed(r.value)
    ensures r.Ok? && Parent(k) in t ==> r.value == t
    ensures r.Ok? && Parent(k) !in t ==> AddsChain(t, r.value, Parent(k), env)
  {
    MakeDirsOutcome(t, Parent(k), env);
    match MakeDirs(t, Parent(k), env)
    case Ok(t') => Ok(t')
    case Err(AlreadyExists(_)) => Ok(t)
    case Err(e) => Err(e)
  }

  /** Lines 64-70: make the parent chain (EEXIST ignored), then copy. What
      the copy leaves behind is stated by `InstallOutcome`. */
  function Install(t: Tree, k: Path, size: nat, env: Env): (r: Result<Tree>)
    requires WellFormed(t) && k != []
    ensures r.Ok? ==> WellFormed(r.value)
  {
    var t1 :- EnsureParent(t, k, env);
    CopyFile(t1, k, size, env)
  }

  /** A copy succeeds exactly when the key is writable; it then leaves the
      file (or the device that took it) at the key and directories at all
      its ancestors, and changes nothing else. */
  lemma InstallOutcome(t: Tree, k: Path, size: nat, env: Env)
    requires WellFormed(t) && k != []
    ensures Install(t, k, size, env).Ok? <==> Writable(t, k)
    ensures Install(t, k, size, env).Ok? ==> Installed(t, Install(t, k, size, env).value, k, size, env)
    ensures Install(t, k, size, env).Ok? ==> TouchesOnly(t, Install(t, k, size, env).value, k)
    ensures Install(t, k, size, env).Ok? && k in t && t[k].kind == Device ==> Install(t, k, size, env).value == t
  {
    var r := Install(t, k, size, env);
    if Parent(k) in t {
      BlockedAtParent(t, k);
      assert EnsureParent(t, k, env) == Ok(t);
      assert r == CopyFile(t, k, size, env);
      if r.Ok? {
        AllAncestorsAreDirectories(t, Parent(k));
        forall q | q < k
          ensures q in r.value && r.value[q].kind == Directory
        {
          PrefixOfParent(q, k);
        }
      }
    } else {
      BlockedThroughMissingParent(t, k);
      assert k !in t;
      if EnsureParent(t, k, env).Ok? {
        var t1 := EnsureParent(t, k, env).value;
        assert k !in t1;
        assert r == CopyFile(t1, k, size, env);
        assert r.Ok?;
        forall q | q < k
          ensures q in r.value && r.value[q].kind == Directory
        {
          PrefixOfParent(q, k);
        }
      }
    }
  }

  /** `_positive_sync_one` for key `k`: a key is handled only when its
      source exists, and the destination stays well formed. What it does
      with the key is stated by `SyncOneOutcome`, `SyncOneFrame` and
      `SyncOneInstalls`. */
  function SyncOne(src: Tree, dst: Tree, k: Path, env: Env): (r: Result<(Outcome, Tree)>)
    requires WellFormed(src) && RootedOrEmpty(src) && WellFormed(dst) && IsDescendant(k)
    ensures r.Ok? ==> k in src && WellFormed(r.value.1)
  {
    var source :- Stat(src, k);
    if source.kind != Regular then Ok((NotRegular, dst))
    else if Fresh(source, dst, k) then Ok((UpToDate, dst))
    else
      var t :- Install(dst, k, source.size, env);
      Ok((Copied, t))
  }

  /** Lines 45-60 and 64-70: a missing source aborts; a non-regular source
      is skipped; a fresh destination is left alone; otherwise the file is
      copied, and that aborts exactly when the destination cannot be
      written. Only a copy changes the destination. */
  lemma SyncOneOutcome(src: Tree, dst: Tree, k: Path, env: Env)
    requires WellFormed(src) && RootedOrEmpty(src) && WellFormed(dst) && IsDescendant(k)
    ensures SyncOne(src, dst, k, env).Err? <==>
      k !in src || (src[k].kind == Regular && !Fresh(src[k], dst, k) && !Writable(dst, k))
    ensures SyncOne(src, dst, k, env).Ok? ==>
      (SyncOne(src, dst, k, env).value.0 == NotRegular <==> src[k].kind != Regular)
    ensures SyncOne(src, dst, k, env).Ok? ==>
      (SyncOne(src, dst, k, env).value.0 == Copied <==> src[k].kind == Regular && !Fresh(src[k], dst, k))
    ensures SyncOne(src, dst, k, env).Ok? && SyncOne(src, dst, k, env).value.0 != Copied ==>
      SyncOne(src, dst, k, env).value.1 == dst
  {
    if k in src && src[k].kind == Regular && !Fresh(src[k], dst, k) {
      InstallOutcome(dst, k, src[k].size, env);
    }
  }

  /** A step changes only its key and adds only directories on the way to
      it; a device at the key takes the bytes and the tree stays as it was. */
  lemma SyncOneFrame(src: Tree, dst: Tree, k: Path, env: Env)
    requires WellFormed(src) && RootedOrEmpty(src) && WellFormed(dst) && IsDescendant(k)
    ensures SyncOne(src, dst, k, env).Ok? ==> TouchesOnly(dst, SyncOne(src, dst, k, env).value.1, k)
    ensures SyncOne(src, dst, k, env).Ok? && k in dst && dst[k].kind == Device ==>
      SyncOne(src, dst, k, env).value.1 == dst
  {
    var r := SyncOne(src, dst, k, env);
    if r.Ok? {
      if src[k].kind == Regular && !Fresh(src[k], dst, k) {
        InstallOutcome(dst, k, src[k].size, env);
        assert r.value.1 == Install(dst, k, src[k].size, env).value;
      } else {
        assert r.value.1 == dst;
      }
    }
  }

  /** A copy leaves the file (or the device that took it) at the key and
      directories at all its ancestors. */
  lemma SyncOneInstalls(src: Tree, dst: Tree, k: Path, env: Env)
    requires WellFormed(src) && RootedOrEmpty(src) && WellFormed(dst) && IsDescendant(k)
    requires SyncOne(src, dst, k, env).Ok? && SyncOne(src, dst, k, env).value.0 == Copied
    ensures Installed(dst, SyncOne(src, dst, k, env).value.1, k, src[k].size, env)
  {
    InstallOutcome(dst, k, src[k].size, env);
  }

  predicate AllDescendants(order: seq<Path>) {
    forall i :: 0 <= i < |order| ==> IsDescendant(order[i])
  }

  /** The loop of `positive_sync` over keys in the given order; the first
      failing key ends the pass with the tree as it was before that key. */
  function SyncKeys(src: Tree, dst: Tree, order: seq<Path>, env: Env): (run: Run)
    requires WellFormed(src) && RootedOrEmpty(src) && WellFormed(dst) && AllDescendants(order)
    ensures WellFormed(run.tree)
    ensures |run.log| <= |order|
    ensures forall i :: 0 <= i < |run.log| ==> run.log[i].key == order[i] && order[i] in src
    ensures run.status == Completed <==> |run.log| == |order|
    decreases |order|
  {
    if order == [] then Run(dst, [], Completed)
    else
      match SyncOne(src, dst, order[0], env)
      case Err(e) => Run(dst, [], Aborted(e))
      case Ok((outcome, t)) =>
        var rest := SyncKeys(src, t, order[1..], env);
        var log := [Step(order[0], outcome)] + rest.log;
        assert forall i :: 0 < i < |log| ==> log[i] == rest.log[i - 1] && order[i] == order[1..][i - 1];
        Run(rest.tree, log, rest.status)
  }

  /** The keys a log visited, in order. */
  function LogKeys(log: seq<Step>): (r: seq<Path>)
    ensures |r| == |log| && forall i :: 0 <= i < |log| ==> r[i] == log[i].key
  {
    if log == [] then [] else [log[0].key] + LogKeys(log[1..])
  }

  /** The log of a pass visits a prefix of the order. */
  lemma LogFollowsOrder(src: Tree, dst: Tree, order: seq<Path>, env: Env)
    requires WellFormed(src) && RootedOrEmpty(src) && WellFormed(dst) && AllDescendants(order)
    ensures LogKeys(SyncKeys(src, dst, order, env).log) == order[..|SyncKeys(src, dst, order, env).log|]
  {
    var log := SyncKeys(src, dst, order, env).log;
    var r := LogKeys(log);
    assert |r| == |order[..|log|]|;
    forall i | 0 <= i < |r|
      ensures r[i] == order[..|log|][i]
    {
      assert r[i] == log[i].key;
    }
  }

  /** A prefix of an ascending sequence is ascending. */
  lemma AscendingPrefix(r: seq<Path>, n: nat)
    requires Ascending(r) && n <= |r|
    ensures Ascending(r[..n])
  {
    forall i, j | 0 <= i < j < n
      ensures LexLess(KeyString(r[..n][i]), KeyString(r[..n][j]))
    {
      assert r[..n][i] == r[i] && r[..n][j] == r[j];
    }
  }

  lemma KeysRelative(keys: set<Path>)
    requires forall k :: k in keys ==> IsDescendant(k)
    ensures forall k :: k in keys ==> IsRelative(k)
  {
    forall k | k in keys
      ensures IsRelative(k)
    {
      DescendantIsRelative(k);
    }
  }

  /** `positive_sync`: the loop over the keys in ascending key-string order. */
  function PositiveSync(src: Tree, dst: Tree, keys: set<Path>, env: Env): (run: Run)
    requires WellFormed(src) && RootedOrEmpty(src) && WellFormed(dst)
    requires forall k :: k in keys ==> IsDescendant(k)
    ensures WellFormed(run.tree)
  {
    KeysRelative(keys);
    SyncKeys(src, dst, SortKeys(keys), env)
  }

  /** The pass visits keys in ascending key-string order, and a pass that
      completes has visited every key exactly once. */
  lemma PositiveSyncOrder(src: Tree, dst: Tree, keys: set<Path>, env: Env)
    requires WellFormed(src) && RootedOrEmpty(src) && WellFormed(dst)
    requires forall k :: k in keys ==> IsDescendant(k)
    ensures var run := PositiveSync(src, dst, keys, env);
      && Ascending(LogKeys(run.log))
      && (run.status == Completed ==> |run.log| == |keys| && forall k :: k in keys <==> k in LogKeys(run.log))
  {
    KeysRelative(keys);
    var order := SortKeys(keys);
    var run := SyncKeys(src, dst, order, env);
    assert PositiveSync(src, dst, keys, env) == run;
    LogFollowsOrder(src, dst, order, env);
    AscendingPrefix(order, |run.log|);
    assert run.status == Completed ==> order[..|run.log|] == order;
  }

  // ---------------------------------------------------------------------
  // Properties of a pass

  /** The clock of the copy is not behind any source file. */
  ghost predicate ClockAhead(src: Tree, env: Env) {
    forall k :: k in src && src[k].kind == Regular ==> src[k].mtime <= env.now
  }

  /** Key `k` is handled: its source exists, and if it is a regular file the
      destination is a device that took the bytes, or has the source's size
      and, once the clock has passed the source's time, is at least as new. */
  ghost predicate Synced(src: Tree, t: Tree, k: Path, env: Env) {
    k in src && (src[k].kind == Regular ==> k in t && CopyOf(src[k], t[k], env))
  }

  /** `dest` holds what a copy of `source` left: a device took the bytes, or
      the file has the source's size and, once the clock has passed the
      source's time, is at least as new. */
  ghost predicate CopyOf(source: Entry, dest: Entry, env: Env) {
    || dest.kind == Device
    || (dest.size == source.size && (source.mtime <= env.now ==> dest.mtime >= source.mtime))
  }

  lemma SyncOneSyncs(src: Tree, dst: Tree, k: Path, env: Env)
    requires WellFormed(src) && RootedOrEmpty(src) && WellFormed(dst) && IsDescendant(k)
    requires SyncOne(src, dst, k, env).Ok?
    ensures Synced(src, SyncOne(src, dst, k, env).value.1, k, env)
  {
    SyncOneOutcome(src, dst, k, env);
    if SyncOne(src, dst, k, env).value.0 == Copied {
      SyncOneInstalls(src, dst, k, env);
    }
  }

  /** A key once handled stays handled through the rest of the pass. */
  lemma {:induction false} SyncKeysKeepsSynced(src: Tree, t: Tree, order: seq<Path>, env: Env, k: Path)
    requires WellFormed(src) && RootedOrEmpty(src) && WellFormed(t) && AllDescendants(order)
    requires Synced(src, t, k, env)
    ensures Synced(src, SyncKeys(src, t, order, env).tree, k, env)
    decreases |order|
  {
    if order != [] {
      var r := SyncOne(src, t, order[0], env);
      if r.Ok? {
        var t1 := r.value.1;
        if order[0] == k {
          SyncOneSyncs(src, t, k, env);
        } else {
          SyncOneFrame(src, t, order[0], env);
        }
        assert Synced(src, t1, k, env);
        SyncKeysKeepsSynced(src, t1, order[1..], env, k);
      }
    }
  }

  /** Completeness: after a pass that ran to the end, every key is handled. */
  lemma {:induction false} SyncKeysComplete(src: Tree, dst: Tree, order: seq<Path>, env: Env)
    requires WellFormed(src) && RootedOrEmpty(src) && WellFormed(dst) && AllDescendants(order)
    requires SyncKeys(src, dst, order, env).status == Completed
    ensures forall i :: 0 <= i < |order| ==> Synced(src, SyncKeys(src, dst, order, env).tree, order[i], env)
    decreases |order|
  {
    if order != [] {
      var r := SyncOne(src, dst, order[0], env);
      assert r.Ok?;
      var t1 := r.value.1;
      var rest := SyncKeys(src, t1, order[1..], env);
      assert SyncKeys(src, dst, order, env).tree == rest.tree && rest.status == Completed;
      SyncOneSyncs(src, dst, order[0], env);
      SyncKeysKeepsSynced(src, t1, order[1..], env, order[0]);
      SyncKeysComplete(src, t1, order[1..], env);
      forall i | 0 <= i < |order|
        ensures Synced(src, rest.tree, order[i], env)
      {
        if i > 0 {
          assert order[1..][i - 1] == order[i];
        }
      }
    }
  }

  /** A pass over keys whose regular sources all have a fresh destination
      or a device there changes nothing and copies only into those devices,
      whatever the clock. */
  /** The source of `k` exists, and a regular source finds its destination
      up to date or a device there. */
  ghost predicate NothingToDo(src: Tree, t: Tree, k: Path) {
    k in src && (src[k].kind == Regular ==> Fresh(src[k], t, k) || (k in t && t[k].kind == Device))
  }

  /** A step with nothing to do succeeds and leaves the tree as it was. */
  lemma StepNothingToDo(src: Tree, t: Tree, k: Path, env: Env)
    requires WellFormed(src) && RootedOrEmpty(src) && WellFormed(t) && IsDescendant(k)
    requires NothingToDo(src, t, k)
    ensures SyncOne(src, t, k, env).Ok? && SyncOne(src, t, k, env).value.1 == t
    ensures SyncOne(src, t, k, env).value.0 == Copied ==> k in t && t[k].kind == Device
  {
    SyncOneOutcome(src, t, k, env);
    SyncOneFrame(src, t, k, env);
    if src[k].kind == Regular && !Fresh(src[k], t, k) {
      AllAncestorsAreDirectories(t, k);
    }
  }

  lemma {:induction false} SyncKeysNothingToDo(src: Tree, t: Tree, order: seq<Path>, env: Env)
    requires WellFormed(src) && RootedOrEmpty(src) && WellFormed(t) && AllDescendants(order)
    requires forall i :: 0 <= i < |order| ==> NothingToDo(src, t, order[i])
    ensures SyncKeys(src, t, order, env).tree == t
    ensures SyncKeys(src, t, order, env).status == Completed
    ensures forall i :: 0 <= i < |SyncKeys(src, t, order, env).log| && SyncKeys(src, t, order, env).log[i].outcome == Copied ==>
      order[i] in t && t[order[i]].kind == Device
    decreases |order|
  {
    if order != [] {
      var k := order[0];
      var r := SyncOne(src, t, k, env);
      StepNothingToDo(src, t, k, env);
      var tail := order[1..];
      assert forall i :: 0 <= i < |tail| ==> tail[i] == order[i + 1];
      SyncKeysNothingToDo(src, t, tail, env);
      var rest := SyncKeys(src, t, tail, env);
      var run := SyncKeys(src, t, order, env);
      assert run.log == [Step(k, r.value.0)] + rest.log;
      forall i | 0 <= i < |run.log| && run.log[i].outcome == Copied
        ensures order[i] in t && t[order[i]].kind == Device
      {
        if i > 0 {
          assert run.log[i] == rest.log[i - 1];
        }
      }
    }
  }

  /** Frame: entries that are not keys keep their value, and every entry
      the pass adds is a key or an ancestor of one. */
  lemma {:induction false} SyncKeysFrame(src: Tree, dst: Tree, order: seq<Path>, env: Env)
    requires WellFormed(src) && RootedOrEmpty(src) && WellFormed(dst) && AllDescendants(order)
    ensures forall p :: p in dst && p !in order ==>
      p in SyncKeys(src, dst, order, env).tree && SyncKeys(src, dst, order, env).tree[p] == dst[p]
    ensures forall p :: p in SyncKeys(src, dst, order, env).tree && p !in dst ==>
      exists i :: 0 <= i < |order| && p <= order[i]
    ensures forall p ::
      p in SyncKeys(src, dst, order, env).tree && p !in dst && SyncKeys(src, dst, order, env).tree[p].kind != Directory
      ==> p in order
    decreases |order|
  {
    if order != [] {
      var r := SyncOne(src, dst, order[0], env);
      if r.Ok? {
        var t1 := r.value.1;
        SyncOneFrame(src, dst, order[0], env);
        SyncKeysFrame(src, t1, order[1..], env);
        var t := SyncKeys(src, dst, order, env).tree;
        assert t == SyncKeys(src, t1, order[1..], env).tree;
        forall p | p in t && p !in dst
          ensures exists i :: 0 <= i < |order| && p <= order[i]
        {
          if p in t1 {
            assert p <= order[0];
          } else {
            var j :| 0 <= j < |order[1..]| && p <= order[1..][j];
            assert p <= order[j + 1];
          }
        }
        forall p | p in dst && p !in order
          ensures p in t && t[p] == dst[p]
        {
          assert p != order[0];
          assert p !in order[1..];
        }
        forall p | p in t && p !in dst && t[p].kind != Directory
          ensures p in order
        {
          if p !in order[1..] {
            assert p in t1 && t[p] == t1[p];
          }
        }
      }
    }
  }

  /** A step for one key does not change the staleness verdict of any other
      key whose source is a regular file: the only other entries a step adds
      are ancestors of its key, which are directories in the source. */
  lemma StepKeepsVerdict(src: Tree, dst: Tree, k0: Path, env: Env, k: Path)
    requires WellFormed(src) && RootedOrEmpty(src) && WellFormed(dst) && IsDescendant(k0)
    requires SyncOne(src, dst, k0, env).Ok?
    requires k != k0 && k in src && src[k].kind == Regular
    ensures Fresh(src[k], SyncOne(src, dst, k0, env).value.1, k) == Fresh(src[k], dst, k)
  {
    var r := SyncOne(src, dst, k0, env);
    var t1 := r.value.1;
    SyncOneFrame(src, dst, k0, env);
    if k !in dst && k in t1 {
      assert k < k0;
      AllAncestorsAreDirectories(src, k0);
    }
  }

  /** No path occurs twice. */
  predicate Distinct(s: seq<Path>) {
    forall i, j :: 0 <= i < j < |s| ==> s[i] != s[j]
  }

  lemma DistinctTail(s: seq<Path>)
    requires |s| > 0 && Distinct(s)
    ensures Distinct(s[1..])
  {
    forall i, j | 0 <= i < j < |s[1..]|
      ensures s[1..][i] != s[1..][j]
    {
      assert s[1..][i] == s[i + 1] && s[1..][j] == s[j + 1];
    }
  }

  /** The staleness rule decides the whole pass: over distinct keys, a key
      is copied exactly when its source is a regular file and the
      destination as it stood before the pass was missing or stale. */
  lemma {:induction false} SyncKeysCopiesExactlyStale(src: Tree, dst: Tree, order: seq<Path>, env: Env, i: nat)
    requires WellFormed(src) && RootedOrEmpty(src) && WellFormed(dst) && AllDescendants(order)
    requires Distinct(order)
    requires i < |SyncKeys(src, dst, order, env).log|
    ensures SyncKeys(src, dst, order, env).log[i].outcome == Copied <==>
      src[order[i]].kind == Regular && !Fresh(src[order[i]], dst, order[i])
    decreases i
  {
    var r := SyncOne(src, dst, order[0], env);
    assert r.Ok?;
    var t1 := r.value.1;
    var rest := SyncKeys(src, t1, order[1..], env);
    var run := SyncKeys(src, dst, order, env);
    assert run.log == [Step(order[0], r.value.0)] + rest.log;
    if i == 0 {
      SyncOneOutcome(src, dst, order[0], env);
    } else {
      var tail := order[1..];
      DistinctTail(order);
      assert AllDescendants(tail);
      SyncKeysCopiesExactlyStale(src, t1, tail, env, i - 1);
      var k := order[i];
      assert run.log[i] == rest.log[i - 1] && tail[i - 1] == k;
      assert k != order[0];
      if src[k].kind == Regular {
        StepKeepsVerdict(src, dst, order[0], env, k);
      }
    }
  }

  // ---------------------------------------------------------------------
  // The same properties for `positive_sync` over the key set

  /** Completeness: after a pass that ran to the end, every key's source
      exists, and a regular source has a destination entry of its size that
      is at least as new once the clock has passed the source's time. */
  lemma PositiveSyncComplete(src: Tree, dst: Tree, keys: set<Path>, env: Env)
    requires WellFormed(src) && RootedOrEmpty(src) && WellFormed(dst)
    requires forall k :: k in keys ==> IsDescendant(k)
    requires PositiveSync(src, dst, keys, env).status == Completed
    ensures forall k :: k in keys ==> Synced(src, PositiveSync(src, dst, keys, env).tree, k, env)
  {
    KeysRelative(keys);
    var order := SortKeys(keys);
    SyncKeysComplete(src, dst, order, env);
    forall k | k in keys
      ensures Synced(src, PositiveSync(src, dst, keys, env).tree, k, env)
    {
      var i :| 0 <= i < |order| && order[i] == k;
    }
  }

  /** Idempotence: when the copy's clock is not behind the sources, a second
      pass over unchanged sources changes nothing; the only keys it copies
      again are those whose destination is a device, which stays as it is. */
  lemma PositiveSyncIdempotent(src: Tree, dst: Tree, keys: set<Path>, env: Env, env': Env)
    requires WellFormed(src) && RootedOrEmpty(src) && WellFormed(dst)
    requires forall k :: k in keys ==> IsDescendant(k)
    requires ClockAhead(src, env)
    requires PositiveSync(src, dst, keys, env).status == Completed
    ensures var t := PositiveSync(src, dst, keys, env).tree;
      && PositiveSync(src, t, keys, env').tree == t
      && PositiveSync(src, t, keys, env').status == Completed
      && forall i :: 0 <= i < |PositiveSync(src, t, keys, env').log| && PositiveSync(src, t, keys, env').log[i].outcome == Copied ==>
        var k := PositiveSync(src, t, keys, env').log[i].key; k in t && t[k].kind == Device
  {
    KeysRelative(keys);
    var order := SortKeys(keys);
    assert PositiveSync(src, dst, keys, env) == SyncKeys(src, dst, order, env);
    var t := PositiveSync(src, dst, keys, env).tree;
    SyncKeysComplete(src, dst, order, env);
    forall i | 0 <= i < |order|
      ensures NothingToDo(src, t, order[i])
    {
      assert Synced(src, t, order[i], env);
    }
    SyncKeysNothingToDo(src, t, order, env');
    var again := PositiveSync(src, t, keys, env');
    assert again == SyncKeys(src, t, order, env');
    forall i | 0 <= i < |again.log| && again.log[i].outcome == Copied
      ensures again.log[i].key in t && t[again.log[i].key].kind == Device
    {
      assert again.log[i].key == order[i];
    }
  }

  /** Frame: a destination entry whose path is not a key keeps its value,
      and every non-directory the pass adds is a key. Source and destination
      are separate trees, so the source is an input only. */
  lemma PositiveSyncFrame(src: Tree, dst: Tree, keys: set<Path>, env: Env)
    requires WellFormed(src) && RootedOrEmpty(src) && WellFormed(dst)
    requires forall k :: k in keys ==> IsDescendant(k)
    ensures forall p :: p in dst && p !in keys ==>
      p in PositiveSync(src, dst, keys, env).tree && PositiveSync(src, dst, keys, env).tree[p] == dst[p]
    ensures forall p ::
      p in PositiveSync(src, dst, keys, env).tree && p !in dst && PositiveSync(src, dst, keys, env).tree[p].kind != Directory
      ==> p in keys
  {
    KeysRelative(keys);
    var order := SortKeys(keys);
    SyncKeysFrame(src, dst, order, env);
    var t := PositiveSync(src, dst, keys, env).tree;
    assert t == SyncKeys(src, dst, order, env).tree;
    forall p | p in dst && p !in keys
      ensures p in t && t[p] == dst[p]
    {
      assert p !in order;
    }
    forall p | p in t && p !in dst && t[p].kind != Directory
      ensures p in keys
    {
      assert p in order;
    }
  }

  /** Every entry the pass adds is a key or an ancestor of one. */
  lemma PositiveSyncAddsOnlyPrefixes(src: Tree, dst: Tree, keys: set<Path>, env: Env)
    requires WellFormed(src) && RootedOrEmpty(src) && WellFormed(dst)
    requires forall k :: k in keys ==> IsDescendant(k)
    ensures forall p :: p in PositiveSync(src, dst, keys, env).tree && p !in dst ==>
      exists k :: k in keys && p <= k
  {
    KeysRelative(keys);
    var order := SortKeys(keys);
    var run := SyncKeys(src, dst, order, env);
    assert PositiveSync(src, dst, keys, env) == run;
    SyncKeysFrame(src, dst, order, env);
    forall p | p in run.tree && p !in dst
      ensures exists k :: k in keys && p <= k
    {
      var i :| 0 <= i < |order| && p <= order[i];
      var k := order[i];
      assert k in keys;
    }
  }

  /** The copies of `positive_sync` are exactly the keys whose source is a
      regular file and whose destination, before the pass, failed the
      staleness check. */
  lemma PositiveSyncCopiesExactlyStale(src: Tree, dst: Tree, keys: set<Path>, env: Env)
    requires WellFormed(src) && RootedOrEmpty(src) && WellFormed(dst)
    requires forall k :: k in keys ==> IsDescendant(k)
    ensures forall i :: 0 <= i < |PositiveSync(src, dst, keys, env).log| ==>
      var k := PositiveSync(src, dst, keys, env).log[i].key;
      k in src && (PositiveSync(src, dst, keys, env).log[i].outcome == Copied <==>
        src[k].kind == Regular && !Fresh(src[k], dst, k))
  {
    KeysRelative(keys);
    var order := SortKeys(keys);
    forall i, j | 0 <= i < j < |order|
      ensures order[i] != order[j]
    {
      LexIrreflexive(KeyString(order[i]));
    }
    assert PositiveSync(src, dst, keys, env) == SyncKeys(src, dst, order, env);
    forall i | 0 <= i < |PositiveSync(src, dst, keys, env).log|
      ensures var k := PositiveSync(src, dst, keys, env).log[i].key;
        k in src && (PositiveSync(src, dst, keys, env).log[i].outcome == Copied <==>
        src[k].kind == Regular && !Fresh(src[k], dst, k))
    {
      SyncKeysCopiesExactlyStale(src, dst, order, env, i);
    }
  }
}
