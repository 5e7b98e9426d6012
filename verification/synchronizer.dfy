/** The two passes together, in the order a run of the program makes them:
    negative sync (unless deletion is turned off), then positive sync. */
module Synchronizer {
  import opened Paths
  import opened FileSystem
  import opened PositivePass
  import opened NegativePass

  /** After a negative sync and a completed positive sync with the same keys
      over a destination that is a directory or is missing, the destination
      holds no non-directory other than at a key, and every key is handled. */
  lemma SyncLeavesOnlyKeys(src: Tree, dst: Tree, keys: set<Path>, env: Env)
    requires WellFormed(src) && RootedOrEmpty(src) && WellFormed(dst)
    requires RootedOrEmpty(dst)
    requires forall k :: k in keys ==> IsDescendant(k)
    ensures WellFormed(Prune(dst, keys))
    ensures var run := PositiveSync(src, Prune(dst, keys), keys, env);
      forall p :: p in run.tree && run.tree[p].kind != Directory ==> p in keys
    ensures var run := PositiveSync(src, Prune(dst, keys), keys, env);
      run.status == Completed ==> forall k :: k in keys ==> Synced(src, run.tree, k, env)
  {
    PruneUnderWellFormed(dst, keys, {[]});
    var pruned := Prune(dst, keys);
    if [] in dst {
      PruneLeavesNoEmptyDirectory(dst, keys);
    } else {
      RootlessIsEmpty(dst);
      assert pruned == map[];
    }
    PositiveSyncFrame(src, pruned, keys, env);
    var run := PositiveSync(src, pruned, keys, env);
    if run.status == Completed {
      PositiveSyncComplete(src, pruned, keys, env);
    }
  }
}
