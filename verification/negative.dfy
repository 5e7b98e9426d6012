/** Negative sync (`Synchronizer.negative_sync`): a bottom-up walk of the
    destination tree that unlinks every non-directory whose relative path is
    not a key, then removes each directory that is left empty. The walk is
    modelled as it runs (children before their parent); `PruneUnder` is the
    independent description of its result. */
module NegativePass {
  import opened Paths
  import opened FileSystem

  /** Some non-directory entry strictly below `p` has a key as its path. */
  ghost predicate KeepsFileBelow(t: Tree, keys: set<Path>, p: Path) {
    exists q :: q in t && p < q && t[q].kind != Directory && q in keys
  }

  /** Whether entry `p` is still there after the walk: a file exactly when
      it is a key, a directory exactly when a kept file lies below it. */
  ghost predicate Survives(t: Tree, keys: set<Path>, p: Path) {
    p in t && (if t[p].kind == Directory then KeepsFileBelow(t, keys, p) else p in keys)
  }

  /** The tree after the walk has handled the subtrees rooted at `roots`:
      inside them only surviving entries remain, outside them nothing
      changes. */
  ghost function PruneUnder(t: Tree, keys: set<Path>, roots: set<Path>): Tree {
    map p | p in t && (Outside(roots, p) || Survives(t, keys, p)) :: t[p]
  }

  /** `p` lies in none of the subtrees rooted at `roots`. */
  ghost predicate Outside(roots: set<Path>, p: Path) {
    forall c :: c in roots ==> !(c <= p)
  }

  /** The whole tree pruned. */
  ghost function Prune(t: Tree, keys: set<Path>): Tree {
    PruneUnder(t, keys, {[]})
  }

  /** `subdirs` and `files` split the entries directly inside `d` into
      directories and the rest, as `os.walk` lists them. */
  ghost predicate Listing(t: Tree, d: Path, subdirs: set<Path>, files: set<Path>) {
    && (forall c :: c in subdirs <==> c in t && IsChild(c, d) && t[c].kind == Directory)
    && (forall c :: c in files <==> c in t && IsChild(c, d) && t[c].kind != Directory)
  }

  /** `c` is an entry directly inside `d`. */
  predicate IsChild(c: Path, d: Path) {
    |c| == |d| + 1 && d <= c
  }

  /** A path below one child of `d` lies below no other child. */
  lemma OutsideSiblings(roots: set<Path>, d: Path, c: Path, p: Path)
    requires forall x :: x in roots ==> IsChild(x, d)
    requires IsChild(c, d) && c !in roots && c <= p
    ensures Outside(roots, p)
  {
    forall x | x in roots
      ensures !(x <= p)
    {
      assert x != c;
      assert exists i :: 0 <= i < |x| && x[i] != c[i];
    }
  }

  // ---------------------------------------------------------------------
  // Facts about surviving entries

  /** The parent of a surviving entry survives. */
  lemma SurvivesUp(t: Tree, keys: set<Path>, p: Path)
    requires WellFormed(t) && p != [] && Survives(t, keys, p)
    ensures Survives(t, keys, Parent(p))
  {
    if t[p].kind == Directory {
      var q :| q in t && p < q && t[q].kind != Directory && q in keys;
      assert Parent(p) < q;
    } else {
      assert Parent(p) < p;
    }
  }

  /** Whether an entry survives depends only on its own subtree. */
  lemma SurvivesLocal(t1: Tree, t2: Tree, keys: set<Path>, p: Path)
    requires forall q :: q in t1 && p <= q ==> q in t2 && t2[q] == t1[q]
    requires forall q :: q in t2 && p <= q ==> q in t1
    ensures Survives(t1, keys, p) == Survives(t2, keys, p)
  {
    if Survives(t1, keys, p) && t1[p].kind == Directory {
      var q :| q in t1 && p < q && t1[q].kind != Directory && q in keys;
      assert q in t2;
    }
    if Survives(t2, keys, p) && t2[p].kind == Directory {
      var q :| q in t2 && p < q && t2[q].kind != Directory && q in keys;
      assert q in t1;
    }
  }

  lemma PruneUnderWellFormed(t: Tree, keys: set<Path>, roots: set<Path>)
    requires WellFormed(t)
    ensures WellFormed(PruneUnder(t, keys, roots))
  {
    var r := PruneUnder(t, keys, roots);
    forall p | p in r && p != []
      ensures Parent(p) in r && r[Parent(p)].kind == Directory
    {
      if !Outside(roots, Parent(p)) {
        var c :| c in roots && c <= Parent(p);
        assert c <= p;
        SurvivesUp(t, keys, p);
      }
    }
  }

  /** The child of `d` on the way down to `p`; it is a directory unless it
      is `p` itself. */
  lemma ChildOnTheWay(t: Tree, d: Path, p: Path) returns (c: Path)
    requires WellFormed(t) && p in t && d < p
    ensures c in t && IsChild(c, d) && c <= p
    ensures c != p ==> t[c].kind == Directory
  {
    c := p[..|d| + 1];
    if c != p {
      AncestorsAreDirectories(t, p, |d| + 1);
    }
  }

  // ---------------------------------------------------------------------
  // The walk

  /** Handling one more subdirectory `c` of `d` extends the pruned region by
      the subtree at `c`; the sibling subtrees already handled do not
      affect it. */
  lemma PruneOneMore(t: Tree, keys: set<Path>, d: Path, done: set<Path>, c: Path)
    requires forall x :: x in done ==> IsChild(x, d)
    requires IsChild(c, d) && c !in done
    ensures PruneUnder(PruneUnder(t, keys, done), keys, {c}) == PruneUnder(t, keys, done + {c})
  {
    var r := PruneUnder(t, keys, done);
    forall q | q in t && c <= q
      ensures q in r && r[q] == t[q]
    {
      OutsideSiblings(done, d, c, q);
    }
    SurvivesLocal(r, t, keys, c);
    forall p | p in r && c <= p
      ensures Survives(r, keys, p) == Survives(t, keys, p)
    {
      SurvivesLocal(r, t, keys, p);
    }
  }

  /** `os.walk` below directory `d` followed by the loop body for each
      visited directory: subdirectories first, then the files of `d`, then
      `d` itself if its listing is empty. */
  method WalkDir(t: Tree, keys: set<Path>, d: Path, ghost height: nat) returns (r: Tree)
    requires WellFormed(t) && d in t && t[d].kind == Directory
    requires forall p :: p in t && d <= p ==> |p| <= |d| + height
    ensures r == PruneUnder(t, keys, {d})
    decreases height, 1
  {
    var subdirs, files := ListDir(t, d);
    r := WalkSubdirs(t, keys, d, subdirs, height);
    r := UnlinkFiles(r, keys, files);
    DirListing(t, keys, d, subdirs, files, r);
    DirMembers(t, keys, d, subdirs, files, r);
    if forall c :: c in r ==> !IsChild(c, d) {
      r := r - {d};
    }
  }

  /** The listing of `d` that `os.walk` takes before descending. */
  method ListDir(t: Tree, d: Path) returns (subdirs: set<Path>, files: set<Path>)
    ensures Listing(t, d, subdirs, files)
  {
    var children := set c | c in t && IsChild(c, d);
    subdirs := set c | c in children && t[c].kind == Directory;
    files := children - subdirs;
  }

  /** The walk of each subdirectory of `d`, in whatever order they come. */
  method WalkSubdirs(t: Tree, keys: set<Path>, d: Path, subdirs: set<Path>, ghost height: nat) returns (r: Tree)
    requires WellFormed(t) && d in t && t[d].kind == Directory
    requires forall p :: p in t && d <= p ==> |p| <= |d| + height
    requires forall c :: c in subdirs ==> c in t && IsChild(c, d) && t[c].kind == Directory
    ensures r == PruneUnder(t, keys, subdirs)
    decreases height, 0
  {
    r := t;
    var todo := subdirs;
    ghost var done: set<Path> := {};
    PruneUnderNothing(t, keys);
    while todo != {}
      invariant todo <= subdirs && done == subdirs - todo
      invariant r == PruneUnder(t, keys, done)
      decreases |todo|
    {
      var c :| c in todo;
      SubdirReady(t, keys, d, done, c, height);
      r := WalkDir(r, keys, c, height - 1);
      PruneOneMore(t, keys, d, done, c);
      todo := todo - {c};
      done := done + {c};
    }
    assert done == subdirs;
  }

  /** The tree the walk of subdirectory `c` starts from meets the walk's
      preconditions. */
  lemma SubdirReady(t: Tree, keys: set<Path>, d: Path, done: set<Path>, c: Path, height: nat)
    requires WellFormed(t)
    requires forall p :: p in t && d <= p ==> |p| <= |d| + height
    requires forall x :: x in done ==> IsChild(x, d)
    requires c in t && IsChild(c, d) && t[c].kind == Directory && c !in done
    ensures height >= 1
    ensures WellFormed(PruneUnder(t, keys, done))
    ensures c in PruneUnder(t, keys, done) && PruneUnder(t, keys, done)[c].kind == Directory
    ensures forall p :: p in PruneUnder(t, keys, done) && c <= p ==> |p| <= |c| + (height - 1)
  {
    PruneUnderWellFormed(t, keys, done);
    OutsideSiblings(done, d, c, c);
  }

  lemma PruneUnderNothing(t: Tree, keys: set<Path>)
    ensures PruneUnder(t, keys, {}) == t
  {
  }

  /** The tree with every non-key among `files` unlinked. */
  ghost function Unlinked(t: Tree, keys: set<Path>, files: set<Path>): Tree {
    map p | p in t && !(p in files && p !in keys) :: t[p]
  }

  /** The loop over the files of one directory: `os.unlink` each whose path
      is not a key. */
  method UnlinkFiles(t: Tree, keys: set<Path>, files: set<Path>) returns (r: Tree)
    ensures r == Unlinked(t, keys, files)
  {
    r := t;
    var rest := files;
    assert files - rest == {};
    while rest != {}
      invariant rest <= files
      invariant r == Unlinked(t, keys, files - rest)
      decreases |rest|
    {
      var f :| f in rest;
      UnlinkOne(t, keys, files - rest, f);
      if f !in keys {
        r := r - {f};
      }
      assert files - (rest - {f}) == (files - rest) + {f};
      rest := rest - {f};
    }
  }

  lemma UnlinkOne(t: Tree, keys: set<Path>, handled: set<Path>, f: Path)
    ensures Unlinked(t, keys, handled + {f})
         == if f in keys then Unlinked(t, keys, handled) else Unlinked(t, keys, handled) - {f}
  {
  }

  /** Once its contents are handled, `d` lists nothing exactly when it does
      not survive. */
  lemma DirListing(t: Tree, keys: set<Path>, d: Path, subdirs: set<Path>, files: set<Path>, r: Tree)
    requires WellFormed(t) && d in t && t[d].kind == Directory
    requires Listing(t, d, subdirs, files)
    requires r == Unlinked(PruneUnder(t, keys, subdirs), keys, files)
    ensures (exists c :: c in r && IsChild(c, d)) <==> Survives(t, keys, d)
  {
    if c :| c in r && IsChild(c, d) {
      if t[c].kind == Directory {
        assert c in subdirs;
        var q :| q in t && c < q && t[q].kind != Directory && q in keys;
        assert d < q;
      } else {
        assert c in files && c in keys;
        assert d < c;
      }
    }
    if Survives(t, keys, d) {
      var q :| q in t && d < q && t[q].kind != Directory && q in keys;
      var c := ChildOnTheWay(t, d, q);
      if c == q {
        assert c in files;
        OutsideSiblings(subdirs, d, c, c);
      } else {
        assert c < q;
        assert c in subdirs && Survives(t, keys, c);
      }
      assert c in r;
    }
  }

  /** Every entry other than `d` is where the pruned tree has it. */
  lemma DirMember(t: Tree, keys: set<Path>, d: Path, subdirs: set<Path>, files: set<Path>, r: Tree, p: Path)
    requires WellFormed(t) && d in t && t[d].kind == Directory
    requires Listing(t, d, subdirs, files)
    requires r == Unlinked(PruneUnder(t, keys, subdirs), keys, files)
    requires p in t
    ensures p in PruneUnder(t, keys, {d}) <==> p in r && (p == d ==> Survives(t, keys, d))
  {
    if p == d {
      assert Outside(subdirs, d);
    } else if d < p {
      var c := ChildOnTheWay(t, d, p);
      if c == p && t[p].kind != Directory {
        assert p in files;
        OutsideSiblings(subdirs, d, c, p);
      } else {
        assert c in subdirs && p !in files;
      }
    } else {
      assert Outside(subdirs, p) by {
        forall x | x in subdirs
          ensures !(x <= p)
        {
          assert d < x;
        }
      }
      assert p !in files;
    }
  }

  /** After the walk of its contents, removing `d` or not gives the pruned
      subtree. */
  lemma DirMembers(t: Tree, keys: set<Path>, d: Path, subdirs: set<Path>, files: set<Path>, r: Tree)
    requires WellFormed(t) && d in t && t[d].kind == Directory
    requires Listing(t, d, subdirs, files)
    requires r == Unlinked(PruneUnder(t, keys, subdirs), keys, files)
    ensures d in r
    ensures PruneUnder(t, keys, {d}) == if Survives(t, keys, d) then r else r - {d}
  {
    var want := PruneUnder(t, keys, {d});
    var r' := if Survives(t, keys, d) then r else r - {d};
    assert forall p :: p in want <==> p in r' by {
      DirMember(t, keys, d, subdirs, files, r, d);
      forall p
        ensures p in want <==> p in r'
      {
        if p in t {
          DirMember(t, keys, d, subdirs, files, r, p);
        }
      }
    }
    assert forall p :: p in r' ==> p in t && r'[p] == t[p] by {
      assert forall p :: p in r ==> p in t && r[p] == t[p];
    }
    SameEntries(want, r', t);
  }

  /** Two sub-trees of `t` with the same paths are equal. */
  lemma SameEntries(a: Tree, b: Tree, t: Tree)
    requires forall p :: p in a <==> p in b
    requires forall p :: p in a ==> p in t && a[p] == t[p]
    requires forall p :: p in b ==> p in t && b[p] == t[p]
    ensures a == b
  {
  }

  /** `negative_sync`: walk the destination bottom-up, unlink every
      non-directory whose path is not a key, remove every directory left
      empty (the root included). A missing root, or one that is not a
      directory, is walked as empty and nothing changes. */
  method NegativeSync(t: Tree, keys: set<Path>) returns (r: Tree)
    requires WellFormed(t)
    ensures Rooted(t) ==> r == Prune(t, keys)
    ensures !Rooted(t) ==> r == t
    ensures WellFormed(r)
    ensures forall p :: p in r ==> p in t && r[p] == t[p]
    ensures forall p :: p in t && t[p].kind != Directory && p in keys ==> p in r
    ensures Rooted(t) ==> forall p :: p in r && r[p].kind != Directory ==> p in keys
    ensures Rooted(t) ==> forall p :: p in r && r[p].kind == Directory ==> exists c :: c in r && IsChild(c, p)
  {
    if Rooted(t) {
      ghost var height := MaxDepth(t.Keys);
      r := WalkDir(t, keys, [], height);
      PruneUnderWellFormed(t, keys, {[]});
      PruneLeavesNoEmptyDirectory(t, keys);
    } else {
      r := t;
    }
  }

  /** After pruning, every file left is a key, and every directory left
      holds something. */
  lemma PruneLeavesNoEmptyDirectory(t: Tree, keys: set<Path>)
    requires WellFormed(t)
    ensures forall p :: p in Prune(t, keys) && Prune(t, keys)[p].kind != Directory ==> p in keys
    ensures forall p :: p in Prune(t, keys) && Prune(t, keys)[p].kind == Directory ==>
      exists c :: c in Prune(t, keys) && IsChild(c, p)
  {
    var r := Prune(t, keys);
    forall p | p in r
      ensures Survives(t, keys, p)
    {
      assert !Outside({[]}, p) by {
        assert [] <= p;
      }
    }
    forall p | p in r && r[p].kind == Directory
      ensures exists c :: c in r && IsChild(c, p)
    {
      var q :| q in t && p < q && t[q].kind != Directory && q in keys;
      var c := ChildOnTheWay(t, p, q);
      if c != q {
        assert c < q;
      }
      assert Survives(t, keys, c);
      assert c in r;
    }
  }

  /** A second negative sync with the same keys removes nothing more. */
  lemma PruneIdempotent(t: Tree, keys: set<Path>)
    ensures Prune(Prune(t, keys), keys) == Prune(t, keys)
  {
    var r := Prune(t, keys);
    forall p | p in r
      ensures Survives(r, keys, p)
    {
      assert !Outside({[]}, p) by {
        assert [] <= p;
      }
      assert Survives(t, keys, p);
      if t[p].kind == Directory {
        var q :| q in t && p < q && t[q].kind != Directory && q in keys;
        assert !Outside({[]}, q) by {
          assert [] <= q;
        }
        assert q in r;
      }
    }
    assert forall p :: p in Prune(r, keys) ==> p in r;
    SameEntries(Prune(r, keys), r, t);
  }

  lemma {:induction false} MaxDepth(s: set<Path>) returns (h: nat)
    ensures forall p :: p in s ==> |p| <= h
    decreases |s|
  {
    if s == {} {
      h := 0;
    } else {
      var x :| x in s;
      var h' := MaxDepth(s - {x});
      h := if |x| > h' then |x| else h';
    }
  }
}
