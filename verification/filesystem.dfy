/** An abstract directory tree, as the synchronizer sees it through
    `os.stat`, `os.makedirs` and `shutil.copyfile`. A tree maps each path
    relative to its root to what `stat` reports for it; file contents are
    reduced to their size. */
module FileSystem {
  import opened Paths

  /** The file-type bits that matter: `S_ISREG`, `S_ISDIR`, `S_ISFIFO`,
      `S_ISSOCK`, and `S_ISCHR`/`S_ISBLK` taken together as devices. */
  datatype Kind = Regular | Directory | Fifo | Socket | Device

  /** `st_mode` type, `st_size` and `st_mtime` of one entry. */
  datatype Entry = Entry(kind: Kind, size: nat, mtime: int)

  type Tree = map<Path, Entry>

  /** What the world supplies to a mutating call: the clock that stamps
      written files and created directories, and the size `stat` reports
      for a fresh directory. */
  datatype Env = Env(now: int, dirSize: nat)

  /** The `OSError`s the model distinguishes. */
  datatype Error =
    | NoSuchFile(path: Path)      // ENOENT
    | NotADirectory(path: Path)   // ENOTDIR
    | AlreadyExists(path: Path)   // EEXIST
    | IsADirectory(path: Path)    // EISDIR
    | NoDevice(path: Path)        // ENXIO: opening a socket
    | SpecialFile(path: Path)     // shutil.SpecialFileError: a named pipe

  datatype Result<T> = Ok(value: T) | Err(error: Error) {
    predicate IsFailure() {
      Err?
    }

    function PropagateFailure<U>(): Result<U>
      requires Err?
    {
      Err(error)
    }

    function Extract(): T
      requires Ok?
    {
      value
    }
  }

  /** Every entry other than the root lies in a directory of the tree; the
      parent of the root lies outside the model and is taken to exist. */
  predicate WellFormed(t: Tree) {
    forall p :: p in t && p != [] ==> Parent(p) in t && t[Parent(p)].kind == Directory
  }

  /** The tree holds the root as a directory. */
  predicate Rooted(t: Tree) {
    [] in t && t[[]].kind == Directory
  }

  /** The root is a directory if it is there at all; a well-formed tree
      without a root entry is empty (`RootlessIsEmpty`). */
  predicate RootedOrEmpty(t: Tree) {
    [] in t ==> t[[]].kind == Directory
  }

  lemma {:induction false} RootlessPath(t: Tree, p: Path)
    requires WellFormed(t) && [] !in t
    ensures p !in t
    decreases |p|
  {
    if p != [] {
      RootlessPath(t, Parent(p));
    }
  }

  lemma RootlessIsEmpty(t: Tree)
    requires WellFormed(t) && [] !in t
    ensures t == map[] && RootedOrEmpty(t) && !Rooted(t)
  {
    forall p | p in t ensures false {
      RootlessPath(t, p);
    }
  }

  lemma {:induction false} AncestorsAreDirectories(t: Tree, p: Path, i: nat)
    requires WellFormed(t) && p in t && i < |p|
    ensures p[..i] in t && t[p[..i]].kind == Directory
    decreases |p| - i
  {
    assert Parent(p) in t && t[Parent(p)].kind == Directory;
    if i < |p| - 1 {
      AncestorsAreDirectories(t, Parent(p), i);
      assert Parent(p)[..i] == p[..i];
    }
  }

  /** Every proper prefix of an entry's path is a directory of the tree. */
  lemma AllAncestorsAreDirectories(t: Tree, p: Path)
    requires WellFormed(t) && p in t
    ensures forall q :: q < p ==> q in t && t[q].kind == Directory
  {
    forall q | q < p
      ensures q in t && t[q].kind == Directory
    {
      AncestorsAreDirectories(t, p, |q|);
      assert p[..|q|] == q;
    }
  }

  /** `os.stat` succeeds exactly on the entries of the tree and reports
      the entry. */
  function Stat(t: Tree, p: Path): (r: Result<Entry>)
    ensures r.Ok? <==> p in t
    ensures r.Ok? ==> r.value == t[p]
  {
    if p in t then Ok(t[p]) else Err(NoSuchFile(p))
  }

  /** Some existing proper prefix of `p` is not a directory, so no path
      through it can be created or opened. */
  ghost predicate Blocked(t: Tree, p: Path) {
    exists q :: q < p && q in t && t[q].kind != Directory
  }

  /** In a well-formed tree `stat` fails on every path that runs through a
      non-directory (ENOTDIR, which the model reports as a missing file). */
  lemma StatThroughFile(t: Tree, p: Path)
    requires WellFormed(t) && Blocked(t, p)
    ensures Stat(t, p).Err?
  {
    var q :| q < p && q in t && t[q].kind != Directory;
    if p in t {
      AllAncestorsAreDirectories(t, p);
    }
  }

  function NewDirectory(env: Env): Entry {
    Entry(Directory, env.dirSize, env.now)
  }

  /** `t'` is `t` with every missing directory on the way to `p` (and `p`
      itself) added, and nothing else changed. */
  ghost predicate AddsChain(t: Tree, t': Tree, p: Path, env: Env) {
    && (forall q :: q in t' <==> q in t || q <= p)
    && (forall q :: q in t ==> t'[q] == t[q])
    && (forall q :: q in t' && q !in t ==> t'[q] == NewDirectory(env))
  }

  /** `os.mkdir`: fails with EEXIST on an existing path, and otherwise
      succeeds exactly when the parent is an existing directory, adding the
      path alone as a new directory. */
  function Mkdir(t: Tree, p: Path, env: Env): (r: Result<Tree>)
    requires WellFormed(t)
    ensures r.Ok? <==> p !in t && (p != [] ==> Parent(p) in t && t[Parent(p)].kind == Directory)
    ensures r.Ok? ==> r.value == t[p := NewDirectory(env)]
    ensures p in t ==> r == Err(AlreadyExists(p))
    ensures r.Ok? ==> WellFormed(r.value) && AddsChain(t, r.value, p, env)
  {
    if p in t then Err(AlreadyExists(p))
    else if p != [] && Parent(p) !in t then Err(NoSuchFile(Parent(p)))
    else if p != [] && t[Parent(p)].kind != Directory then Err(NotADirectory(Parent(p)))
    else
      var t' := t[p := NewDirectory(env)];
      assert forall q :: q <= p && q != p ==> q in t by {
        if p != [] {
          AllAncestorsAreDirectories(t, Parent(p));
          forall q | q <= p && q != p ensures q in t {
            PrefixOfParent(q, p);
          }
        }
      }
      Ok(t')
  }

  /** `os.makedirs(p)` without `exist_ok`: create the missing ancestors
      first (a parent that turns out to exist is no error there), then
      `mkdir` the path itself. */
  function MakeDirs(t: Tree, p: Path, env: Env): (r: Result<Tree>)
    requires WellFormed(t)
    ensures r.Ok? ==> WellFormed(r.value) && AddsChain(t, r.value, p, env)
    decreases |p|
  {
    var parents :=
      if p != [] && Parent(p) !in t then
        match MakeDirs(t, Parent(p), env)
        case Ok(t') => Ok(t')
        case Err(AlreadyExists(_)) => Ok(t)
        case Err(e) => Err(e)
      else Ok(t);
    if parents.Err? then parents
    else
      var r := Mkdir(parents.value, p, env);
      r
  }

  /** What `open(k, "wb")` accepts: a regular file, which it truncates,
      or a device, which it writes into. */
  predicate OpensForWriting(kind: Kind) {
    kind == Regular || kind == Device
  }

  /** `shutil.copyfile` onto path `k` of the tree. A new or regular target
      becomes a regular file with the source's size and the clock's time
      (copyfile keeps no timestamps); a device takes the bytes and stays
      the entry it was. A named pipe is refused before anything is opened
      (SpecialFileError), a socket cannot be opened (ENXIO), a directory
      cannot be opened for writing (EISDIR), and a parent that is missing
      or not a directory fails the open. */
  function CopyFile(t: Tree, k: Path, size: nat, env: Env): (r: Result<Tree>)
    requires WellFormed(t) && k != []
    ensures r.Ok? <==> Parent(k) in t && t[Parent(k)].kind == Directory && (k in t ==> OpensForWriting(t[k].kind))
    ensures r.Ok? ==> WellFormed(r.value)
    ensures r.Ok? && k in t && t[k].kind == Device ==> r.value == t
    ensures r.Ok? && !(k in t && t[k].kind == Device) ==> r.value == t[k := Entry(Regular, size, env.now)]
    ensures k in t && t[k].kind == Fifo ==> r == Err(SpecialFile(k))
    ensures k in t && t[k].kind == Socket ==> r == Err(NoDevice(k))
    ensures k in t && t[k].kind == Directory ==> r == Err(IsADirectory(k))
  {
    if Parent(k) !in t then Err(NoSuchFile(Parent(k)))
    else if t[Parent(k)].kind != Directory then Err(NotADirectory(Parent(k)))
    else if k !in t then Ok(t[k := Entry(Regular, size, env.now)])
    else
      match t[k].kind
      case Regular => Ok(t[k := Entry(Regular, size, env.now)])
      case Device => Ok(t)
      case Fifo => Err(SpecialFile(k))
      case Socket => Err(NoDevice(k))
      case Directory => Err(IsADirectory(k))
  }

  lemma BlockedThroughMissingParent(t: Tree, p: Path)
    requires WellFormed(t) && p != [] && Parent(p) !in t
    ensures Blocked(t, p) <==> Blocked(t, Parent(p))
  {
    if Blocked(t, p) {
      var q :| q < p && q in t && t[q].kind != Directory;
      PrefixOfParent(q, p);
    }
    if Blocked(t, Parent(p)) {
      var q :| q < Parent(p) && q in t && t[q].kind != Directory;
      assert q < p;
    }
  }

  lemma BlockedAtParent(t: Tree, p: Path)
    requires WellFormed(t) && p != [] && Parent(p) in t
    ensures Blocked(t, p) <==> t[Parent(p)].kind != Directory
  {
    if t[Parent(p)].kind != Directory {
      assert Parent(p) < p;
    } else {
      AllAncestorsAreDirectories(t, Parent(p));
      if Blocked(t, p) {
        var q :| q < p && q in t && t[q].kind != Directory;
        PrefixOfParent(q, p);
      }
    }
  }

  /** When `makedirs` succeeds and when it fails: EEXIST exactly when the
      path is already there, and otherwise success exactly when no existing
      ancestor is a non-directory; on success the path is a directory. */
  lemma {:induction false} MakeDirsOutcome(t: Tree, p: Path, env: Env)
    requires WellFormed(t)
    ensures MakeDirs(t, p, env).Ok? ==> p in MakeDirs(t, p, env).value
    ensures MakeDirs(t, p, env) == Err(AlreadyExists(p)) <==> p in t
    ensures p !in t ==> (MakeDirs(t, p, env).Ok? <==> !Blocked(t, p))
    decreases |p|
  {
    var r := MakeDirs(t, p, env);
    if p in t {
      if p != [] {
        assert Parent(p) in t;
      }
      assert r == Mkdir(t, p, env);
    } else if p != [] && Parent(p) !in t {
      MakeDirsOutcome(t, Parent(p), env);
      BlockedThroughMissingParent(t, p);
      var rp := MakeDirs(t, Parent(p), env);
      if rp.Ok? {
        assert r == Mkdir(rp.value, p, env);
        assert p !in rp.value;
      } else {
        assert r == rp;
      }
    } else if p != [] {
      BlockedAtParent(t, p);
      assert r == Mkdir(t, p, env);
    } else {
      assert r == Mkdir(t, p, env);
    }
  }
}
