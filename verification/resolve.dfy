/** Playlist resolution: how `Synchronizer.__init__` turns each raw playlist
    line into a key, a path relative to the source root. The chain is
    `relpath(abspath(normpath(line.strip())), source)`, with the POSIX
    semantics of `os.path`; the working directory `abspath` consults is a
    parameter. */
module Resolve {
  import opened Paths

  /** The characters `str.isspace` accepts, which `str.strip()` removes. */
  predicate IsSpace(c: char) {
    || ('\t' <= c <= '\r')
    || ('\U{1C}' <= c <= '\U{1F}')
    || c == ' ' || c == '\U{85}' || c == '\U{A0}' || c == '\U{1680}'
    || ('\U{2000}' <= c <= '\U{200A}')
    || c == '\U{2028}' || c == '\U{2029}' || c == '\U{202F}' || c == '\U{205F}'
    || c == '\U{3000}'
  }

  predicate AllSpace(s: string) {
    forall i :: 0 <= i < |s| ==> IsSpace(s[i])
  }

  function StripLeft(s: string): (r: string)
    ensures |r| <= |s| && r == s[|s| - |r|..]
    ensures AllSpace(s[..|s| - |r|])
    ensures |r| > 0 ==> !IsSpace(r[0])
  {
    if |s| > 0 && IsSpace(s[0]) then StripLeft(s[1..]) else s
  }

  function StripRight(s: string): (r: string)
    ensures |r| <= |s| && r == s[..|r|]
    ensures AllSpace(s[|r|..])
    ensures |r| > 0 ==> !IsSpace(r[|r| - 1])
  {
    if |s| > 0 && IsSpace(s[|s| - 1]) then StripRight(s[..|s| - 1]) else s
  }

  /** `s.strip()`: the result is a stretch of `s` with only whitespace
      before and after it, and it neither starts nor ends with whitespace. */
  function Strip(s: string): (r: string)
    ensures exists i :: 0 <= i <= |s| - |r| && s[i..i + |r|] == r && AllSpace(s[..i]) && AllSpace(s[i + |r|..])
    ensures |r| > 0 ==> !IsSpace(r[0]) && !IsSpace(r[|r| - 1])
  {
    var l := StripLeft(s);
    var r := StripRight(l);
    SliceOfSuffix(s, l, r);
    var i := |s| - |l|;
    assert s[i..i + |r|] == r && AllSpace(s[..i]) && AllSpace(s[i + |r|..]);
    r
  }

  lemma SliceOfSuffix(s: string, l: string, r: string)
    requires |l| <= |s| && l == s[|s| - |l|..]
    requires |r| <= |l| && r == l[..|r|]
    ensures s[|s| - |l|..|s| - |l| + |r|] == r
    ensures s[|s| - |l| + |r|..] == l[|r|..]
  {
  }

  lemma {:induction false} StripLeftUnique(a: string, t: string)
    requires AllSpace(a)
    requires |t| > 0 ==> !IsSpace(t[0])
    ensures StripLeft(a + t) == t
    decreases |a|
  {
    if |a| > 0 {
      assert (a + t)[1..] == a[1..] + t;
      StripLeftUnique(a[1..], t);
    } else {
      assert a + t == t;
    }
  }

  lemma {:induction false} StripRightUnique(t: string, b: string)
    requires AllSpace(b)
    requires |t| > 0 ==> !IsSpace(t[|t| - 1])
    ensures StripRight(t + b) == t
    decreases |b|
  {
    if |b| > 0 {
      assert (t + b)[..|t + b| - 1] == t + b[..|b| - 1];
      StripRightUnique(t, b[..|b| - 1]);
    } else {
      assert t + b == t;
    }
  }

  /** Surrounding whitespace never reaches a key: stripping a padded line
      gives back exactly the unpadded text. */
  lemma StripPadding(a: string, t: string, b: string)
    requires AllSpace(a) && AllSpace(b)
    requires |t| > 0 ==> !IsSpace(t[0]) && !IsSpace(t[|t| - 1])
    ensures Strip(a + t + b) == t
  {
    assert a + t + b == a + (t + b);
    if |t| > 0 {
      StripLeftUnique(a, t + b);
    } else {
      assert t + b == b;
      if |b| > 0 && !IsSpace(b[0]) {
        assert false;
      }
      StripLeftUnique(a + b, []);
      assert a + b + [] == a + b;
      StripLeftUnique(a, []);
    }
    StripRightUnique(t, b);
  }

  predicate IsAbs(s: string) {
    |s| > 0 && s[0] == '/'
  }

  /** One turn of `normpath`'s loop over the components. */
  function NormStep(acc: seq<string>, comp: string, absolute: bool): seq<string>
  {
    if comp == "" || comp == "." then acc
    else if comp != ".." || (!absolute && |acc| == 0) || (|acc| > 0 && acc[|acc| - 1] == "..") then acc + [comp]
    else if |acc| > 0 then acc[..|acc| - 1]
    else acc
  }

  function NormComps(acc: seq<string>, comps: seq<string>, absolute: bool): seq<string>
    decreases |comps|
  {
    if comps == [] then acc
    else NormComps(NormStep(acc, comps[0], absolute), comps[1..], absolute)
  }

  /** The shape of a normalised component list: well-formed segments,
      parent steps only in front, and none at all under an absolute root. */
  predicate NormalForm(c: seq<string>, absolute: bool) {
    && IsRelative(c)
    && (absolute ==> IsDescendant(c))
    && (forall i, j :: 0 <= j < i < |c| && c[i] == ".." ==> c[j] == "..")
  }

  /** `os.path.normpath` (POSIX): two leading slashes are kept, one or three
      and more become one, and an empty result is ".". The result is never
      empty and is absolute exactly when the input is. */
  function NormPath(s: string): (r: string)
    ensures |r| > 0
    ensures IsAbs(r) <==> IsAbs(s)
  {
    if s == "" then "."
    else
      var initial := if !IsAbs(s) then ""
                     else if |s| >= 2 && s[1] == '/' && (|s| == 2 || s[2] != '/') then "//"
                     else "/";
      var comps := NormComps([], Split(s), IsAbs(s));
      var path := initial + Join(comps);
      if path == "" then "."
      else if IsAbs(s) then path
      else
        NormCompsNormal([], Split(s), false);
        JoinEnds(comps);
        assert '/' !in comps[0];
        path
  }

  /** `os.path.join(cwd, s)`: an absolute `s` replaces the directory, a
      relative one is appended to it behind one separator. */
  function JoinPath(cwd: string, s: string): (r: string)
    ensures IsAbs(s) ==> r == s
    ensures !IsAbs(s) ==> |cwd| + |s| <= |r| <= |cwd| + 1 + |s| && cwd <= r && r[|r| - |s|..] == s
    ensures !IsAbs(s) && |r| == |cwd| + 1 + |s| ==> r[|cwd|] == '/'
    ensures !IsAbs(s) ==> (|r| == |cwd| + |s| <==> |cwd| == 0 || cwd[|cwd| - 1] == '/')
    ensures IsAbs(cwd) ==> IsAbs(r)
  {
    if IsAbs(s) then s
    else if |cwd| == 0 || cwd[|cwd| - 1] == '/' then cwd + s
    else cwd + "/" + s
  }

  /** `os.path.abspath`, with the working directory passed in: the result
      is absolute whenever the input or the working directory is. */
  function AbsPath(s: string, cwd: string): (r: string)
    ensures IsAbs(s) || IsAbs(cwd) ==> IsAbs(r)
  {
    if IsAbs(s) then NormPath(s) else NormPath(JoinPath(cwd, s))
  }

  /** `[x for x in c if x]`. */
  function NonEmptyPieces(c: seq<string>): (r: seq<string>)
    ensures forall i :: 0 <= i < |r| ==> r[i] != [] && r[i] in c
  {
    if c == [] then []
    else if c[0] == "" then NonEmptyPieces(c[1..])
    else [c[0]] + NonEmptyPieces(c[1..])
  }

  /** The components `relpath` reads off an absolute path. */
  function AbsComps(s: string, cwd: string): seq<string> {
    NonEmptyPieces(Split(AbsPath(s, cwd)))
  }

  /** `len(commonprefix([a, b]))`. */
  function CommonPrefixLen(a: seq<string>, b: seq<string>): (n: nat)
    ensures n <= |a| && n <= |b| && a[..n] == b[..n]
    ensures n < |a| && n < |b| ==> a[n] != b[n]
  {
    if a == [] || b == [] || a[0] != b[0] then 0
    else
      var n := 1 + CommonPrefixLen(a[1..], b[1..]);
      assert a[..n] == [a[0]] + a[1..][..n - 1];
      assert b[..n] == [b[0]] + b[1..][..n - 1];
      n
  }

  function Ups(n: nat): (r: seq<string>)
    ensures |r| == n && forall i :: 0 <= i < n ==> r[i] == ".."
  {
    if n == 0 then [] else [".."] + Ups(n - 1)
  }

  /** `os.path.relpath(path, start)` as the list of components it joins
      (the empty list is the "." result). Under an absolute working
      directory the result is well formed with its parent steps in front,
      and for a path under the start it is the path's remaining components,
      names only. */
  function RelPath(path: string, start: string, cwd: string): (r: Path)
    ensures IsAbs(cwd) ==> NormalForm(r, false)
    ensures IsAbs(cwd) && AbsComps(start, cwd) <= AbsComps(path, cwd) ==>
      r == AbsComps(path, cwd)[|AbsComps(start, cwd)|..] && IsDescendant(r)
  {
    var startList := AbsComps(start, cwd);
    var pathList := AbsComps(path, cwd);
    var i := CommonPrefixLen(startList, pathList);
    var r := Ups(|startList| - i) + pathList[i..];
    if IsAbs(cwd) then
      AbsCompsNames(path, cwd);
      RelShape(startList, pathList);
      if startList <= pathList then
        RelOfPrefix(startList, pathList);
        assert IsDescendant(pathList[|startList|..]) by {
          assert forall j :: 0 <= j < |pathList| - |startList| ==> pathList[|startList|..][j] == pathList[|startList| + j];
        }
        r
      else r
    else r
  }

  /** The key one playlist line becomes (line 14). Every key is a
      well-formed relative path whose parent steps, if any, come first;
      they appear only when the line lies outside the source. */
  function ResolveLine(line: string, source: string, cwd: string): (r: Path)
    ensures IsAbs(cwd) ==> NormalForm(r, false)
  {
    RelPath(AbsPath(NormPath(Strip(line)), cwd), source, cwd)
  }

  /** The elements of a sequence: repeats collapse into one. */
  function Elements<T(!new)>(s: seq<T>): (r: set<T>)
    ensures |r| <= |s|
    ensures forall x :: x in r <==> x in s
  {
    if s == [] then {} else Elements(s[1..]) + {s[0]}
  }

  /** The resolved key of every line, in playlist order. */
  function ResolveAll(lines: seq<string>, source: string, cwd: string): (r: seq<Path>)
    ensures |r| == |lines|
    ensures forall i :: 0 <= i < |lines| ==> r[i] == ResolveLine(lines[i], source, cwd)
  {
    if lines == [] then []
    else [ResolveLine(lines[0], source, cwd)] + ResolveAll(lines[1..], source, cwd)
  }

  /** The dictionary's key set: one key per distinct resolved line. */
  function ResolveKeys(lines: seq<string>, source: string, cwd: string): (keys: set<Path>)
    ensures |keys| <= |lines|
    ensures forall i :: 0 <= i < |lines| ==> ResolveLine(lines[i], source, cwd) in keys
  {
    Elements(ResolveAll(lines, source, cwd))
  }

  /** Every key comes from some playlist line: nothing else enters the set. */
  lemma KeysComeFromLines(lines: seq<string>, source: string, cwd: string, k: Path)
    requires k in ResolveKeys(lines, source, cwd)
    ensures exists i :: 0 <= i < |lines| && ResolveLine(lines[i], source, cwd) == k
  {
    var resolved := ResolveAll(lines, source, cwd);
    assert k in resolved;
    var i :| 0 <= i < |resolved| && resolved[i] == k;
    assert ResolveLine(lines[i], source, cwd) == k;
  }

  // ---------------------------------------------------------------------
  // Normal form

  lemma NormStepNormal(acc: seq<string>, comp: string, absolute: bool)
    requires NormalForm(acc, absolute) && '/' !in comp
    ensures NormalForm(NormStep(acc, comp, absolute), absolute)
  {
    var r := NormStep(acc, comp, absolute);
    if comp == "" || comp == "." {
    } else if comp != ".." || (!absolute && |acc| == 0) || (|acc| > 0 && acc[|acc| - 1] == "..") {
      assert r == acc + [comp];
      assert IsSegment(comp);
      if comp == ".." && |acc| > 0 {
        assert !absolute;
        forall i, j | 0 <= j < i < |r| && r[i] == ".."
          ensures r[j] == ".."
        {
          if i == |acc| {
            assert acc[|acc| - 1] == "..";
            if j < |acc| - 1 { assert acc[j] == ".."; }
          }
        }
      }
    } else if |acc| > 0 {
      assert r == acc[..|acc| - 1];
    }
  }

  lemma {:induction false} NormCompsNormal(acc: seq<string>, comps: seq<string>, absolute: bool)
    requires NormalForm(acc, absolute)
    requires forall i :: 0 <= i < |comps| ==> '/' !in comps[i]
    ensures NormalForm(NormComps(acc, comps, absolute), absolute)
    decreases |comps|
  {
    if comps != [] {
      NormStepNormal(acc, comps[0], absolute);
      NormCompsNormal(NormStep(acc, comps[0], absolute), comps[1..], absolute);
    }
  }

  /** Components that are all plain names pass through normalisation
      untouched. */
  lemma {:induction false} NormCompsNames(acc: seq<string>, comps: seq<string>, absolute: bool)
    requires IsDescendant(comps)
    ensures NormComps(acc, comps, absolute) == acc + comps
    decreases |comps|
  {
    if comps != [] {
      assert NormStep(acc, comps[0], absolute) == acc + [comps[0]];
      NormCompsNames(acc + [comps[0]], comps[1..], absolute);
      assert acc + [comps[0]] + comps[1..] == acc + comps;
    }
  }

  lemma {:induction false} NonEmptyPiecesOfSegments(c: seq<string>)
    requires forall i :: 0 <= i < |c| ==> c[i] != ""
    ensures NonEmptyPieces(c) == c
    decreases |c|
  {
    if c != [] {
      NonEmptyPiecesOfSegments(c[1..]);
      assert [c[0]] + c[1..] == c;
    }
  }

  /** The absolute components of any path are plain names: the result of
      `abspath` is the root followed by its normalised components. */
  lemma AbsCompsNames(s: string, cwd: string)
    requires IsAbs(cwd)
    ensures IsDescendant(AbsComps(s, cwd))
  {
    var t := if IsAbs(s) then s else JoinPath(cwd, s);
    assert AbsPath(s, cwd) == NormPath(t);
    assert IsAbs(t);
    var c := NormComps([], Split(t), true);
    NormCompsNormal([], Split(t), true);
    var initial := if |t| >= 2 && t[1] == '/' && (|t| == 2 || t[2] != '/') then "//" else "/";
    assert NormPath(t) == initial + Join(c);
    PiecesUnderRoot(initial, c);
  }

  /** Reading the components back off `initial + "/".join(c)`. */
  lemma PiecesUnderRoot(initial: string, c: seq<string>)
    requires initial == "/" || initial == "//"
    requires IsDescendant(c)
    ensures NonEmptyPieces(Split(initial + Join(c))) == c
  {
    var tail := NonEmptyPieces(Split(Join(c)));
    SplitSeparated("", Join(c));
    assert "" + "/" + Join(c) == "/" + Join(c);
    assert NonEmptyPieces(Split("/" + Join(c))) == tail;
    if initial == "//" {
      SplitSeparated("", "/" + Join(c));
      assert "" + "/" + ("/" + Join(c)) == initial + Join(c);
      assert NonEmptyPieces(Split(initial + Join(c))) == tail;
    }
    if c == [] {
      assert Join(c) == "";
      assert Split("") == [""];
      assert [""][1..] == [];
      assert NonEmptyPieces([""]) == [];
    } else {
      SplitJoin(c);
      NonEmptyPiecesOfSegments(c);
    }
  }

  // ---------------------------------------------------------------------
  // What a key looks like

  lemma {:induction false} JoinAppend(a: seq<string>, b: seq<string>)
    requires |a| > 0 && |b| > 0
    ensures Join(a + b) == Join(a) + "/" + Join(b)
    decreases |a|
  {
    if |a| == 1 {
      assert (a + b)[1..] == b;
    } else {
      assert (a + b)[1..] == a[1..] + b;
      JoinAppend(a[1..], b);
    }
  }

  lemma {:induction false} JoinEnds(c: seq<string>)
    requires |c| > 0 && forall i :: 0 <= i < |c| ==> |c[i]| > 0
    ensures |Join(c)| > 0
    ensures Join(c)[0] == c[0][0]
    ensures Join(c)[|Join(c)| - 1] == c[|c| - 1][|c[|c| - 1]| - 1]
    decreases |c|
  {
    if |c| > 1 {
      JoinEnds(c[1..]);
    }
  }

  lemma SplitRooted(x: seq<string>)
    requires IsDescendant(x)
    ensures Split("/" + Join(x)) == if x == [] then ["", ""] else [""] + x
  {
    SplitSeparated("", Join(x));
    assert "" + "/" + Join(x) == "/" + Join(x);
    if x != [] {
      SplitJoin(x);
    }
  }

  /** A rooted path whose components are all names is already normal. */
  lemma NormPathRooted(x: seq<string>)
    requires IsDescendant(x)
    ensures NormPath("/" + Join(x)) == "/" + Join(x)
  {
    var s := "/" + Join(x);
    SplitRooted(x);
    var c := NormComps([], Split(s), true);
    if x == [] {
      assert NormStep([], "", true) == [];
      assert NormComps([], [""], true) == NormComps([], [], true);
      assert c == NormComps([], [""], true);
    } else {
      JoinEnds(x);
      assert s[1] == x[0][0];
      assert NormStep([], "", true) == [];
      assert Split(s)[1..] == x;
      NormCompsNames([], x, true);
      assert c == x;
    }
  }

  lemma AbsCompsRooted(x: seq<string>, cwd: string)
    requires IsDescendant(x)
    ensures AbsComps("/" + Join(x), cwd) == x
  {
    NormPathRooted(x);
    PiecesUnderRoot("/", x);
  }

  /** The components relpath keeps when the start is a prefix of the path. */
  lemma RelOfPrefix(a: seq<string>, b: seq<string>)
    requires a <= b
    ensures Ups(|a| - CommonPrefixLen(a, b)) + b[CommonPrefixLen(a, b)..] == b[|a|..]
  {
    assert Ups(0) == [];
  }

  lemma UpsThenNames(n: nat, b: seq<string>)
    requires IsDescendant(b)
    ensures NormalForm(Ups(n) + b, false)
  {
    var r := Ups(n) + b;
    assert IsSegment("..") by {
      assert ".." == ['.', '.'];
    }
    assert forall j :: 0 <= j < n ==> r[j] == "..";
    assert forall j :: n <= j < |r| ==> r[j] == b[j - n];
    assert IsRelative(r) by {
      forall j | 0 <= j < |r| ensures IsSegment(r[j]) {
        if j >= n { assert IsName(b[j - n]); }
      }
    }
    assert forall j :: n <= j < |r| ==> IsName(r[j]);
  }

  lemma RelShape(a: seq<string>, b: seq<string>)
    requires IsDescendant(b)
    ensures NormalForm(Ups(|a| - CommonPrefixLen(a, b)) + b[CommonPrefixLen(a, b)..], false)
  {
    var i := CommonPrefixLen(a, b);
    assert IsDescendant(b[i..]) by {
      assert forall j :: 0 <= j < |b| - i ==> b[i..][j] == b[i + j];
    }
    UpsThenNames(|a| - i, b[i..]);
  }

  /** When every playlist line names something under the source root, every
      key is a descendant path (no parent steps), as both sync passes need. */
  lemma KeysUnderSource(lines: seq<string>, source: string, cwd: string)
    requires IsAbs(cwd)
    requires forall i :: 0 <= i < |lines| ==>
      AbsComps(source, cwd) <= AbsComps(AbsPath(NormPath(Strip(lines[i])), cwd), cwd)
    ensures forall k :: k in ResolveKeys(lines, source, cwd) ==> IsDescendant(k)
  {
    forall k | k in ResolveKeys(lines, source, cwd)
      ensures IsDescendant(k)
    {
      KeysComeFromLines(lines, source, cwd, k);
      var i :| 0 <= i < |lines| && ResolveLine(lines[i], source, cwd) == k;
    }
  }

  /** Round trip for absolute lines: a padded line naming `source/rel`
      becomes the key `rel`. */
  lemma ResolveAbsoluteLine(sc: seq<string>, rel: Path, ws1: string, ws2: string, cwd: string)
    requires IsDescendant(sc) && IsDescendant(rel) && |rel| > 0
    requires AllSpace(ws1) && AllSpace(ws2)
    requires !IsSpace(rel[|rel| - 1][|rel[|rel| - 1]| - 1])
    ensures ResolveLine(ws1 + "/" + Join(sc + rel) + ws2, "/" + Join(sc), cwd) == rel
  {
    var x := sc + rel;
    var t := "/" + Join(x);
    var line := ws1 + "/" + Join(x) + ws2;
    var source := "/" + Join(sc);
    assert IsDescendant(x) by {
      assert forall j :: |sc| <= j < |x| ==> x[j] == rel[j - |sc|];
    }
    assert Strip(line) == t by {
      assert line == ws1 + t + ws2;
      JoinEnds(x);
      StripPadding(ws1, t, ws2);
    }
    assert AbsPath(NormPath(t), cwd) == t by {
      NormPathRooted(x);
    }
    assert RelPath(t, source, cwd) == rel by {
      AbsCompsRooted(x, cwd);
      AbsCompsRooted(sc, cwd);
      RelOfPrefix(sc, x);
      assert x[|sc|..] == rel;
    }
  }

  lemma NormPathNames(rel: Path)
    requires IsDescendant(rel) && |rel| > 0
    ensures NormPath(Join(rel)) == Join(rel)
  {
    var s := Join(rel);
    assert s != "" && !IsAbs(s) by {
      JoinEnds(rel);
      assert '/' !in rel[0];
    }
    var comps := NormComps([], Split(s), false);
    assert comps == rel by {
      SplitJoin(rel);
      NormCompsNames([], rel, false);
    }
    assert NormPath(s) == "" + Join(comps);
    assert "" + Join(rel) == s;
  }

  /** A rooted path of names does not end in a separator. */
  lemma RootedEnd(sc: seq<string>)
    requires IsDescendant(sc) && |sc| > 0
    ensures var root := "/" + Join(sc); root[|root| - 1] != '/'
  {
    JoinEnds(sc);
    var root := "/" + Join(sc);
    assert root[|root| - 1] == Join(sc)[|Join(sc)| - 1];
    assert IsName(sc[|sc| - 1]);
  }

  lemma JoinPathRooted(sc: seq<string>, rel: Path)
    requires IsDescendant(sc) && IsDescendant(rel) && |rel| > 0
    ensures JoinPath("/" + Join(sc), Join(rel)) == "/" + Join(sc + rel)
  {
    JoinEnds(rel);
    var root := "/" + Join(sc);
    if sc == [] {
      assert root == "/";
      assert sc + rel == rel;
    } else {
      RootedEnd(sc);
      JoinAppend(sc, rel);
      assert root + "/" + Join(rel) == "/" + (Join(sc) + "/" + Join(rel));
    }
  }

  /** A relative line of names, read with the source root as working
      directory, is the root followed by the line. */
  lemma RelativeUnderRoot(sc: seq<string>, rel: Path)
    requires IsDescendant(sc) && IsDescendant(rel) && |rel| > 0
    ensures IsDescendant(sc + rel)
    ensures AbsPath(Join(rel), "/" + Join(sc)) == "/" + Join(sc + rel)
  {
    var x := sc + rel;
    assert IsDescendant(x) by {
      assert forall j :: |sc| <= j < |x| ==> x[j] == rel[j - |sc|];
    }
    JoinEnds(rel);
    JoinPathRooted(sc, rel);
    NormPathRooted(x);
  }

  /** Round trip for relative lines: with the source root as working
      directory, a padded line `rel` becomes the key `rel`. */
  lemma ResolveRelativeLine(sc: seq<string>, rel: Path, ws1: string, ws2: string)
    requires IsDescendant(sc) && IsDescendant(rel) && |rel| > 0
    requires AllSpace(ws1) && AllSpace(ws2)
    requires !IsSpace(rel[0][0]) && !IsSpace(rel[|rel| - 1][|rel[|rel| - 1]| - 1])
    ensures ResolveLine(ws1 + Join(rel) + ws2, "/" + Join(sc), "/" + Join(sc)) == rel
  {
    var root := "/" + Join(sc);
    var t := Join(rel);
    assert Strip(ws1 + t + ws2) == t by {
      JoinEnds(rel);
      StripPadding(ws1, t, ws2);
    }
    assert NormPath(t) == t by {
      NormPathNames(rel);
    }
    RelativeUnderRoot(sc, rel);
    assert RelPath("/" + Join(sc + rel), root, root) == rel by {
      AbsCompsRooted(sc + rel, root);
      AbsCompsRooted(sc, root);
      RelOfPrefix(sc, sc + rel);
      assert (sc + rel)[|sc|..] == rel;
    }
  }
}
