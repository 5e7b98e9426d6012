/** Relative paths as sequences of segments, their string form as the
    synchronizer's dictionary keys, and the code-point order that `sorted`
    puts those keys in. */
module Paths {

  type Segment = string

  /** A path relative to a tree root; `[]` is the root itself. */
  type Path = seq<Segment>

  /** A segment `os.path.relpath` can produce: non-empty, without a
      separator, and never the current-directory marker. */
  predicate IsSegment(s: Segment) {
    |s| > 0 && '/' !in s && s != "."
  }

  /** A segment naming an entry inside its directory (no parent step). */
  predicate IsName(s: Segment) {
    IsSegment(s) && s != ".."
  }

  /** Every segment is well formed; parent steps are allowed. */
  predicate IsRelative(p: Path) {
    forall i :: 0 <= i < |p| ==> IsSegment(p[i])
  }

  /** The path stays inside the root: it has names only. */
  predicate IsDescendant(p: Path) {
    forall i :: 0 <= i < |p| ==> IsName(p[i])
  }

  lemma DescendantIsRelative(p: Path)
    requires IsDescendant(p)
    ensures IsRelative(p)
  {
    assert forall i :: 0 <= i < |p| ==> IsName(p[i]);
  }

  function Parent(p: Path): (r: Path)
    requires |p| > 0
    ensures r < p && |r| == |p| - 1
  {
    p[..|p| - 1]
  }

  /** A proper prefix of a path is the parent or a proper prefix of it. */
  lemma PrefixOfParent(q: Path, p: Path)
    requires q < p
    ensures q == Parent(p) || q < Parent(p)
  {
    assert q == p[..|q|];
    if |q| < |p| - 1 {
      assert Parent(p)[..|q|] == q;
    }
  }

  /** `"/".join(c)`. */
  function Join(c: seq<string>): string
  {
    if |c| == 0 then ""
    else if |c| == 1 then c[0]
    else c[0] + "/" + Join(c[1..])
  }

  /** `s.split("/")`: always at least one piece, pieces never hold a `/`. */
  function Split(s: string): (r: seq<string>)
    ensures |r| >= 1
    ensures forall i :: 0 <= i < |r| ==> '/' !in r[i]
  {
    if |s| == 0 then [""]
    else
      var rest := Split(s[1..]);
      if s[0] == '/' then [""] + rest
      else [[s[0]] + rest[0]] + rest[1..]
  }

  /** Joining the pieces of a split gives the string back. */
  lemma {:induction false} JoinSplit(s: string)
    ensures Join(Split(s)) == s
    decreases |s|
  {
    if |s| > 0 {
      JoinSplit(s[1..]);
      var rest := Split(s[1..]);
      if s[0] == '/' {
        assert s == "/" + s[1..];
      } else if |rest| == 1 {
        assert s == [s[0]] + s[1..];
      } else {
        assert ([[s[0]] + rest[0]] + rest[1..])[1..] == rest[1..];
        assert rest[1..] == rest[1..][0..];
        assert s == [s[0]] + s[1..];
      }
    }
  }

  /** The key string of a path, as `os.path.relpath` returns it: "." for
      the root, and otherwise a string that splits back into the path. */
  function KeyString(p: Path): (r: string)
    ensures IsRelative(p) ==> r != ""
    ensures IsRelative(p) ==> (r == "." <==> p == [])
    ensures IsRelative(p) && p != [] ==> Split(r) == p
  {
    if p == [] then "."
    else if IsRelative(p) then
      SplitJoin(p);
      SplitPlain(".");
      Join(p)
    else Join(p)
  }

  lemma {:induction false} SplitSeparated(a: string, t: string)
    requires '/' !in a
    ensures Split(a + "/" + t) == [a] + Split(t)
    decreases |a|
  {
    if |a| == 0 {
      assert a + "/" + t == "/" + t;
      assert ("/" + t)[1..] == t;
    } else {
      assert (a + "/" + t)[1..] == a[1..] + "/" + t;
      SplitSeparated(a[1..], t);
      assert [a[0]] + a[1..] == a;
    }
  }

  lemma {:induction false} SplitPlain(a: string)
    requires '/' !in a
    ensures Split(a) == [a]
    decreases |a|
  {
    if |a| > 0 {
      SplitPlain(a[1..]);
      assert [a[0]] + a[1..] == a;
    }
  }

  /** Splitting undoes joining whenever no piece holds a separator. */
  lemma {:induction false} SplitJoin(c: seq<string>)
    requires |c| >= 1
    requires forall i :: 0 <= i < |c| ==> '/' !in c[i]
    ensures Split(Join(c)) == c
    decreases |c|
  {
    if |c| == 1 {
      SplitPlain(c[0]);
    } else {
      SplitJoin(c[1..]);
      SplitSeparated(c[0], Join(c[1..]));
      assert [c[0]] + c[1..] == c;
    }
  }


  /** Distinct well-formed paths have distinct key strings, so comparing key
      strings (as the dictionary does) is comparing paths. */
  lemma KeyStringInjective(p: Path, q: Path)
    requires IsRelative(p) && IsRelative(q)
    requires KeyString(p) == KeyString(q)
    ensures p == q
  {
    if p != [] && q != [] {
      SplitJoin(p);
      SplitJoin(q);
    }
  }

  /** Python's string `<`: lexicographic on code points. A proper prefix
      comes first, and nothing comes before its own prefix (so in
      particular never before itself). */
  function LexLess(a: string, b: string): (r: bool)
    ensures a < b ==> r
    ensures r ==> !(b <= a)
    decreases |a|
  {
    if |b| == 0 then false
    else if |a| == 0 then true
    else if a[0] != b[0] then a[0] < b[0]
    else
      var rest := LexLess(a[1..], b[1..]);
      assert a < b ==> a[1..] < b[1..];
      assert b <= a ==> b[1..] <= a[1..];
      rest
  }

  lemma {:induction false} LexIrreflexive(a: string)
    ensures !LexLess(a, a)
    decreases |a|
  {
    if |a| > 0 {
      LexIrreflexive(a[1..]);
    }
  }

  lemma {:induction false} LexTransitive(a: string, b: string, c: string)
    requires LexLess(a, b) && LexLess(b, c)
    ensures LexLess(a, c)
    decreases |a|
  {
    if |a| > 0 && a[0] == b[0] && b[0] == c[0] {
      LexTransitive(a[1..], b[1..], c[1..]);
    }
  }

  lemma {:induction false} LexTotal(a: string, b: string)
    requires a != b
    ensures LexLess(a, b) || LexLess(b, a)
    decreases |a|
  {
    if |a| > 0 && |b| > 0 && a[0] == b[0] {
      assert a == [a[0]] + a[1..] && b == [b[0]] + b[1..];
      LexTotal(a[1..], b[1..]);
    }
  }

  /** `k` comes first among `s` in key-string order. */
  predicate IsLeast(k: Path, s: set<Path>)
  {
    k in s && forall q :: q in s && q != k ==> LexLess(KeyString(k), KeyString(q))
  }

  lemma {:induction false} LeastExists(s: set<Path>)
    requires s != {}
    requires forall p :: p in s ==> IsRelative(p)
    ensures exists k :: IsLeast(k, s)
    decreases |s|
  {
    var x :| x in s;
    if s == {x} {
      assert IsLeast(x, s);
    } else {
      var rest := s - {x};
      LeastExists(rest);
      var m :| IsLeast(m, rest);
      if LexLess(KeyString(m), KeyString(x)) {
        forall q | q in s && q != m
          ensures LexLess(KeyString(m), KeyString(q))
        {
          if q == x {
          } else {
            assert q in rest;
          }
        }
        assert IsLeast(m, s);
      } else {
        if KeyString(m) == KeyString(x) {
          KeyStringInjective(m, x);
          assert false;
        }
        LexTotal(KeyString(m), KeyString(x));
        forall q | q in s && q != x
          ensures LexLess(KeyString(x), KeyString(q))
        {
          if q != m {
            LexTransitive(KeyString(x), KeyString(m), KeyString(q));
          }
        }
        assert IsLeast(x, s);
      }
    }
  }

  lemma LeastUnique(s: set<Path>)
    ensures forall k, k' :: IsLeast(k, s) && IsLeast(k', s) ==> k == k'
  {
    forall k, k' | IsLeast(k, s) && IsLeast(k', s)
      ensures k == k'
    {
      if k != k' {
        LexTransitive(KeyString(k), KeyString(k'), KeyString(k));
        LexIrreflexive(KeyString(k));
      }
    }
  }

  /** Strictly ascending in key-string order (so also free of repeats). */
  predicate Ascending(r: seq<Path>)
  {
    forall i, j :: 0 <= i < j < |r| ==> LexLess(KeyString(r[i]), KeyString(r[j]))
  }

  /** `sorted(keys)`: every key exactly once, in ascending key-string order. */
  function SortKeys(s: set<Path>): (r: seq<Path>)
    requires forall p :: p in s ==> IsRelative(p)
    ensures |r| == |s|
    ensures forall p :: p in s <==> p in r
    ensures Ascending(r)
    decreases |s|
  {
    if s == {} then []
    else
      LeastExists(s);
      LeastUnique(s);
      var k :| k in s && IsLeast(k, s);
      var tail := SortKeys(s - {k});
      assert forall j :: 0 <= j < |tail| ==> tail[j] in s - {k};
      [k] + tail
  }
}
