/** POSIX path strings as the conversion script builds and uses them:
    `os.path.join`, the directory and last component of a path, and the
    directories `os.makedirs` brings into existence. */
module PosixPath {
  import PyStr

  /** `os.path.join(a, b)` on POSIX: an absolute `b` replaces `a`, and a `/`
      is inserted only when `a` is non-empty and does not already end in one. */
  function Join2(a: string, b: string): (r: string)
  {
    if |b| > 0 && b[0] == '/' then b
    else if a == [] || a[|a| - 1] == '/' then a + b
    else a + "/" + b
  }

  /** `os.path.join(a, b)` always ends with `b`, and it keeps `a` in front
      unless `b` is absolute. */
  lemma Join2Ends(a: string, b: string)
    ensures |b| <= |Join2(a, b)| && Join2(a, b)[|Join2(a, b)| - |b|..] == b
    ensures b == [] || b[0] != '/' ==> a <= Join2(a, b)
  {
  }

  /** `os.path.join(p0, p1, ..., pn)`: `Join2` folded from the left. */
  function JoinAll(parts: seq<string>): (r: string)
    requires |parts| >= 1
    ensures |r| >= |parts[|parts| - 1]|
    ensures r[|r| - |parts[|parts| - 1]|..] == parts[|parts| - 1]
  {
    if |parts| == 1 then parts[0]
    else Join2(JoinAll(parts[..|parts| - 1]), parts[|parts| - 1])
  }

  lemma JoinAllSnoc(parts: seq<string>, x: string)
    requires |parts| >= 1
    ensures JoinAll(parts + [x]) == Join2(JoinAll(parts), x)
  {
    assert (parts + [x])[..|parts|] == parts;
  }

  /** `os.path.join(a, b)` puts one `/` between a relative `b` and an `a`
      that does not end in one. */
  lemma Join2Plain(a: string, b: string)
    requires a != [] && a[|a| - 1] != '/'
    requires b == [] || b[0] != '/'
    ensures Join2(a, b) == a + "/" + b
  {
  }

  /** Everything before the last `/` of a path (empty when there is none). */
  function DirPart(p: string): (r: string)
    ensures '/' in p ==> |r| < |p| && p[..|r|] == r && p[|r|] == '/'
    ensures '/' !in p ==> r == []
  {
    if p == [] then []
    else if p[|p| - 1] == '/' then p[..|p| - 1]
    else DirPart(p[..|p| - 1])
  }

  /** Everything after the last `/` of a path. */
  function BaseName(p: string): (r: string)
    ensures '/' !in r
    ensures |r| <= |p| && p[|p| - |r|..] == r
  {
    if p == [] then []
    else if p[|p| - 1] == '/' then []
    else BaseName(p[..|p| - 1]) + [p[|p| - 1]]
  }

  /** The directories that exist once `os.makedirs(p)` has succeeded: `p`
      itself and every proper prefix of `p` that ends just before a `/`. */
  function Lineage(p: string): set<string>
  {
    {p} + set i | 0 < i < |p| && p[i] == '/' :: p[..i]
  }

  /** A set of directories that, with each directory, holds its ancestors:
      what a real file system always satisfies. */
  ghost predicate Closed(dirs: set<string>)
  {
    forall p :: p in dirs ==> Lineage(p) <= dirs
  }

  /** Splitting a path at a `/` that is followed by no other `/`. */
  lemma {:induction false} DirAndBase(x: string, y: string)
    requires '/' !in y
    ensures DirPart(x + "/" + y) == x
    ensures BaseName(x + "/" + y) == y
  {
    DirOf(x, y);
    BaseOf(x, y);
  }

  lemma {:induction false} DirOf(x: string, y: string)
    requires '/' !in y
    ensures DirPart(x + "/" + y) == x
  {
    var p := x + "/" + y;
    if y == [] {
      assert p[|p| - 1] == '/';
      assert p[..|p| - 1] == x;
    } else {
      var y' := y[..|y| - 1];
      assert p[|p| - 1] == y[|y| - 1];
      assert p[..|p| - 1] == x + "/" + y';
      DirOf(x, y');
    }
  }

  lemma {:induction false} BaseOf(x: string, y: string)
    requires '/' !in y
    ensures BaseName(x + "/" + y) == y
  {
    var p := x + "/" + y;
    if y == [] {
      assert p[|p| - 1] == '/';
    } else {
      var y' := y[..|y| - 1];
      assert p[|p| - 1] == y[|y| - 1];
      assert p[..|p| - 1] == x + "/" + y';
      BaseOf(x, y');
      assert y' + [y[|y| - 1]] == y;
    }
  }

  /** A non-empty directory part of a path is one of its ancestors. */
  lemma DirPartInLineage(x: string, y: string)
    requires x != []
    ensures x in Lineage(x + "/" + y)
  {
    var p := x + "/" + y;
    assert p[|x|] == '/' && p[..|x|] == x;
  }

  /** Ancestors of an ancestor are ancestors. */
  lemma LineageOfLineage(p: string, q: string)
    requires q in Lineage(p)
    ensures Lineage(q) <= Lineage(p)
  {
    if q != p {
      var i :| 0 < i < |p| && p[i] == '/' && q == p[..i];
      forall r | r in Lineage(q) ensures r in Lineage(p) {
        if r != q {
          var j :| 0 < j < |q| && q[j] == '/' && r == q[..j];
          assert p[j] == '/' && r == p[..j];
        }
      }
    }
  }

  /** The ancestors of one path, added to a closed set, keep it closed. */
  lemma AddLineageClosed(dirs: set<string>, p: string)
    requires Closed(dirs)
    ensures Closed(dirs + Lineage(p))
  {
    forall q | q in dirs + Lineage(p) ensures Lineage(q) <= dirs + Lineage(p) {
      if q !in dirs {
        LineageOfLineage(p, q);
      }
    }
  }

  /** `os.path.join` is a plain `"/".join` when no piece but the first starts
      with `/` and no piece but the last is empty or ends with `/`. */
  lemma {:induction false} JoinAllIsSlashJoin(parts: seq<string>)
    requires |parts| >= 1
    requires forall i :: 1 <= i < |parts| ==> parts[i] == [] || parts[i][0] != '/'
    requires forall i :: 0 <= i < |parts| - 1 ==> parts[i] != [] && parts[i][|parts[i]| - 1] != '/'
    ensures JoinAll(parts) == PyStr.Join(parts, '/')
  {
    if |parts| > 1 {
      var init := parts[..|parts| - 1];
      JoinAllIsSlashJoin(init);
      var j := PyStr.Join(init, '/');
      assert j != [] && j[|j| - 1] == init[|init| - 1][|init[|init| - 1]| - 1];
    }
  }
}
