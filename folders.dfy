/** The Maildir-subfolder to Thunderbird `.sbd` mapping of maildir2mbox.py:
    which directory names found by the walk are subfolders, and for each one
    the `.sbd` directory to create and the mbox file to convert into. */
module Folders {
  import PyStr
  import PosixPath

  /** The condition of the `listofdirs` comprehension: not one of a Maildir's
      own `new`, `cur` and `tmp` directories, and hidden (starts with `.`). */
  predicate IsSubfolder(name: string)
  {
    name !in ["new", "cur", "tmp"] && |name| > 0 && name[0] == '.'
  }

  /** The directory names of every directory the walk visits, in walk order. */
  function Flatten(walk: seq<seq<string>>): seq<string>
  {
    if walk == [] then [] else walk[0] + Flatten(walk[1..])
  }

  /** The names that pass the subfolder test, in the order given. */
  function Keep(names: seq<string>): seq<string>
  {
    if names == [] then []
    else (if IsSubfolder(names[0]) then [names[0]] else []) + Keep(names[1..])
  }

  /** `listofdirs`: the subfolders among all the names the walk produced. */
  function ListOfDirs(walk: seq<seq<string>>): (r: seq<string>)
    ensures forall x :: x in r ==> IsSubfolder(x)
  {
    KeepOnlySubfolders(Flatten(walk));
    Keep(Flatten(walk))
  }

  lemma {:induction false} KeepOnlySubfolders(names: seq<string>)
    ensures forall x :: x in Keep(names) ==> IsSubfolder(x)
  {
    if names != [] {
      KeepOnlySubfolders(names[1..]);
    }
  }

  /** A name as the walk reports it: the last component of a path. */
  predicate IsBaseName(name: string)
  {
    '/' !in name
  }

  /** The non-empty pieces of a list, in order (the `if dn` of the script). */
  function NonEmpty(xs: seq<string>): (r: seq<string>)
    ensures |r| <= |xs|
  {
    if xs == [] then []
    else (if xs[0] != [] then [xs[0]] else []) + NonEmpty(xs[1..])
  }

  /** The chain of folder names a subfolder name encodes: its non-empty
      `.`-separated pieces. */
  function Segments(name: string): seq<string>
  {
    NonEmpty(PyStr.Split(name, '.'))
  }

  /** Each piece with `.sbd` appended. */
  function Sbd(xs: seq<string>): (r: seq<string>)
    ensures |r| == |xs|
  {
    if xs == [] then [] else Sbd(xs[..|xs| - 1]) + [xs[|xs| - 1] + ".sbd"]
  }

  /** `curpath`: the `.sbd` directory created for subfolder `name` of the
      mailbox converted into `mbox`, joined from `[mbox] + name.split('.')`
      with the empty pieces dropped and `.sbd` appended to the rest. */
  function SbdDir(mbox: string, name: string): (r: string)
    requires mbox != []
    ensures |r| >= 4 && r[|r| - 4..] == ".sbd"
  {
    var pieces := NonEmpty([mbox] + PyStr.Split(name, '.'));
    assert pieces[0] == mbox;
    PosixPath.JoinAll(Sbd(pieces))
  }

  /** `curpath[:-4]`: the mbox file that subfolder `name` is converted into. */
  function Target(mbox: string, name: string): (r: string)
    requires mbox != []
    ensures r + ".sbd" == SbdDir(mbox, name)
  {
    PyStr.CutEnd(SbdDir(mbox, name), 4)
  }

  /** The layout the `.sbd` convention prescribes, written out directly:
      `mbox.sbd/s1.sbd/.../s(n-1).sbd/sn` for the chain `[s1, ..., sn]`, and
      `mbox` itself for the empty chain. */
  function Chain(mbox: string, segs: seq<string>): string
  {
    if segs == [] then mbox
    else Chain(mbox, segs[..|segs| - 1]) + ".sbd/" + segs[|segs| - 1]
  }

  lemma {:induction false} NonEmptyFront(x: string, xs: seq<string>)
    requires x != []
    ensures NonEmpty([x] + xs) == [x] + NonEmpty(xs)
  {
    assert ([x] + xs)[1..] == xs;
  }

  lemma {:induction false} NonEmptyPieces(xs: seq<string>, c: char)
    requires forall i :: 0 <= i < |xs| ==> c !in xs[i]
    ensures forall i :: 0 <= i < |NonEmpty(xs)| ==> c !in NonEmpty(xs)[i]
  {
    if xs != [] {
      NonEmptyPieces(xs[1..], c);
    }
  }

  /** The segments of a name contain neither `.` nor, for a base name, `/`. */
  lemma SegmentsArePlain(name: string)
    ensures forall i :: 0 <= i < |Segments(name)| ==> '.' !in Segments(name)[i]
    ensures IsBaseName(name) ==> forall i :: 0 <= i < |Segments(name)| ==> '/' !in Segments(name)[i]
  {
    var pieces := PyStr.Split(name, '.');
    PyStr.SplitPiecesLack(name, '.', '.');
    NonEmptyPieces(pieces, '.');
    if IsBaseName(name) {
      PyStr.SplitPiecesLack(name, '.', '/');
      NonEmptyPieces(pieces, '/');
    }
  }

  /** The `.sbd` directory is exactly the `.sbd` form of the chain `[mbox] +
      segs`, whenever no segment holds a `/`. */
  lemma {:induction false} JoinedChain(mbox: string, segs: seq<string>)
    requires mbox != []
    requires forall i :: 0 <= i < |segs| ==> '/' !in segs[i]
    ensures PosixPath.JoinAll(Sbd([mbox] + segs)) == Chain(mbox, segs) + ".sbd"
  {
    if segs != [] {
      var init, seg := segs[..|segs| - 1], segs[|segs| - 1];
      JoinedChain(mbox, init);
      var upper := Chain(mbox, init) + ".sbd";
      var last := seg + ".sbd";
      SbdSnoc(mbox, segs);
      PosixPath.JoinAllSnoc(Sbd([mbox] + init), last);
      assert upper[|upper| - 1] == 'd';
      assert last[0] != '/' by {
        if seg != [] {
          assert last[0] == seg[0];
        }
      }
      PosixPath.Join2Plain(upper, last);
      SbdStep(Chain(mbox, init), seg);
    } else {
      assert [mbox][..0] == [];
      assert Sbd([mbox] + segs) == [mbox + ".sbd"];
    }
  }

  lemma SbdStep(upper: string, seg: string)
    ensures (upper + ".sbd") + "/" + (seg + ".sbd") == upper + ".sbd/" + seg + ".sbd"
  {
    assert ".sbd" + "/" == ".sbd/";
  }

  lemma SbdSnoc(mbox: string, segs: seq<string>)
    requires segs != []
    ensures Sbd([mbox] + segs) == Sbd([mbox] + segs[..|segs| - 1]) + [segs[|segs| - 1] + ".sbd"]
  {
    ConsSnoc(mbox, segs);
    SbdAppend([mbox] + segs[..|segs| - 1], segs[|segs| - 1]);
  }

  lemma ConsSnoc(x: string, s: seq<string>)
    requires s != []
    ensures [x] + s == ([x] + s[..|s| - 1]) + [s[|s| - 1]]
  {
  }

  lemma SbdAppend(xs: seq<string>, x: string)
    ensures Sbd(xs + [x]) == Sbd(xs) + [x + ".sbd"]
  {
    assert (xs + [x])[..|xs|] == xs;
  }

  /** `curpath` and the target, for any name: the target is the reference
      layout of the name's segments, and `curpath` is that plus `.sbd`. */
  lemma TargetIsChain(mbox: string, name: string)
    requires mbox != []
    requires IsBaseName(name)
    ensures SbdDir(mbox, name) == Chain(mbox, Segments(name)) + ".sbd"
    ensures Target(mbox, name) == Chain(mbox, Segments(name))
  {
    NonEmptyFront(mbox, PyStr.Split(name, '.'));
    SegmentsArePlain(name);
    JoinedChain(mbox, Segments(name));
    var c := Chain(mbox, Segments(name));
    assert (c + ".sbd")[..|c + ".sbd"| - 4] == c;
  }

  /** Names whose segments agree are mapped to the same place, and for base
      names the converse holds too: different chains never share a target. */
  lemma SameTargetIffSameSegments(mbox: string, a: string, b: string)
    requires mbox != []
    requires IsBaseName(a) && IsBaseName(b)
    ensures Target(mbox, a) == Target(mbox, b) <==> Segments(a) == Segments(b)
  {
    TargetIsChain(mbox, a);
    TargetIsChain(mbox, b);
    SegmentsArePlain(a);
    SegmentsArePlain(b);
    if Target(mbox, a) == Target(mbox, b) {
      ChainInjective(mbox, Segments(a), Segments(b));
    }
  }

  lemma {:induction false} ChainLength(mbox: string, segs: seq<string>)
    ensures |Chain(mbox, segs)| >= |mbox| + 5 * |segs|
  {
    if segs != [] {
      ChainLength(mbox, segs[..|segs| - 1]);
    }
  }

  /** Distinct chains of `/`-free segments give distinct paths. */
  lemma {:induction false} ChainInjective(mbox: string, a: seq<string>, b: seq<string>)
    requires forall i :: 0 <= i < |a| ==> '/' !in a[i]
    requires forall i :: 0 <= i < |b| ==> '/' !in b[i]
    requires Chain(mbox, a) == Chain(mbox, b)
    ensures a == b
  {
    if a == [] || b == [] {
      ChainLength(mbox, a);
      ChainLength(mbox, b);
    } else {
      var a', b' := a[..|a| - 1], b[..|b| - 1];
      assert '/' !in a[|a| - 1] && '/' !in b[|b| - 1];
      ChainParent(mbox, a);
      ChainParent(mbox, b);
      var x, y := Chain(mbox, a') + ".sbd", Chain(mbox, b') + ".sbd";
      assert x == y;
      assert Chain(mbox, a') == x[..|x| - 4] == Chain(mbox, b');
      ChainInjective(mbox, a', b');
      assert a == a' + [a[|a| - 1]];
      assert b == b' + [b[|b| - 1]];
    }
  }

  /** A chain of at least one segment lies inside `mbox.sbd/`. */
  lemma {:induction false} ChainPrefix(mbox: string, segs: seq<string>)
    requires segs != []
    ensures mbox + ".sbd/" <= Chain(mbox, segs)
  {
    if |segs| > 1 {
      ChainPrefix(mbox, segs[..|segs| - 1]);
    }
  }

  /** Every subfolder target, and its `.sbd` directory, is inside the root's
      subfolder directory `mbox.sbd` created first. */
  lemma TargetInsideRootSbd(mbox: string, name: string)
    requires mbox != []
    requires IsBaseName(name)
    requires Segments(name) != []
    ensures mbox + ".sbd/" <= Target(mbox, name)
    ensures mbox + ".sbd/" <= SbdDir(mbox, name)
  {
    TargetIsChain(mbox, name);
    ChainPrefix(mbox, Segments(name));
  }

  /** A name made of dots only (`...`) has no segments: its target is the
      root mbox itself, so its messages are added to the root's. */
  lemma DotsOnlyTargetIsRoot(mbox: string, name: string)
    requires mbox != []
    requires Segments(name) == []
    ensures Target(mbox, name) == mbox
    ensures SbdDir(mbox, name) == mbox + ".sbd"
  {
    NonEmptyFront(mbox, PyStr.Split(name, '.'));
    assert (mbox + ".sbd")[..|mbox + ".sbd"| - 4] == mbox;
  }

  /** Nesting: the directory holding the target of `[s1..sn]` is the `.sbd`
      directory of `[s1..s(n-1)]`, or `mbox.sbd` when `n == 1`; the file
      itself is named `sn`. */
  lemma TargetParent(mbox: string, name: string)
    requires mbox != []
    requires IsBaseName(name)
    requires Segments(name) != []
    ensures var segs := Segments(name);
      PosixPath.DirPart(Target(mbox, name)) == Chain(mbox, segs[..|segs| - 1]) + ".sbd" &&
      PosixPath.BaseName(Target(mbox, name)) == segs[|segs| - 1]
    ensures |Segments(name)| == 1 ==> PosixPath.DirPart(Target(mbox, name)) == mbox + ".sbd"
  {
    var segs := Segments(name);
    TargetIsChain(mbox, name);
    SegmentsArePlain(name);
    assert '/' !in segs[|segs| - 1];
    ChainParent(mbox, segs);
    if |segs| == 1 {
      assert segs[..0] == [];
    }
  }

  /** The last step of a chain is a path component of its own. */
  lemma ChainParent(mbox: string, segs: seq<string>)
    requires segs != []
    requires '/' !in segs[|segs| - 1]
    ensures PosixPath.DirPart(Chain(mbox, segs)) == Chain(mbox, segs[..|segs| - 1]) + ".sbd"
    ensures PosixPath.BaseName(Chain(mbox, segs)) == segs[|segs| - 1]
  {
    var up := Chain(mbox, segs[..|segs| - 1]) + ".sbd";
    assert Chain(mbox, segs) == up + "/" + segs[|segs| - 1];
    PosixPath.DirAndBase(up, segs[|segs| - 1]);
  }

  /** The directory holding a subfolder's target is an ancestor of its
      `.sbd` directory, so creating the latter creates the former. */
  lemma ParentInLineage(mbox: string, name: string)
    requires mbox != []
    requires IsBaseName(name)
    requires Segments(name) != []
    ensures PosixPath.DirPart(Target(mbox, name)) in PosixPath.Lineage(SbdDir(mbox, name))
  {
    TargetParent(mbox, name);
    TargetIsChain(mbox, name);
    ChainParentInLineage(mbox, Segments(name));
  }

  lemma ChainParentInLineage(mbox: string, segs: seq<string>)
    requires segs != []
    ensures Chain(mbox, segs[..|segs| - 1]) + ".sbd" in PosixPath.Lineage(Chain(mbox, segs) + ".sbd")
  {
    var up := Chain(mbox, segs[..|segs| - 1]) + ".sbd";
    var last := segs[|segs| - 1];
    assert Chain(mbox, segs) + ".sbd" == up + "/" + (last + ".sbd");
    PosixPath.DirPartInLineage(up, last + ".sbd");
  }

  /** The parent of a subfolder's target is the `.sbd` directory that any
      folder one level up would get. */
  lemma TargetParentIsUpperSbdDir(mbox: string, name: string, upper: string)
    requires mbox != []
    requires IsBaseName(name) && IsBaseName(upper)
    requires Segments(name) != []
    requires Segments(upper) == Segments(name)[..|Segments(name)| - 1]
    ensures PosixPath.DirPart(Target(mbox, name)) == SbdDir(mbox, upper)
  {
    TargetParent(mbox, name);
    TargetIsChain(mbox, upper);
  }

  lemma {:induction false} ChainDepth(mbox: string, segs: seq<string>)
    requires forall i :: 0 <= i < |segs| ==> '/' !in segs[i]
    ensures PyStr.Count(Chain(mbox, segs), '/') == PyStr.Count(mbox, '/') + |segs|
  {
    if segs != [] {
      var init, last := segs[..|segs| - 1], segs[|segs| - 1];
      ChainDepth(mbox, init);
      PyStr.CountAppend(Chain(mbox, init) + ".sbd/", last, '/');
      PyStr.CountAppend(Chain(mbox, init), ".sbd/", '/');
      PyStr.CountAbsent(last, '/');
    }
  }

  /** The target of an `n`-segment name is `n` levels below `mbox`: it has
      `n` more `/`-separated components than `mbox` has. */
  lemma TargetDepth(mbox: string, name: string)
    requires mbox != []
    requires IsBaseName(name)
    ensures PyStr.Count(Target(mbox, name), '/') == PyStr.Count(mbox, '/') + |Segments(name)|
  {
    TargetIsChain(mbox, name);
    SegmentsArePlain(name);
    ChainDepth(mbox, Segments(name));
  }

  /** Order: the names of earlier parts of the walk come first. */
  lemma {:induction false} KeepAppend(a: seq<string>, b: seq<string>)
    ensures Keep(a + b) == Keep(a) + Keep(b)
  {
    if a == [] {
      assert a + b == b;
    } else {
      assert (a + b)[1..] == a[1..] + b;
      KeepAppend(a[1..], b);
    }
  }

  /** `listofdirs` keeps each subfolder name as often as the walk reports it
      and drops every other name. */
  lemma {:induction false} KeepCount(names: seq<string>, x: string)
    ensures multiset(Keep(names))[x] == if IsSubfolder(x) then multiset(names)[x] else 0
  {
    if names != [] {
      KeepCount(names[1..], x);
      assert names == [names[0]] + names[1..];
    }
  }

  lemma {:induction false} FlattenAppend(walk: seq<seq<string>>, names: seq<string>)
    ensures Flatten(walk + [names]) == Flatten(walk) + names
  {
    if walk == [] {
      assert Flatten([names]) == names + Flatten([]);
    } else {
      assert (walk + [names])[1..] == walk[1..] + [names];
      FlattenAppend(walk[1..], names);
    }
  }

  /** A further directory visited by the walk adds its subfolders after all
      those found so far. */
  lemma ListOfDirsAppend(walk: seq<seq<string>>, names: seq<string>)
    ensures ListOfDirs(walk + [names]) == ListOfDirs(walk) + Keep(names)
  {
    FlattenAppend(walk, names);
    KeepAppend(Flatten(walk), names);
  }

  /** A walked name is selected iff it starts with `.` and is none of `new`,
      `cur`, `tmp`; the exclusion never removes a name, as none of the three
      starts with `.`. */
  lemma ListOfDirsMembers(walk: seq<seq<string>>, x: string)
    ensures x in ListOfDirs(walk) <==> IsSubfolder(x) && exists j :: 0 <= j < |walk| && x in walk[j]
    ensures IsSubfolder(x) <==> |x| > 0 && x[0] == '.'
  {
    KeepMembers(Flatten(walk), x);
    FlattenMembers(walk, x);
  }

  lemma {:induction false} KeepMembers(names: seq<string>, x: string)
    ensures x in Keep(names) <==> x in names && IsSubfolder(x)
  {
    if names != [] {
      KeepMembers(names[1..], x);
      assert names == [names[0]] + names[1..];
    }
  }

  lemma {:induction false} FlattenMembers(walk: seq<seq<string>>, x: string)
    ensures x in Flatten(walk) <==> exists j :: 0 <= j < |walk| && x in walk[j]
  {
    if walk != [] {
      FlattenMembers(walk[1..], x);
      if x in Flatten(walk[1..]) {
        var j :| 0 <= j < |walk| - 1 && x in walk[1..][j];
        assert x in walk[j + 1];
      }
      if exists j :: 0 <= j < |walk| && x in walk[j] {
        var j :| 0 <= j < |walk| && x in walk[j];
        if j > 0 {
          assert x in walk[1..][j - 1];
        }
      }
    }
  }

  /** The chain a name gives when its `.`-separated pieces are known. */
  lemma SegmentsOfPieces(name: string, pieces: seq<string>)
    requires |pieces| >= 1
    requires forall i :: 0 <= i < |pieces| ==> '.' !in pieces[i]
    requires name == PyStr.Join(pieces, '.')
    ensures Segments(name) == NonEmpty(pieces)
  {
    PyStr.SplitJoin(pieces, '.');
  }

  // The test names below come in as parameters fixed by `requires`. This
  // keeps the solver from unfolding the string literals at every use.
  lemma SegmentsTiti(titi: string)
    requires titi == ".titi"
    ensures Segments(titi) == ["titi"]
  {
    var p := ["", "titi"];
    assert p[..1] == [""];
    assert PyStr.Join(p, '.') == titi;
    SegmentsOfPieces(titi, p);
    assert p[1..] == ["titi"] && ["titi"][1..] == [];
  }

  lemma SegmentsTitiTutu(tutu: string)
    requires tutu == ".titi.tutu"
    ensures Segments(tutu) == ["titi", "tutu"]
  {
    var p, q := ["", "titi"], ["", "titi", "tutu"];
    assert p[..1] == [""];
    assert q[..2] == p;
    assert PyStr.Join(q, '.') == tutu;
    SegmentsOfPieces(tutu, q);
    assert q[1..] == ["titi", "tutu"] && ["titi", "tutu"][1..] == ["tutu"] && ["tutu"][1..] == [];
  }

  /** The recursive conversion of the tests, first level: subfolder `.titi`
      of the mailbox converted into `test_data/mbox_toto`. */
  lemma ExampleTiti(mbox: string, titi: string)
    requires mbox == "test_data/mbox_toto"
    requires titi == ".titi"
    ensures Target(mbox, titi) == "test_data/mbox_toto.sbd/titi"
    ensures SbdDir(mbox, titi) == "test_data/mbox_toto.sbd/titi.sbd"
  {
    SegmentsTiti(titi);
    TargetIsChain(mbox, titi);
    var one := ["titi"];
    assert one[..0] == [];
    assert Chain(mbox, one) == mbox + ".sbd/" + "titi";
  }

  /** Second level: `.titi.tutu` is nested inside `titi.sbd`. */
  lemma ExampleTitiTutu(mbox: string, tutu: string)
    requires mbox == "test_data/mbox_toto"
    requires tutu == ".titi.tutu"
    ensures Target(mbox, tutu) == "test_data/mbox_toto.sbd/titi.sbd/tutu"
    ensures SbdDir(mbox, tutu) == "test_data/mbox_toto.sbd/titi.sbd/tutu.sbd"
  {
    SegmentsTitiTutu(tutu);
    TargetIsChain(mbox, tutu);
    var one, two := ["titi"], ["titi", "tutu"];
    assert one[..0] == [] && two[..1] == one;
    assert Chain(mbox, one) == mbox + ".sbd/" + "titi";
    assert Chain(mbox, two) == Chain(mbox, one) + ".sbd/" + "tutu";
  }

  /** Leading and doubled dots are ignored: `.a.b` and `.a..b` share a target. */
  lemma ExampleDoubledDot(mbox: string, single: string, doubled: string)
    requires mbox != []
    requires single == ".a.b" && doubled == ".a..b"
    ensures Target(mbox, single) == Target(mbox, doubled) == Chain(mbox, ["a", "b"])
  {
    var p, q := ["", "a", "b"], ["", "a", "", "b"];
    assert p[..2] == ["", "a"] && ["", "a"][..1] == [""];
    assert PyStr.Join(p, '.') == single;
    assert q[..3] == ["", "a", ""] && ["", "a", ""][..2] == ["", "a"];
    assert PyStr.Join(q, '.') == doubled;
    SegmentsOfPieces(single, p);
    SegmentsOfPieces(doubled, q);
    assert NonEmpty(p) == ["a", "b"] by {
      assert p[1..] == ["a", "b"];
      assert ["a", "b"][1..] == ["b"];
      assert ["b"][1..] == [];
    }
    assert NonEmpty(q) == ["a", "b"] by {
      assert q[1..] == ["a", "", "b"];
      assert ["a", "", "b"][1..] == ["", "b"];
      assert ["", "b"][1..] == ["b"];
      assert ["b"][1..] == [];
    }
    TargetIsChain(mbox, single);
    TargetIsChain(mbox, doubled);
  }
}
