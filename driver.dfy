/** The conversion run of maildir2mbox.py: the root Maildir is converted
    first, its `.sbd` directory is made, then every subfolder in walk order
    gets its `.sbd` directory and is converted into its own mbox file. */
module Driver {
  import PyStr
  import PosixPath
  import Folders

  /** One call `maildir2mailbox(source, target)`. */
  datatype Mapping = Mapping(source: string, target: string)

  /** What the run does to the file system, one entry per call, in order. */
  datatype Action =
    | Convert(pair: Mapping)   // maildir2mailbox(pair.source, pair.target)
    | EnsureDir(path: string)  // if not os.path.exists(path): os.makedirs(path)

  /** The directories the script's own `os.makedirs` calls leave after one
      action: the path and its missing ancestors are made when the path is
      missing. A conversion is counted as making none; the Maildir
      directories that `mailbox.Maildir` creates for a missing source are
      not tracked. */
  function Step(dirs: set<string>, a: Action): (r: set<string>)
    ensures dirs <= r
    ensures a.EnsureDir? ==> a.path in r
    ensures a.Convert? ==> r == dirs
  {
    match a
    case Convert(_) => dirs
    case EnsureDir(p) => if p in dirs then dirs else dirs + PosixPath.Lineage(p)
  }

  /** The directories that exist after a sequence of actions. */
  function Replay(dirs: set<string>, trace: seq<Action>): set<string>
  {
    if trace == [] then dirs
    else Step(Replay(dirs, trace[..|trace| - 1]), trace[|trace| - 1])
  }

  /** The calls on one subfolder `name`: create `curpath`, then convert
      `os.path.join(dirname, name)` into `curpath[:-4]`. */
  function FolderSteps(dirname: string, mbox: string, name: string): seq<Action>
    requires mbox != []
  {
    [EnsureDir(Folders.SbdDir(mbox, name)),
     Convert(Mapping(PosixPath.Join2(dirname, name), Folders.Target(mbox, name)))]
  }

  function SubfolderSteps(dirname: string, mbox: string, names: seq<string>): (r: seq<Action>)
    requires mbox != []
    ensures |r| == 2 * |names|
  {
    if names == [] then []
    else SubfolderSteps(dirname, mbox, names[..|names| - 1]) + FolderSteps(dirname, mbox, names[|names| - 1])
  }

  /** The calls on the root: convert `dirname` into `mbox`, then create
      `mbox.sbd`. */
  function RootSteps(dirname: string, mbox: string): seq<Action>
  {
    [Convert(Mapping(dirname, mbox)), EnsureDir(mbox + ".sbd")]
  }

  /** Everything the run does, given the `listofdirs` it computes. */
  function Script(dirname: string, mbox: string, listofdirs: seq<string>): (r: seq<Action>)
    requires mbox != []
    ensures |r| == 2 + 2 * |listofdirs|
    ensures RootSteps(dirname, mbox) <= r
  {
    RootSteps(dirname, mbox) + SubfolderSteps(dirname, mbox, listofdirs)
  }

  /** The conversions of a trace, in order. */
  function Conversions(trace: seq<Action>): seq<Mapping>
  {
    if trace == [] then []
    else
      var last := trace[|trace| - 1];
      Conversions(trace[..|trace| - 1]) + (if last.Convert? then [last.pair] else [])
  }

  /** Each subfolder paired with its target, in order. */
  function Pairs(dirname: string, mbox: string, names: seq<string>): (r: seq<Mapping>)
    requires mbox != []
    ensures |r| == |names|
  {
    if names == [] then []
    else
      var name := names[|names| - 1];
      Pairs(dirname, mbox, names[..|names| - 1])
        + [Mapping(PosixPath.Join2(dirname, name), Folders.Target(mbox, name))]
  }

  /** The conversion plan as the `.sbd` layout describes it: the root into
      `mbox`, then each subfolder in order into its target. */
  function Plan(dirname: string, mbox: string, names: seq<string>): seq<Mapping>
    requires mbox != []
  {
    [Mapping(dirname, mbox)] + Pairs(dirname, mbox, names)
  }

  /** Lines 67-83 of the script, after the arguments are read: the root is
      converted and `mbox.sbd` made (lines 71-72), then for each name of
      `listofdirs` (lines 74-77) its `curpath` is made and the subfolder
      converted into `curpath[:-4]` (lines 78-83). */
  method Run(dirname: string, mboxname: string, walk: seq<seq<string>>, existing: set<string>)
    returns (trace: seq<Action>, dirs: set<string>)
    requires mboxname != []
    ensures trace == Script(dirname, mboxname, Folders.ListOfDirs(walk))
    ensures dirs == Replay(existing, trace)
    ensures Conversions(trace) == Plan(dirname, mboxname, Folders.ListOfDirs(walk))
    ensures PosixPath.Closed(existing) ==> PosixPath.Closed(dirs)
  {
    var mboxdirname := mboxname + ".sbd";
    trace := [Convert(Mapping(dirname, mboxname))];
    dirs := existing;
    if mboxdirname !in dirs {
      dirs := dirs + PosixPath.Lineage(mboxdirname);
    }
    assert dirs == Step(existing, EnsureDir(mboxdirname));
    trace := trace + [EnsureDir(mboxdirname)];
    RootReplay(existing, dirname, mboxname);
    var listofdirs := Folders.ListOfDirs(walk);
    assert listofdirs[..0] == [];
    assert trace == Script(dirname, mboxname, listofdirs[..0]);
    for i := 0 to |listofdirs|
      invariant trace == Script(dirname, mboxname, listofdirs[..i])
      invariant dirs == Replay(existing, trace)
    {
      var curfold := listofdirs[i];
      var curpath := Folders.SbdDir(mboxname, curfold);
      if curpath !in dirs {
        dirs := dirs + PosixPath.Lineage(curpath);
      }
      assert dirs == Step(Replay(existing, trace), EnsureDir(curpath));
      var conversion := Convert(Mapping(PosixPath.Join2(dirname, curfold), PyStr.CutEnd(curpath, 4)));
      assert [EnsureDir(curpath), conversion] == FolderSteps(dirname, mboxname, curfold);
      FolderStepsReplay(existing, trace, dirname, mboxname, curfold);
      trace := trace + [EnsureDir(curpath), conversion];
      ScriptStep(dirname, mboxname, listofdirs, i);
    }
    assert listofdirs[..|listofdirs|] == listofdirs;
    ScriptPlan(dirname, mboxname, listofdirs);
    if PosixPath.Closed(existing) {
      ReplayClosed(existing, trace);
    }
  }

  /** The root's calls change the directories only by making `mbox.sbd`. */
  lemma RootReplay(dirs: set<string>, dirname: string, mbox: string)
    ensures Replay(dirs, RootSteps(dirname, mbox)) == Step(dirs, EnsureDir(mbox + ".sbd"))
  {
    var root := RootSteps(dirname, mbox);
    ReplayAppend(dirs, [], root[0]);
    ReplayAppend(dirs, [root[0]], root[1]);
    assert [root[0]] + [root[1]] == root;
  }

  /** One subfolder's calls change the directories only by making its
      `curpath`. */
  lemma FolderStepsReplay(dirs: set<string>, trace: seq<Action>, dirname: string, mbox: string, name: string)
    requires mbox != []
    ensures Replay(dirs, trace + FolderSteps(dirname, mbox, name))
      == Step(Replay(dirs, trace), EnsureDir(Folders.SbdDir(mbox, name)))
  {
    var steps := FolderSteps(dirname, mbox, name);
    ReplayAppend(dirs, trace, steps[0]);
    ReplayAppend(dirs, trace + [steps[0]], steps[1]);
    assert trace + [steps[0]] + [steps[1]] == trace + steps;
  }

  lemma ReplayAppend(dirs: set<string>, trace: seq<Action>, a: Action)
    ensures Replay(dirs, trace + [a]) == Step(Replay(dirs, trace), a)
  {
    assert (trace + [a])[..|trace|] == trace;
  }

  /** One more name of `listofdirs` adds exactly that folder's two calls. */
  lemma ScriptStep(dirname: string, mbox: string, names: seq<string>, i: nat)
    requires mbox != []
    requires i < |names|
    ensures Script(dirname, mbox, names[..i + 1])
      == Script(dirname, mbox, names[..i]) + FolderSteps(dirname, mbox, names[i])
  {
    assert names[..i + 1][..i] == names[..i];
  }

  lemma ConversionsOfPair(a: Action, b: Action)
    ensures Conversions([a, b]) == (if a.Convert? then [a.pair] else []) + (if b.Convert? then [b.pair] else [])
  {
    assert [a][..0] == [];
    assert Conversions([a]) == Conversions([]) + (if a.Convert? then [a.pair] else []);
    assert [a, b][..1] == [a];
  }

  lemma {:induction false} ConversionsAppend(a: seq<Action>, b: seq<Action>)
    ensures Conversions(a + b) == Conversions(a) + Conversions(b)
  {
    if b != [] {
      var b' := b[..|b| - 1];
      assert (a + b)[..|a + b| - 1] == a + b';
      ConversionsAppend(a, b');
    } else {
      assert a + b == a;
    }
  }

  lemma {:induction false} SubfolderConversions(dirname: string, mbox: string, names: seq<string>)
    requires mbox != []
    ensures Conversions(SubfolderSteps(dirname, mbox, names)) == Pairs(dirname, mbox, names)
  {
    if names != [] {
      var init, name := names[..|names| - 1], names[|names| - 1];
      SubfolderConversions(dirname, mbox, init);
      var steps := FolderSteps(dirname, mbox, name);
      ConversionsAppend(SubfolderSteps(dirname, mbox, init), steps);
      ConversionsOfPair(steps[0], steps[1]);
      assert [steps[0], steps[1]] == steps;
    }
  }

  /** The conversions the run makes are exactly the plan. */
  lemma ScriptPlan(dirname: string, mbox: string, listofdirs: seq<string>)
    requires mbox != []
    ensures Conversions(Script(dirname, mbox, listofdirs)) == Plan(dirname, mbox, listofdirs)
  {
    var root := RootSteps(dirname, mbox);
    ConversionsAppend(root, SubfolderSteps(dirname, mbox, listofdirs));
    ConversionsOfPair(root[0], root[1]);
    SubfolderConversions(dirname, mbox, listofdirs);
  }

  lemma {:induction false} PairsAt(dirname: string, mbox: string, names: seq<string>, i: nat)
    requires mbox != []
    requires i < |names|
    ensures Pairs(dirname, mbox, names)[i]
      == Mapping(PosixPath.Join2(dirname, names[i]), Folders.Target(mbox, names[i]))
  {
    var init := names[..|names| - 1];
    if i < |init| {
      PairsAt(dirname, mbox, init, i);
    }
  }

  /** The plan has one entry more than `listofdirs` has names, and the root
      comes first, also for an empty `listofdirs`. */
  lemma PlanShape(dirname: string, mbox: string, names: seq<string>)
    requires mbox != []
    ensures |Plan(dirname, mbox, names)| == 1 + |names|
    ensures Plan(dirname, mbox, names)[0] == Mapping(dirname, mbox)
  {
  }

  /** After the root (see `PlanShape`), name `i` is converted from
      `os.path.join(dirname, name)` into its target, as entry `i + 1`. */
  lemma PlanAt(dirname: string, mbox: string, names: seq<string>, i: nat)
    requires mbox != []
    requires i < |names|
    ensures Plan(dirname, mbox, names)[i + 1]
      == Mapping(PosixPath.Join2(dirname, names[i]), Folders.Target(mbox, names[i]))
  {
    PairsAt(dirname, mbox, names, i);
  }

  /** Each subfolder is read from `dirname/name`: its name starts with `.`,
      so `os.path.join` never discards `dirname`. */
  lemma SubfolderSource(dirname: string, mbox: string, walk: seq<seq<string>>, i: nat)
    requires mbox != []
    requires i < |Folders.ListOfDirs(walk)|
    requires dirname != [] && dirname[|dirname| - 1] != '/'
    ensures Plan(dirname, mbox, Folders.ListOfDirs(walk))[i + 1].source
      == dirname + "/" + Folders.ListOfDirs(walk)[i]
  {
    var names := Folders.ListOfDirs(walk);
    PlanAt(dirname, mbox, names, i);
    Folders.ListOfDirsMembers(walk, names[i]);
  }

  lemma {:induction false} ReplayClosed(dirs: set<string>, trace: seq<Action>)
    requires PosixPath.Closed(dirs)
    ensures PosixPath.Closed(Replay(dirs, trace))
  {
    if trace != [] {
      var before := Replay(dirs, trace[..|trace| - 1]);
      ReplayClosed(dirs, trace[..|trace| - 1]);
      match trace[|trace| - 1]
      case Convert(_) =>
      case EnsureDir(p) =>
        if p !in before {
          PosixPath.AddLineageClosed(before, p);
        }
    }
  }

  /** Directories once made stay: replaying more actions only adds. */
  lemma {:induction false} ReplayGrows(dirs: set<string>, a: seq<Action>, b: seq<Action>)
    ensures Replay(dirs, a) <= Replay(dirs, a + b)
  {
    if b != [] {
      var b' := b[..|b| - 1];
      assert (a + b)[..|a + b| - 1] == a + b';
      ReplayGrows(dirs, a, b');
    } else {
      assert a + b == a;
    }
  }

  /** On a real file system, after `EnsureDir(p)` the directory `p` and all
      its ancestors exist. */
  lemma EnsureDirProvides(dirs: set<string>, p: string)
    requires PosixPath.Closed(dirs)
    ensures PosixPath.Lineage(p) <= Step(dirs, EnsureDir(p))
  {
  }

  /** The run on the first `k` names is the beginning of the whole run. */
  lemma ScriptPrefix(dirname: string, mbox: string, names: seq<string>, k: nat)
    requires mbox != []
    requires k <= |names|
    ensures Script(dirname, mbox, names[..k]) <= Script(dirname, mbox, names)
  {
    SubfolderPrefix(dirname, mbox, names, k);
  }

  lemma {:induction false} SubfolderPrefix(dirname: string, mbox: string, names: seq<string>, k: nat)
    requires mbox != []
    requires k <= |names|
    ensures SubfolderSteps(dirname, mbox, names[..k]) <= SubfolderSteps(dirname, mbox, names)
  {
    if k < |names| {
      var init := names[..|names| - 1];
      assert names[..k] == init[..k];
      SubfolderPrefix(dirname, mbox, init, k);
    } else {
      assert names[..k] == names;
    }
  }

  /** Subfolder `i`'s two calls come right after the run on the names
      before it, and all of that begins the whole run. */
  lemma ScriptThrough(dirname: string, mbox: string, names: seq<string>, i: nat)
    requires mbox != []
    requires i < |names|
    ensures Script(dirname, mbox, names[..i]) + FolderSteps(dirname, mbox, names[i])
      <= Script(dirname, mbox, names)
  {
    ScriptStep(dirname, mbox, names, i);
    ScriptPrefix(dirname, mbox, names, i + 1);
  }

  /** A directory made, with its ancestors, on a closed set of directories. */
  lemma MadeWithAncestors(dirs: set<string>, trace: seq<Action>, p: string, q: string)
    requires PosixPath.Closed(dirs)
    requires q in PosixPath.Lineage(p)
    ensures q in Replay(dirs, trace + [EnsureDir(p)])
  {
    ReplayClosed(dirs, trace);
    ReplayAppend(dirs, trace, EnsureDir(p));
    EnsureDirProvides(Replay(dirs, trace), p);
  }

  /** A directory made at some step of a trace is there when it ends. */
  lemma MadeStays(dirs: set<string>, trace: seq<Action>, k: nat, p: string)
    requires k < |trace| && trace[k] == EnsureDir(p)
    ensures p in Replay(dirs, trace)
  {
    var upto := trace[..k + 1];
    assert upto == trace[..k] + [EnsureDir(p)];
    ReplayAppend(dirs, trace[..k], EnsureDir(p));
    assert trace == upto + trace[k + 1..];
    ReplayGrows(dirs, upto, trace[k + 1..]);
  }

  /** Before subfolder `i` is converted, the directory that will hold its
      mbox file exists: the run up to that conversion made it, so the
      target's parent `.sbd` directory is in place before any message is
      written. */
  lemma SubfolderParentReady(dirname: string, mbox: string, listofdirs: seq<string>,
                             existing: set<string>, i: nat)
    requires mbox != []
    requires PosixPath.Closed(existing)
    requires i < |listofdirs|
    requires Folders.IsBaseName(listofdirs[i])
    requires Folders.Segments(listofdirs[i]) != []
    ensures var f := listofdirs[i];
      var before := Script(dirname, mbox, listofdirs[..i]) + [EnsureDir(Folders.SbdDir(mbox, f))];
      before + [Convert(Mapping(PosixPath.Join2(dirname, f), Folders.Target(mbox, f)))]
        <= Script(dirname, mbox, listofdirs) &&
      PosixPath.DirPart(Folders.Target(mbox, f)) in Replay(existing, before)
  {
    var f := listofdirs[i];
    var done := Script(dirname, mbox, listofdirs[..i]);
    var steps := FolderSteps(dirname, mbox, f);
    ScriptThrough(dirname, mbox, listofdirs, i);
    assert done + [steps[0]] + [steps[1]] == done + steps;
    Folders.ParentInLineage(mbox, f);
    MadeWithAncestors(existing, done, Folders.SbdDir(mbox, f), PosixPath.DirPart(Folders.Target(mbox, f)));
  }

  /** Every subfolder's `.sbd` directory exists when the run ends. */
  lemma EverySbdDirMade(dirname: string, mbox: string, listofdirs: seq<string>,
                        existing: set<string>, i: nat)
    requires mbox != []
    requires i < |listofdirs|
    ensures Folders.SbdDir(mbox, listofdirs[i]) in Replay(existing, Script(dirname, mbox, listofdirs))
  {
    var whole := Script(dirname, mbox, listofdirs);
    var done := Script(dirname, mbox, listofdirs[..i]);
    var steps := FolderSteps(dirname, mbox, listofdirs[i]);
    ScriptThrough(dirname, mbox, listofdirs, i);
    assert (done + steps)[|done|] == steps[0];
    MadeStays(existing, whole, |done|, Folders.SbdDir(mbox, listofdirs[i]));
  }

  /** The root's `.sbd` directory is made right after the root conversion,
      before any subfolder, and every subfolder with at least one segment
      lies inside it. */
  lemma RootSbdFirst(dirname: string, mbox: string, listofdirs: seq<string>, existing: set<string>)
    requires mbox != []
    ensures RootSteps(dirname, mbox) <= Script(dirname, mbox, listofdirs)
    ensures mbox + ".sbd" in Replay(existing, RootSteps(dirname, mbox))
    ensures forall f :: f in listofdirs && Folders.IsBaseName(f) && Folders.Segments(f) != [] ==>
      mbox + ".sbd/" <= Folders.Target(mbox, f) && mbox + ".sbd/" <= Folders.SbdDir(mbox, f)
  {
    var root := RootSteps(dirname, mbox);
    ReplayAppend(existing, [], root[0]);
    ReplayAppend(existing, [root[0]], root[1]);
    assert [root[0], root[1]] == root;
    forall f | f in listofdirs && Folders.IsBaseName(f) && Folders.Segments(f) != []
      ensures mbox + ".sbd/" <= Folders.Target(mbox, f) && mbox + ".sbd/" <= Folders.SbdDir(mbox, f)
    {
      Folders.TargetInsideRootSbd(mbox, f);
    }
  }
}
