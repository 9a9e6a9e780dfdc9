# maildir2mbox folder mapper, modelled in Dafny

`maildir2mbox.py` converts a Maildir into an mbox file named on the command
line (`mboxname`). It first converts the root Maildir itself. It then makes
the directory `mboxname.sbd`. Next it walks the Maildir and collects every
directory name that starts with `.` and is none of `new`, `cur` and `tmp`.
Each such name `.s1.s2...sn` is a subfolder. For each subfolder, in walk
order, the script:

- makes the Thunderbird `.sbd` directory `mboxname.sbd/s1.sbd/.../sn.sbd`
  (`curpath`);
- converts `os.path.join(dirname, name)` into `curpath[:-4]`, that is
  `mboxname.sbd/s1.sbd/.../sn`.

This project models that mapping and that sequence of calls. It proves:

- which names are selected;
- the layout of each target;
- that the plan of conversions comes out in order;
- that every subfolder whose name has a non-empty segment finds the
  directory of its target already made when it is converted.

Modules:

- `PyStr` (`pystr.dfy`): the Python string operations the script uses.
  These are `str.split` with a one-character separator (empty pieces
  kept) and the slice `s[:-n]`. `sep.join` and `s.count` are added as the
  reference definitions used to specify them. It proves that split and
  join are inverse to each other.
- `PosixPath` (`posixpath.dfy`): POSIX `os.path.join`. An absolute
  component replaces what came before, and no `/` is added after a
  trailing `/`. The module also gives the directory part and base name of
  a path. `Lineage(p)` is the set of directories that exist once
  `os.makedirs(p)` succeeds: `p` and every prefix of `p` that ends just
  before a `/`.
- `Folders` (`folders.dfy`): the subfolder filter and the walk's order.
  It defines `curpath` (`SbdDir`) and `curpath[:-4]` (`Target`). It also
  defines `Chain`, an independent reference definition of the `.sbd`
  layout, and proves that `SbdDir` and `Target` follow it.
- `Driver` (`driver.dfy`): the top-level run as an imperative method
  `Run`. `Run` records each call as an `Action` in the order the script
  makes it. It updates the set of existing directories exactly as the
  script's own `if not os.path.exists(p): os.makedirs(p)` calls do. `Run` is proved
  against `Script` (the calls it makes) and `Replay` (the directories that
  result). Lemmas about those two state the ordering and existence
  properties.

Three modelling choices:

- The walk `os.walk(dirname)` is an input. It is the list of directory
  names (`dirinfo[1]`) of each directory it visits, in visiting order.
- The file system is the set of directories that exist, also an input.
- Python 3 scoping is followed: the comprehension variable `dirname` at
  line 75 does not replace the outer `dirname`, which line 83 uses. The
  script runs only on Python 3, because `email.message_from_binary_file`
  (line 46) does not exist in Python 2.

## Model

| member | source | states |
|---|---|---|
| PyStr.Split | maildir2mbox.py:79 | `name.split('.')` keeps empty pieces: it has one piece more than the name has dots |
| PyStr.CutEnd | maildir2mbox.py:82-83 | `s[:-4]`: without its last four characters the string, followed by those four, is `s` again; and `''` when `s` is shorter than four |
| PyStr.JoinSplit | maildir2mbox.py:79 | joining the pieces of a split with the separator gives the string back |
| PyStr.SplitJoin | maildir2mbox.py:79 | pieces without the separator come back from splitting their join |
| PyStr.SplitAround | maildir2mbox.py:79 | splitting `a + sep + b` is splitting `a`, then splitting `b` |
| PyStr.SplitPiecesLack | maildir2mbox.py:79 | no piece of a split holds the separator, nor any character absent from the string |
| PosixPath.Join2Ends | maildir2mbox.py:83 | `os.path.join(dirname, curfold)` ends with `curfold`, and starts with `dirname` unless `curfold` is absolute |
| PosixPath.Join2Plain | maildir2mbox.py:83 | a relative part is joined to a non-empty `dirname` not ending in `/` by exactly one `/` |
| PosixPath.JoinAll | maildir2mbox.py:80 | `os.path.join(*parts)` ends with its last part |
| PosixPath.JoinAllIsSlashJoin | maildir2mbox.py:80 | `os.path.join` is `'/'.join` when no later part is absolute and no earlier part is empty or ends in `/` |
| PosixPath.DirAndBase | maildir2mbox.py:80-83 | a path `x/y` with `/`-free `y` has directory part `x` and base name `y` |
| PosixPath.AddLineageClosed | maildir2mbox.py:72 | after `os.makedirs(p)`, a file system that held the ancestors of each of its directories still does |
| Folders.ListOfDirs | maildir2mbox.py:74-77 | every name of `listofdirs` passes the subfolder test |
| Folders.ListOfDirsMembers | maildir2mbox.py:74-77 | a name is in `listofdirs` iff some visited directory holds it and it is a subfolder name; a name is a subfolder name iff it starts with `.` (the `new`/`cur`/`tmp` exclusion never removes a name) |
| Folders.ListOfDirsAppend | maildir2mbox.py:74-77 | a further visited directory adds its subfolders after all those found so far (walk order is kept) |
| Folders.KeepAppend | maildir2mbox.py:74-77 | the filter distributes over concatenation, so it keeps the relative order of the names |
| Folders.KeepCount | maildir2mbox.py:74-77 | each subfolder name is kept as often as the walk reports it, and every other name is dropped |
| Folders.SegmentsArePlain | maildir2mbox.py:79-80 | the non-empty `.` pieces of a name hold no `.`; those of a base name hold no `/` |
| Folders.JoinedChain | maildir2mbox.py:80 | `os.path.join` of `[mbox] + segs`, each with `.sbd` appended, is `Chain(mbox, segs) + ".sbd"` |
| Folders.TargetIsChain | maildir2mbox.py:79-83 | for a base name with segments `[s1..sn]`, `curpath` is `mbox.sbd/s1.sbd/.../sn.sbd` and the target is `mbox.sbd/s1.sbd/.../sn` |
| Folders.SbdDir | maildir2mbox.py:79-80 | `curpath`, for any name, has at least four characters and ends in `.sbd` |
| Folders.Target | maildir2mbox.py:83 | for any name, `curpath[:-4] + ".sbd" == curpath`, so the slice removes exactly `.sbd` |
| Folders.SameTargetIffSameSegments | maildir2mbox.py:79-80 | two base names share a target iff their non-empty segments agree |
| Folders.ChainInjective | maildir2mbox.py:79-80 | different chains of `/`-free segments give different paths |
| Folders.TargetInsideRootSbd | maildir2mbox.py:70-80 | the target and `curpath` of a subfolder with at least one segment start with `mbox.sbd/` |
| Folders.DotsOnlyTargetIsRoot | maildir2mbox.py:79-83 | a name with no non-empty segment maps to the root mbox, and its `curpath` is `mbox.sbd` |
| Folders.TargetParent | maildir2mbox.py:79-83 | the target of `[s1..sn]` lies in the `.sbd` directory of `[s1..s(n-1)]` (or in `mbox.sbd` when n = 1) and is named `sn` |
| Folders.ChainParent | maildir2mbox.py:79-80 | the last step of a chain is a path component of its own: directory part and base name |
| Folders.ParentInLineage | maildir2mbox.py:81-83 | the directory holding a target is an ancestor of its `curpath`, so making `curpath` makes it |
| Folders.TargetParentIsUpperSbdDir | maildir2mbox.py:79-83 | the target's directory is exactly the `curpath` of any name with one segment fewer |
| Folders.TargetDepth | maildir2mbox.py:79-80 | the target of an n-segment name has n more `/` than `mbox` has: 1 + n components for a one-component `mbox` |
| Folders.SegmentsOfPieces | maildir2mbox.py:79-80 | a name joined from `.`-free pieces has those pieces, without the empty ones, as segments |
| Folders.SegmentsTiti | test_maildir2mbox.py:15-16 | `.titi` has the single segment `titi` |
| Folders.SegmentsTitiTutu | test_maildir2mbox.py:17-18 | `.titi.tutu` has segments `titi`, `tutu` |
| Folders.ExampleTiti | test_maildir2mbox.py:13-16 | with mbox `test_data/mbox_toto`, `.titi` goes to `test_data/mbox_toto.sbd/titi` and makes `test_data/mbox_toto.sbd/titi.sbd` |
| Folders.ExampleTitiTutu | test_maildir2mbox.py:13-18 | `.titi.tutu` goes to `test_data/mbox_toto.sbd/titi.sbd/tutu` and makes `test_data/mbox_toto.sbd/titi.sbd/tutu.sbd` |
| Folders.ExampleDoubledDot | maildir2mbox.py:79-80 | `.a.b` and `.a..b` share the target `mbox.sbd/a.sbd/b` (empty segments are ignored) |
| Driver.Step | maildir2mbox.py:72-81 | a guarded `os.makedirs(p)` keeps every existing directory and leaves `p` existing; a conversion changes no directory of the script's own |
| Driver.Script | maildir2mbox.py:71-83 | the calls of the run: two for the root (its conversion, then `mbox.sbd`) at the start, and two per subfolder |
| Driver.RootReplay | maildir2mbox.py:71-72 | the root's calls change the directories only by making `mbox.sbd` |
| Driver.FolderStepsReplay | maildir2mbox.py:81-83 | one subfolder's calls change the directories only by making its `curpath` |
| Driver.Run | maildir2mbox.py:67-83 | the run makes exactly the calls of `Script`: root conversion, `mbox.sbd`, then per subfolder its `curpath` and its conversion. The directories it leaves are `Replay` of those calls. Its conversions are the plan. A consistent file system stays consistent |
| Driver.ScriptPlan | maildir2mbox.py:71-83 | the conversions among the run's calls are exactly the plan: the root into `mbox`, then each subfolder in order into its target |
| Driver.SubfolderConversions | maildir2mbox.py:78-83 | the subfolder calls convert, in `listofdirs` order, each name from `os.path.join(dirname, name)` into its target |
| Driver.PlanShape | maildir2mbox.py:71-83 | the plan has one entry more than `listofdirs` has names, and its first entry is `(dirname, mbox)`, also when `listofdirs` is empty |
| Driver.PlanAt | maildir2mbox.py:71-83 | entry i+1 of the plan is `(os.path.join(dirname, f_i), target(f_i))` |
| Driver.PairsAt | maildir2mbox.py:78-83 | entry i of the subfolder pairs is name i's source and target |
| Driver.SubfolderSource | maildir2mbox.py:74-83 | for a non-empty `dirname` not ending in `/`, subfolder i is read from `dirname + "/" + f_i`: a name starting with `.` never resets `os.path.join` |
| Driver.ConversionsAppend | maildir2mbox.py:71-83 | the conversions of two stretches of calls are those of the first, then those of the second |
| Driver.ScriptStep | maildir2mbox.py:78-83 | one more name adds exactly that folder's two calls |
| Driver.ScriptPrefix | maildir2mbox.py:78-83 | the run over the first k names is the beginning of the run over all of them |
| Driver.SubfolderPrefix | maildir2mbox.py:78-83 | the subfolder calls over the first k names begin those over all names |
| Driver.ScriptThrough | maildir2mbox.py:78-83 | the calls on subfolder i follow those on the names before it, and together they begin the whole run |
| Driver.ReplayClosed | maildir2mbox.py:72-81 | guarded `os.makedirs` calls keep a file system that holds every directory's ancestors in that state |
| Driver.ReplayGrows | maildir2mbox.py:72-81 | directories once made stay: further calls only add |
| Driver.MadeStays | maildir2mbox.py:72-81 | a directory made at some point of the run exists when it ends |
| Driver.MadeWithAncestors | maildir2mbox.py:81 | after `os.makedirs(p)` on a consistent file system, every ancestor of `p` exists |
| Driver.SubfolderParentReady | maildir2mbox.py:79-83 | just before subfolder i is converted, which is a point of the run, the directory holding its target exists |
| Driver.EverySbdDirMade | maildir2mbox.py:78-81 | every subfolder's `curpath` exists when the run ends |
| Driver.RootSbdFirst | maildir2mbox.py:70-80 | the root's two calls begin the run, `mbox.sbd` exists after them, and every subfolder with a segment has its target and `curpath` inside `mbox.sbd/` |

## Left out

- `maildir2mailbox` (lines 38-58) and the `mailbox` and `email` libraries
  are not part of this model. Reading messages and writing mbox files is
  I/O on formats this project does not model. A conversion appears only as
  a `Convert(source, target)` call, in the order the script makes it.
- The handling of `sys.argv` and `HELP` (lines 61-68), and the `print`
  calls (lines 69, 82, 85), are console I/O and are not modelled.
  `dirname` and `mboxname` are parameters of `Driver.Run`.
- `os.walk` is an input (`walk`). Its visiting order, and the fact that it
  also descends into subfolders and into `new`/`cur`/`tmp`, are whatever
  that input says. The model keeps the script's behaviour for a name found
  below the root, for example `.b` inside `.a`. The script maps it by its
  own name alone and reads it from `dirname/.b`, and so does the model.
- `os.path.exists` is modelled on a set of directory paths. Plain files,
  symbolic links, permissions and failures of `os.makedirs` are not
  modelled.
- Driver.Run: the trace is that of a run in which every call returns.
  Lines 71-83 have no `try`, so an exception ends the script, for example
  a walked hidden directory without `cur`/`new`, or a root mbox whose
  directory does not exist. The calls then made are only a beginning of
  `Script`, the run over the names handled so far (`ScriptPrefix`), and
  the plan is cut off there too.
- Driver.Run, Driver.Step: `dirs` tracks only the directories made by the
  script's own `os.makedirs` calls (lines 72 and 81).
  `mailbox.Maildir(name)` creates a missing source Maildir with its `tmp`,
  `new` and `cur` directories, and the model does not track those. This
  happens, for example, for `.b` below `.a`, read from `dirname/.b`.
- Driver.SubfolderParentReady: states that the target's directory exists
  only for subfolders that are base names with at least one non-empty
  segment. The root conversion at line 71 writes into the directory part
  of `mboxname`, which the script never makes. A name made only of dots
  converts into `mboxname` itself, like the root.
- Paths are the strings the script passes. `mailbox` expands a leading `~`
  in a path, but `os.makedirs` at lines 72 and 81 does not. With a target
  such as `~/out` the directories made and the mbox files written are
  therefore in different places, and the model does not capture that.
- Driver.Run: requires a non-empty `mboxname`. With an empty name the
  script fails at line 71, opening the mbox `''`, before any subfolder is
  reached.
- Folders.TargetIsChain, Folders.TargetParent: state the `.sbd` layout
  only for names without `/`. That is what `os.walk` reports; names that
  hold a `/` are still modelled exactly by `SbdDir` and `Target`.
- Folders.TargetDepth: counts `/` separators. It equals the number of path
  components only when `mboxname` is a single component without `/`.
- Deduplication of subfolders reached twice, the second subfolder naming
  convention (sibling directories `ROOT.a.b` next to the root), per-folder
  error counts and the recursion flag are not modelled. The code has none
  of them: it handles only hidden subdirectories found by the walk, always
  recurses, and counts no errors. The model follows the code.
- Concurrency and races between the existence test and `os.makedirs` are
  not modelled; the script is sequential.
