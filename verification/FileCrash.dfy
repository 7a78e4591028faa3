/** filewrite on top of the log: what is left of a write when the machine stops anywhere in it. */
module FileCrash {
  import opened Prelude
  import opened Blocks
  import opened LogSpec
  import LogSystem
  import opened FsSpec
  import opened Inodes
  import opened FileContents
  import opened Transaction

  /** The operations that have ended in the first n steps. */
  ghost function Ends(steps: seq<LogSystem.Step>, n: nat): nat
    requires n <= |steps|
  {
    if n == 0 then 0 else Ends(steps, n - 1) + if steps[n - 1].EndOp? then 1 else 0
  }

  /** Those that had ended when the last finished commit among the first n steps was made. */
  ghost function Sealed(steps: seq<LogSystem.Step>, n: nat): nat
    requires n <= |steps|
  {
    if n == 0 then 0 else if steps[n - 1].FinishCommit? then Ends(steps, n - 1) else Sealed(steps, n - 1)
  }

  /** How many operations had ended each time that none was left in progress. */
  ghost function Marks(run: seq<LogSystem.State>, steps: seq<LogSystem.Step>, n: nat): (r: seq<nat>)
    requires n <= |steps| < |run|
    ensures r != []
  {
    if n == 0 then [0] else Marks(run, steps, n - 1) + NewMark(run[n - 1], steps[n - 1], Ends(steps, n - 1))
  }

  ghost function NewMark(s: LogSystem.State, step: LogSystem.Step, e: nat): seq<nat> {
    if step.EndOp? && s.outstanding == 1 then [e + 1] else []
  }

  /** With no operation left in progress the cache holds what the operations so far lead to. A crash is
      the end of the run. */
  ghost predicate Follows(snaps: seq<Snapshot>, e: nat, s: LogSystem.State, step: LogSystem.Step, last: bool)
  {
    match step
    case EndOp(_) => e + 1 < |snaps| && (s.outstanding == 1 ==> s.view == snaps[e + 1].img)
    case Crash(_, _) => last
    case _ => true
  }

  ghost predicate FollowsAt(run: seq<LogSystem.State>, steps: seq<LogSystem.Step>, snaps: seq<Snapshot>, i: nat)
  {
    i < |steps| && i < |run| && Follows(snaps, Ends(steps, i), run[i], steps[i], i == |steps| - 1)
  }

  /** Processes perform operations, which taken together lead from each of snaps to the next. Operations may
      overlap and share a commit, and the machine may stop in the end. */
  ghost predicate Performs(run: seq<LogSystem.State>, steps: seq<LogSystem.Step>, lay: Layout, snaps: seq<Snapshot>)
  {
    && LogSystem.IsRun(run, steps, lay, true) && LogSystem.Safe(lay, |run[0].procs|, true)
    && snaps != [] && run[0].disk == snaps[0].img
    && forall i :: 0 <= i < |steps| ==> FollowsAt(run, steps, snaps, i)
  }

  /** Where such a run is: e operations have ended, and the cache had the images of marks. */
  ghost predicate At(s: LogSystem.State, snaps: seq<Snapshot>, marks: seq<nat>, e: nat)
  {
    && e < |snaps| && |s.quiet| == |marks| > 0
    && (forall i :: 0 <= i < |marks| ==> marks[i] <= e && s.quiet[i] == snaps[marks[i]].img)
    && (forall i, j :: 0 <= i < j < |marks| ==> marks[i] <= marks[j])
    && (s.committing ==> marks[|marks| - 1] == e)
  }

  lemma AtKept(s: LogSystem.State, t: LogSystem.State, lay: Layout, step: LogSystem.Step,
               snaps: seq<Snapshot>, marks: seq<nat>, e: nat)
    requires LogSystem.Admission(s) && LogSystem.Next(s, t, lay, true, step) && At(s, snaps, marks, e)
    requires Follows(snaps, e, s, step, false)
    ensures At(t, snaps, marks + NewMark(s, step, e), e + if step.EndOp? then 1 else 0)
  {
    hide LogSystem.CrashStep, Cleared, Committed, Loggable, LogSystem.Reserved, LogSystem.Ops, LogSystem.Committers;
  }

  lemma StartsAt(run: seq<LogSystem.State>, steps: seq<LogSystem.Step>, lay: Layout, snaps: seq<Snapshot>)
    requires Performs(run, steps, lay, snaps)
    ensures At(run[0], snaps, [0], 0)
  {
    hide Follows, LogSystem.Next;
  }

  lemma FollowsOn(snaps: seq<Snapshot>, e: nat, s: LogSystem.State, step: LogSystem.Step, last: bool)
    requires Follows(snaps, e, s, step, last) && !step.Crash?
    ensures Follows(snaps, e, s, step, false)
  {
  }

  lemma {:induction false} RunIsAt(run: seq<LogSystem.State>, steps: seq<LogSystem.Step>, lay: Layout,
                                   snaps: seq<Snapshot>, n: nat)
    requires Performs(run, steps, lay, snaps) && n < |run| && (n > 0 ==> !steps[n - 1].Crash?)
    ensures At(run[n], snaps, Marks(run, steps, n), Ends(steps, n))
  {
    hide LogSystem.Next, LogSystem.Admission, At, Follows, NewMark;
    if n == 0 {
      StartsAt(run, steps, lay, snaps);
    } else {
      BeforeCrash(run, steps, lay, snaps, n - 1);
      assert LogSystem.Moves(run, steps, lay, true, n - 1) && FollowsAt(run, steps, snaps, n - 1);
      var e := Ends(steps, n - 1);
      FollowsOn(snaps, e, run[n - 1], steps[n - 1], n - 1 == |steps| - 1);
      RunIsAt(run, steps, lay, snaps, n - 1);
      LogSystem.RunKeepsAdmission(run, steps, lay, true, n - 1);
      AtKept(run[n - 1], run[n], lay, steps[n - 1], snaps, Marks(run, steps, n - 1), e);
    }
  }

  lemma {:induction false} MarksGrow(run: seq<LogSystem.State>, steps: seq<LogSystem.Step>, m: nat, n: nat)
    requires m <= n <= |steps| < |run|
    ensures Marks(run, steps, m) <= Marks(run, steps, n)
  {
    if m < n {
      MarksGrow(run, steps, m, n - 1);
    }
  }

  /** The last finished commit, if there is one. */
  lemma {:induction false} LastCommit(steps: seq<LogSystem.Step>, n: nat) returns (m: nat)
    requires n <= |steps| && Sealed(steps, n) > 0
    ensures m < n && steps[m].FinishCommit? && Ends(steps, m) == Sealed(steps, n)
  {
    if steps[n - 1].FinishCommit? {
      m := n - 1;
    } else {
      m := LastCommit(steps, n - 1);
    }
  }

  /** A point the disk may be at after a crash: between operations, at a moment when none was in progress, and
      not before the last commit that had finished. */
  ghost predicate IsCut(run: seq<LogSystem.State>, steps: seq<LogSystem.Step>, t: nat) {
    0 < |steps| < |run| && Sealed(steps, |steps|) <= t && t in Marks(run, steps, |steps| - 1)
  }

  ghost predicate Crashed(steps: seq<LogSystem.Step>) {
    steps != [] && steps[|steps| - 1].Crash?
  }

  lemma CutAt(run: seq<LogSystem.State>, steps: seq<LogSystem.Step>, lay: Layout, snaps: seq<Snapshot>, i: nat)
    requires Performs(run, steps, lay, snaps) && Crashed(steps) && i < |run[|steps|].quiet|
    ensures var n := |steps|; var marks := Marks(run, steps, n - 1);
            i < |marks| && marks[i] < |snaps| && run[n].quiet[i] == snaps[marks[i]].img
  {
    hide LogSystem.Admission, LogSystem.Written, LogSystem.Init, CrashChain, Sound, Recovered, Follows, NewMark;
    var n := |steps|;
    BeforeCrash(run, steps, lay, snaps, n - 1);
    RunIsAt(run, steps, lay, snaps, n - 1);
    assert LogSystem.Moves(run, steps, lay, true, n - 1);
    assert run[n].quiet == run[n - 1].quiet;
  }

  /** At a commit that finishes, the latest mark counts every operation that has ended. */
  lemma CommitIsMarked(run: seq<LogSystem.State>, steps: seq<LogSystem.Step>, lay: Layout, snaps: seq<Snapshot>, m: nat,
                       i: nat)
    requires Performs(run, steps, lay, snaps) && Crashed(steps)
    requires m < |steps| - 1 && steps[m].FinishCommit? && |run[m].quiet| - 1 <= i < |Marks(run, steps, |steps| - 1)|
    ensures Marks(run, steps, |steps| - 1)[i] >= Ends(steps, m)
  {
    hide LogSystem.Next, LogSystem.Init, LogSystem.Admission, FollowsAt, NewMark;
    BeforeCrash(run, steps, lay, snaps, m);
    RunIsAt(run, steps, lay, snaps, m);
    FinishIsCommitting(run, steps, lay, m);
    BeforeCrash(run, steps, lay, snaps, |steps| - 1);
    RunIsAt(run, steps, lay, snaps, |steps| - 1);
    MarksGrow(run, steps, m, |steps| - 1);
    var k := |run[m].quiet| - 1;
    assert Marks(run, steps, |steps| - 1)[k] == Marks(run, steps, m)[k];
  }

  /** After a crash the home blocks are those between two of the operations, at a moment when none was in
      progress, so that operations which share a commit survive together; and not before the last
      commit that had finished. */
  lemma CrashKeepsOperations(run: seq<LogSystem.State>, steps: seq<LogSystem.Step>, lay: Layout,
                             snaps: seq<Snapshot>) returns (t: nat)
    requires Performs(run, steps, lay, snaps) && Crashed(steps)
    ensures |run| == |steps| + 1 && t < |snaps| && IsCut(run, steps, t)
    ensures SameHome(run[|steps|].disk, snaps[t].img, lay)
  {
    hide LogSystem.Next, LogSystem.Init, SameHome, FollowsAt, Marks;
    var n := |steps|;
    var i: nat;
    if Sealed(steps, n) > 0 {
      var m := LastCommit(steps, n);
      LogSystem.CommitsAreDurable(run, steps, lay, true, m, n);
      i :| 0 <= |run[m].quiet| - 1 <= i < |run[n].quiet| && SameHome(run[n].disk, run[n].quiet[i], lay);
      CutAt(run, steps, lay, snaps, i);
      CommitIsMarked(run, steps, lay, snaps, m, i);
    } else {
      LogSystem.DiskIsTransactional(run, steps, lay, true, n);
      i :| 0 <= i < |run[n].quiet| && SameHome(run[n].disk, run[n].quiet[i], lay);
      CutAt(run, steps, lay, snaps, i);
    }
    t := Marks(run, steps, n - 1)[i];
  }

  lemma BeforeCrash(run: seq<LogSystem.State>, steps: seq<LogSystem.Step>, lay: Layout, snaps: seq<Snapshot>, n: nat)
    requires Performs(run, steps, lay, snaps) && n < |steps|
    ensures n > 0 ==> !steps[n - 1].Crash?
  {
    assert n > 0 ==> FollowsAt(run, steps, snaps, n - 1);
  }

  lemma FinishIsCommitting(run: seq<LogSystem.State>, steps: seq<LogSystem.Step>, lay: Layout, m: nat)
    requires LogSystem.IsRun(run, steps, lay, true) && m < |steps| && steps[m].FinishCommit?
    ensures run[m].committing
  {
    hide Cleared, Committed, Loggable, LogSystem.Reserved;
    LogSystem.RunKeepsAdmission(run, steps, lay, true, m);
    LogSystem.SumBounds(run[m].procs);
    assert LogSystem.Moves(run, steps, lay, true, m);
  }

  /** File j as a disk has it: the inode from its block, the bytes from the blocks it names. */
  ghost function FileOn(sb: Super, w: Image, j: nat): seq<Byte>
    requires IBlock(sb, j) < |w|
  {
    Contents(w, Stored(w, sb, j))
  }

  /** The log area is no part of any file. */
  lemma HomeHasFiles(sb: Super, lay: Layout, a: Snapshot, w: Image, j: nat)
    requires Kept(sb, a) && SameHome(w, a.img, lay) && lay.start + lay.size <= sb.inodestart && j < |a.inodes|
    ensures IBlock(sb, j) < |w| && FileOn(sb, w, j) == Contents(a.img, a.inodes[j])
  {
    hide Named, NoHoles, Contents, GetInode;
    assert IBlock(sb, j) < |a.img| && Stored(a.img, sb, j) == a.inodes[j];
    MetadataIsNoMatter(sb, a, w, j);
  }

  /** On this disk, data has been written to file i of before at off, and no other file differs. */
  ghost predicate Holds(sb: Super, disk: Image, before: Snapshot, i: nat, off: nat, data: seq<Byte>)
  {
    && i < |before.inodes| && (forall j :: 0 <= j < |before.inodes| ==> IBlock(sb, j) < |disk|)
    && FileOn(sb, disk, i) == Progress(Contents(before.img, before.inodes[i]), off, data)
    && forall j :: 0 <= j < |before.inodes| && j != i ==> FileOn(sb, disk, j) == Contents(before.img, before.inodes[j])
  }

  lemma HomeHolds(sb: Super, lay: Layout, before: Snapshot, a: Snapshot, disk: Image, i: nat, off: nat, data: seq<Byte>)
    requires Kept(sb, a) && Reached(before, a, i, off, data)
    requires SameHome(disk, a.img, lay) && lay.start + lay.size <= sb.inodestart
    ensures Holds(sb, disk, before, i, off, data)
  {
    hide Kept, Contents, SameHome, FileOn, Progress;
    forall j | 0 <= j < |a.inodes|
      ensures IBlock(sb, j) < |disk| && FileOn(sb, disk, j) == Contents(a.img, a.inodes[j])
    {
      HomeHasFiles(sb, lay, a, disk, j);
    }
  }

  /** The files on a disk are those of a snapshot. */
  ghost predicate HasFiles(sb: Super, disk: Image, a: Snapshot) {
    forall j :: 0 <= j < |a.inodes| ==> IBlock(sb, j) < |disk| && FileOn(sb, disk, j) == Contents(a.img, a.inodes[j])
  }

  /** Whatever the operations of several processes do, with their commits shared or not, a crash leaves all
      files as they were between two operations, at a moment when none was in progress and not before
      the last commit that had finished. */
  lemma FilesSurviveCrash(sb: Super, lay: Layout, snaps: seq<Snapshot>, run: seq<LogSystem.State>,
                          steps: seq<LogSystem.Step>)
    requires (forall t :: 0 <= t < |snaps| ==> Kept(sb, snaps[t])) && lay.start + lay.size <= sb.inodestart
    requires Performs(run, steps, lay, snaps) && Crashed(steps)
    ensures exists t :: 0 <= t < |snaps| && IsCut(run, steps, t) && |run| == |steps| + 1
                        && HasFiles(sb, run[|steps|].disk, snaps[t])
  {
    hide Kept, Performs, SameHome, FileOn, IsCut;
    var t := CrashKeepsOperations(run, steps, lay, snaps);
    var disk := run[|steps|].disk;
    forall j | 0 <= j < |snaps[t].inodes|
      ensures IBlock(sb, j) < |disk| && FileOn(sb, disk, j) == Contents(snaps[t].img, snaps[t].inodes[j])
    {
      HomeHasFiles(sb, lay, snaps[t], disk, j);
    }
    assert HasFiles(sb, disk, snaps[t]);
  }

  /** At the end of the run the disk holds what the first t chunks have written, and no finished
      commit is missing. */
  ghost predicate Survived(sb: Super, snaps: seq<Snapshot>, ino: nat, off: nat, src: seq<Byte>, len: nat,
                           run: seq<LogSystem.State>, steps: seq<LogSystem.Step>, t: nat)
  {
    && |run| == |steps| + 1 && len <= |src| && t < |snaps| && IsCut(run, steps, t)
    && Holds(sb, run[|steps|].disk, snaps[0], ino, off, src[..Min(Bytes(t), len)])
  }

  /** A crash anywhere in filewrite, with any number of recoveries, leaves a file with the chunks of
      a prefix of the operations, at least those whose commit had finished, and all other files
      as they were. */
  lemma FileSurvivesCrash(sb: Super, lay: Layout, snaps: seq<Snapshot>, ino: nat, off: nat, src: seq<Byte>, len: nat,
                          run: seq<LogSystem.State>, steps: seq<LogSystem.Step>)
    requires Chunked(sb, snaps, ino, off, src, len) && lay.start + lay.size <= sb.inodestart
    requires Performs(run, steps, lay, snaps) && Crashed(steps)
    ensures exists t :: 0 <= t < |snaps| && Survived(sb, snaps, ino, off, src, len, run, steps, t)
  {
    hide Kept, Performs, Reached, SameHome, Holds, IsCut;
    var t := CrashKeepsOperations(run, steps, lay, snaps);
    ChunkFacts(sb, snaps, ino, off, src, len, t);
    HomeHolds(sb, lay, snaps[0], snaps[t], run[|steps|].disk, ino, off, src[..Min(Bytes(t), len)]);
    assert Survived(sb, snaps, ino, off, src, len, run, steps, t);
  }

  // ----- One process -----

  ghost predicate Logs(snaps: seq<Snapshot>, e: nat, step: LogSystem.Step) {
    step.Append? ==> e + 1 < |snaps| && step.blk in snaps[e + 1].logged
  }

  ghost predicate LogsAt(steps: seq<LogSystem.Step>, snaps: seq<Snapshot>, i: nat) {
    i < |steps| && Logs(snaps, Ends(steps, i), steps[i])
  }

  /** One process performs the operations in turn, and each logs only the blocks it may. */
  ghost predicate Alone(run: seq<LogSystem.State>, steps: seq<LogSystem.Step>, lay: Layout, snaps: seq<Snapshot>)
  {
    && Performs(run, steps, lay, snaps) && |run[0].procs| == 1
    && forall i :: 0 <= i < |steps| ==> LogsAt(steps, snaps, i)
  }

  /** What is listed while operation e is in progress is its own. */
  ghost predicate OwnList(s: LogSystem.State, snaps: seq<Snapshot>, e: nat) {
    |s.procs| == 1 && (s.procs[0].InOp? ==> forall b :: b in s.lh ==> e + 1 < |snaps| && b in snaps[e + 1].logged)
  }

  lemma OwnListKept(s: LogSystem.State, t: LogSystem.State, lay: Layout, step: LogSystem.Step, snaps: seq<Snapshot>,
                    e: nat)
    requires LogSystem.Admission(s) && LogSystem.Next(s, t, lay, true, step) && OwnList(s, snaps, e)
    requires Logs(snaps, e, step)
    ensures OwnList(t, snaps, e + if step.EndOp? then 1 else 0)
  {
    hide LogSystem.Written, CrashChain, Sound, Recovered, Cleared, Committed, Loggable;
    assert s.procs[..0] == [];
    LogSystem.SumBounds(s.procs);
  }

  lemma {:induction false} RunOwnsList(run: seq<LogSystem.State>, steps: seq<LogSystem.Step>, lay: Layout,
                                       snaps: seq<Snapshot>, n: nat)
    requires Alone(run, steps, lay, snaps) && n < |run|
    ensures OwnList(run[n], snaps, Ends(steps, n))
  {
    hide LogSystem.Next, LogSystem.Admission, OwnList, FollowsAt, Logs;
    if n == 0 {
      OwnNothing(run[0], lay, snaps);
    } else {
      RunOwnsList(run, steps, lay, snaps, n - 1);
      LogSystem.RunKeepsAdmission(run, steps, lay, true, n - 1);
      assert LogSystem.Moves(run, steps, lay, true, n - 1) && LogsAt(steps, snaps, n - 1);
      OwnListKept(run[n - 1], run[n], lay, steps[n - 1], snaps, Ends(steps, n - 1));
    }
  }

  lemma OwnNothing(s: LogSystem.State, lay: Layout, snaps: seq<Snapshot>)
    requires LogSystem.Init(s, lay) && |s.procs| == 1
    ensures OwnList(s, snaps, 0)
  {
  }

  lemma {:induction false} DistinctSize(s: seq<nat>, all: set<nat>)
    requires Distinct(s) && forall x :: x in s ==> x in all
    ensures |s| <= |all|
  {
    if s != [] {
      var last := s[|s| - 1];
      DistinctSize(s[..|s| - 1], all - {last});
    }
  }

  /** While one process runs alone, log_write never refuses filewrite, not even a block it has logged before,
      if the log area holds more than MAXOPBLOCKS blocks beside its header. */
  lemma FileWriteIsNotRefused(sb: Super, lay: Layout, snaps: seq<Snapshot>, run: seq<LogSystem.State>,
                              steps: seq<LogSystem.Step>, n: nat)
    requires Alone(run, steps, lay, snaps) && n < |run| && run[n].procs != [] && run[n].procs[0].InOp?
    requires forall t :: 0 <= t < |snaps| - 1 ==> OperationAt(sb, snaps, t)
    requires lay.size > MAXOPBLOCKS + 1
    ensures !LogSystem.TooBig(run[n], lay)
  {
    hide Kept, LogSystem.Next, LogSystem.Admission;
    LogSystem.RunKeepsTransactional(run, steps, lay, true, n);
    RunOwnsList(run, steps, lay, snaps, n);
    var e := Ends(steps, n);
    if run[n].lh != [] {
      assert run[n].lh[0] in run[n].lh;
      assert OperationAt(sb, snaps, e);
      DistinctSize(run[n].lh, snaps[e + 1].logged);
    }
  }

  // ----- There is such a run -----

  /** A run without a crash in which e operations have ended. */
  ghost predicate Goes(run: seq<LogSystem.State>, steps: seq<LogSystem.Step>, lay: Layout, snaps: seq<Snapshot>, e: nat)
  {
    && Alone(run, steps, lay, snaps) && Ends(steps, |steps|) == e
    && forall i :: 0 <= i < |steps| ==> !steps[i].Crash?
  }

  lemma {:induction false} EndsOfPrefix(steps: seq<LogSystem.Step>, step: LogSystem.Step, n: nat)
    requires n <= |steps|
    ensures Ends(steps + [step], n) == Ends(steps, n)
  {
    if n > 0 {
      EndsOfPrefix(steps, step, n - 1);
    }
  }

  lemma GoOn(run: seq<LogSystem.State>, steps: seq<LogSystem.Step>, lay: Layout, snaps: seq<Snapshot>, e: nat,
             step: LogSystem.Step, t: LogSystem.State)
    requires Goes(run, steps, lay, snaps, e) && !step.Crash?
    requires |run| > 0 && LogSystem.Next(run[|run| - 1], t, lay, true, step)
    requires Follows(snaps, e, run[|run| - 1], step, false) && Logs(snaps, e, step)
    ensures Goes(run + [t], steps + [step], lay, snaps, e + if step.EndOp? then 1 else 0)
  {
    hide LogSystem.Next, LogSystem.Init;
    var run', steps' := run + [t], steps + [step];
    EndsOfPrefix(steps, step, |steps|);
    forall i | 0 <= i < |steps'|
      ensures LogSystem.Moves(run', steps', lay, true, i) && FollowsAt(run', steps', snaps, i)
              && LogsAt(steps', snaps, i)
    {
      EndsOfPrefix(steps, step, i);
      if i < |steps| {
        assert LogSystem.Moves(run, steps, lay, true, i) && FollowsAt(run, steps, snaps, i) && LogsAt(steps, snaps, i);
      }
    }
  }

  /** The process is in operation e and has logged all its blocks but those in todo. */
  ghost predicate Writing(s: LogSystem.State, target: Snapshot, todo: set<nat>)
  {
    && s.procs == [LogSystem.InOp(|s.lh|, false)] && s.outstanding == 1 && !s.committing
    && |s.lh| + |todo| <= MAXOPBLOCKS && |s.view| == |target.img|
    && todo <= target.logged && (forall b :: b in todo ==> b !in s.lh)
    && forall b :: 0 <= b < |s.view| && s.view[b] != target.img[b] ==> b in todo
  }

  lemma {:induction false} WriteAll(sb: Super, run: seq<LogSystem.State>, steps: seq<LogSystem.Step>, lay: Layout,
                                    snaps: seq<Snapshot>, e: nat, todo: set<nat>)
    returns (run': seq<LogSystem.State>, steps': seq<LogSystem.Step>)
    requires Goes(run, steps, lay, snaps, e) && e + 1 < |snaps| && IsOperation(sb, snaps[e], snaps[e + 1])
    requires lay.start + lay.size <= sb.inodestart && lay.size > MAXOPBLOCKS + 1
    requires |run| > 0 && Writing(run[|run| - 1], snaps[e + 1], todo)
    ensures Goes(run', steps', lay, snaps, e) && |run'| > 0 && Writing(run'[|run'| - 1], snaps[e + 1], {})
    decreases |todo|
  {
    hide Goes, Kept;
    run', steps' := run, steps;
    if todo != {} {
      var b :| b in todo;
      var s, target := run[|run| - 1], snaps[e + 1];
      var t := s.(procs := [LogSystem.InOp(|s.lh|, true)]);
      GoOn(run, steps, lay, snaps, e, LogSystem.Check(0), t);
      run', steps' := run + [t], steps + [LogSystem.Check(0)];
      var u := s.(view := s.view[b := target.img[b]], lh := s.lh + [b], procs := [LogSystem.InOp(|s.lh| + 1, false)]);
      GoOn(run', steps', lay, snaps, e, LogSystem.Append(0, b, target.img[b]), u);
      run', steps' := run' + [u], steps' + [LogSystem.Append(0, b, target.img[b])];
      run', steps' := WriteAll(sb, run', steps', lay, snaps, e, todo - {b});
    }
  }

  /** The process is between operations, with this image in the cache. */
  ghost predicate Resting(s: LogSystem.State, view: Image)
  {
    s.procs == [LogSystem.Idle] && s.lh == [] && s.outstanding == 0 && !s.committing && s.view == view
  }

  lemma StartOperation(sb: Super, run: seq<LogSystem.State>, steps: seq<LogSystem.Step>, lay: Layout,
                       snaps: seq<Snapshot>, e: nat)
    returns (run': seq<LogSystem.State>, steps': seq<LogSystem.Step>)
    requires Goes(run, steps, lay, snaps, e) && e + 1 < |snaps| && IsOperation(sb, snaps[e], snaps[e + 1])
    requires |run| > 0 && Resting(run[|run| - 1], snaps[e].img)
    ensures Goes(run', steps', lay, snaps, e) && |run'| > 0
            && Writing(run'[|run'| - 1], snaps[e + 1], snaps[e + 1].logged)
  {
    hide Goes, Kept;
    var s := run[|run| - 1];
    var t := s.(procs := [LogSystem.Trying]);
    GoOn(run, steps, lay, snaps, e, LogSystem.Enter(0), t);
    var u := t.(procs := [LogSystem.InOp(0, false)], outstanding := 1);
    GoOn(run + [t], steps + [LogSystem.Enter(0)], lay, snaps, e, LogSystem.BeginOp(0), u);
    run', steps' := run + [t] + [u], steps + [LogSystem.Enter(0)] + [LogSystem.BeginOp(0)];
  }

  lemma EndOperation(run: seq<LogSystem.State>, steps: seq<LogSystem.Step>, lay: Layout, snaps: seq<Snapshot>, e: nat)
    returns (run': seq<LogSystem.State>, steps': seq<LogSystem.Step>)
    requires Goes(run, steps, lay, snaps, e) && e + 1 < |snaps|
    requires |run| > 0 && Writing(run[|run| - 1], snaps[e + 1], {})
    ensures Goes(run', steps', lay, snaps, e + 1) && |run'| > 0 && Resting(run'[|run'| - 1], snaps[e + 1].img)
  {
    hide Goes, Cleared, Committed;
    var s := run[|run| - 1];
    assert s.view == snaps[e + 1].img;
    var t := s.(procs := [LogSystem.Committer], outstanding := 0, committing := true, quiet := s.quiet + [s.view]);
    GoOn(run, steps, lay, snaps, e, LogSystem.EndOp(0), t);
    CanFinish(run, steps, lay, snaps, e);
    var u := t.(procs := [LogSystem.Idle], committing := false, lh := [], durable := t.view,
                disk := if t.lh == [] then t.disk else Cleared(Committed(t.disk, t.view, lay, t.lh), lay, t.lh));
    assert LogSystem.Wake(t.procs)[0 := LogSystem.Idle] == [LogSystem.Idle];
    GoOn(run + [t], steps + [LogSystem.EndOp(0)], lay, snaps, e + 1, LogSystem.FinishCommit(0), u);
    run', steps' := run + [t] + [u], steps + [LogSystem.EndOp(0)] + [LogSystem.FinishCommit(0)];
  }

  lemma CanFinish(run: seq<LogSystem.State>, steps: seq<LogSystem.Step>, lay: Layout, snaps: seq<Snapshot>, e: nat)
    requires Goes(run, steps, lay, snaps, e) && |run| > 0
    ensures var s := run[|run| - 1]; |s.lh| < LogSystem.NBUF ==> |s.view| == |s.disk| && Loggable(s.lh, lay, |s.disk|)
  {
    hide LogSystem.Next, LogSystem.Init;
    LogSystem.RunKeepsTransactional(run, steps, lay, true, |run| - 1);
    LogSystem.LogAdmission(run, steps, lay, true, |run| - 1);
  }

  /** From any disk with an empty log, the first n operations can be performed, each committed. */
  lemma {:induction false} OperationsCanRun(sb: Super, lay: Layout, snaps: seq<Snapshot>, n: nat)
    returns (run: seq<LogSystem.State>, steps: seq<LogSystem.Step>)
    requires n < |snaps| && Kept(sb, snaps[0])
             && forall t :: 0 <= t < |snaps| - 1 ==> OperationAt(sb, snaps, t)
    requires MAXOPBLOCKS + 1 < lay.size && lay.start + lay.size <= sb.inodestart
    requires lay.start < |snaps[0].img| && GetWord(snaps[0].img[lay.start], 0) == 0
    ensures Goes(run, steps, lay, snaps, n) && |run| > 0 && Resting(run[|run| - 1], snaps[n].img)
  {
    hide Writing, IsOperation;
    if n == 0 {
      var img := snaps[0].img;
      run, steps := [LogSystem.State([LogSystem.Idle], [], 0, false, img, img, img, [img])], [];
    } else {
      run, steps := OperationsCanRun(sb, lay, snaps, n - 1);
      assert OperationAt(sb, snaps, n - 1);
      run, steps := StartOperation(sb, run, steps, lay, snaps, n - 1);
      run, steps := WriteAll(sb, run, steps, lay, snaps, n - 1, snaps[n].logged);
      run, steps := EndOperation(run, steps, lay, snaps, n - 1);
    }
  }
}
