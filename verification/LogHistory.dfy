/** What a run of the log amounts to in terms of its steps alone: the cache has what was written last, and the
    disk has what was written last before some moment without operations. */
module LogHistory {
  import opened Prelude
  import opened Blocks
  import opened LogSpec
  import opened LogSystem

  /** The state in which the machine came up last, before or at n. */
  function Boot(steps: seq<Step>, n: nat): (r: nat)
    requires n <= |steps|
    ensures r <= n
  {
    if n == 0 then 0 else if steps[n - 1].Crash? then n else Boot(steps, n - 1)
  }

  /** What steps from to n - 1 write to block b last. */
  function LastWrite(steps: seq<Step>, from: nat, n: nat, b: nat): Option<Block>
    requires from <= n <= |steps|
  {
    if n == from then None
    else if steps[n - 1].Append? && steps[n - 1].blk == b then Some(steps[n - 1].data)
    else LastWrite(steps, from, n - 1, b)
  }

  /** What has been written to block b last since the machine came up, or what the disk had then. */
  function Latest(run: seq<State>, steps: seq<Step>, n: nat, b: nat): Block
    requires n <= |steps| < |run| && b < |run[Boot(steps, n)].disk|
  {
    var w := LastWrite(steps, Boot(steps, n), n, b);
    if w.Some? then w.value else run[Boot(steps, n)].disk[b]
  }

  /** log_write absorbs: however often a block is written, and by whichever operations, the cache has the
      last data. */
  lemma {:induction false} ViewIsLatest(run: seq<State>, steps: seq<Step>, lay: Layout, guarded: bool, n: nat)
    requires IsRun(run, steps, lay, guarded) && n < |run|
    ensures |run[n].view| == |run[Boot(steps, n)].disk|
    ensures forall b :: 0 <= b < |run[n].view| ==> run[n].view[b] == Latest(run, steps, n, b)
  {
    hide Next, Init;
    if n == 0 {
      InitView(run[0], lay);
    } else {
      ViewIsLatest(run, steps, lay, guarded, n - 1);
      assert Moves(run, steps, lay, guarded, n - 1);
      StepView(run[n - 1], run[n], lay, guarded, steps[n - 1]);
    }
  }

  lemma InitView(s: State, lay: Layout)
    requires Init(s, lay)
    ensures s.view == s.disk
  {
  }

  lemma StepView(s: State, t: State, lay: Layout, guarded: bool, step: Step)
    requires Next(s, t, lay, guarded, step)
    ensures if step.Crash? then t.view == t.disk
            else if step.Append? then step.blk < |s.view| && t.view == s.view[step.blk := step.data]
            else t.view == s.view
  {
    hide Written, CrashChain, Recovered, Sound, Cleared, Committed;
  }

  // ----- Moments without operations -----

  /** The start, and every state in which the last operation in progress has just ended. */
  ghost predicate IsMoment(run: seq<State>, steps: seq<Step>, k: nat)
  {
    && k <= |steps| < |run|
    && (k > 0 ==> steps[k - 1].EndOp? && forall p :: 0 <= p < |run[k].procs| ==> !run[k].procs[p].InOp?)
  }

  lemma StepQuiet(s: State, t: State, lay: Layout, guarded: bool, step: Step)
    requires Admission(s) && Admission(t) && Next(s, t, lay, guarded, step)
    ensures t.quiet == s.quiet
            || (step.EndOp? && t.quiet == s.quiet + [s.view] && forall p :: 0 <= p < |t.procs| ==> !t.procs[p].InOp?)
    ensures step.EndOp? && (forall p :: 0 <= p < |t.procs| ==> !t.procs[p].InOp?) ==> t.quiet == s.quiet + [s.view]
  {
    hide Written, CrashChain, Recovered, Sound, Cleared, Committed, Reserved, Ops, Committers;
    SumBounds(t.procs);
    if t.outstanding > 0 && !t.committing {
      var q := SomeoneBusy(t.procs);
      SumBounds(t.procs);
    }
  }

  /** Each entry of quiet is the cache at a moment, the one that made it. */
  lemma {:induction false} QuietIsMoment(run: seq<State>, steps: seq<Step>, lay: Layout, guarded: bool, n: nat, i: nat)
    returns (k: nat)
    requires IsRun(run, steps, lay, guarded) && n < |run| && i < |run[n].quiet|
    ensures k <= n && IsMoment(run, steps, k) && |run[k].quiet| == i + 1 && run[k].view == run[n].quiet[i]
  {
    hide Next, Init, Admission;
    if n == 0 {
      InitQuiet(run[0], lay);
      k := 0;
    } else {
      RunKeepsAdmission(run, steps, lay, guarded, n - 1);
      RunKeepsAdmission(run, steps, lay, guarded, n);
      assert Moves(run, steps, lay, guarded, n - 1);
      StepQuiet(run[n - 1], run[n], lay, guarded, steps[n - 1]);
      StepView(run[n - 1], run[n], lay, guarded, steps[n - 1]);
      if i < |run[n - 1].quiet| {
        k := QuietIsMoment(run, steps, lay, guarded, n - 1, i);
      } else {
        k := n;
      }
    }
  }

  lemma InitQuiet(s: State, lay: Layout)
    requires Init(s, lay)
    ensures s.quiet == [s.view]
  {
  }

  lemma {:induction false} QuietGrows(run: seq<State>, steps: seq<Step>, lay: Layout, guarded: bool, k: nat, n: nat)
    requires IsRun(run, steps, lay, guarded) && k <= n < |run|
    ensures run[k].quiet <= run[n].quiet
  {
    hide Next, Init, Admission;
    if k < n {
      QuietGrows(run, steps, lay, guarded, k, n - 1);
      RunKeepsAdmission(run, steps, lay, guarded, n - 1);
      RunKeepsAdmission(run, steps, lay, guarded, n);
      assert Moves(run, steps, lay, guarded, n - 1);
      StepQuiet(run[n - 1], run[n], lay, guarded, steps[n - 1]);
    }
  }

  /** Every moment is in quiet. */
  lemma MomentIsQuiet(run: seq<State>, steps: seq<Step>, lay: Layout, guarded: bool, k: nat, n: nat)
    requires IsRun(run, steps, lay, guarded) && IsMoment(run, steps, k) && k <= n < |run|
    ensures run[k].view in run[n].quiet
  {
    hide Next, Init, Admission;
    QuietGrows(run, steps, lay, guarded, k, n);
    if k == 0 {
      InitQuiet(run[0], lay);
      assert run[n].quiet[0] == run[0].view;
    } else {
      RunKeepsAdmission(run, steps, lay, guarded, k - 1);
      RunKeepsAdmission(run, steps, lay, guarded, k);
      assert Moves(run, steps, lay, guarded, k - 1);
      StepQuiet(run[k - 1], run[k], lay, guarded, steps[k - 1]);
      StepView(run[k - 1], run[k], lay, guarded, steps[k - 1]);
      assert run[n].quiet[|run[k - 1].quiet|] == run[k].view;
    }
  }

  // ----- The disk -----

  /** Every home block on this disk is what had been written to it last by state k. */
  ghost predicate HasLatest(disk: Image, run: seq<State>, steps: seq<Step>, lay: Layout, k: nat)
  {
    && k <= |steps| < |run| && |disk| == |run[Boot(steps, k)].disk|
    && forall b :: 0 <= b < |disk| && !lay.InLog(b) ==> disk[b] == Latest(run, steps, k, b)
  }

  lemma ViewHasLatest(disk: Image, run: seq<State>, steps: seq<Step>, lay: Layout, guarded: bool, k: nat)
    requires IsRun(run, steps, lay, guarded) && k < |run| && SameHome(disk, run[k].view, lay)
    ensures HasLatest(disk, run, steps, lay, k)
  {
    ViewIsLatest(run, steps, lay, guarded, k);
  }

  /** In every run of a safe machine the disk has, block by block, what had been written last at some moment
      without operations. */
  lemma DiskHasMoment(run: seq<State>, steps: seq<Step>, lay: Layout, guarded: bool, n: nat)
    requires IsRun(run, steps, lay, guarded) && n < |run| && Safe(lay, |run[0].procs|, guarded)
    ensures exists k :: 0 <= k <= n && IsMoment(run, steps, k) && HasLatest(run[n].disk, run, steps, lay, k)
  {
    hide IsRun, HasLatest, IsMoment;
    DiskIsTransactional(run, steps, lay, guarded, n);
    var i :| 0 <= i < |run[n].quiet| && SameHome(run[n].disk, run[n].quiet[i], lay);
    var k := QuietIsMoment(run, steps, lay, guarded, n, i);
    ViewHasLatest(run[n].disk, run, steps, lay, guarded, k);
  }

  /** When a commit finishes, every home block on disk is what was written to it last. */
  lemma CommitWritesLatest(run: seq<State>, steps: seq<Step>, lay: Layout, guarded: bool, m: nat)
    requires IsRun(run, steps, lay, guarded) && Safe(lay, |run[0].procs|, guarded)
    requires m < |steps| && steps[m].FinishCommit?
    ensures HasLatest(run[m + 1].disk, run, steps, lay, m)
  {
    hide Init, HasLatest, Cleared, Committed;
    RunKeepsTransactional(run, steps, lay, guarded, m + 1);
    assert Moves(run, steps, lay, guarded, m);
    ViewHasLatest(run[m + 1].disk, run, steps, lay, guarded, m);
  }

  /** And it stays so through every crash: later the disk has what had been written last at that commit, or
      at a moment after it. */
  lemma CommitsStay(run: seq<State>, steps: seq<Step>, lay: Layout, guarded: bool, m: nat, n: nat)
    requires IsRun(run, steps, lay, guarded) && Safe(lay, |run[0].procs|, guarded)
    requires m < |steps| && steps[m].FinishCommit? && m < n < |run|
    ensures exists k :: m <= k <= n && (k == m || IsMoment(run, steps, k)) && HasLatest(run[n].disk, run, steps, lay, k)
  {
    hide Next, Init, HasLatest, IsMoment, Admission, Transactional;
    CommitsAreDurable(run, steps, lay, guarded, m, n);
    var i :| 0 <= |run[m].quiet| - 1 <= i < |run[n].quiet| && SameHome(run[n].disk, run[n].quiet[i], lay);
    QuietGrows(run, steps, lay, guarded, m, n);
    var k := m;
    if i == |run[m].quiet| - 1 {
      FinishIsLatest(run, steps, lay, guarded, m);
    } else {
      k := QuietIsMoment(run, steps, lay, guarded, n, i);
      if k < m {
        QuietGrows(run, steps, lay, guarded, k, m);
      }
    }
    ViewHasLatest(run[n].disk, run, steps, lay, guarded, k);
  }

  lemma FinishIsLatest(run: seq<State>, steps: seq<Step>, lay: Layout, guarded: bool, m: nat)
    requires IsRun(run, steps, lay, guarded) && Safe(lay, |run[0].procs|, guarded)
    requires m < |steps| && steps[m].FinishCommit?
    ensures IsLatest(run[m].view, run[m].quiet)
  {
    hide Cleared, Committed, Reserved, Ops;
    RunKeepsTransactional(run, steps, lay, guarded, m);
    RunKeepsAdmission(run, steps, lay, guarded, m);
    SumBounds(run[m].procs);
    assert Moves(run, steps, lay, guarded, m);
  }
}
