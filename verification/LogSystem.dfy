/** begin_op, log_write, end_op, commit and crashes as one state machine over any number of
    processes. A step is what a process does while it holds log.lock, but log_write tests the length
    of the list before it takes the lock, and that is a step of its own. A crash can come at any
    point, also in the middle of a commit or of the recovery that follows it. */
module LogSystem {
  import opened Prelude
  import opened Blocks
  import opened LogSpec

  /** The buffers of the cache. Listed blocks are dirty, so a commit of NBUF blocks finds no buffer for
      its first block of the log (Log.FullLogHasNoBuffer) and panics. */
  const NBUF: nat := 3 * MAXOPBLOCKS

  /** Where a process is: outside, about to test the log in begin_op, asleep on &log, inside an
      operation that has added used new blocks to the log and is, if passed, in log_write between
      the test and the lock, or in commit(). */
  datatype Proc = Idle | Trying | Asleep | InOp(used: nat, passed: bool) | Committer

  /** disk and view are the disk and the cached contents. quiet lists the cached contents at the
      moments when no operation was in progress, and durable is what the disk stands for. */
  datatype State = State(procs: seq<Proc>, lh: seq<nat>, outstanding: nat, committing: bool,
                         disk: Image, view: Image, durable: Image, quiet: seq<Image>)

  datatype Step =
    | Enter(p: nat)
    | BeginOp(p: nat)
    | Check(p: nat)
    | Append(p: nat, blk: nat, data: Block)
    | EndOp(p: nat)
    | FinishCommit(p: nat)
    | Crash(j: int, chain: seq<Image>)

  /** wakeup(&log) */
  function Wake(procs: seq<Proc>): (r: seq<Proc>)
    ensures |r| == |procs|
  {
    seq(|procs|, i requires 0 <= i < |procs| => if procs[i].Asleep? then Trying else procs[i])
  }

  ghost predicate Init(s: State, lay: Layout)
  {
    && (forall i :: 0 <= i < |s.procs| ==> s.procs[i] == Idle)
    && s.lh == [] && s.outstanding == 0 && !s.committing
    && 0 < lay.size && lay.start + lay.size <= |s.disk| <= 0x1_0000_0000
    && GetWord(s.disk[lay.start], 0) == 0
    && s.view == s.durable == s.disk && s.quiet == [s.disk]
  }

  /** The test in begin_op. */
  predicate LogIsFull(s: State) {
    |s.lh| + (s.outstanding + 1) * MAXOPBLOCKS > LOGSIZE
  }

  /** log_write's panic: it also compares with the size of the log area, and comes before the
      search for a block that is already listed, and before the lock. */
  predicate TooBig(s: State, lay: Layout) {
    |s.lh| >= LOGSIZE || |s.lh| >= lay.size - 1
  }

  /** One step. log_write's callers keep their promise of at most MAXOPBLOCKS new blocks for an
      operation. With guarded set a log_write that would panic is no step, as in the source;
      without it the reservation test of begin_op is on its own. A commit whose list does not fit
      the log area is followed up to its header write, in CrashStep. */
  ghost predicate Next(s: State, t: State, lay: Layout, guarded: bool, step: Step)
  {
    match step
    case Enter(p) =>
      p < |s.procs| && s.procs[p].Idle? && t == s.(procs := s.procs[p := Trying])
    case BeginOp(p) =>
      && p < |s.procs| && s.procs[p].Trying?
      && t == if s.committing || LogIsFull(s) then s.(procs := s.procs[p := Asleep])
              else s.(procs := s.procs[p := InOp(0, false)], outstanding := s.outstanding + 1)
    case Check(p) =>
      && p < |s.procs| && s.procs[p].InOp? && !s.procs[p].passed && (guarded ==> !TooBig(s, lay))
      && t == s.(procs := s.procs[p := InOp(s.procs[p].used, true)])
    case Append(p, blk, data) =>
      && p < |s.procs| && s.procs[p].InOp? && s.procs[p].passed && blk < |s.view| && !lay.InLog(blk)
      && var used := s.procs[p].used;
         if blk in s.lh then t == s.(view := s.view[blk := data], procs := s.procs[p := InOp(used, false)])
         else && used < MAXOPBLOCKS
              && t == s.(view := s.view[blk := data], lh := s.lh + [blk], procs := s.procs[p := InOp(used + 1, false)])
    case EndOp(p) =>
      && p < |s.procs| && s.procs[p].InOp? && !s.procs[p].passed && s.outstanding >= 1
      && t == if s.outstanding == 1
              then s.(procs := s.procs[p := Committer], outstanding := 0, committing := true,
                      quiet := s.quiet + [s.view])
              else s.(procs := Wake(s.procs)[p := Idle], outstanding := s.outstanding - 1)
    case FinishCommit(p) =>
      && p < |s.procs| && s.procs[p].Committer?
      && |s.view| == |s.disk| && |s.lh| < NBUF && Loggable(s.lh, lay, |s.disk|)
      && t == s.(procs := Wake(s.procs)[p := Idle], committing := false, lh := [], durable := s.view,
                 disk := if s.lh == [] then s.disk else Cleared(Committed(s.disk, s.view, lay, s.lh), lay, s.lh))
    case Crash(j, chain) =>
      CrashStep(s, t, lay, j, chain)
  }

  /** The disk after write j of the commit in progress, or with j = -1 before its first. A list that does
      not fit the log area is copied all the same, up to its header write. */
  ghost predicate Written(s: State, lay: Layout, j: int, img: Image)
  {
    && |s.view| == |s.disk| && -1 <= j && (j >= 0 ==> s.committing && |s.lh| < NBUF)
    && if j < |s.lh| then
         && lay.start + j + 1 < |s.disk| && (forall i :: 0 <= i < |s.lh| ==> s.lh[i] < |s.disk|)
         && img == Logged(s.disk, s.view, lay, s.lh, j + 1)
       else
         && Loggable(s.lh, lay, |s.disk|) && j < |CommitImages(s.disk, s.view, lay, s.lh)|
         && img == CommitImages(s.disk, s.view, lay, s.lh)[j]
  }

  /** The machine stops, after write j of the commit in progress if there is one, and recovers,
      possibly in several attempts. */
  ghost predicate CrashStep(s: State, t: State, lay: Layout, j: int, chain: seq<Image>)
  {
    && CrashChain(chain, lay) && Written(s, lay, j, chain[0])
    && Sound(chain[|chain| - 1], lay)
    && t.disk == t.view == Recovered(chain[|chain| - 1], lay)
    && t.durable == (if j < |s.lh| then s.durable else s.view)
    && t == s.(procs := seq(|s.procs|, _ => Idle), lh := [], outstanding := 0, committing := false,
               disk := t.disk, view := t.view, durable := t.durable)
  }

  // ----- Invariant -----

  /** Blocks a process may still add to the log. */
  function Reserve(p: Proc): int {
    if p.InOp? then MAXOPBLOCKS - p.used else 0
  }

  function Reserved(procs: seq<Proc>): int {
    if procs == [] then 0 else Reserved(procs[..|procs| - 1]) + Reserve(procs[|procs| - 1])
  }

  function Ops(procs: seq<Proc>): nat {
    if procs == [] then 0 else Ops(procs[..|procs| - 1]) + if procs[|procs| - 1].InOp? then 1 else 0
  }

  function Committers(procs: seq<Proc>): nat {
    if procs == [] then 0
    else Committers(procs[..|procs| - 1]) + if procs[|procs| - 1].Committer? then 1 else 0
  }

  /** Processes in log_write between the test and the lock. */
  function Passed(procs: seq<Proc>): nat {
    if procs == [] then 0 else Passed(procs[..|procs| - 1]) + PassedOne(procs[|procs| - 1])
  }

  function PassedOne(p: Proc): nat {
    if p.InOp? && p.passed then 1 else 0
  }

  lemma {:induction false} UpdateSums(procs: seq<Proc>, i: nat, q: Proc)
    requires i < |procs|
    ensures Reserved(procs[i := q]) == Reserved(procs) - Reserve(procs[i]) + Reserve(q)
    ensures Ops(procs[i := q]) == Ops(procs) - (if procs[i].InOp? then 1 else 0) + (if q.InOp? then 1 else 0)
    ensures Committers(procs[i := q]) == Committers(procs) - (if procs[i].Committer? then 1 else 0)
            + (if q.Committer? then 1 else 0)
    ensures Passed(procs[i := q]) == Passed(procs) - PassedOne(procs[i]) + PassedOne(q)
  {
    var n := |procs| - 1;
    if i == n {
      assert procs[i := q][..n] == procs[..n];
    } else {
      assert procs[i := q][..n] == procs[..n][i := q];
      UpdateSums(procs[..n], i, q);
    }
  }

  lemma {:induction false} WakeSums(procs: seq<Proc>)
    ensures Reserved(Wake(procs)) == Reserved(procs)
    ensures Ops(Wake(procs)) == Ops(procs) && Committers(Wake(procs)) == Committers(procs)
    ensures Passed(Wake(procs)) == Passed(procs)
  {
    if procs != [] {
      assert Wake(procs)[..|procs| - 1] == Wake(procs[..|procs| - 1]);
      WakeSums(procs[..|procs| - 1]);
    }
  }

  lemma {:induction false} IdleSums(procs: seq<Proc>)
    requires forall i :: 0 <= i < |procs| ==> procs[i] == Idle
    ensures Reserved(procs) == Ops(procs) == Committers(procs) == Passed(procs) == 0
  {
    if procs != [] {
      IdleSums(procs[..|procs| - 1]);
    }
  }

  /** A process counts: what it reserves is part of the sum. */
  lemma {:induction false} SumBounds(procs: seq<Proc>)
    requires forall i :: 0 <= i < |procs| && procs[i].InOp? ==> procs[i].used <= MAXOPBLOCKS
    ensures 0 <= Reserved(procs) <= MAXOPBLOCKS * Ops(procs)
    ensures forall i :: 0 <= i < |procs| && procs[i].InOp? ==> Ops(procs) >= 1 && Reserve(procs[i]) <= Reserved(procs)
    ensures forall i :: 0 <= i < |procs| && procs[i].Committer? ==> Committers(procs) >= 1
    ensures Passed(procs) <= |procs|
  {
    var n := |procs| - 1;
    if procs != [] {
      SumBounds(procs[..n]);
      forall i | 0 <= i < n
        ensures procs[..n][i] == procs[i]
      {
      }
    }
  }

  ghost predicate Admission(s: State)
  {
    && (forall i :: 0 <= i < |s.procs| && s.procs[i].InOp? ==> s.procs[i].used <= MAXOPBLOCKS)
    && s.outstanding == Ops(s.procs)
    && Committers(s.procs) == (if s.committing then 1 else 0)
    && |s.lh| + Reserved(s.procs) <= LOGSIZE
    && (s.committing ==> s.outstanding == 0)
    && (s.outstanding == 0 && !s.committing ==> s.lh == [])
    && (forall i :: 0 <= i < |s.procs| && s.procs[i].Asleep? ==> s.committing || LogIsFull(s))
  }

  lemma AdmissionKept(s: State, t: State, lay: Layout, guarded: bool, step: Step)
    requires Admission(s) && Next(s, t, lay, guarded, step)
    ensures Admission(t)
  {
    hide Cleared, Committed, Written, CrashChain, Recovered, Loggable, Sound, Reserved, Ops, Committers, Passed;
    SumBounds(s.procs);
    match step
    case Enter(p) => UpdateSums(s.procs, p, Trying);
    case BeginOp(p) =>
      UpdateSums(s.procs, p, Asleep);
      UpdateSums(s.procs, p, InOp(0, false));
    case Check(p) => UpdateSums(s.procs, p, InOp(s.procs[p].used, true));
    case Append(p, blk, data) =>
      UpdateSums(s.procs, p, InOp(s.procs[p].used, false));
      UpdateSums(s.procs, p, InOp(s.procs[p].used + 1, false));
    case EndOp(p) =>
      UpdateSums(s.procs, p, Committer);
      WakeSums(s.procs);
      UpdateSums(Wake(s.procs), p, Idle);
    case FinishCommit(p) =>
      WakeSums(s.procs);
      UpdateSums(Wake(s.procs), p, Idle);
    case Crash(j, chain) => IdleSums(t.procs);
  }

  ghost predicate IsLatest(view: Image, quiet: seq<Image>) {
    quiet != [] && view == quiet[|quiet| - 1]
  }

  /** The disk stands for the cached contents at some moment without an operation in progress,
      and whatever the cache is ahead of the disk in is listed in the log. */
  ghost predicate Transactional(s: State, lay: Layout)
  {
    && 0 < lay.size && lay.start + lay.size <= |s.disk| <= 0x1_0000_0000 && |s.view| == |s.disk|
    && GetWord(s.disk[lay.start], 0) == 0
    && Distinct(s.lh) && (forall i :: 0 <= i < |s.lh| ==> s.lh[i] < |s.disk| && !lay.InLog(s.lh[i]))
    && SameHome(s.disk, s.durable, lay)
    && (forall blk :: 0 <= blk < |s.disk| && !lay.InLog(blk) && s.view[blk] != s.disk[blk] ==> blk in s.lh)
    && s.durable in s.quiet && (s.committing ==> IsLatest(s.view, s.quiet))
  }

  /** A list that can be committed at all fits the log area. */
  predicate CommitFits(s: State, lay: Layout) {
    |s.lh| < NBUF ==> |s.lh| < lay.size
  }

  lemma FinishKeepsTransactional(s: State, t: State, lay: Layout, guarded: bool, p: nat)
    requires Admission(s) && Transactional(s, lay) && Next(s, t, lay, guarded, FinishCommit(p))
    ensures Transactional(t, lay)
  {
    hide Cleared, Committed, Reserved, Ops, Committers;
    SumBounds(s.procs);
    if s.lh != [] {
      CommitFinishes(s.disk, s.view, lay, s.lh);
    }
  }

  lemma CrashKeepsTransactional(s: State, t: State, lay: Layout, j: int, chain: seq<Image>)
    requires Admission(s) && Transactional(s, lay) && CommitFits(s, lay) && CrashStep(s, t, lay, j, chain)
    ensures Transactional(t, lay)
  {
    hide Cleared, Committed, Recovered, Sound, Reserved, Ops, Committers;
    RecoveredIsEmpty(chain[|chain| - 1], lay);
    if j == -1 {
      EmptyLogRecovers(s.disk, lay);
      CrashChainConverges(chain, lay);
    } else {
      CrashAtomicity(s.disk, s.view, lay, s.lh, j, chain);
    }
  }

  lemma TransactionalKept(s: State, t: State, lay: Layout, guarded: bool, step: Step)
    requires Admission(s) && Transactional(s, lay) && CommitFits(s, lay) && Next(s, t, lay, guarded, step)
    ensures Transactional(t, lay)
  {
    hide Cleared, Committed, Recovered, CommitImages, CrashChain, Reserved, Ops, Committers;
    SumBounds(s.procs);
    match step
    case EndOp(p) => assert s.outstanding == 1 ==> t.quiet[|s.quiet|] == s.view;
    case FinishCommit(p) => FinishKeepsTransactional(s, t, lay, guarded, p);
    case Crash(j, chain) => CrashKeepsTransactional(s, t, lay, j, chain);
    case _ =>
  }

  // ----- The test of log_write -----

  /** How many entries there are when the test of log_write begins to fail. */
  function Room(lay: Layout): int {
    if lay.size > LOGSIZE then LOGSIZE else lay.size - 1
  }

  /** How many entries n processes can reach against the test: all of them can pass it together
      when one entry is left. */
  function Limit(lay: Layout, n: nat): int {
    if Room(lay) <= 0 then 0 else Room(lay) + n - 1
  }

  ghost predicate Limited(s: State, lay: Layout) {
    |s.lh| + Passed(s.procs) <= Limit(lay, |s.procs|)
  }

  lemma LimitedKept(s: State, t: State, lay: Layout, guarded: bool, step: Step)
    requires Admission(s) && Next(s, t, lay, guarded, step) && (guarded ==> Limited(s, lay))
    ensures |t.procs| == |s.procs| && (guarded ==> Limited(t, lay))
  {
    hide Cleared, Committed, Written, CrashChain, Recovered, Loggable, Sound, Reserved, Ops, Committers, Passed;
    match step
    case Enter(p) => UpdateSums(s.procs, p, Trying);
    case BeginOp(p) =>
      UpdateSums(s.procs, p, Asleep);
      UpdateSums(s.procs, p, InOp(0, false));
    case Check(p) =>
      UpdateSums(s.procs, p, InOp(s.procs[p].used, true));
      SumBounds(t.procs);
    case Append(p, blk, data) =>
      UpdateSums(s.procs, p, InOp(s.procs[p].used, false));
      UpdateSums(s.procs, p, InOp(s.procs[p].used + 1, false));
    case EndOp(p) =>
      UpdateSums(s.procs, p, Committer);
      WakeSums(s.procs);
      UpdateSums(Wake(s.procs), p, Idle);
    case FinishCommit(p) =>
      WakeSums(s.procs);
      UpdateSums(Wake(s.procs), p, Idle);
    case Crash(j, chain) => IdleSums(t.procs);
  }

  // ----- Runs -----

  ghost predicate Moves(run: seq<State>, steps: seq<Step>, lay: Layout, guarded: bool, i: nat)
  {
    i < |steps| && i + 1 < |run| && Next(run[i], run[i + 1], lay, guarded, steps[i])
  }

  ghost predicate IsRun(run: seq<State>, steps: seq<Step>, lay: Layout, guarded: bool)
  {
    && |run| == |steps| + 1 && Init(run[0], lay)
    && forall i :: 0 <= i < |steps| ==> Moves(run, steps, lay, guarded, i)
  }

  lemma InitIsAdmitted(s: State, lay: Layout)
    requires Init(s, lay)
    ensures Admission(s) && Limited(s, lay)
  {
    IdleSums(s.procs);
  }

  lemma {:induction false} RunKeepsAdmission(run: seq<State>, steps: seq<Step>, lay: Layout, guarded: bool, n: nat)
    requires IsRun(run, steps, lay, guarded) && n < |run|
    ensures Admission(run[n]) && |run[n].procs| == |run[0].procs| && (guarded ==> Limited(run[n], lay))
  {
    hide Admission, Limited, Next, Init;
    if n == 0 {
      InitIsAdmitted(run[0], lay);
    } else {
      RunKeepsAdmission(run, steps, lay, guarded, n - 1);
      assert Moves(run, steps, lay, guarded, n - 1);
      AdmissionKept(run[n - 1], run[n], lay, guarded, steps[n - 1]);
      LimitedKept(run[n - 1], run[n], lay, guarded, steps[n - 1]);
    }
  }

  /** The reservation test alone keeps the log within LOGSIZE entries in every interleaving. A
      commit runs only when no operation does. A process asleep on the log has a commit or an end_op
      still to come, and sleeps only while it could not be admitted. */
  lemma LogAdmission(run: seq<State>, steps: seq<Step>, lay: Layout, guarded: bool, n: nat)
    requires IsRun(run, steps, lay, guarded) && n < |run|
    ensures |run[n].lh| <= LOGSIZE
    ensures run[n].committing ==> forall i :: 0 <= i < |run[n].procs| ==> !run[n].procs[i].InOp?
    ensures forall i :: 0 <= i < |run[n].procs| && run[n].procs[i].Asleep? ==> run[n].committing || LogIsFull(run[n])
    ensures forall i :: 0 <= i < |run[n].procs| && run[n].procs[i].Asleep? ==>
              exists q :: 0 <= q < |run[n].procs| && (run[n].procs[q].Committer? || run[n].procs[q].InOp?)
  {
    RunKeepsAdmission(run, steps, lay, guarded, n);
    SumBounds(run[n].procs);
    if run[n].committing || run[n].outstanding > 0 {
      var q := SomeoneBusy(run[n].procs);
    }
  }

  lemma {:induction false} SomeoneBusy(procs: seq<Proc>) returns (q: nat)
    requires Ops(procs) + Committers(procs) > 0
    ensures q < |procs| && (procs[q].Committer? || procs[q].InOp?)
  {
    var n := |procs| - 1;
    if procs[n].Committer? || procs[n].InOp? {
      q := n;
    } else {
      q := SomeoneBusy(procs[..n]);
    }
  }

  /** When n processes can never list more blocks than the log area holds. */
  predicate Fits(lay: Layout, n: nat, guarded: bool) {
    lay.size > LOGSIZE || (guarded && (lay.size == 1 || n <= 1))
  }

  /** The test of log_write keeps the list within the log area if at most one process runs. With more it
      does not, as it is made without the lock: what then keeps the list within the area is the
      reservation, provided the area has room for LOGSIZE blocks beside its header. Overrun has a
      run for every layout in between. */
  lemma LogFits(run: seq<State>, steps: seq<Step>, lay: Layout, guarded: bool, n: nat)
    requires IsRun(run, steps, lay, guarded) && n < |run| && Fits(lay, |run[0].procs|, guarded)
    ensures |run[n].lh| < lay.size
  {
    RunKeepsAdmission(run, steps, lay, guarded, n);
    SumBounds(run[n].procs);
  }

  /** When the disk is safe with n processes: the list fits, or it has NBUF entries before it has too
      many for the area, and a commit of so many panics before it writes. */
  predicate Safe(lay: Layout, n: nat, guarded: bool) {
    lay.size >= NBUF || (guarded && (lay.size == 1 || n <= 1))
  }

  lemma {:induction false} RunKeepsTransactional(run: seq<State>, steps: seq<Step>, lay: Layout, guarded: bool, n: nat)
    requires IsRun(run, steps, lay, guarded) && n < |run| && Safe(lay, |run[0].procs|, guarded)
    ensures Transactional(run[n], lay) && CommitFits(run[n], lay)
  {
    hide Next, Admission, Transactional;
    if n > 0 {
      RunKeepsTransactional(run, steps, lay, guarded, n - 1);
      RunKeepsAdmission(run, steps, lay, guarded, n - 1);
      assert Moves(run, steps, lay, guarded, n - 1);
      TransactionalKept(run[n - 1], run[n], lay, guarded, steps[n - 1]);
    } else {
      InitIsTransactional(run[0], lay);
    }
    if lay.size < NBUF {
      LogFits(run, steps, lay, guarded, n);
    }
  }

  lemma InitIsTransactional(s: State, lay: Layout)
    requires Init(s, lay)
    ensures Transactional(s, lay)
  {
  }

  /** In every run of a safe machine, with any interleaving, any number of commits and crashes anywhere,
      the home blocks on disk are the cached contents of a moment when no operation was in progress:
      no operation ever reaches the disk in part. OverrunReachesDisk has a run for every machine
      that is not safe. */
  lemma DiskIsTransactional(run: seq<State>, steps: seq<Step>, lay: Layout, guarded: bool, n: nat)
    requires IsRun(run, steps, lay, guarded) && n < |run| && Safe(lay, |run[0].procs|, guarded)
    ensures exists i :: 0 <= i < |run[n].quiet| && SameHome(run[n].disk, run[n].quiet[i], lay)
  {
    RunKeepsTransactional(run, steps, lay, guarded, n);
    var i :| 0 <= i < |run[n].quiet| && run[n].quiet[i] == run[n].durable;
  }

  /** The disk stands for quiet moment k or a later one. */
  ghost predicate NotBefore(s: State, k: nat) {
    exists i :: k <= i < |s.quiet| && s.quiet[i] == s.durable
  }

  lemma NotBeforeKept(s: State, t: State, lay: Layout, guarded: bool, step: Step, k: nat)
    requires Admission(s) && Transactional(s, lay) && Next(s, t, lay, guarded, step) && NotBefore(s, k)
    ensures NotBefore(t, k)
  {
    hide Cleared, Committed, Recovered, CommitImages, CrashChain, Loggable, Sound, SameHome, Reserved, Ops, Committers;
    var i :| k <= i < |s.quiet| && s.quiet[i] == s.durable;
    assert t.quiet[i] == s.quiet[i];
    if step.FinishCommit? {
      SumBounds(s.procs);
    }
    if t.durable != s.durable {
      assert t.quiet[|s.quiet| - 1] == s.view;
    }
  }

  lemma {:induction false} RunKeepsNotBefore(run: seq<State>, steps: seq<Step>, lay: Layout, guarded: bool,
                                             m: nat, n: nat, k: nat)
    requires IsRun(run, steps, lay, guarded) && Safe(lay, |run[0].procs|, guarded)
    requires m <= n < |run| && NotBefore(run[m], k)
    ensures NotBefore(run[n], k)
  {
    hide NotBefore, Next, Admission, Transactional;
    if m < n {
      RunKeepsNotBefore(run, steps, lay, guarded, m, n - 1, k);
      RunKeepsTransactional(run, steps, lay, guarded, n - 1);
      RunKeepsAdmission(run, steps, lay, guarded, n - 1);
      assert Moves(run, steps, lay, guarded, n - 1);
      NotBeforeKept(run[n - 1], run[n], lay, guarded, steps[n - 1], k);
    }
  }

  /** A finished commit survives: from then on, whatever crashes, the home blocks on disk are
      those of the moment that was committed or of a later one. */
  lemma CommitsAreDurable(run: seq<State>, steps: seq<Step>, lay: Layout, guarded: bool, m: nat, n: nat)
    requires IsRun(run, steps, lay, guarded) && Safe(lay, |run[0].procs|, guarded)
    requires m < |steps| && steps[m].FinishCommit? && m < n < |run|
    ensures exists i :: 0 <= |run[m].quiet| - 1 <= i < |run[n].quiet| && SameHome(run[n].disk, run[n].quiet[i], lay)
  {
    hide Cleared, Committed, Recovered, CommitImages, CrashChain, Loggable, Sound, SameHome, Reserved, Ops, Committers;
    RunKeepsTransactional(run, steps, lay, guarded, m);
    RunKeepsAdmission(run, steps, lay, guarded, m);
    SumBounds(run[m].procs);
    assert Moves(run, steps, lay, guarded, m);
    var k := |run[m].quiet| - 1;
    assert run[m + 1].quiet[k] == run[m + 1].durable;
    RunKeepsNotBefore(run, steps, lay, guarded, m + 1, n, k);
    RunKeepsTransactional(run, steps, lay, guarded, n);
    var i :| k <= i < |run[n].quiet| && run[n].quiet[i] == run[n].durable;
  }

  /** In every reachable state the test of log_write fails, whatever the block, exactly from Room
      entries on. One process never lists more, n processes at most n - 1 more. If the area has room
      for LOGSIZE blocks beside its header, every operation in progress has used its whole budget
      when the test fails: a new block within the budget is never refused, but one that is listed
      already is, as the test comes before the search. */
  lemma GuardIsExact(run: seq<State>, steps: seq<Step>, lay: Layout, n: nat)
    requires IsRun(run, steps, lay, true) && n < |run|
    ensures TooBig(run[n], lay) <==> |run[n].lh| >= Room(lay)
    ensures |run[n].lh| <= Limit(lay, |run[0].procs|)
    ensures Fits(lay, |run[0].procs|, true) ==> |run[n].lh| <= Room(lay)
    ensures lay.size > LOGSIZE && TooBig(run[n], lay) ==>
              forall p :: 0 <= p < |run[n].procs| && run[n].procs[p].InOp? ==> run[n].procs[p].used == MAXOPBLOCKS
  {
    RunKeepsAdmission(run, steps, lay, true, n);
    SumBounds(run[n].procs);
  }
}
