/** Runs of the log that go wrong. Two processes race for the last entry of the log area: log_write tests
    the length of the list before it takes log.lock, so that both pass and both append. */
module LogRuns {
  import opened Prelude
  import opened Blocks
  import opened LogSpec
  import opened LogSystem
  import opened LogHistory

  ghost predicate Reaches(run: seq<State>, steps: seq<Step>, lay: Layout, s: State) {
    IsRun(run, steps, lay, true) && run[|run| - 1] == s
  }

  lemma Extend(run: seq<State>, steps: seq<Step>, lay: Layout, s: State, step: Step, t: State)
    requires Reaches(run, steps, lay, s) && Next(s, t, lay, true, step)
    ensures Reaches(run + [t], steps + [step], lay, t)
  {
    hide Next, Init;
    var run', steps' := run + [t], steps + [step];
    forall i | 0 <= i < |steps'| ensures Moves(run', steps', lay, true, i) {
      assert i < |steps| ==> Moves(run, steps, lay, true, i);
    }
  }

  function Consecutive(first: nat, k: nat): (r: seq<nat>)
    ensures |r| == k && forall i :: 0 <= i < k ==> r[i] == first + i
  {
    if k == 0 then [] else Consecutive(first, k - 1) + [first + k - 1]
  }

  /** n processes of which all but the first two are idle. */
  function Pair(n: nat, a: Proc, b: Proc): (r: seq<Proc>)
    requires n >= 2
    ensures |r| == n && r[0] == a && r[1] == b
  {
    seq(n, i => if i == 0 then a else if i == 1 then b else Idle)
  }

  lemma PairUpdates(n: nat, a: Proc, b: Proc, c: Proc)
    requires n >= 2
    ensures Pair(n, a, b)[0 := c] == Pair(n, c, b) && Pair(n, a, b)[1 := c] == Pair(n, a, c)
    ensures !a.Asleep? && !b.Asleep? ==> Wake(Pair(n, a, b)) == Pair(n, a, b)
  {
  }

  /** Since the start the two have listed the blocks lh, and the cache has become view. */
  function Since(img: Image, view: Image, procs: seq<Proc>, lh: seq<nat>, outstanding: nat): State {
    State(procs, lh, outstanding, false, img, view, img, [img])
  }

  /** What the first of the two has used after k blocks: it ends its operation after MAXOPBLOCKS of them,
      and begins another. It leaves one block of that one to the end, and the second process goes on. */
  function First(k: nat): nat {
    if k < 10 then k else if k < 19 then k - 10 else if k < 30 then 9 else 10
  }

  function Second(k: nat): nat {
    if k < 19 then 0 else if k < 29 then k - 19 else 10
  }

  function Filling(img: Image, lay: Layout, n: nat, k: nat): State
    requires n >= 2
  {
    Since(img, img, Pair(n, InOp(First(k), false), InOp(Second(k), false)), Consecutive(lay.start + lay.size, k), 2)
  }

  /** Process p has logged a new block. */
  function Wrote(s: State, p: nat, blk: nat, data: Block): State
    requires p < |s.procs| && s.procs[p].InOp? && blk < |s.view|
  {
    s.(view := s.view[blk := data], lh := s.lh + [blk], procs := s.procs[p := InOp(s.procs[p].used + 1, false)])
  }

  lemma WriteOne(run: seq<State>, steps: seq<Step>, lay: Layout, s: State, p: nat, blk: nat, data: Block)
    returns (run': seq<State>, steps': seq<Step>)
    requires Reaches(run, steps, lay, s) && !TooBig(s, lay)
    requires p < |s.procs| && s.procs[p].InOp? && !s.procs[p].passed && s.procs[p].used < MAXOPBLOCKS
    requires blk < |s.view| && !lay.InLog(blk) && blk !in s.lh
    ensures Reaches(run', steps', lay, Wrote(s, p, blk, data))
    ensures steps' == steps + [Check(p)] + [Append(p, blk, data)]
  {
    hide Reaches;
    var used := s.procs[p].used;
    var t := s.(procs := s.procs[p := InOp(used, true)]);
    Extend(run, steps, lay, s, Check(p), t);
    var u := Wrote(s, p, blk, data);
    assert t.procs[p := InOp(used + 1, false)] == u.procs;
    Extend(run + [t], steps + [Check(p)], lay, t, Append(p, blk, data), u);
    run', steps' := run + [t] + [u], steps + [Check(p)] + [Append(p, blk, data)];
  }

  /** begin_op, by the first of the two or by the second. */
  lemma Begin(run: seq<State>, steps: seq<Step>, lay: Layout, s: State, p: nat)
    returns (run': seq<State>, steps': seq<Step>)
    requires Reaches(run, steps, lay, s) && !s.committing && !LogIsFull(s) && p < |s.procs| && s.procs[p].Idle?
    ensures Reaches(run', steps', lay, s.(procs := s.procs[p := InOp(0, false)], outstanding := s.outstanding + 1))
    ensures steps <= steps'
  {
    hide Reaches;
    var t := s.(procs := s.procs[p := Trying]);
    Extend(run, steps, lay, s, Enter(p), t);
    var u := s.(procs := s.procs[p := InOp(0, false)], outstanding := s.outstanding + 1);
    assert t.procs[p := InOp(0, false)] == u.procs;
    Extend(run + [t], steps + [Enter(p)], lay, t, BeginOp(p), u);
    run', steps' := run + [t] + [u], steps + [Enter(p)] + [BeginOp(p)];
  }

  lemma BeginBoth(img: Image, lay: Layout, n: nat) returns (run: seq<State>, steps: seq<Step>)
    requires n >= 2 && 0 < lay.size && lay.start + lay.size <= |img| <= 0x1_0000_0000
    requires GetWord(img[lay.start], 0) == 0
    ensures Reaches(run, steps, lay, Filling(img, lay, n, 0))
  {
    var s := Since(img, img, Pair(n, Idle, Idle), [], 0);
    run, steps := [s], [];
    PairUpdates(n, Idle, Idle, InOp(0, false));
    PairUpdates(n, InOp(0, false), Idle, InOp(0, false));
    run, steps := Begin(run, steps, lay, s, 0);
    run, steps := Begin(run, steps, lay, Since(img, img, Pair(n, InOp(0, false), Idle), [], 1), 1);
  }

  /** The first process ends its operation and begins another while the second one's goes on. */
  lemma BeginAgain(run: seq<State>, steps: seq<Step>, lay: Layout, img: Image, n: nat)
    returns (run': seq<State>, steps': seq<Step>)
    requires n >= 2
    requires Reaches(run, steps, lay, Since(img, img, Pair(n, InOp(10, false), InOp(0, false)),
                                            Consecutive(lay.start + lay.size, 10), 2))
    ensures Reaches(run', steps', lay, Filling(img, lay, n, 10))
  {
    hide Reaches;
    var first, both := Pair(n, InOp(10, false), InOp(0, false)), Consecutive(lay.start + lay.size, 10);
    PairUpdates(n, InOp(10, false), InOp(0, false), Idle);
    PairUpdates(n, Idle, InOp(0, false), InOp(0, false));
    var t := Since(img, img, Pair(n, Idle, InOp(0, false)), both, 1);
    Extend(run, steps, lay, Since(img, img, first, both, 2), EndOp(0), t);
    run', steps' := Begin(run + [t], steps + [EndOp(0)], lay, t, 0);
  }

  /** A run of two processes that list k blocks, as far as the test lets them. */
  lemma {:induction false} Fill(img: Image, lay: Layout, n: nat, k: nat) returns (run: seq<State>, steps: seq<Step>)
    requires n >= 2 && 0 < lay.size && k <= Room(lay) && lay.start + lay.size + k <= |img| <= 0x1_0000_0000
    requires GetWord(img[lay.start], 0) == 0
    ensures Reaches(run, steps, lay, Filling(img, lay, n, k))
    ensures var blk := lay.start + lay.size + 19; k >= 20 ==> Append(1, blk, img[blk]) in steps
  {
    hide Reaches, Pair, Wrote;
    if k == 0 {
      run, steps := BeginBoth(img, lay, n);
    } else {
      run, steps := Fill(img, lay, n, k - 1);
      var s, p, blk := Filling(img, lay, n, k - 1), if 19 <= k - 1 < 29 then 1 else 0, lay.start + lay.size + k - 1;
      run, steps := WriteOne(run, steps, lay, s, p, blk, img[blk]);
      assert k == 20 ==> steps[|steps| - 1] == Append(1, blk, img[blk]);
      FillingStep(img, lay, n, k - 1, p);
      if k == 10 {
        run, steps := BeginAgain(run, steps, lay, img, n);
      }
    }
  }

  lemma FillingStep(img: Image, lay: Layout, n: nat, k: nat, p: nat)
    requires n >= 2 && k < LOGSIZE && lay.start + lay.size + k < |img| && p == if 19 <= k < 29 then 1 else 0
    ensures var blk := lay.start + lay.size + k;
            Wrote(Filling(img, lay, n, k), p, blk, img[blk])
            == if k == 9 then Since(img, img, Pair(n, InOp(10, false), InOp(0, false)),
                                    Consecutive(lay.start + lay.size, 10), 2)
               else Filling(img, lay, n, k + 1)
  {
    var blk := lay.start + lay.size + k;
    assert img[blk := img[blk]] == img;
    PairUpdates(n, InOp(First(k), false), InOp(Second(k), false),
                if p == 0 then InOp(First(k) + 1, false) else InOp(Second(k) + 1, false));
  }

  /** With an area of LOGSIZE blocks or fewer, as mkfs makes it (nlog = LOGSIZE), log_write can
      refuse a new block to an operation within its budget. */
  lemma GuardRefuses(img: Image, lay: Layout, n: nat) returns (run: seq<State>, steps: seq<Step>, p: nat)
    requires n >= 2 && 0 < lay.size <= LOGSIZE && lay.start + lay.size + LOGSIZE <= |img| <= 0x1_0000_0000
    requires GetWord(img[lay.start], 0) == 0
    ensures IsRun(run, steps, lay, true) && |run[0].procs| == n
    ensures var last := run[|run| - 1];
            && p < |last.procs| && last.procs[p].InOp? && last.procs[p].used < MAXOPBLOCKS
            && |last.lh| < LOGSIZE && TooBig(last, lay)
  {
    hide IsRun;
    run, steps := Fill(img, lay, n, Room(lay));
    ReachesSize(run, steps, lay, Filling(img, lay, n, Room(lay)));
    p := 0;
  }

  /** With a bigger area it can still refuse a block that the operation has logged before. */
  lemma GuardRefusesListed(img: Image, lay: Layout, n: nat)
    returns (run: seq<State>, steps: seq<Step>, p: nat, blk: nat)
    requires n >= 2 && LOGSIZE < lay.size && lay.start + lay.size + LOGSIZE <= |img| <= 0x1_0000_0000
    requires GetWord(img[lay.start], 0) == 0
    ensures IsRun(run, steps, lay, true) && |run[0].procs| == n
    ensures var last := run[|run| - 1];
            && p < |last.procs| && last.procs[p].InOp? && last.procs[p].used <= MAXOPBLOCKS
            && blk < |img| && blk in last.lh && TooBig(last, lay)
    ensures Append(p, blk, img[blk]) in steps
  {
    hide IsRun;
    run, steps := Fill(img, lay, n, LOGSIZE);
    ReachesSize(run, steps, lay, Filling(img, lay, n, LOGSIZE));
    p, blk := 1, lay.start + lay.size + 19;
    assert run[|run| - 1].lh[19] == blk;
  }

  // ----- The race -----

  /** Both have appended, the second one data, and the list has one entry too many for the area. */
  function Overran(img: Image, lay: Layout, n: nat, data: Block): State
    requires n >= 2 && lay.size >= 2 && lay.start + 2 * lay.size <= |img|
  {
    var m := lay.size - 2;
    Since(img, img[lay.start + lay.size + m + 1 := data],
          Pair(n, InOp(First(m) + 1, false), InOp(Second(m) + 1, false)),
          Consecutive(lay.start + lay.size, lay.size), 2)
  }

  /** For every layout with 2 to LOGSIZE blocks and any number of processes from two on there is a run,
      within all budgets and past every test, that lists one block more than the log area holds. */
  lemma Overrun(img: Image, lay: Layout, n: nat, data: Block) returns (run: seq<State>, steps: seq<Step>)
    requires n >= 2 && 2 <= lay.size <= LOGSIZE && lay.start + 2 * lay.size <= |img| <= 0x1_0000_0000
    requires GetWord(img[lay.start], 0) == 0
    ensures Reaches(run, steps, lay, Overran(img, lay, n, data)) && |run[0].procs| == n
    ensures |run[|run| - 1].lh| == lay.size
  {
    hide Reaches;
    run, steps := Fill(img, lay, n, lay.size - 2);
    run, steps := Race(run, steps, img, lay, n, data);
    ReachesSize(run, steps, lay, Overran(img, lay, n, data));
  }

  lemma ReachesSize(run: seq<State>, steps: seq<Step>, lay: Layout, s: State)
    requires Reaches(run, steps, lay, s)
    ensures |run| > 0 && run[|run| - 1] == s && |run[0].procs| == |s.procs|
  {
    RunKeepsAdmission(run, steps, lay, true, |run| - 1);
  }

  /** Both pass the test at the same length of the list. */
  lemma PassBoth(run: seq<State>, steps: seq<Step>, lay: Layout, s: State, n: nat, a: nat, b: nat)
    returns (run': seq<State>, steps': seq<Step>)
    requires n >= 2 && Reaches(run, steps, lay, s) && !TooBig(s, lay)
    requires s.procs == Pair(n, InOp(a, false), InOp(b, false))
    ensures Reaches(run', steps', lay, s.(procs := Pair(n, InOp(a, true), InOp(b, true))))
  {
    hide Reaches, Pair;
    var t := s.(procs := Pair(n, InOp(a, true), InOp(b, false)));
    PairUpdates(n, InOp(a, false), InOp(b, false), InOp(a, true));
    Extend(run, steps, lay, s, Check(0), t);
    var u := s.(procs := Pair(n, InOp(a, true), InOp(b, true)));
    PairUpdates(n, InOp(a, true), InOp(b, false), InOp(b, true));
    Extend(run + [t], steps + [Check(0)], lay, t, Check(1), u);
    run', steps' := run + [t] + [u], steps + [Check(0)] + [Check(1)];
  }

  /** One of two that have passed appends. */
  lemma AppendOne(run: seq<State>, steps: seq<Step>, lay: Layout, s: State, p: nat, blk: nat, data: Block)
    returns (run': seq<State>, steps': seq<Step>)
    requires Reaches(run, steps, lay, s) && p < |s.procs| && s.procs[p].InOp? && s.procs[p].passed
    requires s.procs[p].used < MAXOPBLOCKS && blk < |s.view| && !lay.InLog(blk) && blk !in s.lh
    ensures Reaches(run', steps', lay, Wrote(s, p, blk, data))
  {
    hide Reaches;
    Extend(run, steps, lay, s, Append(p, blk, data), Wrote(s, p, blk, data));
    run', steps' := run + [Wrote(s, p, blk, data)], steps + [Append(p, blk, data)];
  }

  lemma Race(run: seq<State>, steps: seq<Step>, img: Image, lay: Layout, n: nat, data: Block)
    returns (run': seq<State>, steps': seq<Step>)
    requires n >= 2 && 2 <= lay.size <= LOGSIZE && lay.start + 2 * lay.size <= |img|
    requires Reaches(run, steps, lay, Filling(img, lay, n, lay.size - 2))
    ensures Reaches(run', steps', lay, Overran(img, lay, n, data))
  {
    hide Reaches, Pair;
    var m, first := lay.size - 2, lay.start + lay.size;
    var a, b := First(m), Second(m);
    run', steps' := PassBoth(run, steps, lay, Filling(img, lay, n, m), n, a, b);
    var u := Since(img, img, Pair(n, InOp(a, true), InOp(b, true)), Consecutive(first, m), 2);
    var v := Since(img, img, Pair(n, InOp(a + 1, false), InOp(b, true)), Consecutive(first, m + 1), 2);
    PairUpdates(n, InOp(a, true), InOp(b, true), InOp(a + 1, false));
    assert img[first + m := img[first + m]] == img;
    run', steps' := AppendOne(run', steps', lay, u, 0, first + m, img[first + m]);
    PairUpdates(n, InOp(a + 1, false), InOp(b, true), InOp(b + 1, false));
    run', steps' := AppendOne(run', steps', lay, v, 1, first + m + 1, data);
  }

  /** The two end their operations, and the second one commits. */
  function Spilling(img: Image, lay: Layout, n: nat, data: Block): State
    requires n >= 2 && lay.size >= 2 && lay.start + 2 * lay.size <= |img|
  {
    var s := Overran(img, lay, n, data);
    s.(procs := Pair(n, Idle, Committer), outstanding := 0, committing := true, quiet := [img, s.view])
  }

  lemma EndBoth(run: seq<State>, steps: seq<Step>, img: Image, lay: Layout, n: nat, data: Block)
    returns (run': seq<State>, steps': seq<Step>)
    requires n >= 2 && lay.size >= 2 && lay.start + 2 * lay.size <= |img|
    requires Reaches(run, steps, lay, Overran(img, lay, n, data))
    ensures Reaches(run', steps', lay, Spilling(img, lay, n, data))
  {
    hide Reaches;
    var s, u := Overran(img, lay, n, data), Spilling(img, lay, n, data);
    var a, b := s.procs[0], s.procs[1];
    var t := s.(procs := Pair(n, Idle, b), outstanding := 1);
    PairUpdates(n, a, b, Idle);
    PairUpdates(n, Idle, b, Committer);
    Extend(run, steps, lay, s, EndOp(0), t);
    assert t.quiet + [t.view] == u.quiet;
    Extend(run + [t], steps + [EndOp(0)], lay, t, EndOp(1), u);
    run', steps' := run + [t] + [u], steps + [EndOp(0)] + [EndOp(1)];
  }

  ghost predicate Torn(s: State, lay: Layout) {
    forall i :: 0 <= i < |s.quiet| ==> !SameHome(s.disk, s.quiet[i], lay)
  }

  /** In the end the disk has the cached contents of no moment without operations. */
  ghost predicate EndsTorn(run: seq<State>, steps: seq<Step>, lay: Layout) {
    |run| > 0 && forall k :: 0 <= k < |run| && IsMoment(run, steps, k) ==>
      !SameHome(run[|run| - 1].disk, run[k].view, lay)
  }

  lemma TornHasNoMoment(run: seq<State>, steps: seq<Step>, lay: Layout)
    requires IsRun(run, steps, lay, true) && Torn(run[|run| - 1], lay)
    ensures EndsTorn(run, steps, lay)
  {
    hide Next, Init, IsMoment, SameHome;
    forall k | 0 <= k < |run| && IsMoment(run, steps, k) ensures !SameHome(run[|run| - 1].disk, run[k].view, lay) {
      MomentIsQuiet(run, steps, lay, true, k, |run| - 1);
    }
  }

  lemma SpillTears(img: Image, lay: Layout, n: nat, data: Block) returns (step: Step, t: State)
    requires n >= 2 && 2 <= lay.size < NBUF && lay.start + 2 * lay.size <= |img| <= 0x1_0000_0000
    requires GetWord(img[lay.start], 0) == 0 && data != img[lay.start + lay.size]
    ensures Next(Spilling(img, lay, n, data), t, lay, true, step) && Torn(t, lay) && |t.procs| == n
  {
    var s := Spilling(img, lay, n, data);
    var spilt := Logged(s.disk, s.view, lay, s.lh, lay.size);
    assert spilt[lay.start + lay.size] == data;
    EmptyLogRecovers(spilt, lay);
    t := s.(procs := seq(n, _ => Idle), lh := [], outstanding := 0, committing := false,
            disk := Recovered(spilt, lay), view := Recovered(spilt, lay));
    step := Crash(lay.size - 1, [spilt]);
  }

  /** If the commit finds a buffer, its last copy goes to the first block behind the log area, before any
      header is written. A crash there leaves a disk that stands for no moment without operations. */
  lemma OverrunReachesDisk(img: Image, lay: Layout, n: nat, data: Block)
    requires n >= 2 && 2 <= lay.size < NBUF && lay.start + 2 * lay.size <= |img| <= 0x1_0000_0000
    requires GetWord(img[lay.start], 0) == 0 && data != img[lay.start + lay.size]
    ensures exists run: seq<State>, steps: seq<Step> ::
              IsRun(run, steps, lay, true) && |run[0].procs| == n && EndsTorn(run, steps, lay)
  {
    hide Next, Init, Torn, EndsTorn, Spilling, Overran;
    var run, steps := Overrun(img, lay, n, data);
    run, steps := EndBoth(run, steps, img, lay, n, data);
    var step, t := SpillTears(img, lay, n, data);
    Extend(run, steps, lay, Spilling(img, lay, n, data), step, t);
    run, steps := run + [t], steps + [step];
    ReachesSize(run, steps, lay, t);
    TornHasNoMoment(run, steps, lay);
  }
}
