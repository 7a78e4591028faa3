/** acquiresleep and releasesleep of sleeplock.c over sleep and wakeup of proc.c, for any number of
    processes, one sleep lock, and kill. Every acquire and release of the two spin locks involved,
    lk->lk and ptable.lock, is a step of its own. */
module SleepLock {
  /** Where a process is; the comment says what it does next. */
  datatype Pc =
    | Outside     // may call acquiresleep or kill
    | Acquire     // acquire(&lk->lk)
    | Test        // while (lk->locked)
    | SleepLock1  // in sleep: acquire(&ptable.lock)
    | SleepLock2  // in sleep: release(lk)
    | GoToSleep   // p->chan = chan; p->state = SLEEPING; sched()
    | Sleeping
    | Runnable    // woken up, waiting for the scheduler
    | Tidy        // back from sched: p->chan = 0; release(&ptable.lock)
    | Taken       // lk->locked and lk->pid are set: release(&lk->lk)
    | Holding     // has the sleep lock
    | Release     // acquire(&lk->lk)
    | Clear       // lk->locked = 0; lk->pid = 0
    | Wakeup      // acquire(&ptable.lock)
    | Wakeup1     // wakeup1(lk)
    | Wakeup2     // release(&ptable.lock)
    | Done        // release(&lk->lk)
    | Killing(victim: nat)  // holds ptable.lock in kill

  /** Who holds ptable.lock: nobody, a process, or a scheduler. */
  datatype Owner = Nobody | Process(p: nat) | Scheduler

  datatype State = State(pc: seq<Pc>, locked: bool, pid: nat, lk: Owner, ptable: Owner)

  datatype Step =
    | Call(p: nat)                  // calls acquiresleep
    | Finish(p: nat)                // calls releasesleep
    | Move(p: nat)                  // the next step of what p is doing
    | Kill(p: nat, victim: nat)     // acquire(&ptable.lock) in kill
    | SchedulerLock
    | SchedulerUnlock
    | Dispatch(p: nat)              // a scheduler switches to p

  ghost predicate Init(s: State)
  {
    && (forall p :: 0 <= p < |s.pc| ==> s.pc[p] == Outside)
    && !s.locked && s.lk == Nobody && s.ptable == Nobody
  }

  /** wakeup1: every process asleep on the lock becomes runnable. */
  function WakeAll(pc: seq<Pc>): (r: seq<Pc>)
    ensures |r| == |pc|
  {
    seq(|pc|, i requires 0 <= i < |pc| => if pc[i].Sleeping? then Runnable else pc[i])
  }

  predicate Enabled(s: State, p: nat)
    requires p < |s.pc|
  {
    match s.pc[p]
    case Acquire | Release => s.lk == Nobody
    case SleepLock1 | Wakeup => s.ptable == Nobody
    case Outside | Holding | Sleeping | Runnable => false
    case _ => true
  }

  /** What p's next step does. */
  function Moved(s: State, p: nat): State
    requires p < |s.pc| && Enabled(s, p)
  {
    match s.pc[p]
    case Acquire => s.(pc := s.pc[p := Test], lk := Process(p))
    case Test =>
      if s.locked then s.(pc := s.pc[p := SleepLock1])
      else s.(pc := s.pc[p := Taken], locked := true, pid := p)
    case SleepLock1 => s.(pc := s.pc[p := SleepLock2], ptable := Process(p))
    case SleepLock2 => s.(pc := s.pc[p := GoToSleep], lk := Nobody)
    case GoToSleep => s.(pc := s.pc[p := Sleeping], ptable := Scheduler)
    case Tidy => s.(pc := s.pc[p := Acquire], ptable := Nobody)
    case Taken => s.(pc := s.pc[p := Holding], lk := Nobody)
    case Release => s.(pc := s.pc[p := Clear], lk := Process(p))
    case Clear => s.(pc := s.pc[p := Wakeup], locked := false)
    case Wakeup => s.(pc := s.pc[p := Wakeup1], ptable := Process(p))
    case Wakeup1 => s.(pc := WakeAll(s.pc)[p := Wakeup2])
    case Wakeup2 => s.(pc := s.pc[p := Done], ptable := Nobody)
    case Done => s.(pc := s.pc[p := Outside], lk := Nobody)
    case Killing(v) =>
      var woken := if v < |s.pc| && s.pc[v].Sleeping? then s.pc[v := Runnable] else s.pc;
      s.(pc := woken[p := Outside], ptable := Nobody)
  }

  ghost predicate Next(s: State, t: State, step: Step)
  {
    match step
    case Call(p) => p < |s.pc| && s.pc[p].Outside? && t == s.(pc := s.pc[p := Acquire])
    case Finish(p) => p < |s.pc| && s.pc[p].Holding? && t == s.(pc := s.pc[p := Release])
    case Move(p) => p < |s.pc| && Enabled(s, p) && t == Moved(s, p)
    case Kill(p, v) =>
      && p < |s.pc| && s.pc[p].Outside? && s.ptable == Nobody
      && t == s.(pc := s.pc[p := Killing(v)], ptable := Process(p))
    case SchedulerLock => s.ptable == Nobody && t == s.(ptable := Scheduler)
    case SchedulerUnlock => s.ptable == Scheduler && t == s.(ptable := Nobody)
    case Dispatch(p) =>
      && p < |s.pc| && s.pc[p].Runnable? && s.ptable == Scheduler
      && t == s.(pc := s.pc[p := Tidy], ptable := Process(p))
  }

  // ----- Invariant -----

  predicate HoldsLk(c: Pc) {
    c.Test? || c.SleepLock1? || c.SleepLock2? || c.Taken? || c.Clear? || c.Wakeup? || c.Wakeup1? || c.Wakeup2?
      || c.Done?
  }

  predicate HoldsPtable(c: Pc) {
    c.SleepLock2? || c.GoToSleep? || c.Tidy? || c.Wakeup1? || c.Wakeup2? || c.Killing?
  }

  predicate HasSleepLock(c: Pc) {
    c.Taken? || c.Holding? || c.Release? || c.Clear?
  }

  /** A releaser has cleared the lock and has yet to run its wakeup. */
  ghost predicate WakeupDue(s: State)
  {
    s.lk.Process? && s.lk.p < |s.pc| && (s.pc[s.lk.p].Wakeup? || s.pc[s.lk.p].Wakeup1?)
  }

  ghost predicate ProcOk(s: State, p: nat)
  {
    && p < |s.pc|
    && (HoldsLk(s.pc[p]) <==> s.lk == Process(p))
    && (HoldsPtable(s.pc[p]) <==> s.ptable == Process(p))
    && (HasSleepLock(s.pc[p]) <==> s.locked && s.pid == p)
    && (s.pc[p].SleepLock1? || s.pc[p].SleepLock2? ==> s.locked)
    && (s.pc[p].GoToSleep? || s.pc[p].Sleeping? ==> s.locked || WakeupDue(s))
  }

  ghost predicate Inv(s: State)
  {
    && (forall p :: 0 <= p < |s.pc| ==> ProcOk(s, p))
    && (s.locked ==> s.pid < |s.pc|)
    && !s.lk.Scheduler? && (s.lk.Process? ==> s.lk.p < |s.pc|) && (s.ptable.Process? ==> s.ptable.p < |s.pc|)
  }

  /** What the step of p needs to know about p, q and the holder of lk->lk. */
  ghost predicate Near(s: State, p: nat, q: nat)
  {
    && ProcOk(s, p) && ProcOk(s, q) && !s.lk.Scheduler?
    && (s.lk.Process? ==> ProcOk(s, s.lk.p))
  }

  lemma MoveKeepsSelf(s: State, p: nat)
    requires Near(s, p, p) && Enabled(s, p)
    ensures ProcOk(Moved(s, p), p)
  {
    match s.pc[p] case _ =>
  }

  lemma MoveKeepsOther(s: State, p: nat, q: nat)
    requires Near(s, p, q) && Enabled(s, p) && p != q
    ensures ProcOk(Moved(s, p), q)
  {
    match s.pc[p]
    case Clear =>
    case Wakeup1 =>
    case Killing(v) =>
    case _ =>
  }

  lemma OtherKeepsProc(s: State, t: State, step: Step, q: nat)
    requires Inv(s) && Next(s, t, step) && !step.Move? && q < |t.pc|
    ensures ProcOk(t, q)
  {
    hide Enabled, Moved;
    assert ProcOk(s, q);
    if s.lk.Process? {
      assert ProcOk(s, s.lk.p);
    }
  }

  lemma InvKept(s: State, t: State, step: Step)
    requires Inv(s) && Next(s, t, step)
    ensures Inv(t)
  {
    hide ProcOk, HoldsLk, HoldsPtable, HasSleepLock;
    forall q | 0 <= q < |t.pc| ensures ProcOk(t, q) {
      if step.Move? {
        assert ProcOk(s, step.p) && ProcOk(s, q) && (s.lk.Process? ==> ProcOk(s, s.lk.p));
        if q == step.p {
          MoveKeepsSelf(s, q);
        } else {
          MoveKeepsOther(s, step.p, q);
        }
      } else {
        OtherKeepsProc(s, t, step, q);
      }
    }
  }

  // ----- Runs -----

  ghost predicate IsRun(run: seq<State>, steps: seq<Step>)
  {
    && |run| == |steps| + 1 && Init(run[0])
    && forall i :: 0 <= i < |steps| ==> Next(run[i], run[i + 1], steps[i])
  }

  lemma {:induction false} RunKeepsInv(run: seq<State>, steps: seq<Step>, n: nat)
    requires IsRun(run, steps) && n < |run|
    ensures Inv(run[n])
  {
    hide Next;
    if n > 0 {
      RunKeepsInv(run, steps, n - 1);
      InvKept(run[n - 1], run[n], steps[n - 1]);
    }
  }

  /** At most one process has the sleep lock. */
  lemma MutualExclusion(run: seq<State>, steps: seq<Step>, n: nat, p: nat, q: nat)
    requires IsRun(run, steps) && n < |run| && p < |run[n].pc| && q < |run[n].pc|
    requires HasSleepLock(run[n].pc[p]) && HasSleepLock(run[n].pc[q])
    ensures p == q
  {
    RunKeepsInv(run, steps, n);
    assert ProcOk(run[n], p) && ProcOk(run[n], q);
  }

  /** No wakeup is lost: while a process sleeps on the lock, some process has it or has let go of
      it and not yet run its wakeup. */
  lemma NoLostWakeup(run: seq<State>, steps: seq<Step>, n: nat, p: nat) returns (q: nat)
    requires IsRun(run, steps) && n < |run| && p < |run[n].pc| && run[n].pc[p].Sleeping?
    ensures q < |run[n].pc| && (HasSleepLock(run[n].pc[q]) || run[n].pc[q].Wakeup? || run[n].pc[q].Wakeup1?)
  {
    RunKeepsInv(run, steps, n);
    var s := run[n];
    assert ProcOk(s, p);
    if s.locked {
      q := s.pid;
      assert ProcOk(s, q);
    } else {
      q := s.lk.p;
    }
  }

  /** Some process inside the protocol, or a scheduler with something to do, can take a step. */
  ghost predicate CanProgress(s: State)
  {
    || (exists p :: 0 <= p < |s.pc| && Enabled(s, p))
    || s.ptable == Scheduler
    || (s.ptable == Nobody && exists p :: 0 <= p < |s.pc| && s.pc[p].Runnable?)
  }

  /** No deadlock: unless everybody is outside or a process simply keeps the lock, somebody can go on. */
  lemma NoDeadlock(run: seq<State>, steps: seq<Step>, n: nat, p: nat)
    requires IsRun(run, steps) && n < |run| && p < |run[n].pc| && !run[n].pc[p].Outside?
    requires forall q :: 0 <= q < |run[n].pc| ==> !run[n].pc[q].Holding?
    ensures CanProgress(run[n])
  {
    RunKeepsInv(run, steps, n);
    var s := run[n];
    assert ProcOk(s, p);
    if s.ptable.Process? {
      assert ProcOk(s, s.ptable.p);
      assert Enabled(s, s.ptable.p);
    } else if s.ptable == Nobody {
      if s.lk.Process? {
        assert ProcOk(s, s.lk.p);
        assert Enabled(s, s.lk.p);
      } else if s.pc[p].Sleeping? {
        assert ProcOk(s, s.pid);
        assert Enabled(s, s.pid);
      } else {
        assert Enabled(s, p) || s.pc[p].Runnable?;
      }
    }
  }

  // ----- What acquiresleep and releasesleep return with -----

  /** In acquiresleep. */
  predicate Acquiring(c: Pc) {
    c.Acquire? || c.Test? || c.SleepLock1? || c.SleepLock2? || c.GoToSleep? || c.Sleeping? || c.Runnable? || c.Tidy?
      || c.Taken?
  }

  /** In releasesleep. */
  predicate Releasing(c: Pc) {
    c.Release? || c.Clear? || c.Wakeup? || c.Wakeup1? || c.Wakeup2? || c.Done?
  }

  lemma StepLeaves(s: State, t: State, step: Step, p: nat)
    requires Next(s, t, step) && p < |s.pc|
    ensures |t.pc| == |s.pc|
    ensures Acquiring(s.pc[p]) ==> Acquiring(t.pc[p]) || t.pc[p].Holding?
    ensures s.pc[p].Holding? ==> t.pc[p].Holding? || (t.pc[p].Release? && step == Finish(p))
    ensures Releasing(s.pc[p]) ==> Releasing(t.pc[p]) || t.pc[p].Outside?
  {
    if step.Move? {
      match s.pc[step.p]
      case Wakeup1 =>
      case Killing(v) =>
      case _ =>
    }
  }

  /** acquiresleep returns only with the lock: a process that has called it and is there no longer came
      through a state in which it held the lock, and was in acquiresleep until then. */
  lemma {:induction false} AcquireReturnsHolding(run: seq<State>, steps: seq<Step>, m: nat, n: nat, p: nat)
    returns (k: nat)
    requires IsRun(run, steps) && m <= n < |run| && p < |run[m].pc| && Acquiring(run[m].pc[p])
    requires p < |run[n].pc| && !Acquiring(run[n].pc[p])
    ensures m < k <= n && p < |run[k].pc| && run[k].pc[p].Holding? && run[k].locked && run[k].pid == p
    ensures forall i :: m <= i < k ==> p < |run[i].pc| && Acquiring(run[i].pc[p])
    decreases n - m
  {
    hide Next, Init;
    assert Next(run[m], run[m + 1], steps[m]);
    StepLeaves(run[m], run[m + 1], steps[m], p);
    if Acquiring(run[m + 1].pc[p]) {
      k := AcquireReturnsHolding(run, steps, m + 1, n, p);
    } else {
      k := m + 1;
      RunKeepsInv(run, steps, k);
      assert ProcOk(run[k], p);
    }
  }

  /** And a process keeps the lock until it calls releasesleep itself. */
  lemma {:induction false} HoldsUntilFinish(run: seq<State>, steps: seq<Step>, m: nat, n: nat, p: nat)
    requires IsRun(run, steps) && m <= n < |run| && p < |run[m].pc| && run[m].pc[p].Holding?
    requires forall i :: m <= i < n ==> steps[i] != Finish(p)
    ensures p < |run[n].pc| && run[n].pc[p].Holding? && run[n].locked && run[n].pid == p
    decreases n - m
  {
    hide Next, Init;
    if m < n {
      assert Next(run[m], run[m + 1], steps[m]);
      StepLeaves(run[m], run[m + 1], steps[m], p);
      HoldsUntilFinish(run, steps, m + 1, n, p);
    } else {
      RunKeepsInv(run, steps, n);
      assert ProcOk(run[n], p);
    }
  }
}
