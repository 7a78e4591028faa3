/** The process table of proc.c: fork, exit, wait, sleep, wakeup, kill and the scheduler's switch.

    Each method is what the source does between acquiring and releasing ptable.lock, so every
    interleaving is a sequence of calls, and Valid is what holds whenever the lock is free. */
module ProcTable {
  import opened Prelude

  datatype ProcState = UNUSED | EMBRYO | SLEEPING | RUNNABLE | RUNNING | ZOMBIE

  /** What a process sleeps on: nothing, a process (wait) or some other address. */
  datatype Chan = Nothing | OnProc(slot: nat) | OnOther(addr: nat)

  /** struct proc; parent is a slot of the table. */
  datatype Proc = Proc(state: ProcState, pid: nat, parent: Option<nat>, chan: Chan, killed: bool)

  type Table = seq<Proc>

  predicate Alive(p: Proc) {
    p.state == SLEEPING || p.state == RUNNABLE || p.state == RUNNING
  }

  // ----- What the critical sections do, on values -----

  function WokenOne(p: Proc, chan: Chan): Proc {
    if p.state == SLEEPING && p.chan == chan then p.(state := RUNNABLE) else p
  }

  /** wakeup1 */
  function Woken(t: Table, chan: Chan): (r: Table)
    ensures |r| == |t| && forall i :: 0 <= i < |t| ==> r[i] == WokenOne(t[i], chan)
  {
    seq(|t|, i requires 0 <= i < |t| => WokenOne(t[i], chan))
  }

  /** What wakeup is for: nobody is left asleep on chan, whoever was is runnable and otherwise as before, and
      nobody else has changed. */
  ghost predicate WokeUp(t: Table, r: Table, chan: Chan)
  {
    && |r| == |t|
    && (forall i :: 0 <= i < |r| ==> !(r[i].state == SLEEPING && r[i].chan == chan))
    && (forall i :: 0 <= i < |t| && t[i].state == SLEEPING && t[i].chan == chan ==> r[i] == t[i].(state := RUNNABLE))
    && (forall i :: 0 <= i < |t| && !(t[i].state == SLEEPING && t[i].chan == chan) ==> r[i] == t[i])
  }

  lemma WokenWakes(t: Table, chan: Chan)
    ensures WokeUp(t, Woken(t, chan), chan)
  {
  }

  ghost predicate ZombieChild(t: Table, cur: nat, n: nat)
  {
    exists i :: 0 <= i < n && i < |t| && t[i].parent == Some(cur) && t[i].state == ZOMBIE
  }

  function ParentChan(p: Proc): Chan {
    if p.parent.Some? then OnProc(p.parent.value) else Nothing
  }

  /** Slot i in exit, when cur's parent has been woken and the first n slots have been gone
      through: children of cur belong to init, which has been woken if one of them is a zombie. */
  ghost function Leaving(t: Table, cur: nat, init: nat, n: nat, i: nat): Proc
    requires i < |t| && cur < |t|
  {
    var p := t[i];
    var woken := p.state == SLEEPING
      && (p.chan == ParentChan(t[cur]) || (ZombieChild(t, cur, n) && p.chan == OnProc(init)));
    p.(parent := if i < n && p.parent == Some(cur) then Some(init) else p.parent,
       state := if woken then RUNNABLE else p.state)
  }

  /** The table after exit. */
  ghost function Exited(t: Table, cur: nat, init: nat): (r: Table)
    requires cur < |t|
    ensures |r| == |t|
    ensures forall i :: 0 <= i < |t| ==>
              r[i] == if i == cur then Leaving(t, cur, init, |t|, i).(state := ZOMBIE)
                else Leaving(t, cur, init, |t|, i)
  {
    seq(|t|, i requires 0 <= i < |t| =>
      if i == cur then Leaving(t, cur, init, |t|, i).(state := ZOMBIE) else Leaving(t, cur, init, |t|, i))
  }

  // ----- Invariant -----

  /** What is true of slot i. */
  ghost predicate SlotOk(t: Table, init: nat, nextpid: nat, i: nat)
  {
    && i < |t|
    && (t[i].state == UNUSED || i == init ==> t[i].parent.None?)
    && (t[i].state != UNUSED ==> 1 <= t[i].pid < nextpid)
    && (t[i].parent.Some? ==> t[i].parent.value < |t| && t[i].parent.value != i && Alive(t[t[i].parent.value]))
    && ((Alive(t[i]) && i != init) || t[i].state == ZOMBIE ==> t[i].parent.Some?)
    && (t[i].state == SLEEPING && t[i].chan.OnProc? ==> t[i].chan.slot == i)
  }

  /** A process asleep in wait has no zombie child. */
  ghost predicate WaitOk(t: Table, i: nat, j: nat)
  {
    i < |t| && j < |t| ==>
      !(t[i].state == SLEEPING && t[i].chan == OnProc(i) && t[j].parent == Some(i) && t[j].state == ZOMBIE)
  }

  /** A process asleep in wait has a child. */
  ghost predicate WaitsForOne(t: Table, i: nat)
  {
    i < |t| && t[i].state == SLEEPING && t[i].chan == OnProc(i) ==> exists j :: 0 <= j < |t| && t[j].parent == Some(i)
  }

  ghost predicate PidsDiffer(t: Table, i: nat, j: nat)
  {
    i < |t| && j < |t| && i != j && t[i].state != UNUSED && t[j].state != UNUSED ==> t[i].pid != t[j].pid
  }

  ghost predicate TableOk(t: Table, init: nat, nextpid: nat)
  {
    && init < |t| && Alive(t[init])
    && (forall i :: 0 <= i < |t| ==> SlotOk(t, init, nextpid, i))
    && (forall i :: 0 <= i < |t| ==> WaitsForOne(t, i))
    && (forall i, j :: 0 <= i < |t| && 0 <= j < |t| ==> WaitOk(t, i, j) && PidsDiffer(t, i, j))
  }

  /** Pids of processes that have exited: those wait has returned, and those of zombies. */
  ghost predicate Accounted(t: Table, nextpid: nat, exited: set<nat>, reaped: seq<nat>)
  {
    && (forall i, j :: 0 <= i < j < |reaped| ==> reaped[i] != reaped[j])
    && (forall pid :: pid in exited ==> pid < nextpid)
    && (forall pid :: pid in reaped ==> pid in exited)
    && (forall i :: 0 <= i < |t| && t[i].state != UNUSED ==>
          t[i].pid !in reaped && (t[i].state == ZOMBIE <==> t[i].pid in exited))
    && (forall pid :: pid in exited && pid !in reaped ==>
          exists i :: 0 <= i < |t| && t[i].state == ZOMBIE && t[i].pid == pid)
  }

  lemma ExitKeepsSlot(t: Table, init: nat, nextpid: nat, cur: nat, i: nat)
    requires TableOk(t, init, nextpid) && cur < |t| && t[cur].state == RUNNING && cur != init && i < |t|
    ensures SlotOk(Exited(t, cur, init), init, nextpid, i)
  {
    hide Exited, ZombieChild, WaitOk, PidsDiffer;
    assert SlotOk(t, init, nextpid, i) && SlotOk(t, init, nextpid, cur);
  }

  lemma ExitKeepsPair(t: Table, init: nat, nextpid: nat, cur: nat, i: nat, j: nat)
    requires TableOk(t, init, nextpid) && cur < |t| && t[cur].state == RUNNING && cur != init && i < |t| && j < |t|
    ensures WaitOk(Exited(t, cur, init), i, j) && PidsDiffer(Exited(t, cur, init), i, j)
  {
    hide Exited;
    assert WaitOk(t, i, j) && PidsDiffer(t, i, j) && SlotOk(t, init, nextpid, j) && SlotOk(t, init, nextpid, i);
  }

  lemma ExitKeepsWait(t: Table, init: nat, nextpid: nat, cur: nat, i: nat)
    requires TableOk(t, init, nextpid) && cur < |t| && t[cur].state == RUNNING && cur != init && i < |t|
    ensures WaitsForOne(Exited(t, cur, init), i)
  {
    hide Exited, ZombieChild, WaitOk, PidsDiffer;
    var r := Exited(t, cur, init);
    assert WaitsForOne(t, i) && SlotOk(t, init, nextpid, cur);
    if r[i].state == SLEEPING && r[i].chan == OnProc(i) {
      var j :| 0 <= j < |t| && t[j].parent == Some(i);
      assert r[j].parent == Some(i);
    }
  }

  lemma ExitKeepsTable(t: Table, init: nat, nextpid: nat, cur: nat)
    requires TableOk(t, init, nextpid) && cur < |t| && t[cur].state == RUNNING && cur != init
    ensures TableOk(Exited(t, cur, init), init, nextpid)
  {
    hide Exited, SlotOk, WaitOk, WaitsForOne, PidsDiffer, ZombieChild;
    var r := Exited(t, cur, init);
    forall i | 0 <= i < |t| ensures SlotOk(r, init, nextpid, i) && WaitsForOne(r, i) {
      ExitKeepsSlot(t, init, nextpid, cur, i);
      ExitKeepsWait(t, init, nextpid, cur, i);
    }
    forall i, j | 0 <= i < |t| && 0 <= j < |t| ensures WaitOk(r, i, j) && PidsDiffer(r, i, j) {
      ExitKeepsPair(t, init, nextpid, cur, i, j);
    }
  }

  /** One slot may change like this without disturbing the others: it may be taken into use, pass
      between the live states, or be given up, but not become a zombie. */
  ghost predicate MayReplace(t: Table, init: nat, nextpid: nat, i: nat, p: Proc)
  {
    && i < |t|
    && (Alive(t[i]) ==> Alive(p)) && p.state != ZOMBIE
    && (p.state == UNUSED || i == init ==> p.parent.None?)
    && (p.state != UNUSED ==> 1 <= p.pid < nextpid)
    && (p.state != UNUSED ==> forall j :: 0 <= j < |t| && j != i && t[j].state != UNUSED ==> t[j].pid != p.pid)
    && (p.parent.Some? ==> p.parent.value < |t| && p.parent.value != i && Alive(t[p.parent.value]))
    && (t[i].parent.Some? && t[i].state != ZOMBIE ==> p.parent == t[i].parent)
    && (Alive(p) && i != init ==> p.parent.Some?)
    && (p.state == SLEEPING && p.chan.OnProc? ==> p.chan.slot == i && p.parent == t[i].parent && MayWait(t, i))
  }

  /** What wait finds when it goes to sleep: a child, and no zombie child. */
  ghost predicate MayWait(t: Table, i: nat)
  {
    && (exists j :: 0 <= j < |t| && t[j].parent == Some(i))
    && forall j :: 0 <= j < |t| && t[j].parent == Some(i) ==> t[j].state != ZOMBIE
  }

  lemma ReplaceKeepsWait(t: Table, init: nat, nextpid: nat, i: nat, p: Proc, nextpid': nat, k: nat)
    requires TableOk(t, init, nextpid) && MayReplace(t, init, nextpid', i, p) && k < |t|
    ensures WaitsForOne(t[i := p], k)
  {
    var r := t[i := p];
    assert WaitsForOne(t, k) && SlotOk(t, init, nextpid, i);
    if r[k].state == SLEEPING && r[k].chan == OnProc(k) {
      var j :| 0 <= j < |t| && t[j].parent == Some(k);
      assert WaitOk(t, k, j);
      assert r[j].parent == Some(k);
    }
  }

  lemma ReplaceKeepsTable(t: Table, init: nat, nextpid: nat, i: nat, p: Proc, nextpid': nat)
    requires TableOk(t, init, nextpid) && nextpid <= nextpid' && MayReplace(t, init, nextpid', i, p)
    ensures TableOk(t[i := p], init, nextpid')
  {
    hide WaitsForOne;
    var r := t[i := p];
    forall k | 0 <= k < |t| ensures SlotOk(r, init, nextpid', k) && WaitsForOne(r, k) {
      assert SlotOk(t, init, nextpid, k);
      ReplaceKeepsWait(t, init, nextpid, i, p, nextpid', k);
    }
    forall j, k | 0 <= j < |t| && 0 <= k < |t| ensures WaitOk(r, j, k) && PidsDiffer(r, j, k) {
      assert WaitOk(t, j, k) && PidsDiffer(t, j, k);
    }
  }

  lemma WakeKeepsWait(t: Table, chan: Chan, k: nat)
    requires k < |t| && WaitsForOne(t, k)
    ensures WaitsForOne(Woken(t, chan), k)
  {
    hide Woken;
    var r := Woken(t, chan);
    if r[k].state == SLEEPING && r[k].chan == OnProc(k) {
      var j :| 0 <= j < |t| && t[j].parent == Some(k);
      assert r[j].parent == Some(k);
    }
  }

  lemma WakeKeepsTable(t: Table, init: nat, nextpid: nat, chan: Chan)
    requires TableOk(t, init, nextpid)
    ensures TableOk(Woken(t, chan), init, nextpid)
  {
    hide Woken, WaitsForOne;
    var r := Woken(t, chan);
    forall k | 0 <= k < |t| ensures SlotOk(r, init, nextpid, k) && WaitsForOne(r, k) {
      assert SlotOk(t, init, nextpid, k);
      WakeKeepsWait(t, chan, k);
    }
    forall j, k | 0 <= j < |t| && 0 <= k < |t| ensures WaitOk(r, j, k) && PidsDiffer(r, j, k) {
      assert WaitOk(t, j, k) && PidsDiffer(t, j, k);
    }
  }

  // ----- Accounting of exits -----

  /** Between t and r no process became a zombie or stopped being one, and pids are new or kept. */
  ghost predicate SameZombies(t: Table, nextpid: nat, r: Table)
  {
    && |r| == |t|
    && forall i :: 0 <= i < |t| ==>
         && (r[i].state == ZOMBIE <==> t[i].state == ZOMBIE)
         && (r[i].state != UNUSED ==>
               (t[i].state != UNUSED && r[i].pid == t[i].pid) || (r[i].pid >= nextpid && r[i].state != ZOMBIE))
  }

  lemma StepKeepsAccount(t: Table, nextpid: nat, exited: set<nat>, reaped: seq<nat>, r: Table, nextpid': nat)
    requires Accounted(t, nextpid, exited, reaped) && nextpid <= nextpid' && SameZombies(t, nextpid, r)
    ensures Accounted(r, nextpid', exited, reaped)
  {
    forall pid | pid in exited && pid !in reaped
      ensures exists i :: 0 <= i < |r| && r[i].state == ZOMBIE && r[i].pid == pid
    {
      var i :| 0 <= i < |t| && t[i].state == ZOMBIE && t[i].pid == pid;
      assert r[i].state == ZOMBIE;
    }
  }

  lemma ExitKeepsAccount(t: Table, init: nat, nextpid: nat, cur: nat, exited: set<nat>, reaped: seq<nat>)
    requires TableOk(t, init, nextpid) && cur < |t| && t[cur].state == RUNNING && cur != init
    requires Accounted(t, nextpid, exited, reaped)
    ensures t[cur].pid !in exited
    ensures Accounted(Exited(t, cur, init), nextpid, exited + {t[cur].pid}, reaped)
  {
    hide Exited, ZombieChild, WaitsForOne, WaitOk;
    var r := Exited(t, cur, init);
    var e := exited + {t[cur].pid};
    assert SlotOk(t, init, nextpid, cur);
    forall i | 0 <= i < |r| && r[i].state != UNUSED
      ensures r[i].pid !in reaped && (r[i].state == ZOMBIE <==> r[i].pid in e)
    {
      assert PidsDiffer(t, i, cur);
    }
    forall pid | pid in e && pid !in reaped
      ensures exists i :: 0 <= i < |r| && r[i].state == ZOMBIE && r[i].pid == pid
    {
      if pid != t[cur].pid {
        var i :| 0 <= i < |t| && t[i].state == ZOMBIE && t[i].pid == pid;
        assert r[i].state == ZOMBIE;
      } else {
        assert r[cur].state == ZOMBIE;
      }
    }
  }

  lemma ReapKeepsAccount(t: Table, init: nat, nextpid: nat, i: nat, p: Proc, exited: set<nat>, reaped: seq<nat>)
    requires TableOk(t, init, nextpid) && i < |t| && t[i].state == ZOMBIE && p.state == UNUSED
    requires Accounted(t, nextpid, exited, reaped)
    ensures t[i].pid in exited && t[i].pid !in reaped
    ensures Accounted(t[i := p], nextpid, exited, reaped + [t[i].pid])
  {
    hide WaitsForOne, WaitOk, SlotOk;
    var r := t[i := p];
    forall k | 0 <= k < |r| && r[k].state != UNUSED
      ensures r[k].pid !in reaped + [t[i].pid] && (r[k].state == ZOMBIE <==> r[k].pid in exited)
    {
      assert PidsDiffer(t, i, k);
    }
    forall pid | pid in exited && pid !in reaped + [t[i].pid]
      ensures exists k :: 0 <= k < |r| && r[k].state == ZOMBIE && r[k].pid == pid
    {
      var k :| 0 <= k < |t| && t[k].state == ZOMBIE && t[k].pid == pid;
      assert r[k].state == ZOMBIE;
    }
  }

  lemma MayAdopt(t: Table, init: nat, nextpid: nat, i: nat, p: Proc)
    requires TableOk(t, init, nextpid) && i < |t| && t[i].state == EMBRYO && p.pid == t[i].pid
    requires p.parent.Some? && p.parent.value < |t| && Alive(t[p.parent.value])
             && (t[i].parent.Some? ==> p.parent == t[i].parent)
    requires p.state == EMBRYO || p.state == RUNNABLE
    ensures MayReplace(t, init, nextpid, i, p)
  {
    hide WaitOk, WaitsForOne;
    assert SlotOk(t, init, nextpid, i);
    forall j | 0 <= j < |t| && j != i && t[j].state != UNUSED ensures t[j].pid != p.pid {
      assert PidsDiffer(t, i, j);
    }
  }

  lemma MayStayAlive(t: Table, init: nat, nextpid: nat, i: nat, p: Proc)
    requires TableOk(t, init, nextpid) && i < |t| && Alive(t[i]) && Alive(p) && p.pid == t[i].pid
             && p.parent == t[i].parent
    requires p.state == SLEEPING && p.chan.OnProc? ==> p.chan.slot == i && MayWait(t, i)
    ensures MayReplace(t, init, nextpid, i, p)
  {
    hide WaitOk, WaitsForOne;
    assert SlotOk(t, init, nextpid, i);
    forall j | 0 <= j < |t| && j != i && t[j].state != UNUSED ensures t[j].pid != p.pid {
      assert PidsDiffer(t, i, j);
    }
  }

  lemma MayReap(t: Table, init: nat, nextpid: nat, i: nat)
    requires TableOk(t, init, nextpid) && i < |t| && t[i].state == ZOMBIE
    ensures MayReplace(t, init, nextpid, i, Freed(t[i]))
  {
  }

  /** What wait leaves of a zombie. */
  function Freed(p: Proc): Proc {
    p.(state := UNUSED, pid := 0, parent := None, killed := false)
  }

  function Killed(p: Proc): Proc {
    p.(killed := true, state := if p.state == SLEEPING then RUNNABLE else p.state)
  }

  lemma KillKeepsTable(t: Table, init: nat, nextpid: nat, i: nat)
    requires TableOk(t, init, nextpid) && i < |t|
    ensures TableOk(t[i := Killed(t[i])], init, nextpid)
  {
    hide WaitsForOne;
    var r := t[i := Killed(t[i])];
    forall k | 0 <= k < |t| ensures SlotOk(r, init, nextpid, k) && WaitsForOne(r, k) {
      assert SlotOk(t, init, nextpid, k) && WaitsForOne(t, k);
      KillKeepsWait(t, i, k);
    }
    forall j, k | 0 <= j < |t| && 0 <= k < |t| ensures WaitOk(r, j, k) && PidsDiffer(r, j, k) {
      assert WaitOk(t, j, k) && PidsDiffer(t, j, k);
    }
  }

  lemma KillKeepsWait(t: Table, i: nat, k: nat)
    requires i < |t| && k < |t| && WaitsForOne(t, k)
    ensures WaitsForOne(t[i := Killed(t[i])], k)
  {
    var r := t[i := Killed(t[i])];
    if r[k].state == SLEEPING && r[k].chan == OnProc(k) {
      var j :| 0 <= j < |t| && t[j].parent == Some(k);
      assert r[j].parent == Some(k);
    }
  }

  /** One turn of exit's loop. */
  lemma PassOn(t: Table, cur: nat, init: nat, n: nat)
    requires n < |t| && cur < |t|
    ensures ZombieChild(t, cur, n + 1) <==> ZombieChild(t, cur, n) || (t[n].parent == Some(cur) && t[n].state == ZOMBIE)
  {
  }

  /** Whenever the lock is free, a process asleep in wait has a child that has yet to exit, and no
      child that has. */
  lemma WaiterHasRunningChild(t: Table, init: nat, nextpid: nat, i: nat) returns (j: nat)
    requires TableOk(t, init, nextpid) && i < |t| && t[i].state == SLEEPING && t[i].chan.OnProc?
    ensures j < |t| && t[j].parent == Some(i) && (t[j].state == EMBRYO || Alive(t[j]))
    ensures forall k :: 0 <= k < |t| && t[k].parent == Some(i) ==> t[k].state != ZOMBIE
  {
    assert SlotOk(t, init, nextpid, i) && WaitsForOne(t, i);
    j :| 0 <= j < |t| && t[j].parent == Some(i);
    assert SlotOk(t, init, nextpid, j);
    forall k | 0 <= k < |t| && t[k].parent == Some(i) ensures t[k].state != ZOMBIE {
      assert WaitOk(t, i, k);
    }
  }

  /** The pid of a process that has exited has been returned by one call of wait, or else it
      is held by one zombie, whose parent is alive and not asleep in wait. */
  lemma EveryExitIsCollected(t: Table, init: nat, nextpid: nat, exited: set<nat>, reaped: seq<nat>, pid: nat)
    requires TableOk(t, init, nextpid) && Accounted(t, nextpid, exited, reaped) && pid in exited
    ensures pid in reaped ==> forall i :: 0 <= i < |t| && t[i].state != UNUSED ==> t[i].pid != pid
    ensures pid !in reaped ==>
              exists i, j :: 0 <= i < |t| && 0 <= j < |t| && t[i].state == ZOMBIE && t[i].pid == pid
                             && t[i].parent == Some(j) && Alive(t[j])
                                && !(t[j].state == SLEEPING && t[j].chan == OnProc(j))
  {
    hide WaitsForOne, PidsDiffer;
    if pid !in reaped {
      var i :| 0 <= i < |t| && t[i].state == ZOMBIE && t[i].pid == pid;
      assert SlotOk(t, init, nextpid, i);
      var j := t[i].parent.value;
      assert WaitOk(t, j, i);
    }
  }

  // ----- Sleepers -----

  /** A call: a wakeup, a kill, an exit, or any of the others. */
  datatype Call = WakeupCall(chan: Chan) | KillCall(pid: nat) | ExitCall(cur: nat) | OtherCall

  /** What a call may do to the table. The others change one slot at most, and not one that is asleep. */
  ghost predicate Did(t: Table, r: Table, init: nat, call: Call)
  {
    && |r| == |t|
    && match call
       case WakeupCall(chan) => WokeUp(t, r, chan)
       case KillCall(pid) => forall i :: 0 <= i < |t| && t[i].pid != pid ==> r[i] == t[i]
       case ExitCall(cur) => cur < |t| && t[cur].state == RUNNING && r == Exited(t, cur, init)
       case OtherCall => forall i :: 0 <= i < |t| && t[i].state == SLEEPING ==> r[i] == t[i]
  }

  ghost predicate DidAt(run: seq<Table>, calls: seq<Call>, init: nat, i: nat)
  {
    i < |calls| && i + 1 < |run| && Did(run[i], run[i + 1], init, calls[i])
  }

  ghost predicate AsleepOn(t: Table, i: nat, addr: nat, pid: nat) {
    i < |t| && t[i].state == SLEEPING && t[i].chan == OnOther(addr) && t[i].pid == pid
  }

  lemma SleeperStays(t: Table, r: Table, init: nat, call: Call, i: nat, addr: nat, pid: nat)
    requires Did(t, r, init, call) && AsleepOn(t, i, addr, pid)
    requires call != WakeupCall(OnOther(addr)) && call != KillCall(pid)
    ensures AsleepOn(r, i, addr, pid)
  {
    hide ZombieChild;
  }

  /** A process that has gone to sleep on an address sleeps on through all calls but a wakeup of that address
      and its own kill. */
  lemma {:induction false} SleeperSleepsOn(run: seq<Table>, calls: seq<Call>, init: nat, i: nat, addr: nat, pid: nat,
                                           n: nat)
    requires n < |run| == |calls| + 1 && AsleepOn(run[0], i, addr, pid)
    requires forall k :: 0 <= k < |calls| ==> DidAt(run, calls, init, k)
    requires forall k :: 0 <= k < n ==> calls[k] != WakeupCall(OnOther(addr)) && calls[k] != KillCall(pid)
    ensures AsleepOn(run[n], i, addr, pid)
  {
    hide Did, AsleepOn;
    if n > 0 {
      SleeperSleepsOn(run, calls, init, i, addr, pid, n - 1);
      assert DidAt(run, calls, init, n - 1);
      SleeperStays(run[n - 1], run[n], init, calls[n - 1], i, addr, pid);
    }
  }

  /** And the first wakeup of the address makes it runnable. */
  lemma SleeperIsWoken(run: seq<Table>, calls: seq<Call>, init: nat, i: nat, addr: nat, pid: nat, n: nat)
    requires n < |calls| && |run| == |calls| + 1 && AsleepOn(run[0], i, addr, pid)
    requires forall k :: 0 <= k < |calls| ==> DidAt(run, calls, init, k)
    requires forall k :: 0 <= k < n ==> calls[k] != WakeupCall(OnOther(addr)) && calls[k] != KillCall(pid)
    requires calls[n] == WakeupCall(OnOther(addr))
    ensures i < |run[n + 1]| && run[n + 1][i].state == RUNNABLE && run[n + 1][i].pid == pid
  {
    hide ZombieChild;
    SleeperSleepsOn(run, calls, init, i, addr, pid, n);
    assert DidAt(run, calls, init, n);
  }

  // ----- The critical sections -----

  datatype WaitResult = Reaped(pid: nat) | NoChildren | Asleep

  class Ptable {
    const proc: array<Proc>
    const init: nat
    var nextpid: nat
    /** Pids of the processes that have exited, and the results wait has returned so far. */
    ghost var exited: set<nat>
    ghost var reaped: seq<nat>

    ghost predicate Valid()
      reads this, proc
    {
      TableOk(proc[..], init, nextpid) && Accounted(proc[..], nextpid, exited, reaped)
    }

    /** The table once userinit has made the first process. */
    constructor (nproc: nat)
      requires nproc > 0
      ensures Valid() && fresh(proc) && proc.Length == nproc && init == 0 && nextpid == 2
      ensures exited == {} && reaped == []
      ensures proc[..] == seq(nproc, _ => Proc(UNUSED, 0, None, Nothing, false))
                          [0 := Proc(RUNNABLE, 1, None, Nothing, false)]
    {
      proc := new Proc[nproc](_ => Proc(UNUSED, 0, None, Nothing, false));
      init, nextpid, exited, reaped := 0, 2, {}, [];
      new;
      proc[0] := Proc(RUNNABLE, 1, None, Nothing, false);
    }

    /** The slot changes to p; what is left to show is that it may. */
    method Put(i: nat, p: Proc)
      requires Valid() && i < proc.Length && MayReplace(proc[..], init, nextpid, i, p)
      requires proc[i].state != ZOMBIE && (p.state != UNUSED ==> proc[i].state != UNUSED && p.pid == proc[i].pid)
      modifies proc
      ensures proc[..] == old(proc[..])[i := p]
      ensures Valid()
    {
      hide TableOk, Accounted;
      ghost var t := proc[..];
      ReplaceKeepsTable(t, init, nextpid, i, p, nextpid);
      StepKeepsAccount(t, nextpid, exited, reaped, t[i := p], nextpid);
      proc[i] := p;
      assert proc[..] == t[i := p];
    }

    /** allocproc: the first unused slot, with a pid no process has had. */
    method AllocProc() returns (np: Option<nat>)
      requires Valid()
      modifies proc, this`nextpid
      ensures np.None? <==> forall i :: 0 <= i < proc.Length ==> old(proc[i]).state != UNUSED
      ensures np.None? ==> proc[..] == old(proc[..]) && nextpid == old(nextpid)
      ensures np.Some? ==>
                && np.value < proc.Length && nextpid == old(nextpid) + 1
                && old(proc[np.value]).state == UNUSED
                && (forall i :: 0 <= i < np.value ==> old(proc[i]).state != UNUSED)
                && proc[..] == old(proc[..])[np.value := old(proc[np.value]).(state := EMBRYO, pid := old(nextpid))]
                && old(nextpid) !in exited
      ensures Did(old(proc[..]), proc[..], init, OtherCall)
      ensures Valid()
    {
      hide WaitOk, WaitsForOne, PidsDiffer;
      ghost var t := proc[..];
      for i := 0 to proc.Length
        invariant proc[..] == t && nextpid == old(nextpid)
        invariant forall k :: 0 <= k < i ==> t[k].state != UNUSED
      {
        if proc[i].state == UNUSED {
          var p := proc[i].(state := EMBRYO, pid := nextpid);
          assert SlotOk(t, init, nextpid, i) && SlotOk(t, init, nextpid, init);
          forall j | 0 <= j < |t| && j != i && t[j].state != UNUSED ensures t[j].pid != p.pid {
            assert SlotOk(t, init, nextpid, j);
          }
          ReplaceKeepsTable(t, init, nextpid, i, p, nextpid + 1);
          StepKeepsAccount(t, nextpid, exited, reaped, t[i := p], nextpid + 1);
          proc[i] := p;
          nextpid := nextpid + 1;
          assert proc[..] == t[i := p];
          return Some(i);
        }
      }
      return None;
    }

    /** A fork that fails gives its slot back. */
    method Abandon(np: nat)
      requires Valid() && np < proc.Length && proc[np].state == EMBRYO && proc[np].parent.None?
      modifies proc
      ensures proc[..] == old(proc[..])[np := old(proc[np]).(state := UNUSED)]
      ensures Did(old(proc[..]), proc[..], init, OtherCall)
      ensures Valid()
    {
      Put(np, proc[np].(state := UNUSED));
    }

    /** fork's assignment to np->parent. */
    method Adopt(np: nat, cur: nat)
      requires Valid() && np < proc.Length && proc[np].state == EMBRYO && proc[np].parent.None?
      requires cur < proc.Length && proc[cur].state == RUNNING
      modifies proc
      ensures proc[..] == old(proc[..])[np := old(proc[np]).(parent := Some(cur))]
      ensures Did(old(proc[..]), proc[..], init, OtherCall)
      ensures Valid()
    {
      MayAdopt(proc[..], init, nextpid, np, proc[np].(parent := Some(cur)));
      Put(np, proc[np].(parent := Some(cur)));
    }

    /** fork's last step. */
    method Launch(np: nat)
      requires Valid() && np < proc.Length && proc[np].state == EMBRYO && proc[np].parent.Some?
      modifies proc
      ensures proc[..] == old(proc[..])[np := old(proc[np]).(state := RUNNABLE)]
      ensures Did(old(proc[..]), proc[..], init, OtherCall)
      ensures Valid()
    {
      assert SlotOk(proc[..], init, nextpid, np);
      MayAdopt(proc[..], init, nextpid, np, proc[np].(state := RUNNABLE));
      Put(np, proc[np].(state := RUNNABLE));
    }

    /** wakeup1 */
    method Wakeup1(chan: Chan)
      modifies proc
      ensures proc[..] == Woken(old(proc[..]), chan)
      ensures WokeUp(old(proc[..]), proc[..], chan)
    {
      ghost var t := proc[..];
      WokenWakes(t, chan);
      for i := 0 to proc.Length
        invariant forall k :: 0 <= k < i ==> proc[k] == WokenOne(t[k], chan)
        invariant forall k :: i <= k < proc.Length ==> proc[k] == t[k]
      {
        if proc[i].state == SLEEPING && proc[i].chan == chan {
          proc[i] := proc[i].(state := RUNNABLE);
        }
      }
      assert proc[..] == Woken(t, chan);
    }

    method Wakeup(chan: Chan)
      requires Valid()
      modifies proc
      ensures WokeUp(old(proc[..]), proc[..], chan)
      ensures Did(old(proc[..]), proc[..], init, WakeupCall(chan))
      ensures Valid()
    {
      hide TableOk, Accounted, Woken, WokeUp;
      ghost var t := proc[..];
      WakeKeepsTable(t, init, nextpid, chan);
      StepKeepsAccount(t, nextpid, exited, reaped, Woken(t, chan), nextpid);
      Wakeup1(chan);
    }
  
    /** A process that is not in wait goes to sleep. */
    method Sleep(cur: nat, addr: nat)
      requires Valid() && cur < proc.Length && proc[cur].state == RUNNING
      modifies proc
      ensures proc[..] == old(proc[..])[cur := old(proc[cur]).(state := SLEEPING, chan := OnOther(addr))]
      ensures Did(old(proc[..]), proc[..], init, OtherCall)
      ensures Valid()
    {
      MayStayAlive(proc[..], init, nextpid, cur, proc[cur].(state := SLEEPING, chan := OnOther(addr)));
      Put(cur, proc[cur].(state := SLEEPING, chan := OnOther(addr)));
    }

    /** The scheduler switches to a process; if it was in sleep, it clears its channel. */
    method Dispatch(i: nat)
      requires Valid() && i < proc.Length && proc[i].state == RUNNABLE
      modifies proc
      ensures proc[..] == old(proc[..])[i := old(proc[i]).(state := RUNNING, chan := Nothing)]
      ensures Did(old(proc[..]), proc[..], init, OtherCall)
      ensures Valid()
    {
      MayStayAlive(proc[..], init, nextpid, i, proc[i].(state := RUNNING, chan := Nothing));
      Put(i, proc[i].(state := RUNNING, chan := Nothing));
    }

    method Yield(cur: nat)
      requires Valid() && cur < proc.Length && proc[cur].state == RUNNING
      modifies proc
      ensures proc[..] == old(proc[..])[cur := old(proc[cur]).(state := RUNNABLE)]
      ensures Did(old(proc[..]), proc[..], init, OtherCall)
      ensures Valid()
    {
      MayStayAlive(proc[..], init, nextpid, cur, proc[cur].(state := RUNNABLE));
      Put(cur, proc[cur].(state := RUNNABLE));
    }

    /** kill marks the first slot with the pid, whatever its state. */
    method Kill(pid: nat) returns (found: Option<nat>)
      requires Valid()
      modifies proc
      ensures found.None? <==> forall i :: 0 <= i < proc.Length ==> old(proc[i]).pid != pid
      ensures found.None? ==> proc[..] == old(proc[..])
      ensures found.Some? ==>
                && found.value < proc.Length && old(proc[found.value]).pid == pid
                && (forall i :: 0 <= i < found.value ==> old(proc[i]).pid != pid)
                && proc[..] == old(proc[..])[found.value := proc[found.value]]
                && var was, now := old(proc[found.value]), proc[found.value];
                   && now.killed && now.state != SLEEPING
                   && (was.state == SLEEPING ==> now == was.(killed := true, state := RUNNABLE))
                   && (was.state != SLEEPING ==> now == was.(killed := true))
      ensures Did(old(proc[..]), proc[..], init, KillCall(pid))
      ensures Valid()
    {
      hide TableOk, Accounted;
      ghost var t := proc[..];
      for i := 0 to proc.Length
        invariant proc[..] == t
        invariant forall k :: 0 <= k < i ==> t[k].pid != pid
      {
        if proc[i].pid == pid {
          KillKeepsTable(t, init, nextpid, i);
          StepKeepsAccount(t, nextpid, exited, reaped, t[i := Killed(t[i])], nextpid);
          proc[i] := proc[i].(killed := true);
          if proc[i].state == SLEEPING {
            proc[i] := proc[i].(state := RUNNABLE);
          }
          assert proc[..] == t[i := Killed(t[i])];
          return Some(i);
        }
      }
      return None;
    }

    /** The part of exit under the lock: the parent is woken, the children go to init, which is
        woken if one of them has exited already, and the process becomes a zombie. */
    method Exit(cur: nat)
      requires Valid() && cur < proc.Length && proc[cur].state == RUNNING && cur != init
      modifies proc, this`exited
      ensures proc[..] == Exited(old(proc[..]), cur, init)
      ensures Did(old(proc[..]), proc[..], init, ExitCall(cur))
      ensures old(proc[cur]).pid !in old(exited) && exited == old(exited) + {old(proc[cur]).pid}
      ensures Valid()
    {
      hide Accounted, WaitOk, WaitsForOne, PidsDiffer, Exited;
      ghost var t := proc[..];
      assert SlotOk(t, init, nextpid, cur);
      ExitKeepsTable(t, init, nextpid, cur);
      ExitKeepsAccount(t, init, nextpid, cur, exited, reaped);
      Wakeup1(ParentChan(proc[cur]));
      for i := 0 to proc.Length
        invariant exited == old(exited)
        invariant forall k :: 0 <= k < proc.Length ==> proc[k] == Leaving(t, cur, init, i, k)
      {
        PassOn(t, cur, init, i);
        if proc[i].parent == Some(cur) {
          proc[i] := proc[i].(parent := Some(init));
          if proc[i].state == ZOMBIE {
            Wakeup1(OnProc(init));
          }
        }
      }
      proc[cur] := proc[cur].(state := ZOMBIE);
      exited := exited + {t[cur].pid};
      assert proc[..] == Exited(t, cur, init);
    }

    /** One round of wait: the first zombie child is given up and its pid returned; failing that
        the process gives up if it has no children or has been killed, and otherwise sleeps. */
    method Wait(cur: nat) returns (r: WaitResult)
      requires Valid() && cur < proc.Length && proc[cur].state == RUNNING
      modifies proc, this`reaped
      ensures r.Reaped? <==>
                exists i :: 0 <= i < proc.Length && old(proc[i]).parent == Some(cur) && old(proc[i]).state == ZOMBIE
      ensures r.Reaped? ==>
                && r.pid in exited && r.pid !in old(reaped) && reaped == old(reaped) + [r.pid]
                && exists i :: 0 <= i < proc.Length && old(proc[i]).parent == Some(cur) && old(proc[i]).state == ZOMBIE
                               && (forall k :: 0 <= k < i && old(proc[k]).parent == Some(cur) ==>
                                     old(proc[k]).state != ZOMBIE)
                               && r.pid == old(proc[i]).pid && proc[..] == old(proc[..])[i := proc[i]]
                               && proc[i].state == UNUSED && proc[i].pid == 0 && proc[i].parent.None?
                               && !proc[i].killed && proc[i].chan == old(proc[i]).chan
      ensures !r.Reaped? ==> reaped == old(reaped)
      ensures !r.Reaped? ==>
                (r.NoChildren? <==> old(proc[cur]).killed || forall i :: 0 <= i < proc.Length ==>
                   old(proc[i]).parent != Some(cur))
      ensures r.NoChildren? ==> proc[..] == old(proc[..])
      ensures r.Asleep? ==> proc[..] == old(proc[..])[cur := old(proc[cur]).(state := SLEEPING, chan := OnProc(cur))]
      ensures Did(old(proc[..]), proc[..], init, OtherCall)
      ensures Valid()
    {
      hide TableOk, Accounted, MayReplace;
      ghost var t := proc[..];
      var haveKids := false;
      for i := 0 to proc.Length
        invariant proc[..] == t && reaped == old(reaped)
        invariant haveKids <==> exists k :: 0 <= k < i && t[k].parent == Some(cur)
        invariant forall k :: 0 <= k < i && t[k].parent == Some(cur) ==> t[k].state != ZOMBIE
      {
        if proc[i].parent == Some(cur) {
          haveKids := true;
          if proc[i].state == ZOMBIE {
            MayReap(t, init, nextpid, i);
            ReplaceKeepsTable(t, init, nextpid, i, Freed(t[i]), nextpid);
            ReapKeepsAccount(t, init, nextpid, i, Freed(t[i]), exited, reaped);
            var pid := proc[i].pid;
            proc[i] := Freed(proc[i]);
            reaped := reaped + [pid];
            assert proc[..] == t[i := Freed(t[i])];
            return Reaped(pid);
          }
        }
      }
      if !haveKids || proc[cur].killed {
        return NoChildren;
      }
      MayStayAlive(t, init, nextpid, cur, proc[cur].(state := SLEEPING, chan := OnProc(cur)));
      Put(cur, proc[cur].(state := SLEEPING, chan := OnProc(cur)));
      return Asleep;
    }
  }
}
