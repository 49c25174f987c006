/** What each event does to the process table, field by field, and what follows over runs (core/proc.c:130-165,
    core/sche.c:13-34, core/exec.c:175-205, core/syscall.c:155-187, 355-404). */
module ProcessCalls {
  import opened Process
  import opened ProcessTheorems
  import opened Fairness
  import opened Waits

  /** All slots but these three are as they were. */
  ghost predicate OthersSame(s: System, t: System, i: nat, j: nat, k: nat) {
    |s.tab| == |t.tab| == PROC_MAX && forall n | 0 <= n < PROC_MAX && n != i && n != j && n != k :: t.tab[n] == s.tab[n]
  }

  /** The current process goes off the processor: the kernel runs, and the sweep is at the slot behind its own. */
  ghost predicate HandedBack(s: System, t: System) {
    && |t.tab| == PROC_MAX == |s.tab| && t.tab[0] == s.tab[0].(state := Running)
    && t.mode == Sweep(s.cur + 1, true) && t.cur == s.cur
  }

  // The scheduler.

  /** A timer interrupt makes the running process runable; one that execve has killed stays killed. */
  lemma TickDoes(s: System)
    requires Inv(s) && Enabled(s, Tick)
    ensures var t := Step(s, Tick);
            && HandedBack(s, t) && OthersSame(s, t, 0, s.cur, s.cur) && t.lastPid == s.lastPid
            && t.tab[s.cur] == s.tab[s.cur].(state := if s.tab[s.cur].state == Killed then Killed else Runable)
  {
    hide PidsOk;
    hide ForestOk;
    hide RingsOk;
    hide SweepOk;
    hide WaitsOk;
  }

  /** An iteration of the sweep dispatches a runable process and passes over any other slot; at the end of the table
      it starts again if somebody was dispatched, and otherwise stops. */
  lemma VisitDoes(s: System)
    requires Inv(s) && Enabled(s, Visit)
    ensures var t, i := Step(s, Visit), s.mode.i;
            && i <= PROC_MAX && t.lastPid == s.lastPid && |t.tab| == PROC_MAX == |s.tab|
            && (if i == PROC_MAX then
                  t.tab == s.tab && t.cur == s.cur && t.mode == if s.mode.run then Sweep(0, false) else Off
                else if s.tab[i].used && s.tab[i].pid != 0 && s.tab[i].state == Runable then
                  && i != 0 && t.cur == i && t.mode == User && OthersSame(s, t, 0, i, i)
                  && t.tab[0] == s.tab[0].(state := Runable) && t.tab[i] == s.tab[i].(state := Running)
                else
                  t.tab == s.tab && t.cur == s.cur && t.mode == Sweep(i + 1, s.mode.run))
  {
    hide ForestOk;
    hide RingsOk;
    hide WaitsOk;
  }

  // Making processes.

  /** fork: the first unused slot becomes a runable child of the caller with a pid of its own, to which the call
      returns 0. To the caller it returns that pid, which is positive. */
  lemma ForkDoes(s: System) returns (np: nat)
    requires Inv(s) && Enabled(s, Fork)
    ensures 1 <= np < PROC_MAX && np != s.cur && |s.tab| == PROC_MAX && !s.tab[np].used
    ensures forall k | 0 <= k < np :: s.tab[k].used
    ensures var t := Step(s, Fork);
            && OthersSame(s, t, np, s.cur, s.cur) && t.cur == s.cur && t.mode == s.mode && t.lastPid == s.lastPid + 1
            && t.tab[np].used && t.tab[np].state == Runable && t.tab[np].parent == s.cur && t.tab[np].ret == 0
            && t.tab[np].pid == s.lastPid > 0 && t.tab[np].children == [] && t.tab[np].wait == NotWaiting
            && t.tab[s.cur] == s.tab[s.cur].(ret := t.tab[np].pid, children := [np] + s.tab[s.cur].children)
  {
    hide ForestOk;
    hide RingsOk;
    hide SweepOk;
    hide WaitsOk;
    np := FirstFree(s.tab);
    UnusedUnknown(s, np);
  }

  /** execve: the first unused slot becomes the runable new image with the caller's pid and parent, first among the
      parent's children; the caller keeps running, without a pid and killed. */
  lemma ExecDoes(s: System) returns (np: nat)
    requires Inv(s) && Enabled(s, ExecOk)
    ensures 1 <= np < PROC_MAX && np != s.cur && |s.tab| == PROC_MAX && !s.tab[np].used
    ensures 0 <= s.tab[s.cur].parent < PROC_MAX && s.tab[s.cur].parent != s.cur && s.tab[s.cur].parent != np
    ensures forall k | 0 <= k < np :: s.tab[k].used
    ensures var t, p := Step(s, ExecOk), s.tab[s.cur].parent;
            && OthersSame(s, t, np, s.cur, p) && t.cur == s.cur && t.mode == s.mode && t.lastPid == s.lastPid + 1
            && t.tab[np].used && t.tab[np].state == Runable && t.tab[np].pid == s.tab[s.cur].pid
            && t.tab[np].parent == p && t.tab[np].children == [] && t.tab[np].wait == NotWaiting
            && t.tab[p] == s.tab[p].(children := [np] + s.tab[p].children)
            && t.tab[s.cur] == s.tab[s.cur].(pid := -1, state := Killed, ret := 0)
  {
    hide PidsOk;
    hide ForestOk;
    hide RingsOk;
    hide SweepOk;
    hide WaitsOk;
    np := FirstFree(s.tab);
    ExecGrafts(s);
    UnusedUnknown(s, np);
    NotOwnParent(s, s.cur);
  }

  /** An execve that fails returns -1 and loses a pid; no slot in use changes but for that. */
  lemma ExecFailDoes(s: System)
    requires Inv(s) && Enabled(s, ExecFail)
    ensures var t := Step(s, ExecFail);
            && |t.tab| == PROC_MAX == |s.tab| && t.cur == s.cur && t.mode == s.mode && t.lastPid == s.lastPid + 1
            && t.tab[s.cur] == s.tab[s.cur].(ret := -1)
            && (forall k | 0 <= k < PROC_MAX && s.tab[k].used && k != s.cur :: t.tab[k] == s.tab[k])
            && (forall k | 0 <= k < PROC_MAX && !s.tab[k].used :: !t.tab[k].used)
  {
    hide PidsOk;
    hide ForestOk;
    hide RingsOk;
    hide SweepOk;
    hide WaitsOk;
    UnusedUnknown(s, FirstFree(s.tab));
  }

  // Ending and waiting.

  /** exit: the process is a zombie with the code it gave, and off the processor. */
  lemma ExitDoes(s: System, code: int)
    requires Inv(s) && Enabled(s, Exit(code))
    ensures var t := Step(s, Exit(code));
            && HandedBack(s, t) && OthersSame(s, t, 0, s.cur, s.cur) && t.lastPid == s.lastPid
            && t.tab[s.cur] == s.tab[s.cur].(state := Zombie, exitCode := code)
  {
    hide PidsOk;
    hide ForestOk;
    hide RingsOk;
    hide SweepOk;
    hide WaitsOk;
  }

  /** Child c is reaped: its pid and, shifted by 8, its exit code go to the caller, and it is dead. */
  ghost predicate ReapsOnly(s: System, t: System, c: nat) {
    && OthersSame(s, t, s.cur, c, c) && t.cur == s.cur && t.mode == s.mode && t.lastPid == s.lastPid
    && s.cur < PROC_MAX && c < PROC_MAX && c != s.cur && s.tab[c].parent == s.cur && s.tab[c].state == Zombie
    && t.tab[s.cur] == s.tab[s.cur].(wait := NotWaiting, ret := s.tab[c].pid, status := s.tab[c].exitCode * 256)
    && t.tab[c] == s.tab[c].(state := Killed)
  }

  /** The caller goes off the processor and will look again. */
  ghost predicate BlocksIn(s: System, t: System, w: Wait) {
    && HandedBack(s, t) && OthersSame(s, t, 0, s.cur, s.cur) && t.lastPid == s.lastPid && s.cur < PROC_MAX
    && t.tab[s.cur] == s.tab[s.cur].(wait := w, state := if s.tab[s.cur].state == Killed then Killed else Runable)
  }

  /** The call returns v and changes nothing else. */
  ghost predicate ReturnsOnly(s: System, t: System, v: int) {
    && OthersSame(s, t, s.cur, s.cur, s.cur) && t.cur == s.cur && t.mode == s.mode && t.lastPid == s.lastPid
    && s.cur < PROC_MAX && t.tab[s.cur] == s.tab[s.cur].(wait := NotWaiting, ret := v)
  }

  /** What one look at the children of the current process comes to. */
  ghost predicate LooksAtAll(s: System, t: System)
    requires Shaped(s)
  {
    if HasChild(s, Zombie) then
      exists i | 0 <= i < |s.tab[s.cur].children| ::
        && (forall j | 0 <= j < i :: s.tab[s.tab[s.cur].children[j]].state != Zombie)
        && ReapsOnly(s, t, s.tab[s.cur].children[i])
    else if HasChild(s, Runable) then BlocksIn(s, t, WaitAny)
    else ReturnsOnly(s, t, -1)
  }

  lemma ScanDoes(s: System)
    requires Inv(s) && s.mode.User?
    ensures LooksAtAll(s, ScanStep(s))
  {
    hide PidsOk;
    hide ForestOk;
    hide RingsOk;
    hide SweepOk;
    hide WaitsOk;
    ChildrenWait(s);
    if HasChild(s, Zombie) {
      var i := FirstZombie(s.tab, s.tab[s.cur].children);
      RingChild(s, s.cur, i);
      assert ReapsOnly(s, ScanStep(s), s.tab[s.cur].children[i]);
    } else if HasChild(s, Runable) {
      var j :| 0 <= j < |s.tab[s.cur].children| && s.tab[s.tab[s.cur].children[j]].state == Runable;
      assert Alive(s.tab[s.tab[s.cur].children[j]]);
    } else {
      WaitAnyNone(s);
    }
  }

  /** wait4(-1), called and gone on with: the zombie nearest the head is reaped; with none but a runable child the
      caller blocks; otherwise it gets -1. */
  lemma WaitAnyDoes(s: System, e: Event)
    requires Inv(s) && Enabled(s, e) && (e == WaitAnyCall || (e == Resume && s.tab[s.cur].wait == WaitAny))
    ensures LooksAtAll(s, Step(s, e))
  {
    hide LooksAtAll;
    hide PidsOk;
    hide ForestOk;
    hide RingsOk;
    hide SweepOk;
    hide WaitsOk;
    hide ScanStep;
    ScanDoes(s);
  }

  /** What one look at a child in slot j comes to. */
  ghost predicate LooksAtSlot(s: System, t: System, j: nat) {
    j < |s.tab| && if s.tab[j].state == Zombie then ReapsOnly(s, t, j) else BlocksIn(s, t, WaitSlot(j))
  }

  lemma SlotDoes(s: System, j: nat)
    requires Inv(s) && s.mode.User? && 1 <= j < PROC_MAX && s.tab[j].used && s.tab[j].parent == s.cur
    ensures LooksAtSlot(s, SlotStep(s, j), j)
  {
    hide PidsOk;
    hide ForestOk;
    hide RingsOk;
    hide SweepOk;
    hide WaitsOk;
    NotOwnParent(s, j);
  }

  /** wait4(pid): the first slot in use with that pid is meant. When it is no child of the caller's the call returns
      -1; a zombie is reaped at once; otherwise the caller blocks on the slot. */
  lemma WaitPidDoes(s: System, pid: int) returns (j: nat)
    requires Inv(s) && Enabled(s, WaitPidCall(pid))
    ensures j < PROC_MAX == |s.tab| && s.tab[j].used && s.tab[j].pid == pid
    ensures forall k | 0 <= k < j :: !(s.tab[k].used && s.tab[k].pid == pid)
    ensures if s.tab[j].parent != s.cur then ReturnsOnly(s, Step(s, WaitPidCall(pid)), -1)
            else LooksAtSlot(s, Step(s, WaitPidCall(pid)), j)
  {
    hide PidsOk;
    hide ForestOk;
    hide RingsOk;
    hide SweepOk;
    hide WaitsOk;
    hide SlotStep;
    hide LooksAtSlot;
    j := FindPid(s.tab, pid);
    if s.tab[j].parent == s.cur {
      KernelHasNoParent(s);
      SlotDoes(s, j);
    }
  }

  lemma KernelHasNoParent(s: System)
    requires Inv(s)
    ensures s.tab[0].parent == -1
  {
    hide ForestOk;
    hide RingsOk;
    hide SweepOk;
    hide WaitsOk;
  }

  /** Going on with it looks at the same slot again. */
  lemma WaitSlotDoes(s: System)
    requires Inv(s) && Enabled(s, Resume) && s.tab[s.cur].wait.WaitSlot?
    ensures LooksAtSlot(s, Step(s, Resume), s.tab[s.cur].wait.slot)
  {
    hide PidsOk;
    hide ForestOk;
    hide RingsOk;
    hide SweepOk;
    hide SlotStep;
    hide LooksAtSlot;
    SlotDoes(s, s.tab[s.cur].wait.slot);
  }

  // Exit codes over runs.

  /** Whenever, in any run, a process that has ended with a code stops being a zombie, its parent has just been
      handed that code and its pid. */
  lemma ExitCodeDelivered(r: seq<System>, n: nat, m: nat, code: int)
    requires IsRun(r) && Inv(r[0]) && n < m < |r| - 1
    requires Enabled(r[n], Exit(code)) && r[n + 1] == Step(r[n], Exit(code))
    requires |r[m].tab| == PROC_MAX == |r[m + 1].tab|
    requires var j := r[n].cur; j < PROC_MAX && r[m].tab[j].state == Zombie && r[m + 1].tab[j].state != Zombie
    ensures var j, q := r[n].cur, r[m].cur;
            && |r[n].tab| == PROC_MAX && q < PROC_MAX && r[m].tab[j].parent == q
            && r[m + 1].tab[q].status == code * 256 && r[m + 1].tab[q].ret == r[m].tab[j].pid && Dead(r[m + 1], j)
  {
    hide Inv;
    hide Step;
    hide Enabled;
    hide Dead;
    var j := r[n].cur;
    RunInv(r, n);
    RunInv(r, n + 1);
    RunInv(r, m);
    RunInv(r, m + 1);
    InvShape(r[n]);
    InvShape(r[m]);
    ExitDoes(r[n], code);
    ExitUsed(r[n], code);
    ZombieRun(r, j, n + 1, m);
    ZombieIsNotDead(r[m], j);
    assert Next(r[m], r[m + 1]);
    var e :| Enabled(r[m], e) && r[m + 1] == Step(r[m], e);
    ZombieStep(r[m], e, j);
    ParentIsOther(r[m], j);
    ReapedIsDead(r[m], r[m + 1], j);
  }

  lemma ExitUsed(s: System, code: int)
    requires Inv(s) && Enabled(s, Exit(code))
    ensures s.cur < PROC_MAX && s.tab[s.cur].used
  {
    hide PidsOk;
    hide ForestOk;
    hide RingsOk;
    hide SweepOk;
    hide WaitsOk;
  }

  lemma ZombieIsNotDead(s: System, j: nat)
    requires j < |s.tab| && s.tab[j].state == Zombie
    ensures !Dead(s, j)
  {
  }

  lemma ReapedIsDead(s: System, t: System, j: nat)
    requires Shaped(s) && Shaped(t) && j < PROC_MAX && ZombieKept(s, t, j) && t.tab[j].state != Zombie
    requires s.tab[j].parent != j
    ensures Dead(t, j)
  {
  }

  lemma {:induction false} ZombieLasts(f: nat -> System, j: nat, n: nat, m: nat)
    requires Forever(f) && Inv(f(n)) && ZombieAt(f(n), j) && n <= m && ZombieAt(f(m), j)
    ensures f(m).tab[j].exitCode == f(n).tab[j].exitCode && f(m).tab[j].pid == f(n).tab[j].pid
    decreases m - n
  {
    hide Inv;
    hide Step;
    hide Enabled;
    if n < m {
      StepAt(f, n);
      var e :| Enabled(f(n), e) && f(n + 1) == Step(f(n), e);
      StepInv(f(n), e);
      InvShape(f(n));
      InvShape(f(n + 1));
      ZombieStep(f(n), e, j);
      if f(n + 1).tab[j].state == Zombie {
        ZombieLasts(f, j, n + 1, m);
      } else {
        ParentIsOther(f(n), j);
        ReapedIsDead(f(n), f(n + 1), j);
        DeadLasts(f, j, n + 1, m);
        ZombieIsNotDead(f(m), j);
      }
    }
  }

  lemma {:induction false} DeadLasts(f: nat -> System, j: nat, n: nat, m: nat)
    requires Forever(f) && Inv(f(n)) && Dead(f(n), j) && n <= m
    ensures Dead(f(m), j)
    decreases m - n
  {
    hide Inv;
    hide Step;
    hide Enabled;
    hide Dead;
    if n < m {
      StepAt(f, n);
      var e :| Enabled(f(n), e) && f(n + 1) == Step(f(n), e);
      StepInv(f(n), e);
      DeadStep(f(n), e, j);
      DeadLasts(f, j, n + 1, m);
    }
  }

  /** A child that ends with a code while dispatched processes always yield: the live parent that waits for it by pid,
      then or later, returns with that code and the child's pid. */
  lemma ExitWaitedFor(f: nat -> System, n: nat, code: int, q: nat, a: nat) returns (m: nat)
    requires Forever(f) && AlwaysYields(f) && Inv(f(n)) && Enabled(f(n), Exit(code)) && f(n + 1) == Step(f(n), Exit(code))
    requires n < a && InWait(f(a), q, WaitSlot(f(n).cur)) && ZombieAt(f(a), f(n).cur)
    ensures |f(n).tab| == PROC_MAX && f(n).cur < PROC_MAX
    ensures a < m && Delivered(f(m), q, f(n).cur, f(n).tab[f(n).cur].pid, code)
  {
    hide Forever;
    hide AlwaysYields;
    hide Inv;
    hide Step;
    hide Enabled;
    hide InWait;
    hide Delivered;
    ExitDoes(f(n), code);
    ExitUsed(f(n), code);
    StepInv(f(n), Exit(code));
    ZombieLasts(f, f(n).cur, n + 1, a);
    m := SlotWaitReturns(f, q, f(n).cur, a);
  }
}
