/** Liveness of wait4 (core/syscall.c:364-405): over infinite runs, a waiting parent gets its child. */
module Waits {
  import opened Process
  import opened ProcessTheorems
  import opened Fairness
  import TaskRings

  ghost predicate ZombieAt(s: System, j: nat) {
    j < |s.tab| && s.tab[j].used && s.tab[j].state == Zombie
  }

  /** Process q has the processor. */
  predicate Current(s: System, q: nat) {
    s.mode.User? && s.cur == q
  }

  /** A live process q in wait4. */
  ghost predicate InWait(s: System, q: nat, w: Wait) {
    && Inv(s) && 1 <= q < PROC_MAX && s.tab[q].used && Alive(s.tab[q]) && s.tab[q].wait == w && w != NotWaiting
  }

  lemma InWaitMeans(s: System, q: nat, w: Wait)
    requires InWait(s, q, w)
    ensures Inv(s) && Shaped(s) && |s.tab| == PROC_MAX && 1 <= q < PROC_MAX && s.tab[q].used
    ensures s.tab[q].wait == w && w != NotWaiting && Alive(s.tab[q])
    ensures !Current(s, q) ==> Waiting(s, q)
    ensures w.WaitSlot? ==> 1 <= w.slot < PROC_MAX && s.tab[w.slot].used && s.tab[w.slot].parent == q
  {
    hide ForestOk;
    hide RingsOk;
    hide SweepOk;
  }

  // What other processes do leaves a wait as it is.

  lemma ScanKeepsWait(s: System, q: nat)
    requires Inv(s) && s.mode.User? && s.cur != q && q < PROC_MAX && s.tab[q].used && Alive(s.tab[q])
    ensures var t := ScanStep(s); |t.tab| == PROC_MAX && t.tab[q].used && Alive(t.tab[q]) && t.tab[q].wait == s.tab[q].wait
  {
    hide PidsOk;
    hide ForestOk;
    hide RingsOk;
    hide RunningOk;
    hide SweepOk;
    hide WaitsOk;
  }

  lemma SlotKeepsWait(s: System, slot: nat, q: nat)
    requires Inv(s) && s.mode.User? && s.cur != q && q < PROC_MAX && s.tab[q].used && Alive(s.tab[q]) && slot < PROC_MAX
    ensures var t := SlotStep(s, slot); |t.tab| == PROC_MAX && t.tab[q].used && Alive(t.tab[q]) && t.tab[q].wait == s.tab[q].wait
  {
    hide PidsOk;
    hide ForestOk;
    hide RingsOk;
    hide RunningOk;
    hide SweepOk;
    hide WaitsOk;
  }

  /** While another has the processor, or nobody, a process in wait4 stays in it. */
  lemma KeepsWait(s: System, e: Event, q: nat, w: Wait)
    requires InWait(s, q, w) && Enabled(s, e) && !Current(s, q)
    ensures InWait(Step(s, e), q, w)
  {
    hide PidsOk;
    hide ForestOk;
    hide RingsOk;
    hide SweepOk;
    hide WaitsOk;
    StepInv(s, e);
    match e
    case WaitAnyCall => ScanKeepsWait(s, q);
    case WaitPidCall(pid) =>
      if s.tab[FindPid(s.tab, pid)].parent == s.cur { SlotKeepsWait(s, FindPid(s.tab, pid), q); }
    case Resume =>
      if s.tab[s.cur].wait.WaitAny? { ScanKeepsWait(s, q); } else { SlotKeepsWait(s, s.tab[s.cur].wait.slot, q); }
    case Visit =>
    case Tick =>
    case Fork =>
    case ExecOk =>
    case ExecFail =>
    case Exit(_) =>
  }

  /** And its zombie children stay zombies, with their pids and exit codes. */
  lemma KeepsZombie(s: System, e: Event, q: nat, j: nat)
    requires Inv(s) && Enabled(s, e) && !Current(s, q) && ZombieAt(s, j) && s.tab[j].parent == q
    ensures var t := Step(s, e);
            ZombieAt(t, j) && t.tab[j].pid == s.tab[j].pid && t.tab[j].exitCode == s.tab[j].exitCode
  {
    hide PidsOk;
    hide ForestOk;
    hide RingsOk;
    hide RunningOk;
    hide SweepOk;
    hide WaitsOk;
    hide Step;
    StepInv(s, e);
    ZombieStep(s, e, j);
  }

  /** A process in wait4 that has the processor looks again. */
  lemma LooksAgain(s: System, e: Event, q: nat, w: Wait)
    requires InWait(s, q, w) && Current(s, q) && Enabled(s, e)
    ensures e == Resume && Step(s, e) == match w { case WaitAny => ScanStep(s) case WaitSlot(j) => SlotStep(s, j) }
  {
    hide PidsOk;
    hide ForestOk;
    hide RingsOk;
    hide RunningOk;
    hide SweepOk;
    hide WaitsOk;
  }

  /** Whatever is passed over does not get the processor. */
  lemma NotCurrent(s: System, e: Event, q: nat, w: Wait)
    requires InWait(s, q, w) && Enabled(s, e) && !Current(s, q) && !Dispatches(s, Step(s, e), q)
    ensures !Current(Step(s, e), q)
  {
    hide Step;
    hide Waiting;
    hide Enabled;
    hide InWait;
    InWaitMeans(s, q, w);
    WaitingStep(s, e, q);
  }

  // wait4(pid).

  /** Process q has left wait4 with this pid and exit code, and process j is dead. */
  ghost predicate Delivered(t: System, q: nat, j: nat, pid: int, code: int) {
    && q < |t.tab| && j < |t.tab| && t.tab[q].wait == NotWaiting && t.tab[q].ret == pid && t.tab[q].status == code * 256
    && Dead(t, j)
  }

  lemma {:induction false} SlotStretch(f: nat -> System, q: nat, j: nat, n: nat, m: nat)
    requires Forever(f) && InWait(f(n), q, WaitSlot(j)) && !Current(f(n), q) && ZombieAt(f(n), j) && n <= m
    requires PassedUntil(f, q, n, m)
    ensures InWait(f(m), q, WaitSlot(j)) && !Current(f(m), q) && ZombieAt(f(m), j)
    ensures j < |f(n).tab| && f(m).tab[j].pid == f(n).tab[j].pid && f(m).tab[j].exitCode == f(n).tab[j].exitCode
    decreases m - n
  {
    hide InWait;
    hide Current;
    hide Dispatches;
    hide Enabled;
    hide Step;
    if n < m {
      assert Next(f(n), f(n + 1));
      var e :| Enabled(f(n), e) && f(n + 1) == Step(f(n), e);
      InWaitMeans(f(n), q, WaitSlot(j));
      KeepsWait(f(n), e, q, WaitSlot(j));
      KeepsZombie(f(n), e, q, j);
      NotCurrent(f(n), e, q, WaitSlot(j));
      SlotStretch(f, q, j, n + 1, m);
    }
  }

  lemma SlotTaken(s: System, q: nat, j: nat)
    requires InWait(s, q, WaitSlot(j)) && Current(s, q) && ZombieAt(s, j)
    ensures Delivered(SlotStep(s, j), q, j, s.tab[j].pid, s.tab[j].exitCode)
  {
    hide PidsOk;
    hide ForestOk;
    hide RingsOk;
    hide RunningOk;
    hide SweepOk;
    hide WaitsOk;
    InWaitMeans(s, q, WaitSlot(j));
    NotOwnParent(s, j);
  }

  lemma StepAt(f: nat -> System, n: nat)
    requires Forever(f)
    ensures Next(f(n), f(n + 1))
  {
    hide Next;
  }

  lemma SlotDispatched(s: System, t: System, q: nat, j: nat)
    requires Next(s, t) && InWait(s, q, WaitSlot(j)) && !Current(s, q) && ZombieAt(s, j) && Dispatches(s, t, q)
    ensures InWait(t, q, WaitSlot(j)) && Current(t, q) && ZombieAt(t, j)
    ensures j < |s.tab| && t.tab[j].pid == s.tab[j].pid && t.tab[j].exitCode == s.tab[j].exitCode
  {
    hide InWait;
    hide Current;
    hide Dispatches;
    hide Enabled;
    hide Step;
    var e :| Enabled(s, e) && t == Step(s, e);
    InWaitMeans(s, q, WaitSlot(j));
    KeepsWait(s, e, q, WaitSlot(j));
    KeepsZombie(s, e, q, j);
    Dispatched(s, t, q);
  }

  lemma SlotReturned(s: System, t: System, q: nat, j: nat)
    requires Next(s, t) && InWait(s, q, WaitSlot(j)) && Current(s, q) && ZombieAt(s, j)
    ensures Delivered(t, q, j, s.tab[j].pid, s.tab[j].exitCode)
  {
    hide InWait;
    hide Current;
    hide Delivered;
    hide Enabled;
    hide Step;
    var e :| Enabled(s, e) && t == Step(s, e);
    LooksAgain(s, e, q, WaitSlot(j));
    SlotTaken(s, q, j);
  }

  /** If dispatched processes always give the processor back, a live process waiting for a zombie returns, with its
      pid and exit code. */
  lemma SlotWaitReturns(f: nat -> System, q: nat, j: nat, n: nat) returns (m: nat)
    requires Forever(f) && AlwaysYields(f) && InWait(f(n), q, WaitSlot(j)) && ZombieAt(f(n), j)
    ensures n < m && Delivered(f(m), q, j, f(n).tab[j].pid, f(n).tab[j].exitCode)
  {
    hide InWait;
    hide Current;
    hide Forever;
    hide AlwaysYields;
    hide PassedUntil;
    hide Waiting;
    hide Dispatches;
    hide Delivered;
    hide Next;
    var a := n;
    if !Current(f(n), q) {
      InWaitMeans(f(n), q, WaitSlot(j));
      var d := EventuallyDispatched(f, q, n);
      SlotStretch(f, q, j, n, d);
      StepAt(f, d);
      SlotDispatched(f(d), f(d + 1), q, j);
      a := d + 1;
    }
    StepAt(f, a);
    SlotReturned(f(a), f(a + 1), q, j);
    m := a + 1;
  }

  lemma Dispatched(s: System, t: System, q: nat)
    requires Dispatches(s, t, q)
    ensures Current(t, q)
  {
  }

  lemma SlotBlocked(s: System, q: nat, j: nat)
    requires InWait(s, q, WaitSlot(j)) && Current(s, q) && !ZombieAt(s, j)
    ensures InWait(SlotStep(s, j), q, WaitSlot(j))
  {
    hide PidsOk;
    hide ForestOk;
    hide RingsOk;
    hide RunningOk;
    hide SweepOk;
    hide WaitsOk;
    InWaitMeans(s, q, WaitSlot(j));
    SlotInv(s, j);
  }

  lemma {:induction false} SlotLeft(f: nat -> System, q: nat, j: nat, n: nat, m: nat) returns (z: nat)
    requires Forever(f) && InWait(f(n), q, WaitSlot(j)) && n <= m && !InWait(f(m), q, WaitSlot(j))
    ensures n <= z && ZombieAt(f(z), j)
    decreases m - n
  {
    hide InWait;
    hide Enabled;
    hide Step;
    z := n;
    if !ZombieAt(f(n), j) {
      assert Next(f(n), f(n + 1));
      var e :| Enabled(f(n), e) && f(n + 1) == Step(f(n), e);
      if Current(f(n), q) {
        LooksAgain(f(n), e, q, WaitSlot(j));
        SlotBlocked(f(n), q, j);
      } else {
        KeepsWait(f(n), e, q, WaitSlot(j));
      }
      z := SlotLeft(f, q, j, n + 1, m);
    }
  }

  /** A live process in wait4(pid) leaves it exactly when at some time the slot it waits for holds a zombie. */
  lemma SlotWaitEnds(f: nat -> System, q: nat, j: nat, n: nat)
    requires Forever(f) && AlwaysYields(f) && InWait(f(n), q, WaitSlot(j))
    ensures (exists m: nat :: n <= m && !InWait(f(m), q, WaitSlot(j))) <==> (exists m: nat :: n <= m && ZombieAt(f(m), j))
  {
    hide InWait;
    hide Forever;
    hide AlwaysYields;
    if m: nat :| n <= m && !InWait(f(m), q, WaitSlot(j)) {
      var z := SlotLeft(f, q, j, n, m);
    }
    if z: nat :| n <= z && ZombieAt(f(z), j) {
      if InWait(f(z), q, WaitSlot(j)) {
        var m := SlotWaitReturns(f, q, j, z);
        NotInWait(f(m), q, j, f(z).tab[j].pid, f(z).tab[j].exitCode);
      }
    }
  }

  lemma NotInWait(s: System, q: nat, j: nat, pid: int, code: int)
    requires Delivered(s, q, j, pid, code)
    ensures !InWait(s, q, WaitSlot(j))
  {
  }

  // wait4(-1).

  ghost predicate ZombieChild(s: System, q: nat, c: nat) {
    q < |s.tab| && c in s.tab[q].children && ZombieAt(s, c)
  }

  /** No event takes a child off a ring. */
  lemma ChildrenGrow(s: System, e: Event, q: nat, c: nat)
    requires Inv(s) && Enabled(s, e) && q < PROC_MAX && s.tab[q].used && c in s.tab[q].children
    ensures |Step(s, e).tab| == PROC_MAX && c in Step(s, e).tab[q].children
  {
    hide PidsOk;
    hide ForestOk;
    hide RingsOk;
    hide RunningOk;
    hide SweepOk;
    hide WaitsOk;
    hide ForkStep;
    hide ExecStep;
    hide VisitStep;
    hide ScanStep;
    hide WaitPidStep;
    hide SlotStep;
    match e
    case Fork => ForkGrafts(s);
    case ExecOk => ExecGrafts(s);
    case ExecFail =>
    case _ => TaskRings.RingsStay(s, e, Step(s, e));
  }

  lemma ChildIs(s: System, q: nat, c: nat)
    requires Inv(s) && q < PROC_MAX && s.tab[q].used && c in s.tab[q].children
    ensures 1 <= c < PROC_MAX && s.tab[c].used && s.tab[c].parent == q && c != q
  {
    hide PidsOk;
    hide RunningOk;
    hide SweepOk;
    hide WaitsOk;
    assert RingOk(s, q);
    NotOwnParent(s, c);
  }

  lemma {:induction false} AnyStretch(f: nat -> System, q: nat, c: nat, n: nat, m: nat)
    requires Forever(f) && InWait(f(n), q, WaitAny) && !Current(f(n), q) && ZombieChild(f(n), q, c) && n <= m
    requires PassedUntil(f, q, n, m)
    ensures InWait(f(m), q, WaitAny) && !Current(f(m), q) && ZombieChild(f(m), q, c)
    decreases m - n
  {
    hide InWait;
    hide Current;
    hide Dispatches;
    hide Enabled;
    hide Step;
    if n < m {
      assert Next(f(n), f(n + 1));
      var e :| Enabled(f(n), e) && f(n + 1) == Step(f(n), e);
      AnyKept(f(n), e, q, c);
      NotCurrent(f(n), e, q, WaitAny);
      AnyStretch(f, q, c, n + 1, m);
    }
  }

  lemma AnyKept(s: System, e: Event, q: nat, c: nat)
    requires InWait(s, q, WaitAny) && Enabled(s, e) && !Current(s, q) && ZombieChild(s, q, c)
    ensures InWait(Step(s, e), q, WaitAny) && ZombieChild(Step(s, e), q, c)
  {
    hide InWait;
    hide Current;
    hide Enabled;
    hide Step;
    InWaitMeans(s, q, WaitAny);
    KeepsWait(s, e, q, WaitAny);
    ChildIs(s, q, c);
    KeepsZombie(s, e, q, c);
    ChildrenGrow(s, e, q, c);
  }

  /** Process q has reaped one of its children, of which the pid and exit code come from s. */
  ghost predicate ReapedOne(s: System, t: System, q: nat) {
    exists c: nat :: ZombieChild(s, q, c) && Delivered(t, q, c, s.tab[c].pid, s.tab[c].exitCode)
  }

  lemma AnyTaken(s: System, q: nat, c: nat)
    requires InWait(s, q, WaitAny) && Current(s, q) && ZombieChild(s, q, c)
    ensures ReapedOne(s, ScanStep(s), q)
  {
    hide PidsOk;
    hide ForestOk;
    hide RingsOk;
    hide SweepOk;
    hide WaitsOk;
    InWaitMeans(s, q, WaitAny);
    ChildIs(s, q, c);
    var i :| 0 <= i < |s.tab[q].children| && s.tab[q].children[i] == c;
    assert HasChild(s, Zombie);
    var k := WaitAnyReaps(s);
    ChildIs(s, q, k);
    assert ZombieChild(s, q, k);
    assert Delivered(ScanStep(s), q, k, s.tab[k].pid, s.tab[k].exitCode);
  }

  lemma AnyDispatched(s: System, t: System, q: nat, c: nat)
    requires Next(s, t) && InWait(s, q, WaitAny) && !Current(s, q) && ZombieChild(s, q, c) && Dispatches(s, t, q)
    ensures InWait(t, q, WaitAny) && Current(t, q) && ZombieChild(t, q, c)
  {
    hide InWait;
    hide Current;
    hide Dispatches;
    hide ZombieChild;
    hide Enabled;
    hide Step;
    var e :| Enabled(s, e) && t == Step(s, e);
    AnyKept(s, e, q, c);
    Dispatched(s, t, q);
  }

  lemma AnyReturned(s: System, t: System, q: nat, c: nat)
    requires Next(s, t) && InWait(s, q, WaitAny) && Current(s, q) && ZombieChild(s, q, c)
    ensures ReapedOne(s, t, q)
  {
    hide InWait;
    hide Current;
    hide ZombieChild;
    hide ReapedOne;
    hide Enabled;
    hide Step;
    var e :| Enabled(s, e) && t == Step(s, e);
    LooksAgain(s, e, q, WaitAny);
    AnyTaken(s, q, c);
  }

  /** A live process in wait4(-1) that has a zombie child returns with one. */
  lemma AnyWaitReturns(f: nat -> System, q: nat, c: nat, n: nat) returns (m: nat)
    requires Forever(f) && AlwaysYields(f) && InWait(f(n), q, WaitAny) && ZombieChild(f(n), q, c)
    ensures n <= m && ReapedOne(f(m), f(m + 1), q)
  {
    hide InWait;
    hide Current;
    hide Forever;
    hide AlwaysYields;
    hide PassedUntil;
    hide Waiting;
    hide Dispatches;
    hide ReapedOne;
    hide ZombieChild;
    hide Next;
    m := n;
    if !Current(f(n), q) {
      InWaitMeans(f(n), q, WaitAny);
      var d := EventuallyDispatched(f, q, n);
      AnyStretch(f, q, c, n, d);
      StepAt(f, d);
      AnyDispatched(f(d), f(d + 1), q, c);
      m := d + 1;
    }
    StepAt(f, m);
    AnyReturned(f(m), f(m + 1), q, c);
  }
}
