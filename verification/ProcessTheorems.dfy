/** Safety and fairness of the process machine over whole runs. */
module ProcessTheorems {
  import opened Process

  // Runs.

  ghost predicate IsRun(r: seq<System>) {
    |r| > 0 && forall n | 0 <= n < |r| - 1 :: Next(r[n], r[n + 1])
  }

  ghost predicate Reachable(s: System) {
    exists r :: IsRun(r) && Init(r[0]) && r[|r| - 1] == s
  }

  lemma NextInv(s: System, s': System)
    requires Inv(s) && Next(s, s')
    ensures Inv(s')
  {
    hide Inv;
    hide Step;
    hide Enabled;
    var e :| Enabled(s, e) && s' == Step(s, e);
    StepInv(s, e);
  }

  lemma {:induction false} RunInv(r: seq<System>, n: nat)
    requires IsRun(r) && Inv(r[0]) && n < |r|
    ensures Inv(r[n])
  {
    hide Inv;
    hide Next;
    if n > 0 {
      RunInv(r, n - 1);
      NextInv(r[n - 1], r[n]);
    }
  }

  /** The invariant holds in every reachable state. */
  lemma ReachableInv(s: System)
    requires Reachable(s)
    ensures Inv(s)
  {
    hide Inv;
    hide Next;
    hide Init;
    var r :| IsRun(r) && Init(r[0]) && r[|r| - 1] == s;
    InitInv(r[0]);
    RunInv(r, |r| - 1);
  }

  lemma ReachableNext(s: System, s': System)
    requires Reachable(s) && Next(s, s')
    ensures Reachable(s')
  {
    hide Init;
    hide Next;
    var r :| IsRun(r) && Init(r[0]) && r[|r| - 1] == s;
    var t := r + [s'];
    forall n | 0 <= n < |t| - 1 ensures Next(t[n], t[n + 1]) {
      if n < |r| - 1 { assert Next(r[n], r[n + 1]); }
    }
    assert IsRun(t) && t[0] == r[0] && t[|t| - 1] == s';
  }

  // Identity and tree.

  /** The n-th ancestor of slot k. */
  function Ancestor(s: System, k: int, n: nat): int
    requires Shaped(s)
    decreases n
  {
    if n == 0 || k < 0 || k >= PROC_MAX then k else Ancestor(s, s.tab[k].parent, n - 1)
  }

  lemma {:induction false} ClimbsToKernel(s: System, d: seq<nat>, k: nat)
    requires Shaped(s) && PidsOk(s) && Ranks(s, d) && k < PROC_MAX && s.tab[k].used
    ensures Ancestor(s, k, d[k]) == 0
    decreases d[k]
  {
    if k != 0 {
      ClimbsToKernel(s, d, s.tab[k].parent);
    }
  }

  /** Pids are unique and below last_pid, parent links lead to the kernel, rings hold exactly
      children, and no `tasks` node is on two rings. */
  ghost predicate TreeSafe(s: System) {
    && Shaped(s)
    && (forall j, k | 0 <= j < k < PROC_MAX && s.tab[j].used && s.tab[k].used && s.tab[j].pid >= 0 ::
          s.tab[j].pid != s.tab[k].pid)
    && (forall k | 0 <= k < PROC_MAX && s.tab[k].used :: s.tab[k].pid < s.lastPid)
    && (forall k | 0 <= k < PROC_MAX && s.tab[k].used :: ReachesKernel(s, k))
    && (forall q, j | 0 <= q < PROC_MAX && s.tab[q].used && 0 <= j < |s.tab[q].children| ::
          s.tab[s.tab[q].children[j]].used && s.tab[s.tab[q].children[j]].parent == q)
    && (forall q, r | 0 <= q < PROC_MAX && s.tab[q].used && 0 <= r < PROC_MAX && s.tab[r].used :: RingsApart(s, q, r))
  }

  ghost predicate ReachesKernel(s: System, k: nat)
    requires Shaped(s)
  {
    exists n: nat :: Ancestor(s, k, n) == 0
  }

  /** A node common to two rings, or at two places, is one place on one ring. */
  ghost predicate RingsApart(s: System, q: nat, r: nat)
    requires Shaped(s) && q < PROC_MAX && r < PROC_MAX
  {
    forall i, j | 0 <= i < |s.tab[q].children| && 0 <= j < |s.tab[r].children|
                  && s.tab[q].children[i] == s.tab[r].children[j] :: q == r && i == j
  }

  lemma TreeSafety(s: System)
    requires Reachable(s)
    ensures TreeSafe(s)
  {
    hide Reachable;
    hide RunningOk;
    hide WaitsOk;
    hide SweepOk;
    ReachableInv(s);
    var d :| Ranks(s, d);
    forall k | 0 <= k < PROC_MAX && s.tab[k].used ensures ReachesKernel(s, k) {
      ClimbsToKernel(s, d, k);
    }
    forall q, r | 0 <= q < PROC_MAX && s.tab[q].used && 0 <= r < PROC_MAX && s.tab[r].used ensures RingsApart(s, q, r) {
      assert RingOk(s, q) && RingOk(s, r);
    }
    forall q, j | 0 <= q < PROC_MAX && s.tab[q].used && 0 <= j < |s.tab[q].children|
      ensures s.tab[s.tab[q].children[j]].used && s.tab[s.tab[q].children[j]].parent == q
    {
      assert RingOk(s, q);
    }
  }

  // Lifecycle.

  /** Slot k is dispatched by this step. */
  predicate Dispatches(s: System, s': System, k: nat) {
    !s.mode.User? && s'.mode.User? && s'.cur == k
  }

  /** At most one process runs, and it is the kernel or the current one. */
  lemma OneRunning(s: System, j: nat, k: nat)
    requires Reachable(s) && j < |s.tab| && k < |s.tab| && s.tab[j].used && s.tab[k].used
    requires s.tab[j].state == Running && s.tab[k].state == Running
    ensures j == k && (j == 0 || j == s.cur)
  {
    ReachableInv(s);
  }

  /** A zombie is not running, is not dispatched, and until its parent reaps it keeps state and exit
      code; being reaped is delivery of that code to the parent, once, as ret and status. */
  lemma ZombieStep(s: System, e: Event, k: nat)
    requires Inv(s) && Enabled(s, e) && k < PROC_MAX && s.tab[k].used && s.tab[k].state == Zombie
    ensures Shaped(Step(s, e)) && ZombieKept(s, Step(s, e), k)
    ensures Step(s, e).tab[k].state != Zombie ==> e == WaitAnyCall || e.WaitPidCall? || e == Resume
  {
    hide ZombieKept;
    match e
    case WaitAnyCall => ScanZombie(s, k);
    case WaitPidCall(pid) => WaitPidZombie(s, pid, k);
    case Resume =>
      if s.tab[s.cur].wait.WaitAny? { ScanZombie(s, k); } else { SlotZombie(s, s.tab[s.cur].wait.slot, k); }
    case Visit => VisitZombie(s, k);
    case Tick => YieldZombie(s, k);
    case Fork => ForkZombie(s, k);
    case ExecOk => ExecZombie(s, k);
    case ExecFail => ExecFailZombie(s, k);
    case Exit(code) => ExitZombie(s, code, k);
  }

  ghost predicate ZombieKept(s: System, s': System, k: nat)
    requires Shaped(s) && Shaped(s') && k < PROC_MAX
  {
    && s'.tab[k].used && s'.tab[k].exitCode == s.tab[k].exitCode && s'.tab[k].pid == s.tab[k].pid
    && !Dispatches(s, s', k)
    && (s'.tab[k].state == Zombie
        || (s'.tab[k].state == Killed && s.tab[k].parent == s.cur && s'.cur == s.cur
            && s'.tab[s.cur].ret == s.tab[k].pid && s'.tab[s.cur].status == s.tab[k].exitCode * 256))
  }

  lemma ScanZombie(s: System, k: nat)
    requires Inv(s) && s.mode.User? && k < PROC_MAX && s.tab[k].used && s.tab[k].state == Zombie
    ensures Shaped(ScanStep(s)) && ZombieKept(s, ScanStep(s), k)
  {
    hide PidsOk;
    hide SweepOk;
    hide ForestOk;
    hide RingsOk;
    hide WaitsOk;
    ScanInv(s);
    if HasChild(s, Zombie) {
      var c := WaitAnyReaps(s);
      ChildOf(s, c);
    }
  }

  lemma ChildOf(s: System, c: nat)
    requires Shaped(s) && RingsOk(s) && s.tab[s.cur].used && c in s.tab[s.cur].children
    ensures c < PROC_MAX && s.tab[c].parent == s.cur
  {
    assert RingOk(s, s.cur);
  }

  lemma SlotZombie(s: System, slot: nat, k: nat)
    requires Inv(s) && s.mode.User? && k < PROC_MAX && s.tab[k].used && s.tab[k].state == Zombie
    requires 1 <= slot < PROC_MAX && s.tab[slot].used && s.tab[slot].parent == s.cur
    ensures Shaped(SlotStep(s, slot)) && ZombieKept(s, SlotStep(s, slot), k)
  {
    SlotInv(s, slot);
    NotOwnParent(s, slot);
  }

  lemma WaitPidZombie(s: System, pid: int, k: nat)
    requires Inv(s) && Enabled(s, WaitPidCall(pid)) && k < PROC_MAX && s.tab[k].used && s.tab[k].state == Zombie
    ensures Shaped(WaitPidStep(s, pid)) && ZombieKept(s, WaitPidStep(s, pid), k)
  {
    var slot := FindPid(s.tab, pid);
    if s.tab[slot].parent == s.cur {
      SlotZombie(s, slot, k);
    }
  }

  lemma VisitZombie(s: System, k: nat)
    requires Inv(s) && Enabled(s, Visit) && k < PROC_MAX && s.tab[k].used && s.tab[k].state == Zombie
    ensures Shaped(VisitStep(s)) && ZombieKept(s, VisitStep(s), k) && VisitStep(s).tab[k].state == Zombie
  {
    hide PidsOk;
    hide SweepOk;
    hide ForestOk;
    hide RingsOk;
    hide WaitsOk;
  }

  lemma YieldZombie(s: System, k: nat)
    requires Inv(s) && s.mode.User? && k < PROC_MAX && s.tab[k].used && s.tab[k].state == Zombie
    ensures Shaped(Yield(s)) && ZombieKept(s, Yield(s), k) && Yield(s).tab[k].state == Zombie
  {
    hide PidsOk;
    hide SweepOk;
    hide ForestOk;
    hide RingsOk;
    hide WaitsOk;
  }

  lemma ForkZombie(s: System, k: nat)
    requires Inv(s) && Enabled(s, Fork) && k < PROC_MAX && s.tab[k].used && s.tab[k].state == Zombie
    ensures Shaped(ForkStep(s)) && ZombieKept(s, ForkStep(s), k) && ForkStep(s).tab[k].state == Zombie
  {
    hide PidsOk;
    hide SweepOk;
    hide ForestOk;
    hide RingsOk;
    hide WaitsOk;
  }

  lemma ExecZombie(s: System, k: nat)
    requires Inv(s) && Enabled(s, ExecOk) && k < PROC_MAX && s.tab[k].used && s.tab[k].state == Zombie
    ensures Shaped(ExecStep(s)) && ZombieKept(s, ExecStep(s), k) && ExecStep(s).tab[k].state == Zombie
  {
    hide PidsOk;
    hide SweepOk;
    hide ForestOk;
    hide RingsOk;
    hide WaitsOk;
  }

  lemma ExecFailZombie(s: System, k: nat)
    requires Inv(s) && Enabled(s, ExecFail) && k < PROC_MAX && s.tab[k].used && s.tab[k].state == Zombie
    ensures Shaped(ExecFailStep(s)) && ZombieKept(s, ExecFailStep(s), k) && ExecFailStep(s).tab[k].state == Zombie
  {
    hide PidsOk;
    hide SweepOk;
    hide ForestOk;
    hide RingsOk;
    hide WaitsOk;
  }

  lemma ExitZombie(s: System, code: int, k: nat)
    requires Inv(s) && Enabled(s, Exit(code)) && k < PROC_MAX && s.tab[k].used && s.tab[k].state == Zombie
    ensures Shaped(ExitStep(s, code)) && ZombieKept(s, ExitStep(s, code), k) && ExitStep(s, code).tab[k].state == Zombie
  {
    hide PidsOk;
    hide SweepOk;
    hide ForestOk;
    hide RingsOk;
    hide WaitsOk;
  }

  /** A process that is killed and not the current one executing is dead. */
  predicate Dead(s: System, k: nat) {
    k < |s.tab| && s.tab[k].used && s.tab[k].state == Killed && !(s.mode.User? && s.cur == k)
  }

  lemma DeadStep(s: System, e: Event, k: nat)
    requires Inv(s) && Enabled(s, e) && Dead(s, k)
    ensures var s' := Step(s, e);
            && Dead(s', k) && s'.tab[k].exitCode == s.tab[k].exitCode && s'.tab[k].pid == s.tab[k].pid
            && s'.tab[k].parent == s.tab[k].parent
  {
    hide PidsOk;
    hide SweepOk;
    hide ForestOk;
    hide RingsOk;
    hide WaitsOk;
    StepInv(s, e);
    match e
    case WaitAnyCall => ScanDead(s, k);
    case WaitPidCall(pid) =>
      if s.tab[FindPid(s.tab, pid)].parent == s.cur { SlotDead(s, FindPid(s.tab, pid), k); }
    case Resume =>
      if s.tab[s.cur].wait.WaitAny? { ScanDead(s, k); } else { SlotDead(s, s.tab[s.cur].wait.slot, k); }
    case Visit =>
    case Tick =>
    case Fork =>
    case ExecOk =>
    case ExecFail =>
    case Exit(_) =>
  }

  lemma ScanDead(s: System, k: nat)
    requires Inv(s) && s.mode.User? && Dead(s, k)
    ensures var s' := ScanStep(s);
            Dead(s', k) && s'.tab[k].exitCode == s.tab[k].exitCode && s'.tab[k].pid == s.tab[k].pid
            && s'.tab[k].parent == s.tab[k].parent
  {
    hide PidsOk;
    hide SweepOk;
    hide ForestOk;
    hide RingsOk;
    hide WaitsOk;
  }

  lemma SlotDead(s: System, slot: nat, k: nat)
    requires Inv(s) && s.mode.User? && Dead(s, k) && slot < PROC_MAX
    ensures var s' := SlotStep(s, slot);
            Dead(s', k) && s'.tab[k].exitCode == s.tab[k].exitCode && s'.tab[k].pid == s.tab[k].pid
            && s'.tab[k].parent == s.tab[k].parent
  {
    hide PidsOk;
    hide SweepOk;
    hide ForestOk;
    hide RingsOk;
    hide WaitsOk;
  }

  /** Once dead - reaped, or replaced by execve and off the processor - a process never changes state
      again, whatever happens. */
  lemma {:induction false} DeadForever(r: seq<System>, k: nat, n: nat, m: nat)
    requires IsRun(r) && Inv(r[0]) && n <= m < |r| && Dead(r[n], k)
    ensures Dead(r[m], k) && |r[m].tab| == PROC_MAX == |r[n].tab| && r[m].tab[k].exitCode == r[n].tab[k].exitCode
            && r[m].tab[k].pid == r[n].tab[k].pid
    decreases m - n
  {
    hide Inv;
    hide Step;
    hide Enabled;
    hide Dead;
    RunInv(r, n);
    RunInv(r, m);
    InvShape(r[n]);
    InvShape(r[m]);
    DeadIn(r[n], k);
    if n < m {
      assert Next(r[n], r[n + 1]);
      var e :| Enabled(r[n], e) && r[n + 1] == Step(r[n], e);
      DeadStep(r[n], e, k);
      DeadForever(r, k, n + 1, m);
    }
  }

  lemma DeadIn(s: System, k: nat)
    requires Dead(s, k)
    ensures k < |s.tab|
  {
  }

  lemma InvShape(s: System)
    requires Inv(s)
    ensures |s.tab| == PROC_MAX && s.cur < PROC_MAX && Shaped(s)
  {
  }

  /** From exit on, over any run: a zombie keeps its exit code, and it is either still a zombie or dead. */
  lemma {:induction false} ZombieRun(r: seq<System>, k: nat, n: nat, m: nat)
    requires IsRun(r) && Inv(r[0]) && n <= m < |r|
    requires k < |r[n].tab| && r[n].tab[k].used && r[n].tab[k].state == Zombie
    ensures |r[m].tab| == PROC_MAX == |r[n].tab| && r[m].tab[k].exitCode == r[n].tab[k].exitCode
    ensures (r[m].tab[k].used && r[m].tab[k].state == Zombie) || Dead(r[m], k)
    decreases m - n
  {
    hide Inv;
    hide Step;
    hide Enabled;
    RunInv(r, n);
    RunInv(r, m);
    InvShape(r[n]);
    InvShape(r[m]);
    if n < m {
      assert Next(r[n], r[n + 1]);
      var e :| Enabled(r[n], e) && r[n + 1] == Step(r[n], e);
      RunInv(r, n + 1);
      InvShape(r[n + 1]);
      ZombieStep(r[n], e, k);
      if r[n + 1].tab[k].state == Zombie {
        ZombieRun(r, k, n + 1, m);
      } else {
        ParentIsOther(r[n], k);
        DeadForever(r, k, n + 1, m);
      }
    }
  }

  lemma ParentIsOther(s: System, k: nat)
    requires Inv(s) && k < |s.tab| && s.tab[k].used
    ensures s.tab[k].parent != k
  {
    if k != 0 { NotOwnParent(s, k); }
  }

  // wait4(pid). It waits for a slot, and only a zombie in that slot ends the wait.

  ghost predicate WaitingFor(s: System, q: nat, j: nat) {
    q < |s.tab| && s.tab[q].used && s.tab[q].wait == WaitSlot(j)
  }

  lemma StrandedStep(s: System, e: Event, q: nat, j: nat)
    requires Inv(s) && Enabled(s, e) && WaitingFor(s, q, j) && Dead(s, j)
    ensures WaitingFor(Step(s, e), q, j)
  {
    hide RunningOk;
    hide PidsOk;
    hide ForestOk;
    hide RingsOk;
    hide SweepOk;
    match e
    case WaitAnyCall => ScanStranded(s, q, j);
    case WaitPidCall(pid) =>
      if s.tab[FindPid(s.tab, pid)].parent == s.cur { SlotStranded(s, FindPid(s.tab, pid), q, j); }
    case Resume =>
      if s.tab[s.cur].wait.WaitAny? { ScanStranded(s, q, j); } else { SlotStranded(s, s.tab[s.cur].wait.slot, q, j); }
    case Visit =>
    case Tick =>
    case Fork =>
    case ExecOk =>
    case ExecFail =>
    case Exit(_) =>
  }

  lemma ScanStranded(s: System, q: nat, j: nat)
    requires Inv(s) && s.mode.User? && WaitingFor(s, q, j) && s.tab[s.cur].wait != WaitSlot(j)
    ensures WaitingFor(ScanStep(s), q, j)
  {
    hide PidsOk;
    hide ForestOk;
    hide RingsOk;
    hide RunningOk;
    hide SweepOk;
    hide WaitsOk;
  }

  lemma SlotStranded(s: System, slot: nat, q: nat, j: nat)
    requires Inv(s) && s.mode.User? && WaitingFor(s, q, j) && Dead(s, j) && slot < PROC_MAX
    requires s.tab[s.cur].wait == WaitSlot(slot) || s.tab[s.cur].wait == NotWaiting
    ensures WaitingFor(SlotStep(s, slot), q, j)
  {
  }

  /** A process waiting for a slot whose process is dead waits forever. */
  lemma {:induction false} StrandedForever(r: seq<System>, q: nat, j: nat, n: nat, m: nat)
    requires IsRun(r) && Inv(r[0]) && n <= m < |r| && WaitingFor(r[n], q, j) && Dead(r[n], j)
    ensures WaitingFor(r[m], q, j)
    decreases m - n
  {
    hide Inv;
    hide Step;
    hide Enabled;
    hide Dead;
    hide WaitingFor;
    RunInv(r, n);
    if n < m {
      assert Next(r[n], r[n + 1]);
      var e :| Enabled(r[n], e) && r[n + 1] == Step(r[n], e);
      StrandedStep(r[n], e, q, j);
      DeadStep(r[n], e, j);
      StrandedForever(r, q, j, n + 1, m);
    }
  }

  /** So does one that asks for a child already reaped: the call finds its slot dead and never returns. */
  lemma ReapedStrands(s: System, pid: int)
    requires Inv(s) && Enabled(s, WaitPidCall(pid)) && s.tab[FindPid(s.tab, pid)].parent == s.cur
    requires Dead(s, FindPid(s.tab, pid))
    ensures var j := FindPid(s.tab, pid);
            WaitingFor(Step(s, WaitPidCall(pid)), s.cur, j) && Dead(Step(s, WaitPidCall(pid)), j)
  {
    hide PidsOk;
    hide ForestOk;
    hide RingsOk;
    hide SweepOk;
    hide WaitsOk;
    NotOwnParent(s, FindPid(s.tab, pid));
  }

  // Both happen: runs from boot to a stranded parent.

  function Booted(): System {
    System([BlankTask().(used := true), BlankTask().(used := true, pid := 1, parent := 0, state := Runable)]
           + seq(PROC_MAX - 2, _ => BlankTask()), 0, 2, Sweep(0, false))
  }

  /** A short run: one event after another. */
  ghost predicate RunOf(s: System, es: seq<Event>, s': System)
    decreases |es|
  {
    if es == [] then s' == s else Enabled(s, es[0]) && RunOf(Step(s, es[0]), es[1..], s')
  }

  lemma RunOne(s: System, e: Event, es: seq<Event>, s': System)
    requires Enabled(s, e) && RunOf(Step(s, e), es, s')
    ensures RunOf(s, [e] + es, s')
  {
    assert ([e] + es)[1..] == es;
  }

  lemma {:induction false} RunOfIsRun(s: System, es: seq<Event>, s': System) returns (r: seq<System>)
    requires RunOf(s, es, s')
    ensures IsRun(r) && r[0] == s && r[|r| - 1] == s'
    decreases |es|
  {
    hide Step;
    hide Enabled;
    if es == [] {
      r := [s];
    } else {
      assert Next(s, Step(s, es[0]));
      var t := RunOfIsRun(Step(s, es[0]), es[1..], s');
      r := [s] + t;
      forall n | 0 <= n < |r| - 1 ensures Next(r[n], r[n + 1]) {
        if n > 0 { assert Next(t[n - 1], t[n]); }
      }
    }
  }

  /** What matters of the table on the way: the first n slots are the used ones. */
  predicate Filled(s: System, n: nat) {
    |s.tab| == PROC_MAX && n <= PROC_MAX && Shaped(s) && forall k | 0 <= k < PROC_MAX :: s.tab[k].used <==> k < n
  }

  /** The first program is dispatched. */
  lemma FirstTurn() returns (s: System)
    ensures Init(Booted()) && RunOf(Booted(), [Visit, Visit], s)
    ensures Filled(s, 2) && s.mode == User && s.cur == 1 && s.lastPid == 2 && s.tab[0].pid == 0
    ensures s.tab[1].wait == NotWaiting && s.tab[1].parent == 0 && s.tab[1].pid == 1 && s.tab[1].state == Running
    ensures s.tab[1].children == []
  {
    var b := Booted();
    var s1 := Step(b, Visit);
    assert s1 == b.(mode := Sweep(1, false));
    s := Step(s1, Visit);
    assert [Visit, Visit][1..] == [Visit];
    assert [Visit][1..] == [];
    assert RunOf(s1, [Visit], s);
  }

  /** It forks, and waits for the child's pid. */
  lemma ForkAndWait(s: System) returns (s': System)
    requires Filled(s, 2) && s.mode == User && s.cur == 1 && s.lastPid == 2 && s.tab[0].pid == 0
    requires s.tab[1].wait == NotWaiting && s.tab[1].parent == 0 && s.tab[1].pid == 1 && s.tab[1].state == Running
    ensures RunOf(s, [Fork, WaitPidCall(2)], s')
    ensures Filled(s', 3) && s'.mode == Sweep(2, true) && WaitingFor(s', 1, 2)
    ensures s'.tab[2].pid == 2 && s'.tab[2].parent == 1 && s'.tab[2].state == Runable && s'.tab[2].wait == NotWaiting
  {
    assert !s.tab[2].used;
    assert FirstFree(s.tab) == 2;
    var s1 := Step(s, Fork);
    assert Filled(s1, 3) && s1.tab[2].pid == 2 && s1.tab[1].pid == 1 && s1.tab[0].pid == 0;
    assert FindPid(s1.tab, 2) == 2;
    s' := Step(s1, WaitPidCall(2));
    assert RunOf(s', [], s');
    RunOne(s1, WaitPidCall(2), [], s');
    RunOne(s, Fork, [WaitPidCall(2)], s');
    assert [WaitPidCall(2)] + [] == [WaitPidCall(2)];
    assert [Fork] + [WaitPidCall(2)] == [Fork, WaitPidCall(2)];
  }

  /** The child is dispatched, replaces itself, and is preempted. */
  lemma ExecAndYield(s: System) returns (s': System)
    requires Filled(s, 3) && s.mode == Sweep(2, true) && WaitingFor(s, 1, 2)
    requires s.tab[2].pid == 2 && s.tab[2].parent == 1 && s.tab[2].state == Runable && s.tab[2].wait == NotWaiting
    ensures RunOf(s, [Visit, ExecOk, Tick], s')
    ensures |s'.tab| == PROC_MAX && WaitingFor(s', 1, 2) && Dead(s', 2) && s'.tab[3].used && s'.tab[3].pid == 2
  {
    var s1 := Step(s, Visit);
    assert Filled(s1, 3) && s1.mode == User && s1.cur == 2 && WaitingFor(s1, 1, 2);
    assert !s1.tab[3].used;
    assert FirstFree(s1.tab) == 3;
    var s2 := Step(s1, ExecOk);
    s' := Step(s2, Tick);
    assert RunOf(s', [], s');
    RunOne(s2, Tick, [], s');
    RunOne(s1, ExecOk, [Tick], s');
    RunOne(s, Visit, [ExecOk, Tick], s');
    assert [Tick] + [] == [Tick] && [ExecOk] + [Tick] == [ExecOk, Tick];
    assert [Visit] + [ExecOk, Tick] == [Visit, ExecOk, Tick];
  }

  lemma {:induction false} RunOfCat(s: System, a: seq<Event>, t: System, b: seq<Event>, u: System)
    requires RunOf(s, a, t) && RunOf(t, b, u)
    ensures RunOf(s, a + b, u)
    decreases |a|
  {
    hide Step;
    hide Enabled;
    if a == [] {
      assert a + b == b;
    } else {
      RunOfCat(Step(s, a[0]), a[1..], t, b, u);
      assert (a + b)[0] == a[0] && (a + b)[1..] == a[1..] + b;
    }
  }

  /** A parent in wait4 is stranded in a state the machine reaches, while its child lives on in slot 3. */
  lemma StrandedReachable() returns (s: System)
    ensures Reachable(s) && WaitingFor(s, 1, 2) && Dead(s, 2) && |s.tab| == PROC_MAX && s.tab[3].used && s.tab[3].pid == 2
  {
    hide RunOf;
    hide Booted;
    hide Init;
    hide Filled;
    hide WaitingFor;
    hide Dead;
    hide Next;
    var s1 := FirstTurn();
    var s2 := ForkAndWait(s1);
    s := ExecAndYield(s2);
    RunOfCat(Booted(), [Visit, Visit], s1, [Fork, WaitPidCall(2)], s2);
    RunOfCat(Booted(), [Visit, Visit] + [Fork, WaitPidCall(2)], s2, [Visit, ExecOk, Tick], s);
    var r := RunOfIsRun(Booted(), [Visit, Visit] + [Fork, WaitPidCall(2)] + [Visit, ExecOk, Tick], s);
  }

  /** Two processes, the second a child of the first and in state st, whose parent is at w in its wait4. */
  ghost predicate Pair(s: System, st: PState, w: Wait) {
    && Filled(s, 3) && s.tab[0].pid == 0 && s.tab[1].pid == 1 && s.tab[2].pid == 2
    && s.tab[1].state == Runable && s.tab[1].wait == w && s.tab[1].children == [2]
    && s.tab[2].parent == 1 && s.tab[2].state == st && s.tab[2].wait == NotWaiting
  }

  /** The first program forks, and waits for any child. */
  lemma ForkAndWaitAny(s: System) returns (s': System)
    requires Filled(s, 2) && s.mode == User && s.cur == 1 && s.lastPid == 2 && s.tab[0].pid == 0 && s.tab[1].children == []
    requires s.tab[1].wait == NotWaiting && s.tab[1].parent == 0 && s.tab[1].pid == 1 && s.tab[1].state == Running
    ensures RunOf(s, [Fork, WaitAnyCall], s') && Pair(s', Runable, WaitAny) && s'.mode == Sweep(2, true)
  {
    assert !s.tab[2].used;
    assert FirstFree(s.tab) == 2;
    var s1 := Step(s, Fork);
    assert Filled(s1, 3) && s1.tab[2].pid == 2 && s1.tab[1].pid == 1 && s1.tab[1].children == [2];
    assert Alive(s1.tab[s1.tab[1].children[0]]);
    s' := Step(s1, WaitAnyCall);
    assert RunOf(s', [], s');
    RunOne(s1, WaitAnyCall, [], s');
    RunOne(s, Fork, [WaitAnyCall], s');
    assert [WaitAnyCall] + [] == [WaitAnyCall] && [Fork] + [WaitAnyCall] == [Fork, WaitAnyCall];
  }

  /** The child is dispatched, and exits. */
  lemma ChildExits(s: System) returns (s': System)
    requires Pair(s, Runable, WaitAny) && s.mode == Sweep(2, true)
    ensures RunOf(s, [Visit, Exit(7)], s') && Pair(s', Zombie, WaitAny) && s'.mode == Sweep(3, true)
  {
    var s1 := Step(s, Visit);
    s' := Step(s1, Exit(7));
    assert RunOf(s', [], s');
    RunOne(s1, Exit(7), [], s');
    RunOne(s, Visit, [Exit(7)], s');
    assert [Exit(7)] + [] == [Exit(7)] && [Visit] + [Exit(7)] == [Visit, Exit(7)];
  }

  /** The sweep goes over the unused slots. */
  lemma {:induction false} PassUnused(s: System) returns (es: seq<Event>)
    requires Filled(s, 3) && s.mode.Sweep? && 3 <= s.mode.i <= PROC_MAX
    ensures RunOf(s, es, s.(mode := Sweep(PROC_MAX, s.mode.run)))
    decreases PROC_MAX - s.mode.i
  {
    if s.mode.i == PROC_MAX {
      es := [];
    } else {
      var s1 := Step(s, Visit);
      assert s1 == s.(mode := Sweep(s.mode.i + 1, s.mode.run));
      var rest := PassUnused(s1);
      assert s1.(mode := Sweep(PROC_MAX, s1.mode.run)) == s.(mode := Sweep(PROC_MAX, s.mode.run));
      RunOne(s, Visit, rest, s.(mode := Sweep(PROC_MAX, s.mode.run)));
      es := [Visit] + rest;
    }
  }

  /** The sweep starts again and dispatches the parent. */
  lemma ParentAgain(s: System) returns (s': System)
    requires Pair(s, Zombie, WaitAny) && s.mode == Sweep(PROC_MAX, true)
    ensures RunOf(s, [Visit, Visit, Visit], s')
    ensures s'.mode == User && s'.cur == 1 && s'.tab == s.tab[0 := s.tab[0].(state := Runable)][1 := s.tab[1].(state := Running)]
  {
    var s1 := Step(s, Visit);
    var s2 := Step(s1, Visit);
    assert s2 == s.(mode := Sweep(1, false));
    s' := Step(s2, Visit);
    assert RunOf(s', [], s');
    RunOne(s2, Visit, [], s');
    RunOne(s1, Visit, [Visit], s');
    RunOne(s, Visit, [Visit, Visit], s');
    assert [Visit] + [] == [Visit] && [Visit] + [Visit] == [Visit, Visit] && [Visit] + [Visit, Visit] == [Visit, Visit, Visit];
  }

  /** It reaps the child, and asks for it again, by its pid. */
  lemma ReapAndAskAgain(s: System) returns (s': System)
    requires Filled(s, 3) && s.mode == User && s.cur == 1 && s.tab[1].wait == WaitAny && s.tab[1].children == [2]
    requires s.tab[0].pid == 0 && s.tab[1].pid == 1 && s.tab[2].pid == 2 && s.tab[2].parent == 1 && s.tab[2].state == Zombie
    ensures RunOf(s, [Resume, WaitPidCall(2)], s') && WaitingFor(s', 1, 2) && Dead(s', 2)
  {
    assert FirstZombie(s.tab, s.tab[1].children) == 0;
    var s1 := Step(s, Resume);
    assert s1 == Reap(s, 2);
    assert Filled(s1, 3) && s1.tab[2].pid == 2 && s1.tab[1].pid == 1 && s1.tab[0].pid == 0;
    assert FindPid(s1.tab, 2) == 2;
    s' := Step(s1, WaitPidCall(2));
    assert RunOf(s', [], s');
    RunOne(s1, WaitPidCall(2), [], s');
    RunOne(s, Resume, [WaitPidCall(2)], s');
    assert [WaitPidCall(2)] + [] == [WaitPidCall(2)] && [Resume] + [WaitPidCall(2)] == [Resume, WaitPidCall(2)];
  }

  lemma PairMeans(s: System, st: PState, w: Wait)
    requires Pair(s, st, w)
    ensures Filled(s, 3) && s.tab[0].pid == 0 && s.tab[1].pid == 1 && s.tab[2].pid == 2
    ensures s.tab[1].wait == w && s.tab[1].children == [2] && s.tab[2].parent == 1 && s.tab[2].state == st
  {
  }

  /** A parent that has reaped its child and waits for it again is stranded in a state the machine reaches. */
  lemma ReapedReachable() returns (s: System)
    ensures Reachable(s) && WaitingFor(s, 1, 2) && Dead(s, 2)
  {
    hide RunOf;
    hide Booted;
    hide Init;
    hide Pair;
    hide WaitingFor;
    hide Dead;
    hide Next;
    var s1 := FirstTurn();
    var s2 := ForkAndWaitAny(s1);
    var s3 := ChildExits(s2);
    PairMeans(s3, Zombie, WaitAny);
    var es := PassUnused(s3);
    var s4 := s3.(mode := Sweep(PROC_MAX, true));
    PairSweeps(s3, s4);
    var s5 := ParentAgain(s4);
    s := ReapAndAskAgain(s5);
    RunOfCat(Booted(), [Visit, Visit], s1, [Fork, WaitAnyCall], s2);
    RunOfCat(Booted(), [Visit, Visit] + [Fork, WaitAnyCall], s2, [Visit, Exit(7)], s3);
    var a := [Visit, Visit] + [Fork, WaitAnyCall] + [Visit, Exit(7)];
    RunOfCat(Booted(), a, s3, es, s4);
    RunOfCat(Booted(), a + es, s4, [Visit, Visit, Visit], s5);
    RunOfCat(Booted(), a + es + [Visit, Visit, Visit], s5, [Resume, WaitPidCall(2)], s);
    var r := RunOfIsRun(Booted(), a + es + [Visit, Visit, Visit] + [Resume, WaitPidCall(2)], s);
  }

  lemma PairSweeps(s: System, s': System)
    requires Pair(s, Zombie, WaitAny) && s'.tab == s.tab && s'.cur == s.cur
    ensures Pair(s', Zombie, WaitAny)
  {
  }

  /** execve leaves its caller dead as soon as it yields: its parent, if in wait4(pid), is stranded,
      though the new image carries the pid on. */
  lemma ExecLeavesDead(s: System)
    requires Inv(s) && Enabled(s, ExecOk)
    ensures var s' := ExecStep(s);
            && Inv(s') && Enabled(s', Tick) && Dead(Yield(s'), s.cur)
            && exists np | 0 <= np < PROC_MAX ::
                 !s.tab[np].used && s'.tab[np].used && s'.tab[np].pid == s.tab[s.cur].pid
                 && s'.tab[np].parent == s.tab[s.cur].parent && s'.tab[np].state == Runable
  {
    hide PidsOk;
    hide ForestOk;
    hide RingsOk;
    hide WaitsOk;
    hide SweepOk;
    ExecInv(s);
    var np := FirstFree(s.tab);
    assert !s.tab[np].used && ExecStep(s).tab[np].used;
  }

  predicate WaitOver(s: System, k: nat) {
    k < |s.tab| && s.tab[k].wait == NotWaiting
  }

  /** Exactly when a dispatched process leaves wait4(pid): the slot it waits for holds a zombie. */
  lemma WaitPidEnds(s: System)
    requires Inv(s) && Enabled(s, Resume) && s.tab[s.cur].wait.WaitSlot?
    ensures WaitOver(Step(s, Resume), s.cur) <==> s.tab[s.tab[s.cur].wait.slot].state == Zombie
  {
    hide PidsOk;
    hide RingsOk;
    hide SweepOk;
    NotOwnParent(s, s.tab[s.cur].wait.slot);
  }

  // wait4(-1).

  ghost predicate HasChild(s: System, st: PState)
    requires Shaped(s)
  {
    exists j | 0 <= j < |s.tab[s.cur].children| :: s.tab[s.tab[s.cur].children[j]].state == st
  }

  /** No child is running while its parent is: on the ring there are zombies, runable and killed ones. */
  lemma ChildrenWait(s: System)
    requires Inv(s) && s.mode.User?
    ensures !HasChild(s, Running)
    ensures forall j | 0 <= j < |s.tab[s.cur].children| :: s.tab[s.cur].children[j] != s.cur
  {
    hide PidsOk;
    hide ForestOk;
    hide RingsOk;
    hide SweepOk;
    hide WaitsOk;
    forall j | 0 <= j < |s.tab[s.cur].children|
      ensures s.tab[s.cur].children[j] != s.cur && s.tab[s.tab[s.cur].children[j]].state != Running
    {
      RingChild(s, s.cur, j);
      NotOwnParent(s, s.tab[s.cur].children[j]);
    }
  }

  /** The zombie nearest the head of the ring is reaped: its exit code is delivered, it is killed, and
      no other process changes. */
  lemma WaitAnyReaps(s: System) returns (c: nat)
    requires Inv(s) && s.mode.User? && HasChild(s, Zombie)
    ensures c < PROC_MAX && c != s.cur && c in s.tab[s.cur].children && s.tab[c].state == Zombie
    ensures var parent := s.tab[s.cur].(wait := NotWaiting, ret := s.tab[c].pid, status := s.tab[c].exitCode * 256);
            ScanStep(s) == s.(tab := s.tab[s.cur := parent][c := s.tab[c].(state := Killed)])
  {
    hide PidsOk;
    hide ForestOk;
    hide RingsOk;
    hide SweepOk;
    hide WaitsOk;
    ChildrenWait(s);
    c := s.tab[s.cur].children[FirstZombie(s.tab, s.tab[s.cur].children)];
  }

  /** With no zombie and some child that can run, the call gives up the processor and will look again;
      nobody but the caller and the kernel changes. */
  lemma WaitAnyBlocks(s: System)
    requires Inv(s) && s.mode.User? && !HasChild(s, Zombie) && HasChild(s, Runable)
    ensures ScanStep(s).mode == Sweep(s.cur + 1, true) && |ScanStep(s).tab| == PROC_MAX
    ensures ScanStep(s).tab[s.cur].wait == WaitAny && (Candidate(ScanStep(s), s.cur) <==> s.tab[s.cur].state == Running)
    ensures forall k | 1 <= k < PROC_MAX && k != s.cur :: ScanStep(s).tab[k] == s.tab[k]
  {
    hide ForestOk;
    hide RingsOk;
    hide SweepOk;
    hide WaitsOk;
    var ring := s.tab[s.cur].children;
    var j :| 0 <= j < |ring| && s.tab[ring[j]].state == Runable;
    assert Alive(s.tab[ring[j]]);
  }

  /** Otherwise every child on the ring is killed, and -1 comes back with nothing else changed. */
  lemma WaitAnyNone(s: System)
    requires Inv(s) && s.mode.User? && !HasChild(s, Zombie) && !HasChild(s, Runable)
    ensures forall j | 0 <= j < |s.tab[s.cur].children| :: s.tab[s.tab[s.cur].children[j]].state == Killed
    ensures ScanStep(s) == s.(tab := s.tab[s.cur := s.tab[s.cur].(wait := NotWaiting, ret := -1)])
  {
    hide PidsOk;
    hide ForestOk;
    hide RingsOk;
    hide SweepOk;
    hide WaitsOk;
    ChildrenWait(s);
    var ring := s.tab[s.cur].children;
    forall j | 0 <= j < |ring| ensures s.tab[ring[j]].state == Killed {
      var st := s.tab[ring[j]].state;
      assert HasChild(s, st);
    }
  }

  // The sweep.

  /** The scheduler stops only when no process can run. */
  lemma OffMeansIdle(s: System, k: nat)
    requires Reachable(s) && s.mode.Off?
    ensures !Candidate(s, k)
  {
    ReachableInv(s);
  }
}
