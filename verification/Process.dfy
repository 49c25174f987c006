/** Processes and the round-robin scheduler as a state machine (core/proc.c, core/sche.c,
    core/syscall.c, core/exec.c, include/proc.h).

    The kernel is not preempted, so everything between two control transfers is one step. A step is
    either one iteration of the scheduler's sweep or one system call or timer tick of the running
    process. A process that blocks in wait4 remembers so and continues its loop when dispatched. */
module Process {

  const PROC_MAX := 64

  datatype PState = Running | Runable | Zombie | Killed

  /** Where a process is inside wait4, if it is. */
  datatype Wait = NotWaiting | WaitAny | WaitSlot(slot: nat)

  /** A task_struct: parent and children are slots of the process table, children being the ring of
      `tasks` nodes from its head. `ret` is the last value handed back to user space, `status` the
      last word stored through wait4's status pointer. */
  datatype Task = Task(used: bool, pid: int, parent: int, state: PState, exitCode: int,
                       children: seq<nat>, wait: Wait, ret: int, status: int)

  /** Who has the processor: the sweep, about to look at slot i; the current process; or nobody. */
  datatype Mode = Sweep(i: nat, run: bool) | User | Off

  datatype System = System(tab: seq<Task>, cur: nat, lastPid: nat, mode: Mode)

  datatype Event =
    | Visit                 // one iteration of the scheduler
    | Tick                  // timer interrupt
    | Fork
    | ExecOk
    | ExecFail              // the program could not be loaded
    | Exit(code: int)
    | WaitAnyCall           // wait4(-1, ..)
    | WaitPidCall(pid: int) // wait4(pid, ..)
    | Resume                // a dispatched process goes round its wait4 loop

  /** The first unused slot, PROC_MAX when there is none. */
  function FirstFree(tab: seq<Task>, from: nat := 0): (k: nat)
    requires from <= |tab|
    ensures from <= k <= |tab|
    ensures forall j | from <= j < k :: tab[j].used
    ensures k < |tab| ==> !tab[k].used
    decreases |tab| - from
  {
    if from == |tab| || !tab[from].used then from else FirstFree(tab, from + 1)
  }

  /** proc_find: the first used slot with this pid, |tab| when there is none. */
  function FindPid(tab: seq<Task>, pid: int, from: nat := 0): (k: nat)
    requires from <= |tab|
    ensures from <= k <= |tab|
    ensures forall j | from <= j < k :: !(tab[j].used && tab[j].pid == pid)
    ensures k < |tab| ==> tab[k].used && tab[k].pid == pid
    decreases |tab| - from
  {
    if from == |tab| || (tab[from].used && tab[from].pid == pid) then from else FindPid(tab, pid, from + 1)
  }

  /** The first child on the ring, from position `from`, that is a zombie. */
  function FirstZombie(tab: seq<Task>, ring: seq<nat>, from: nat := 0): (k: nat)
    requires from <= |ring| && forall j | 0 <= j < |ring| :: ring[j] < |tab|
    ensures from <= k <= |ring|
    ensures forall j | from <= j < k :: tab[ring[j]].state != Zombie
    ensures k < |ring| ==> tab[ring[k]].state == Zombie
    decreases |ring| - from
  {
    if from == |ring| || tab[ring[from]].state == Zombie then from else FirstZombie(tab, ring, from + 1)
  }

  predicate Alive(t: Task) { t.state == Running || t.state == Runable }

  /** A slot the sweep dispatches. */
  predicate Candidate(s: System, k: nat) {
    k < |s.tab| && s.tab[k].used && s.tab[k].pid != 0 && s.tab[k].state == Runable
  }

  function SetState(s: System, k: nat, st: PState): System
    requires k < |s.tab|
  {
    s.(tab := s.tab[k := s.tab[k].(state := st)])
  }

  function SetRet(s: System, k: nat, v: int): System
    requires k < |s.tab|
  {
    s.(tab := s.tab[k := s.tab[k].(ret := v)])
  }

  predicate Shaped(s: System) {
    && |s.tab| == PROC_MAX && s.cur < PROC_MAX
    && forall k, j | 0 <= k < PROC_MAX && 0 <= j < |s.tab[k].children| :: s.tab[k].children[j] < PROC_MAX
  }

  /** yield: a running process becomes runable, and the scheduler goes on after its slot. */
  function Yield(s: System): System
    requires Shaped(s)
  {
    var s1 := if s.tab[s.cur].state == Running then SetState(s, s.cur, Runable) else s;
    SetState(s1, 0, Running).(mode := Sweep(s.cur + 1, true))
  }

  /** The slot proc_alloc hands out: pid and list heads are set, the state is left to the caller. */
  function Alloc(s: System, np: nat): System
    requires Shaped(s) && np < PROC_MAX
  {
    s.(tab := s.tab[np := s.tab[np].(used := true, pid := s.lastPid, children := [], wait := NotWaiting)],
       lastPid := s.lastPid + 1)
  }

  function AddChild(s: System, q: nat, c: nat): System
    requires q < |s.tab|
  {
    s.(tab := s.tab[q := s.tab[q].(children := [c] + s.tab[q].children)])
  }

  function ForkStep(s: System): System
    requires Shaped(s) && FirstFree(s.tab) < PROC_MAX
  {
    var np := FirstFree(s.tab);
    var s1 := AddChild(Alloc(s, np), s.cur, np);
    var s2 := s1.(tab := s1.tab[np := s1.tab[np].(parent := s.cur, state := Runable, ret := 0)]);
    SetRet(s2, s.cur, s2.tab[np].pid)
  }

  /** exec up to where it can fail: the new image is a runable child of slot 0, on no ring. */
  function ExecAlloc(s: System, np: nat): System
    requires Shaped(s) && np < PROC_MAX
  {
    var s1 := Alloc(s, np);
    s1.(tab := s1.tab[np := s1.tab[np].(parent := 0, state := Runable)])
  }

  /** sys_execve: the new image takes over pid and parent; the old one is marked killed and loses its
      pid, but goes on running until it next yields. */
  function ExecStep(s: System): System
    requires Shaped(s) && FirstFree(s.tab) < PROC_MAX && 0 <= s.tab[s.cur].parent < PROC_MAX
  {
    var np := FirstFree(s.tab);
    var p := s.tab[s.cur];
    var s1 := ExecAlloc(s, np);
    var s2 := s1.(tab := s1.tab[np := s1.tab[np].(pid := p.pid, parent := p.parent)]);
    var s3 := AddChild(s2, p.parent, np);
    s3.(tab := s3.tab[s.cur := s3.tab[s.cur].(pid := -1, state := Killed, ret := 0)])
  }

  function ExecFailStep(s: System): System
    requires Shaped(s) && FirstFree(s.tab) < PROC_MAX
  {
    var np := FirstFree(s.tab);
    var s1 := ExecAlloc(s, np);
    SetRet(s1.(tab := s1.tab[np := s1.tab[np].(used := false)]), s.cur, -1)
  }

  function ExitStep(s: System, code: int): System
    requires Shaped(s)
  {
    Yield(s.(tab := s.tab[s.cur := s.tab[s.cur].(exitCode := code, state := Zombie)]))
  }

  /** Reaping child c: its exit code is delivered and it is marked killed. */
  function Reap(s: System, c: nat): System
    requires Shaped(s) && c < PROC_MAX
  {
    var t := s.tab[c];
    var s1 := s.(tab := s.tab[s.cur := s.tab[s.cur].(wait := NotWaiting, ret := t.pid, status := t.exitCode * 256)]);
    SetState(s1, c, Killed)
  }

  function Block(s: System, w: Wait): System
    requires Shaped(s)
  {
    Yield(s.(tab := s.tab[s.cur := s.tab[s.cur].(wait := w)]))
  }

  /** One pass of wait4(-1) over the children. */
  function ScanStep(s: System): System
    requires Shaped(s)
  {
    var ring := s.tab[s.cur].children;
    var z := FirstZombie(s.tab, ring);
    if z < |ring| then Reap(s, ring[z])
    else if exists j | 0 <= j < |ring| :: Alive(s.tab[ring[j]]) then Block(s, WaitAny)
    else s.(tab := s.tab[s.cur := s.tab[s.cur].(wait := NotWaiting, ret := -1)])
  }

  /** One pass of wait4(pid) once the slot is known. */
  function SlotStep(s: System, slot: nat): System
    requires Shaped(s) && slot < PROC_MAX
  {
    if s.tab[slot].state == Zombie then Reap(s, slot) else Block(s, WaitSlot(slot))
  }

  function WaitPidStep(s: System, pid: int): System
    requires Shaped(s) && FindPid(s.tab, pid) < PROC_MAX
  {
    var slot := FindPid(s.tab, pid);
    if s.tab[slot].parent != s.cur then SetRet(s, s.cur, -1) else SlotStep(s, slot)
  }

  function VisitStep(s: System): System
    requires Shaped(s) && s.mode.Sweep? && s.mode.i <= PROC_MAX
  {
    var i := s.mode.i;
    if i == PROC_MAX then s.(mode := if s.mode.run then Sweep(0, false) else Off)
    else if Candidate(s, i) then
      SetState(SetState(s, 0, Runable), i, Running).(cur := i, mode := User)
    else s.(mode := Sweep(i + 1, s.mode.run))
  }

  /** Which events can happen. A panic (no free slot) and wait4 on a pid nobody has stop the machine. */
  predicate Enabled(s: System, e: Event) {
    && Shaped(s)
    && match e
       case Visit => s.mode.Sweep? && s.mode.i <= PROC_MAX
       case Resume => s.mode.User? && s.tab[s.cur].wait != NotWaiting
                      && (s.tab[s.cur].wait.WaitSlot? ==> s.tab[s.cur].wait.slot < PROC_MAX)
       case Fork => InUser(s) && FirstFree(s.tab) < PROC_MAX
       case ExecOk => InUser(s) && FirstFree(s.tab) < PROC_MAX && 0 <= s.tab[s.cur].parent < PROC_MAX
       case ExecFail => InUser(s) && FirstFree(s.tab) < PROC_MAX
       case WaitPidCall(pid) => InUser(s) && pid != -1 && FindPid(s.tab, pid) < PROC_MAX
       case Tick => InUser(s)
       case Exit(_) => InUser(s)
       case WaitAnyCall => InUser(s)
  }

  /** The current process runs user code. */
  predicate InUser(s: System)
    requires Shaped(s)
  {
    s.mode.User? && s.tab[s.cur].wait == NotWaiting
  }

  function Step(s: System, e: Event): System
    requires Enabled(s, e)
  {
    match e
    case Visit => VisitStep(s)
    case Tick => Yield(s)
    case Fork => ForkStep(s)
    case ExecOk => ExecStep(s)
    case ExecFail => ExecFailStep(s)
    case Exit(code) => ExitStep(s, code)
    case WaitAnyCall => ScanStep(s)
    case WaitPidCall(pid) => WaitPidStep(s, pid)
    case Resume =>
      (match s.tab[s.cur].wait
       case WaitAny => ScanStep(s)
       case WaitSlot(slot) => SlotStep(s, slot)
       case NotWaiting => s)
  }

  ghost predicate Next(s: System, s': System) {
    exists e :: Enabled(s, e) && s' == Step(s, e)
  }

  function BlankTask(): Task {
    Task(false, 0, -1, Running, 0, [], NotWaiting, 0, 0)
  }

  /** After proc_init and user_init, when the scheduler starts: the kernel in slot 0 and the first
      program in slot 1. */
  ghost predicate Init(s: System) {
    && |s.tab| == PROC_MAX && s.cur == 0 && s.lastPid == 2 && s.mode == Sweep(0, false)
    && s.tab[0] == BlankTask().(used := true)
    && s.tab[1] == BlankTask().(used := true, pid := 1, parent := 0, state := Runable)
    && forall k | 2 <= k < PROC_MAX :: s.tab[k] == BlankTask()
  }

  // The invariant, in parts.

  /** Pids: the kernel has 0; every other process has -1 or a number handed out and not repeated. */
  ghost predicate PidsOk(s: System)
    requires Shaped(s)
  {
    && s.tab[0].used && s.tab[0].pid == 0 && s.tab[0].parent == -1 && s.lastPid >= 1
    && (forall k | 1 <= k < PROC_MAX && s.tab[k].used :: s.tab[k].pid == -1 || 1 <= s.tab[k].pid < s.lastPid)
    && (forall j, k | 0 <= j < k < PROC_MAX && s.tab[j].used && s.tab[k].used && s.tab[j].pid >= 0 ::
          s.tab[j].pid != s.tab[k].pid)
  }

  /** Every process but the kernel has a parent in use, one level nearer the kernel. */
  ghost predicate Ranks(s: System, d: seq<nat>)
    requires Shaped(s)
  {
    && |d| == PROC_MAX && d[0] == 0
    && forall k | 1 <= k < PROC_MAX && s.tab[k].used ::
         && 0 <= s.tab[k].parent < PROC_MAX && s.tab[s.tab[k].parent].used
         && d[k] == d[s.tab[k].parent] + 1
  }

  ghost predicate ForestOk(s: System)
    requires Shaped(s)
  {
    exists d :: Ranks(s, d)
  }

  /** A ring holds processes in use, each once, all of them children of its owner. */
  ghost predicate RingOk(s: System, q: nat)
    requires Shaped(s) && q < PROC_MAX
  {
    && (forall j | 0 <= j < |s.tab[q].children| ::
          var c := s.tab[q].children[j]; 1 <= c < PROC_MAX && s.tab[c].used && s.tab[c].parent == q)
    && (forall i, j | 0 <= i < j < |s.tab[q].children| :: s.tab[q].children[i] != s.tab[q].children[j])
  }

  ghost predicate RingsOk(s: System)
    requires Shaped(s)
  {
    forall q | 0 <= q < PROC_MAX && s.tab[q].used :: RingOk(s, q)
  }

  /** At most one process runs: the kernel while it sweeps, the current process otherwise (which may
      already be marked killed by execve). */
  ghost predicate RunningOk(s: System)
    requires Shaped(s)
  {
    && (s.mode.User? ==>
          && s.cur != 0 && s.tab[s.cur].used && s.tab[0].state == Runable
          && (s.tab[s.cur].state == Running || s.tab[s.cur].state == Killed))
    && (!s.mode.User? ==> s.tab[0].state == Running)
    && (forall k | 1 <= k < PROC_MAX && s.tab[k].used && s.tab[k].state == Running :: s.mode.User? && k == s.cur)
  }

  /** A sweep that has dispatched nobody has passed nobody who could run. */
  ghost predicate SweepOk(s: System) {
    && (s.mode.Sweep? ==> s.mode.i <= PROC_MAX && (!s.mode.run ==> forall k | 0 <= k < s.mode.i :: !Candidate(s, k)))
    && (s.mode.Off? ==> forall k :: !Candidate(s, k))
  }

  /** A process waiting for a slot waits for a child of its own. */
  ghost predicate WaitsOk(s: System)
    requires Shaped(s)
  {
    forall k | 0 <= k < PROC_MAX && s.tab[k].used && s.tab[k].wait.WaitSlot? ::
      var j := s.tab[k].wait.slot; 1 <= j < PROC_MAX && s.tab[j].used && s.tab[j].parent == k
  }

  ghost predicate Inv(s: System) {
    && Shaped(s) && PidsOk(s) && ForestOk(s) && RingsOk(s) && RunningOk(s) && SweepOk(s) && WaitsOk(s)
  }

  lemma InitInv(s: System)
    requires Init(s)
    ensures Inv(s)
  {
    var d := seq(PROC_MAX, i => if i == 0 then 0 else 1);
    assert Ranks(s, d);
  }

  // Each event keeps the invariant.

  /** Changing no pid, parent, ring or slot use keeps pids, forest and rings. */
  ghost predicate SameShape(s: System, s': System)
    requires Shaped(s) && Shaped(s')
  {
    && s'.lastPid == s.lastPid
    && forall k | 0 <= k < PROC_MAX ::
         && s'.tab[k].used == s.tab[k].used && s'.tab[k].pid == s.tab[k].pid
         && s'.tab[k].parent == s.tab[k].parent && s'.tab[k].children == s.tab[k].children
  }

  lemma SameTree(s: System, s': System)
    requires Shaped(s) && Shaped(s') && SameShape(s, s')
    requires PidsOk(s) && ForestOk(s) && RingsOk(s)
    ensures PidsOk(s') && ForestOk(s') && RingsOk(s')
  {
    var d :| Ranks(s, d);
    assert Ranks(s', d);
    forall q | 0 <= q < PROC_MAX && s'.tab[q].used ensures RingOk(s', q) {
      assert RingOk(s, q);
    }
  }

  lemma YieldInv(s: System)
    requires Shaped(s) && s.mode.User? && PidsOk(s) && ForestOk(s) && RingsOk(s) && WaitsOk(s)
    requires s.cur != 0 && s.tab[s.cur].used && s.tab[0].state == Runable
    requires forall k | 1 <= k < PROC_MAX && s.tab[k].used && s.tab[k].state == Running :: k == s.cur
    ensures Inv(Yield(s))
  {
    hide PidsOk;
    hide ForestOk;
    hide RingsOk;
    SameTree(s, Yield(s));
  }

  /** Nothing changes for waiting processes when waits, slots and parents stay. */
  lemma DispatchInv(s: System)
    requires Inv(s) && s.mode.Sweep? && s.mode.i < PROC_MAX && Candidate(s, s.mode.i)
    ensures Inv(VisitStep(s))
  {
    hide ForestOk;
    hide RingsOk;
    SameTree(s, VisitStep(s));
  }

  lemma PassInv(s: System)
    requires Inv(s) && s.mode.Sweep? && s.mode.i < PROC_MAX && !Candidate(s, s.mode.i)
    ensures Inv(VisitStep(s))
  {
    hide PidsOk;
    hide ForestOk;
    hide RingsOk;
    SameTree(s, VisitStep(s));
    assert forall k :: Candidate(VisitStep(s), k) == Candidate(s, k);
  }

  lemma WrapInv(s: System)
    requires Inv(s) && s.mode.Sweep? && s.mode.i == PROC_MAX
    ensures Inv(VisitStep(s))
  {
    hide PidsOk;
    hide ForestOk;
    hide RingsOk;
    SameTree(s, VisitStep(s));
    assert forall k :: Candidate(VisitStep(s), k) == Candidate(s, k);
  }

  lemma VisitInv(s: System)
    requires Inv(s) && Enabled(s, Visit)
    ensures Inv(VisitStep(s))
  {
    hide Inv;
    hide VisitStep;
    if s.mode.i == PROC_MAX {
      WrapInv(s);
    } else if Candidate(s, s.mode.i) {
      DispatchInv(s);
    } else {
      PassInv(s);
    }
  }

  lemma TickInv(s: System)
    requires Inv(s) && Enabled(s, Tick)
    ensures Inv(Yield(s))
  {
    YieldInv(s);
  }

  lemma ExitInv(s: System, code: int)
    requires Inv(s) && Enabled(s, Exit(code))
    ensures Inv(ExitStep(s, code))
  {
    hide PidsOk;
    hide RingsOk;
    hide ForestOk;
    var s1 := s.(tab := s.tab[s.cur := s.tab[s.cur].(exitCode := code, state := Zombie)]);
    SameTree(s, s1);
    YieldInv(s1);
  }

  lemma ReapInv(s: System, c: nat)
    requires Inv(s) && s.mode.User? && 1 <= c < PROC_MAX && c != s.cur
    ensures Inv(Reap(s, c))
  {
    hide PidsOk;
    hide ForestOk;
    hide RingsOk;
    SameTree(s, Reap(s, c));
  }

  lemma BlockInv(s: System, w: Wait)
    requires Inv(s) && s.mode.User?
    requires w.WaitSlot? ==> 1 <= w.slot < PROC_MAX && s.tab[w.slot].used && s.tab[w.slot].parent == s.cur
    ensures Inv(Block(s, w))
  {
    hide PidsOk;
    hide RingsOk;
    hide ForestOk;
    var s1 := s.(tab := s.tab[s.cur := s.tab[s.cur].(wait := w)]);
    SameTree(s, s1);
    YieldInv(s1);
  }

  /** Nobody is its own parent. */
  lemma NotOwnParent(s: System, k: nat)
    requires Shaped(s) && ForestOk(s) && 1 <= k < PROC_MAX && s.tab[k].used
    ensures s.tab[k].parent != k
  {
    var d :| Ranks(s, d);
  }

  lemma ScanInv(s: System)
    requires Inv(s) && s.mode.User?
    ensures Inv(ScanStep(s))
  {
    hide PidsOk;
    hide RingsOk;
    hide ForestOk;
    hide SweepOk;
    hide WaitsOk;
    hide Reap;
    hide Block;
    hide Alive;
    var ring := s.tab[s.cur].children;
    var z := FirstZombie(s.tab, ring);
    if z < |ring| {
      RingChild(s, s.cur, z);
      NotOwnParent(s, ring[z]);
      ReapInv(s, ring[z]);
    } else if exists j | 0 <= j < |ring| :: Alive(s.tab[ring[j]]) {
      BlockInv(s, WaitAny);
    } else {
      NoneInv(s);
    }
  }

  lemma RingChild(s: System, q: nat, j: nat)
    requires Shaped(s) && RingsOk(s) && q < PROC_MAX && s.tab[q].used && j < |s.tab[q].children|
    ensures 1 <= s.tab[q].children[j] < PROC_MAX && s.tab[s.tab[q].children[j]].used
    ensures s.tab[s.tab[q].children[j]].parent == q
  {
    assert RingOk(s, q);
  }

  lemma NoneInv(s: System)
    requires Inv(s) && s.mode.User?
    ensures Inv(s.(tab := s.tab[s.cur := s.tab[s.cur].(wait := NotWaiting, ret := -1)]))
  {
    hide PidsOk;
    hide RingsOk;
    hide ForestOk;
    SameTree(s, s.(tab := s.tab[s.cur := s.tab[s.cur].(wait := NotWaiting, ret := -1)]));
  }

  lemma SlotInv(s: System, slot: nat)
    requires Inv(s) && s.mode.User? && 1 <= slot < PROC_MAX && s.tab[slot].used && s.tab[slot].parent == s.cur
    ensures Inv(SlotStep(s, slot))
  {
    NotOwnParent(s, slot);
    if s.tab[slot].state == Zombie {
      ReapInv(s, slot);
    } else {
      BlockInv(s, WaitSlot(slot));
    }
  }

  lemma RetInv(s: System, v: int)
    requires Inv(s) && s.mode.User?
    ensures Inv(SetRet(s, s.cur, v))
  {
    hide PidsOk;
    hide ForestOk;
    hide RingsOk;
    SameTree(s, SetRet(s, s.cur, v));
  }

  lemma WaitPidInv(s: System, pid: int)
    requires Inv(s) && Enabled(s, WaitPidCall(pid))
    ensures Inv(WaitPidStep(s, pid))
  {
    hide ForestOk;
    hide RingsOk;
    hide RunningOk;
    hide WaitsOk;
    hide SweepOk;
    hide SetRet;
    hide SlotStep;
    var slot := FindPid(s.tab, pid);
    if s.tab[slot].parent != s.cur {
      RetInv(s, -1);
    } else {
      SlotInv(s, slot);
    }
  }

  // Fork and exec: one unused slot comes into use.

  /** The new slot was on no ring and nobody's parent, because only slots in use are. */
  lemma UnusedUnknown(s: System, np: nat)
    requires Inv(s) && np < PROC_MAX && !s.tab[np].used
    ensures np != 0 && (s.mode.User? ==> np != s.cur)
    ensures forall k | 1 <= k < PROC_MAX && s.tab[k].used :: s.tab[k].parent != np
    ensures forall q, j | 0 <= q < PROC_MAX && s.tab[q].used && 0 <= j < |s.tab[q].children| :: s.tab[q].children[j] != np
  {
    var d :| Ranks(s, d);
    forall q, j | 0 <= q < PROC_MAX && s.tab[q].used && 0 <= j < |s.tab[q].children|
      ensures s.tab[q].children[j] != np
    {
      assert RingOk(s, q);
    }
  }

  /** What fork and exec do to the tree: slot np becomes a child of q, at the head of q's ring. */
  ghost predicate Grafted(s: System, s': System, np: nat, q: nat)
    requires Shaped(s) && Shaped(s') && np < PROC_MAX && q < PROC_MAX
  {
    && !s.tab[np].used && s.tab[q].used && np != q
    && s'.tab[np].used && s'.tab[np].parent == q && s'.tab[np].children == [] && s'.tab[np].wait == NotWaiting
    && s'.tab[q].children == [np] + s.tab[q].children
    && (forall k | 0 <= k < PROC_MAX && k != np ::
          s'.tab[k].used == s.tab[k].used && s'.tab[k].parent == s.tab[k].parent && s'.tab[k].wait == s.tab[k].wait)
    && (forall k | 0 <= k < PROC_MAX && k != np && k != q :: s'.tab[k].children == s.tab[k].children)
  }

  lemma GraftTree(s: System, s': System, np: nat, q: nat)
    requires Inv(s) && Shaped(s') && 1 <= np < PROC_MAX && q < PROC_MAX && Grafted(s, s', np, q)
    ensures ForestOk(s') && RingsOk(s') && WaitsOk(s')
  {
    hide PidsOk;
    hide RunningOk;
    hide SweepOk;
    UnusedUnknown(s, np);
    GraftForest(s, s', np, q);
    forall r | 0 <= r < PROC_MAX && s'.tab[r].used ensures RingOk(s', r) {
      GraftRing(s, s', np, q, r);
    }
  }

  lemma GraftForest(s: System, s': System, np: nat, q: nat)
    requires Shaped(s) && ForestOk(s) && Shaped(s') && 1 <= np < PROC_MAX && q < PROC_MAX && Grafted(s, s', np, q)
    requires forall k | 1 <= k < PROC_MAX && s.tab[k].used :: s.tab[k].parent != np
    ensures ForestOk(s')
  {
    var d :| Ranks(s, d);
    var d' := d[np := d[q] + 1];
    assert Ranks(s', d');
  }

  lemma GraftRing(s: System, s': System, np: nat, q: nat, r: nat)
    requires Shaped(s) && RingsOk(s) && Shaped(s') && 1 <= np < PROC_MAX && q < PROC_MAX && Grafted(s, s', np, q)
    requires forall q, j | 0 <= q < PROC_MAX && s.tab[q].used && 0 <= j < |s.tab[q].children| :: s.tab[q].children[j] != np
    requires r < PROC_MAX && s'.tab[r].used
    ensures RingOk(s', r)
  {
    if r != np {
      assert RingOk(s, r);
      if r == q {
        var ring' := s'.tab[r].children;
        forall j | 0 <= j < |ring'| ensures 1 <= ring'[j] < PROC_MAX && s'.tab[ring'[j]].used && s'.tab[ring'[j]].parent == r {
          if j > 0 { assert ring'[j] == s.tab[r].children[j - 1]; }
        }
      }
    }
  }

  lemma ForkInv(s: System)
    requires Inv(s) && Enabled(s, Fork)
    ensures Inv(ForkStep(s))
  {
    hide ForkStep;
    hide Grafted;
    hide PidsOk;
    hide ForestOk;
    hide RingsOk;
    hide WaitsOk;
    hide SweepOk;
    ForkGrafts(s);
    GraftTree(s, ForkStep(s), FirstFree(s.tab), s.cur);
    ForkRest(s);
  }

  lemma ForkGrafts(s: System)
    requires Inv(s) && Enabled(s, Fork)
    ensures Shaped(ForkStep(s)) && FirstFree(s.tab) != 0 && Grafted(s, ForkStep(s), FirstFree(s.tab), s.cur)
  {
    hide PidsOk;
    hide ForestOk;
    hide RingsOk;
    hide WaitsOk;
    hide SweepOk;
    UnusedUnknown(s, FirstFree(s.tab));
  }

  lemma ForkRest(s: System)
    requires Inv(s) && Enabled(s, Fork)
    ensures Shaped(ForkStep(s))
    ensures PidsOk(ForkStep(s)) && RunningOk(ForkStep(s)) && SweepOk(ForkStep(s))
  {
    hide ForestOk;
    hide RingsOk;
    hide WaitsOk;
  }

  lemma ExecInv(s: System)
    requires Inv(s) && Enabled(s, ExecOk)
    ensures Inv(ExecStep(s))
  {
    hide ExecStep;
    hide Grafted;
    hide PidsOk;
    hide ForestOk;
    hide RingsOk;
    hide WaitsOk;
    hide SweepOk;
    hide RunningOk;
    ExecGrafts(s);
    GraftTree(s, ExecStep(s), FirstFree(s.tab), s.tab[s.cur].parent);
    ExecRest(s);
  }

  lemma ExecGrafts(s: System)
    requires Inv(s) && Enabled(s, ExecOk)
    ensures Shaped(ExecStep(s)) && FirstFree(s.tab) != 0
    ensures Grafted(s, ExecStep(s), FirstFree(s.tab), s.tab[s.cur].parent)
  {
    hide PidsOk;
    hide ForestOk;
    hide RingsOk;
    hide WaitsOk;
    hide SweepOk;
    UnusedUnknown(s, FirstFree(s.tab));
    NotOwnParent(s, s.cur);
    ParentUsed(s, s.cur);
  }

  lemma ParentUsed(s: System, k: nat)
    requires Inv(s) && 1 <= k < PROC_MAX && s.tab[k].used
    ensures 0 <= s.tab[k].parent < PROC_MAX && s.tab[s.tab[k].parent].used
  {
    var d :| Ranks(s, d);
  }

  lemma ExecRest(s: System)
    requires Inv(s) && Enabled(s, ExecOk)
    ensures Shaped(ExecStep(s))
    ensures PidsOk(ExecStep(s)) && RunningOk(ExecStep(s)) && SweepOk(ExecStep(s))
  {
    hide Candidate;
    hide ForestOk;
    hide RingsOk;
    hide WaitsOk;
  }

  lemma ExecFailInv(s: System)
    requires Inv(s) && Enabled(s, ExecFail)
    ensures Inv(ExecFailStep(s))
  {
    hide FirstFree;
    hide PidsOk;
    hide ForestOk;
    hide RingsOk;
    var np := FirstFree(s.tab);
    var s' := ExecFailStep(s);
    UnusedUnknown(s, np);
    ExecFailTree(s, np, s');
  }

  lemma ExecFailTree(s: System, np: nat, s': System)
    requires Inv(s) && Shaped(s') && np < PROC_MAX && np != 0 && !s.tab[np].used && !s'.tab[np].used && s'.lastPid == s.lastPid + 1
    requires forall k | 0 <= k < PROC_MAX && k != np ::
               && s'.tab[k].used == s.tab[k].used && s'.tab[k].pid == s.tab[k].pid && s'.tab[k].parent == s.tab[k].parent
               && s'.tab[k].children == s.tab[k].children
    ensures ForestOk(s') && RingsOk(s') && PidsOk(s')
  {
    UnusedUnknown(s, np);
    var d :| Ranks(s, d);
    assert Ranks(s', d);
    forall q | 0 <= q < PROC_MAX && s'.tab[q].used ensures RingOk(s', q) {
      assert RingOk(s, q);
    }
  }

  /** Every step of the machine keeps the invariant. */
  lemma StepInv(s: System, e: Event)
    requires Inv(s) && Enabled(s, e)
    ensures Inv(Step(s, e))
  {
    match e
    case Visit => VisitInv(s);
    case Tick => TickInv(s);
    case Fork => ForkInv(s);
    case ExecOk => ExecInv(s);
    case ExecFail => ExecFailInv(s);
    case Exit(code) => ExitInv(s, code);
    case WaitAnyCall => ScanInv(s);
    case WaitPidCall(pid) => WaitPidInv(s, pid);
    case Resume => ResumeInv(s);
  }

  lemma ResumeInv(s: System)
    requires Inv(s) && Enabled(s, Resume)
    ensures Inv(Step(s, Resume))
  {
    match s.tab[s.cur].wait
    case WaitAny => ScanInv(s);
    case WaitSlot(slot) => SlotInv(s, slot);
  }
}
