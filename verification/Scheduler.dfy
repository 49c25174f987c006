/** The process table as the kernel keeps it, with the routines that change it in place (core/proc.c,
    core/sche.c, core/syscall.c, core/exec.c). Each is proved to take the step of the state machine it
    implements, and a whole run of the scheduler to be a run of that machine. */
module Scheduler {
  import opened Process
  import opened ProcessTheorems

  class ProcTable {
    const proc: array<Task>
    var curProc: nat
    var lastPid: nat
    ghost var mode: Mode

    ghost predicate Valid()
      reads this, proc
    {
      Inv(View())
    }

    ghost function View(): System
      reads this, proc
    {
      System(proc[..], curProc, lastPid, mode)
    }

    /** proc_init and user_init: every slot is cleared, slot 0 becomes the kernel and slot 1 the first
        program. */
    constructor ()
      ensures Init(View()) && Valid() && fresh(proc)
    {
      proc := new Task[PROC_MAX](_ => BlankTask());
      curProc, lastPid := 0, 0;
      mode := Off;
      new;
      var k := ProcAlloc();
      proc[k] := proc[k].(pid := 0, state := Running);
      var p := ProcAlloc();
      proc[p] := proc[p].(parent := 0, state := Runable);
      mode := Sweep(0, false);
      InitInv(View());
    }

    /** proc_alloc. It panics when no slot is free, and PROC_MAX stands for that. */
    method ProcAlloc() returns (k: nat)
      requires Shaped(View())
      modifies this`lastPid, proc
      ensures k == FirstFree(old(View()).tab)
      ensures View() == if k < PROC_MAX then Alloc(old(View()), k) else old(View())
    {
      k := 0;
      while k < PROC_MAX
        invariant k <= PROC_MAX
        invariant forall j | 0 <= j < k :: proc[j].used
        invariant View() == old(View())
      {
        if !proc[k].used { break; }
        k := k + 1;
      }
      FirstFreeIs(View().tab, k);
      if k < PROC_MAX {
        proc[k] := proc[k].(used := true, pid := lastPid, children := [], wait := NotWaiting);
        lastPid := lastPid + 1;
      }
    }

    /** proc_find, PROC_MAX standing for NULL. */
    method ProcFind(pid: int) returns (k: nat)
      requires Shaped(View())
      ensures k == FindPid(View().tab, pid)
    {
      k := 0;
      while k < PROC_MAX
        invariant k <= PROC_MAX
        invariant forall j | 0 <= j < k :: !(proc[j].used && proc[j].pid == pid)
      {
        if proc[k].used && proc[k].pid == pid { break; }
        k := k + 1;
      }
      FindPidIs(View().tab, pid, k);
    }

    /** yield, up to the switch back to the scheduler. */
    method YieldCpu()
      requires Shaped(View())
      modifies this`mode, proc
      ensures View() == Yield(old(View()))
    {
      if proc[curProc].state == Running {
        proc[curProc] := proc[curProc].(state := Runable);
      }
      proc[0] := proc[0].(state := Running);
      mode := Sweep(curProc + 1, true);
    }

    /** exit, through kill. */
    method Exit(code: int)
      requires Shaped(View())
      modifies this`mode, proc
      ensures View() == ExitStep(old(View()), code)
    {
      proc[curProc] := proc[curProc].(exitCode := code);
      proc[curProc] := proc[curProc].(state := Zombie);
      YieldCpu();
    }

    /** sys_clone, the process side of fork. */
    method Clone() returns (ok: bool)
      requires Shaped(View())
      modifies this`lastPid, proc
      ensures ok <==> FirstFree(old(View()).tab) < PROC_MAX
      ensures View() == if ok then ForkStep(old(View())) else old(View())
    {
      var np := ProcAlloc();
      ok := np < PROC_MAX;
      if ok {
        proc[curProc] := proc[curProc].(children := [np] + proc[curProc].children);
        proc[np] := proc[np].(parent := curProc, state := Runable, ret := 0);
        proc[curProc] := proc[curProc].(ret := proc[np].pid);
      }
    }

    /** sys_execve, the process side; `loads` says whether elf_loader succeeds. */
    method Execve(loads: bool) returns (ok: bool)
      requires Shaped(View()) && 0 <= View().tab[curProc].parent < PROC_MAX
      requires View().tab[curProc].used && View().tab[View().tab[curProc].parent].used
      modifies this`lastPid, proc
      ensures ok <==> FirstFree(old(View()).tab) < PROC_MAX
      ensures View() == if !ok then old(View())
                        else if loads then ExecStep(old(View())) else ExecFailStep(old(View()))
    {
      var np := ProcAlloc();
      ok := np < PROC_MAX;
      if ok {
        proc[np] := proc[np].(parent := 0, state := Runable);
        if loads {
          var parent := proc[curProc].parent;
          proc[np] := proc[np].(pid := proc[curProc].pid, parent := parent);
          proc[parent] := proc[parent].(children := [np] + proc[parent].children);
          proc[curProc] := proc[curProc].(pid := -1);
          proc[curProc] := proc[curProc].(state := Killed, ret := 0);
        } else {
          proc[np] := proc[np].(used := false);
          proc[curProc] := proc[curProc].(ret := -1);
        }
      }
    }

    /** wait4(-1, ..): one pass over the ring of children, up to the return or the yield. */
    method WaitForAny() returns (yielded: bool)
      requires Shaped(View()) && mode.User?
      modifies this`mode, proc
      ensures View() == ScanStep(old(View())) && yielded == !mode.User?
    {
      var ring := proc[curProc].children;
      var runnings, pos := false, 0;
      while pos < |ring|
        invariant pos <= |ring|
        invariant forall j | 0 <= j < pos :: proc[ring[j]].state != Zombie
        invariant runnings <==> exists j | 0 <= j < pos :: Alive(proc[ring[j]])
        invariant View() == old(View())
      {
        if proc[ring[pos]].state == Zombie { break; }
        runnings := runnings || proc[ring[pos]].state == Running || proc[ring[pos]].state == Runable;
        pos := pos + 1;
      }
      FirstZombieIs(View().tab, ring, pos);
      if pos < |ring| {
        Collect(ring[pos]);
        yielded := false;
      } else if !runnings {
        proc[curProc] := proc[curProc].(wait := NotWaiting, ret := -1);
        yielded := false;
      } else {
        proc[curProc] := proc[curProc].(wait := WaitAny);
        YieldCpu();
        yielded := true;
      }
    }

    /** wait4's end: deliver the exit code and mark the child killed. */
    method Collect(c: nat)
      requires Shaped(View()) && c < PROC_MAX
      modifies proc
      ensures View() == Reap(old(View()), c)
    {
      var child := proc[c];
      proc[curProc] := proc[curProc].(wait := NotWaiting, ret := child.pid, status := child.exitCode * 256);
      proc[c] := proc[c].(state := Killed);
    }

    /** wait4(pid, ..): one test of the slot, up to the return or the yield. */
    method WaitForSlot(slot: nat) returns (yielded: bool)
      requires Shaped(View()) && slot < PROC_MAX && mode.User?
      modifies this`mode, proc
      ensures View() == SlotStep(old(View()), slot) && yielded == !mode.User?
    {
      if proc[slot].state != Zombie {
        proc[curProc] := proc[curProc].(wait := WaitSlot(slot));
        YieldCpu();
        yielded := true;
      } else {
        Collect(slot);
        yielded := false;
      }
    }

    method WaitForPid(pid: int) returns (ok: bool, yielded: bool)
      requires Shaped(View()) && mode.User?
      modifies this`mode, proc
      ensures ok <==> FindPid(old(View()).tab, pid) < PROC_MAX
      ensures View() == if ok then WaitPidStep(old(View()), pid) else old(View())
      ensures yielded == !mode.User?
    {
      var slot := ProcFind(pid);
      ok, yielded := slot < PROC_MAX, false;
      if ok {
        if proc[slot].parent != curProc {
          proc[curProc] := proc[curProc].(ret := -1);
        } else {
          yielded := WaitForSlot(slot);
        }
      }
    }

    /** What the running process does next: the rest of its wait4, or the call it makes. The machine
        stops at a panic, and at a call that is not the one the process would make. */
    method Act(e: Event) returns (ok: bool, yielded: bool)
      requires Valid() && mode.User?
      modifies this`lastPid, this`mode, proc
      ensures ok <==> Enabled(old(View()), e)
      ensures View() == if ok then Step(old(View()), e) else old(View())
      ensures Valid() && yielded == !mode.User?
    {
      hide PidsOk;
      hide ForestOk;
      hide RingsOk;
      hide WaitsOk;
      hide SweepOk;
      CurrentHasParent(View());
      if Enabled(View(), e) { StepInv(View(), e); }
      ok, yielded := true, false;
      var w := proc[curProc].wait;
      if w != NotWaiting {
        if e != Resume { return false, false; }
        if w.WaitAny? { yielded := WaitForAny(); } else { yielded := WaitForSlot(w.slot); }
        return;
      }
      match e
      case Tick => YieldCpu(); yielded := true;
      case Exit(code) => Exit(code); yielded := true;
      case Fork => ok := Clone();
      case ExecOk => ok := Execve(true);
      case ExecFail => ok := Execve(false);
      case WaitAnyCall => yielded := WaitForAny();
      case WaitPidCall(pid) =>
        if pid == -1 { ok := false; } else { ok, yielded := WaitForPid(pid); }
      case Visit => ok := false;
      case Resume => ok := false;
    }

    /** The scheduler gives slot i the processor: switch_to and the two states before it. */
    method Dispatch(i: nat)
      requires Valid() && mode.Sweep? && mode.i == i < PROC_MAX && Candidate(View(), i)
      modifies this`curProc, this`mode, proc
      ensures Valid() && Enabled(old(View()), Visit) && View() == Step(old(View()), Visit)
      ensures mode == User && curProc == i
    {
      hide Inv;
      InvShape(View());
      VisitInv(View());
      proc[0] := proc[0].(state := Runable);
      proc[i] := proc[i].(state := Running);
      curProc := i;
      mode := User;
    }

    /** A slot the sweep passes over. */
    ghost method Pass()
      requires Valid() && mode.Sweep? && mode.i < PROC_MAX && !Candidate(View(), mode.i)
      modifies this`mode
      ensures Valid() && Enabled(old(View()), Visit) && View() == Step(old(View()), Visit)
      ensures mode == Sweep(old(mode).i + 1, old(mode).run)
    {
      hide Inv;
      InvShape(View());
      VisitInv(View());
      mode := Sweep(mode.i + 1, mode.run);
    }

    /** The end of a sweep. */
    ghost method Wrap()
      requires Valid() && mode.Sweep? && mode.i == PROC_MAX
      modifies this`mode
      ensures Valid() && Enabled(old(View()), Visit) && View() == Step(old(View()), Visit)
      ensures mode == if old(mode).run then Sweep(0, false) else Off
    {
      hide Inv;
      InvShape(View());
      VisitInv(View());
      mode := if mode.run then Sweep(0, false) else Off;
    }

    /** Slot i's turn: it is dispatched and runs until it gives the processor back, acting as the
        script says from position `at`. The script may end first, or the kernel panic. */
    method RunProcess(i: nat, script: seq<Event>, at: nat, ghost first: System, ghost h: History)
      returns (next: nat, yielded: bool, ghost h': History)
      requires Valid() && at <= |script| && mode.Sweep? && mode.i == i < PROC_MAX && Candidate(View(), i)
      requires RunsTo(h, first, View()) && Calls(h.events) == script[..at]
      modifies this, proc
      ensures Valid() && at <= next <= |script| && RunsTo(h', first, View()) && Calls(h'.events) == script[..next]
      ensures yielded ==> mode == Sweep(i + 1, true) && at < next
      ensures !yielded ==> mode.User? && (next < |script| ==> !Enabled(View(), script[next]))
    {
      hide Inv;
      hide RunsTo;
      hide Step;
      hide Enabled;
      ghost var before := View();
      Dispatch(i);
      h' := Extend(h, first, before, Visit);
      next, yielded := at, false;
      while !yielded && next < |script|
        invariant Valid() && at <= next <= |script|
        invariant if yielded then mode == Sweep(i + 1, true) && at < next else mode.User? && curProc == i
        invariant RunsTo(h', first, View()) && Calls(h'.events) == script[..next]
        decreases |script| - next
      {
        before := View();
        var ok;
        ok, yielded := Act(script[next]);
        if !ok { return; }
        StepKeepsTurn(before, script[next]);
        h' := Extend(h', first, before, script[next]);
        assert script[..next + 1] == script[..next] + [script[next]];
        next := next + 1;
      }
    }

    /** scheduler. It leaves its loop when a whole sweep has dispatched nobody; the machine may instead
        stop inside a process, when the script ends or its next call cannot happen (the kernel panics).
        The history handed back is a run of the state machine whose calls are those of the script. */
    method Run(script: seq<Event>) returns (shutdown: bool, next: nat, ghost h: History)
      requires Valid() && mode == Sweep(0, false)
      modifies this, proc
      ensures Valid() && next <= |script| && RunsTo(h, old(View()), View()) && Calls(h.events) == script[..next]
      ensures shutdown ==> mode.Off? && forall k :: !Candidate(View(), k)
      ensures !shutdown ==> mode.User? && (next < |script| ==> !Enabled(View(), script[next]))
    {
      hide RunsTo;
      hide Step;
      hide Enabled;
      hide PidsOk;
      hide ForestOk;
      hide RingsOk;
      hide RunningOk;
      hide WaitsOk;
      ghost var first, before := View(), View();
      h := Started(first);
      next := 0;
      var run := true;
      while run
        invariant Valid() && next <= |script|
        invariant mode == if run then Sweep(0, false) else Off
        invariant RunsTo(h, first, View()) && Calls(h.events) == script[..next]
        decreases |script| - next, run
      {
        run := false;
        ghost var start := next;
        var i := 0;
        while i < PROC_MAX
          invariant i <= PROC_MAX && start <= next <= |script| && (run ==> start < next)
          invariant Valid() && mode == Sweep(i, run)
          invariant RunsTo(h, first, View()) && Calls(h.events) == script[..next]
        {
          if proc[i].used && proc[i].pid != 0 && proc[i].state == Runable {
            run := true;
            var yielded;
            next, yielded, h := RunProcess(i, script, next, first, h);
            if !yielded { return false, next, h; }
          } else {
            before := View();
            Pass();
            h := Extend(h, first, before, Visit);
          }
          i := i + 1;
        }
        before := View();
        Wrap();
        h := Extend(h, first, before, Visit);
      }
      shutdown := true;
    }
  }

  /** The states a machine goes through, and the events between them. */
  datatype History = History(states: seq<System>, events: seq<Event>)

  ghost predicate RunsTo(h: History, first: System, last: System) {
    && |h.states| == |h.events| + 1 && h.states[0] == first && h.states[|h.events|] == last
    && forall n | 0 <= n < |h.events| :: Enabled(h.states[n], h.events[n]) && h.states[n + 1] == Step(h.states[n], h.events[n])
  }

  /** What the processes did, without the scheduler's own steps. */
  ghost function Calls(es: seq<Event>): seq<Event> {
    if es == [] then []
    else Calls(es[..|es| - 1]) + (if es[|es| - 1] == Visit then [] else [es[|es| - 1]])
  }

  lemma HistoryIsRun(h: History, first: System, last: System)
    requires RunsTo(h, first, last)
    ensures IsRun(h.states) && h.states[0] == first && h.states[|h.states| - 1] == last
  {
    forall n | 0 <= n < |h.states| - 1 ensures Next(h.states[n], h.states[n + 1]) {
      assert Enabled(h.states[n], h.events[n]);
    }
  }

  /** Runs from boot go on being runs from boot. */
  lemma ReachesOn(h: History, first: System, last: System)
    requires RunsTo(h, first, last) && Reachable(first)
    ensures Reachable(last)
  {
    hide Init;
    hide Next;
    hide RunsTo;
    HistoryIsRun(h, first, last);
    var r :| IsRun(r) && Init(r[0]) && r[|r| - 1] == first;
    var t := r + h.states[1..];
    forall n | 0 <= n < |t| - 1 ensures Next(t[n], t[n + 1]) {
      if n < |r| - 1 {
        assert Next(r[n], r[n + 1]);
      } else {
        var m := n - (|r| - 1);
        assert t[n] == h.states[m] && t[n + 1] == h.states[m + 1];
        assert Next(h.states[m], h.states[m + 1]);
      }
    }
    assert IsRun(t) && t[0] == r[0] && t[|t| - 1] == last;
  }

  lemma BootReachable(s: System)
    requires Init(s)
    ensures Reachable(s)
  {
    hide Init;
    assert IsRun([s]) && [s][0] == s;
  }

  /** Booting and scheduling: wherever that stops, the table is in a state the machine reaches, so all
      that holds of those holds of it; for one, its tree of processes is sound. */
  method BootAndRun(script: seq<Event>) returns (t: ProcTable, shutdown: bool)
    ensures fresh(t) && t.Valid() && Reachable(t.View()) && TreeSafe(t.View())
    ensures shutdown ==> forall k :: !Candidate(t.View(), k)
  {
    hide Inv;
    hide Reachable;
    hide RunsTo;
    hide TreeSafe;
    t := new ProcTable();
    ghost var first := t.View();
    BootReachable(first);
    InitMode(first);
    var next;
    ghost var h;
    shutdown, next, h := t.Run(script);
    ReachesOn(h, first, t.View());
    TreeSafety(t.View());
  }

  lemma InitMode(s: System)
    requires Init(s)
    ensures s.mode == Sweep(0, false)
  {
  }

  ghost function Started(s: System): (h: History)
    ensures RunsTo(h, s, s) && Calls(h.events) == []
  {
    History([s], [])
  }

  ghost function Extend(h: History, first: System, last: System, e: Event): (h': History)
    requires RunsTo(h, first, last) && Enabled(last, e)
    ensures RunsTo(h', first, Step(last, e))
    ensures Calls(h'.events) == Calls(h.events) + if e == Visit then [] else [e]
  {
    assert (h.events + [e])[..|h.events|] == h.events;
    History(h.states + [Step(last, e)], h.events + [e])
  }

  /** A process that keeps the processor stays current, and one that gives it up sends the sweep to the
      slot after its own. */
  lemma StepKeepsTurn(s: System, e: Event)
    requires Inv(s) && s.mode.User? && Enabled(s, e)
    ensures e != Visit
    ensures var s' := Step(s, e);
            s'.cur == s.cur && (s'.mode.User? || s'.mode == Sweep(s.cur + 1, true))
  {
    hide PidsOk;
    hide ForestOk;
    hide RingsOk;
    hide RunningOk;
    hide SweepOk;
  }

  lemma {:induction false} FirstFreeIs(tab: seq<Task>, k: nat, from: nat := 0)
    requires from <= k <= |tab| && (forall j | from <= j < k :: tab[j].used) && (k < |tab| ==> !tab[k].used)
    ensures FirstFree(tab, from) == k
    decreases k - from
  {
    if from < k { FirstFreeIs(tab, k, from + 1); }
  }

  lemma {:induction false} FindPidIs(tab: seq<Task>, pid: int, k: nat, from: nat := 0)
    requires from <= k <= |tab| && (forall j | from <= j < k :: !(tab[j].used && tab[j].pid == pid))
    requires k < |tab| ==> tab[k].used && tab[k].pid == pid
    ensures FindPid(tab, pid, from) == k
    decreases k - from
  {
    if from < k { FindPidIs(tab, pid, k, from + 1); }
  }

  lemma {:induction false} FirstZombieIs(tab: seq<Task>, ring: seq<nat>, k: nat, from: nat := 0)
    requires from <= k <= |ring| && forall j | 0 <= j < |ring| :: ring[j] < |tab|
    requires (forall j | from <= j < k :: tab[ring[j]].state != Zombie) && (k < |ring| ==> tab[ring[k]].state == Zombie)
    ensures FirstZombie(tab, ring, from) == k
    decreases k - from
  {
    if from < k { FirstZombieIs(tab, ring, k, from + 1); }
  }

  lemma CurrentHasParent(s: System)
    requires Inv(s) && s.mode.User?
    ensures s.tab[s.cur].used && 0 <= s.tab[s.cur].parent < PROC_MAX && s.tab[s.tab[s.cur].parent].used
    ensures s.tab[s.cur].wait.WaitSlot? ==> s.tab[s.cur].wait.slot < PROC_MAX
  {
    ParentUsed(s, s.cur);
  }
}
