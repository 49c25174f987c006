/** Process slots over runs (core/proc.c:81-116): a slot once in use stays in use, reaped or not. */
module Slots {
  import opened Process
  import opened ProcessTheorems
  import opened TaskRings

  predicate Born(e: Event) { e.Fork? || e.ExecOk? }

  function Births(es: seq<Event>): nat {
    if es == [] then 0 else Births(es[..|es| - 1]) + (if Born(es[|es| - 1]) then 1 else 0)
  }

  function UsedCount(tab: seq<Task>): (n: nat)
    ensures n <= |tab|
  {
    if tab == [] then 0 else UsedCount(tab[..|tab| - 1]) + (if tab[|tab| - 1].used then 1 else 0)
  }

  lemma {:induction false} SameUsed(a: seq<Task>, b: seq<Task>)
    requires |a| == |b| && forall k | 0 <= k < |a| :: a[k].used == b[k].used
    ensures UsedCount(a) == UsedCount(b)
    decreases |a|
  {
    if a != [] { SameUsed(a[..|a| - 1], b[..|b| - 1]); }
  }

  lemma {:induction false} OneMoreUsed(a: seq<Task>, b: seq<Task>, np: nat)
    requires |a| == |b| && np < |a| && !a[np].used && b[np].used && forall k | 0 <= k < |a| && k != np :: a[k].used == b[k].used
    ensures UsedCount(b) == UsedCount(a) + 1
    decreases |a|
  {
    if np == |a| - 1 {
      SameUsed(a[..np], b[..np]);
    } else {
      OneMoreUsed(a[..|a| - 1], b[..|b| - 1], np);
    }
  }

  lemma {:induction false} AllUsed(a: seq<Task>)
    ensures UsedCount(a) == |a| <==> forall k | 0 <= k < |a| :: a[k].used
  {
    if a != [] {
      var b := a[..|a| - 1];
      AllUsed(b);
      if forall k | 0 <= k < |b| :: b[k].used {
        forall k | 0 <= k < |a| - 1 ensures a[k].used { assert b[k].used; }
      } else {
        var k :| 0 <= k < |b| && !b[k].used;
        assert !a[k].used;
      }
    }
  }

  lemma FailUses(s: System)
    requires Inv(s) && Enabled(s, ExecFail)
    ensures |ExecFailStep(s).tab| == PROC_MAX
    ensures forall k | 0 <= k < PROC_MAX :: ExecFailStep(s).tab[k].used == s.tab[k].used
  {
    hide PidsOk;
    hide ForestOk;
    hide RingsOk;
    hide RunningOk;
    hide SweepOk;
    hide WaitsOk;
  }

  /** A step takes a slot into use exactly when it makes a process, the first free one, and gives none back. */
  lemma SlotUse(s: System, e: Event)
    requires Inv(s) && Enabled(s, e)
    ensures |s.tab| == PROC_MAX == |Step(s, e).tab|
    ensures forall k | 0 <= k < PROC_MAX :: Step(s, e).tab[k].used <==> s.tab[k].used || (Born(e) && k == FirstFree(s.tab))
    ensures UsedCount(Step(s, e).tab) == UsedCount(s.tab) + if Born(e) then 1 else 0
  {
    hide PidsOk;
    hide ForestOk;
    hide RingsOk;
    hide RunningOk;
    hide SweepOk;
    hide WaitsOk;
    hide ForkStep;
    hide ExecStep;
    hide ExecFailStep;
    hide VisitStep;
    hide ScanStep;
    hide WaitPidStep;
    hide SlotStep;
    match e
    case Fork =>
      ForkGrafts(s);
      OneMoreUsed(s.tab, ForkStep(s).tab, FirstFree(s.tab));
    case ExecOk =>
      ExecGrafts(s);
      OneMoreUsed(s.tab, ExecStep(s).tab, FirstFree(s.tab));
    case ExecFail =>
      FailUses(s);
      SameUsed(s.tab, ExecFailStep(s).tab);
    case _ =>
      RingsStay(s, e, Step(s, e));
      SameUsed(s.tab, Step(s, e).tab);
  }

  lemma BootUse(s: System)
    requires Init(s)
    ensures UsedCount(s.tab) == 2
  {
    var none := seq(PROC_MAX, _ => BlankTask());
    NoneUsed(none);
    var one := none[0 := s.tab[0]];
    OneMoreUsed(none, one, 0);
    var two := one[1 := s.tab[1]];
    OneMoreUsed(one, two, 1);
    assert two == s.tab;
  }

  lemma {:induction false} NoneUsed(a: seq<Task>)
    requires forall k | 0 <= k < |a| :: !a[k].used
    ensures UsedCount(a) == 0
  {
    if a != [] { NoneUsed(a[..|a| - 1]); }
  }

  lemma {:induction false} RunUse(r: seq<System>, es: seq<Event>, n: nat)
    requires Follows(r, es) && n <= |es|
    ensures Inv(r[n]) && UsedCount(r[n].tab) == 2 + Births(es[..n])
  {
    hide Inv;
    hide Init;
    hide Enabled;
    hide Step;
    if n == 0 {
      InitInv(r[0]);
      BootUse(r[0]);
    } else {
      RunUse(r, es, n - 1);
      StepInv(r[n - 1], es[n - 1]);
      SlotUse(r[n - 1], es[n - 1]);
      assert es[..n][..n - 1] == es[..n - 1];
    }
  }

  /** Over any run from boot at most PROC_MAX - 2 processes are ever made, by fork and execve together, and there
      is a slot for one more exactly when fewer have been: nothing that ends gives its slot back. */
  lemma SlotsRunOut(r: seq<System>, es: seq<Event>)
    requires Follows(r, es)
    ensures Births(es) <= PROC_MAX - 2
    ensures FirstFree(r[|es|].tab) < PROC_MAX <==> Births(es) < PROC_MAX - 2
  {
    hide Follows;
    RunUse(r, es, |es|);
    FollowsLength(r, es);
    assert es[..|es|] == es;
    AllUsed(r[|es|].tab);
  }

  lemma FollowsLength(r: seq<System>, es: seq<Event>)
    requires Follows(r, es)
    ensures |r| == |es| + 1
  {
    hide Init;
    hide Enabled;
  }
}
