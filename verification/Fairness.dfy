/** Round-robin fairness: how long a runable process can be passed over. */
module Fairness {
  import opened Process
  import opened ProcessTheorems

  /** The slot the sweep looks at next. */
  function NextSlot(s: System): nat {
    match s.mode
    case Sweep(i, _) => i
    case User => s.cur + 1
    case Off => 0
  }

  /** How many slots other than the kernel's the sweep visits before slot k. */
  function Ahead(i: nat, k: nat): nat
    requires 1 <= k < PROC_MAX && i <= PROC_MAX
  {
    if i <= k then k - (if i == 0 then 1 else i) else (PROC_MAX - i) + (k - 1)
  }

  predicate IsDispatch(s: System, s': System) {
    !s.mode.User? && s'.mode.User?
  }

  ghost predicate Waiting(s: System, k: nat) {
    Inv(s) && 1 <= k < PROC_MAX && Candidate(s, k)
  }

  lemma WaitingShape(s: System, k: nat)
    requires Waiting(s, k)
    ensures Shaped(s) && NextSlot(s) <= PROC_MAX && 1 <= k < PROC_MAX && !s.mode.Off?
  {
  }

  /** While k waits, no step takes its turn away, and each dispatch of another slot brings its own
      turn one closer. */
  lemma WaitingStep(s: System, e: Event, k: nat)
    requires Waiting(s, k) && Enabled(s, e) && !Dispatches(s, Step(s, e), k)
    ensures var s' := Step(s, e);
            && Waiting(s', k) && NextSlot(s) <= PROC_MAX && NextSlot(s') <= PROC_MAX
            && Ahead(NextSlot(s'), k) <= Ahead(NextSlot(s), k)
            && (IsDispatch(s, s') ==> s.mode.Sweep? && s'.cur == s.mode.i && Ahead(NextSlot(s'), k) < Ahead(NextSlot(s), k))
            && (s.mode.User? ==> NextSlot(s') == NextSlot(s))
            && (s.mode.User? && s'.mode.User? ==> s'.cur == s.cur)
            && (s.mode.Sweep? ==> e == Visit && SweepSteps(s', k) < SweepSteps(s, k))
  {
    hide PidsOk;
    hide ForestOk;
    hide RingsOk;
    StepInv(s, e);
    match e
    case Visit => VisitWaiting(s, k);
    case WaitAnyCall => ScanWaiting(s, k);
    case WaitPidCall(pid) =>
      if s.tab[FindPid(s.tab, pid)].parent == s.cur { SlotWaiting(s, FindPid(s.tab, pid), k); }
    case Resume =>
      if s.tab[s.cur].wait.WaitAny? { ScanWaiting(s, k); } else { SlotWaiting(s, s.tab[s.cur].wait.slot, k); }
    case Tick =>
    case Fork =>
    case ExecOk =>
    case ExecFail =>
    case Exit(_) =>
  }

  /** How many scheduler iterations remain before slot k is looked at, the turn of the sweep included. */
  function SweepSteps(s: System, k: nat): nat {
    var i := NextSlot(s);
    if i <= k then k - i else if i <= PROC_MAX then (PROC_MAX + 1 - i) + k else 0
  }

  lemma VisitWaiting(s: System, k: nat)
    requires Waiting(s, k) && Enabled(s, Visit) && !Dispatches(s, VisitStep(s), k)
    ensures var s' := VisitStep(s);
            && Candidate(s', k) && NextSlot(s') <= PROC_MAX
            && Ahead(NextSlot(s'), k) <= Ahead(NextSlot(s), k)
            && (IsDispatch(s, s') ==> s'.cur == s.mode.i && Ahead(NextSlot(s'), k) < Ahead(NextSlot(s), k))
            && SweepSteps(s', k) < SweepSteps(s, k)
  {
    hide ForestOk;
    hide RingsOk;
    hide WaitsOk;
  }

  lemma ScanWaiting(s: System, k: nat)
    requires Waiting(s, k) && s.mode.User?
    ensures Candidate(ScanStep(s), k) && NextSlot(ScanStep(s)) == NextSlot(s)
    ensures ScanStep(s).mode.User? ==> ScanStep(s).cur == s.cur
  {
    hide ForestOk;
    hide WaitsOk;
  }

  lemma SlotWaiting(s: System, slot: nat, k: nat)
    requires Waiting(s, k) && s.mode.User? && slot < PROC_MAX
    ensures Candidate(SlotStep(s, slot), k) && NextSlot(SlotStep(s, slot)) == NextSlot(s)
    ensures SlotStep(s, slot).mode.User? ==> SlotStep(s, slot).cur == s.cur
  {
    hide ForestOk;
    hide WaitsOk;
  }

  // Bounded waiting, over finite stretches of a run.

  ghost predicate PassesOver(r: seq<System>, k: nat) {
    && |r| > 0 && (forall n | 0 <= n < |r| - 1 :: Next(r[n], r[n + 1]))
    && (forall n | 0 <= n < |r| - 1 :: !Dispatches(r[n], r[n + 1], k))
  }

  function DispatchCount(r: seq<System>): nat {
    if |r| < 2 then 0 else (if IsDispatch(r[0], r[1]) then 1 else 0) + DispatchCount(r[1..])
  }

  lemma PassOne(s: System, s': System, k: nat)
    requires Waiting(s, k) && Next(s, s') && !Dispatches(s, s', k)
    ensures Waiting(s', k) && NextSlot(s) <= PROC_MAX && NextSlot(s') <= PROC_MAX && 1 <= k < PROC_MAX
    ensures Ahead(NextSlot(s'), k) <= Ahead(NextSlot(s), k)
    ensures IsDispatch(s, s') ==> s.mode.Sweep? && s'.cur == s.mode.i && Ahead(NextSlot(s'), k) < Ahead(NextSlot(s), k)
    ensures s.mode.User? ==> NextSlot(s') == NextSlot(s)
    ensures s.mode.Sweep? ==> SweepSteps(s', k) < SweepSteps(s, k)
    ensures !s.mode.Off? && !s'.mode.Off?
  {
    hide Step;
    hide Enabled;
    hide Waiting;
    hide NextSlot;
    hide Ahead;
    hide SweepSteps;
    var e :| Enabled(s, e) && s' == Step(s, e);
    WaitingShape(s, k);
    WaitingStep(s, e, k);
    WaitingShape(s', k);
  }

  lemma TailPasses(r: seq<System>, k: nat)
    requires PassesOver(r, k) && |r| > 1
    ensures PassesOver(r[1..], k)
  {
    hide Next;
    hide Dispatches;
    var t := r[1..];
    forall n | 0 <= n < |t| - 1 ensures Next(t[n], t[n + 1]) && !Dispatches(t[n], t[n + 1], k) {
      assert t[n] == r[n + 1] && t[n + 1] == r[n + 1 + 1];
      assert Next(r[n + 1], r[n + 1 + 1]) && !Dispatches(r[n + 1], r[n + 1 + 1], k);
    }
  }

  /** A runable process that is passed over stays runable, and is passed over at most PROC_MAX - 2
      times, whatever forks, execs, exits and waits happen in between. */
  lemma {:induction false} BoundedWaiting(r: seq<System>, k: nat)
    requires PassesOver(r, k) && Waiting(r[0], k)
    ensures Waiting(r[|r| - 1], k) && NextSlot(r[0]) <= PROC_MAX && NextSlot(r[|r| - 1]) <= PROC_MAX
    ensures DispatchCount(r) + Ahead(NextSlot(r[|r| - 1]), k) <= Ahead(NextSlot(r[0]), k) <= PROC_MAX - 2
    decreases |r|
  {
    hide Waiting;
    hide NextSlot;
    hide Next;
    hide Dispatches;
    hide IsDispatch;
    WaitingShape(r[0], k);
    if |r| > 1 {
      PassOne(r[0], r[1], k);
      var t := r[1..];
      TailPasses(r, k);
      BoundedWaiting(t, k);
    }
  }

  /** While k waits, no other slot is dispatched twice. */
  lemma NoRepeat(r: seq<System>, k: nat, n: nat, m: nat)
    requires PassesOver(r, k) && Waiting(r[0], k) && n < m < |r| - 1
    requires IsDispatch(r[n], r[n + 1]) && IsDispatch(r[m], r[m + 1])
    ensures r[n + 1].cur != r[m + 1].cur
  {
    hide Waiting;
    hide Next;
    hide Dispatches;
    hide Ahead;
    WaitingAt(r, k, n);
    WaitingAt(r, k, m);
    PassOne(r[n], r[n + 1], k);
    PassOne(r[m], r[m + 1], k);
    AheadFalls(r, k, n + 1, m);
  }

  lemma {:induction false} WaitingAt(r: seq<System>, k: nat, n: nat)
    requires PassesOver(r, k) && Waiting(r[0], k) && n < |r|
    ensures Waiting(r[n], k) && NextSlot(r[n]) <= PROC_MAX && 1 <= k < PROC_MAX
  {
    hide Waiting;
    hide Next;
    hide Dispatches;
    if n > 0 {
      WaitingAt(r, k, n - 1);
      PassOne(r[n - 1], r[n], k);
    } else {
      WaitingShape(r[0], k);
    }
  }

  lemma {:induction false} AheadFalls(r: seq<System>, k: nat, n: nat, m: nat)
    requires PassesOver(r, k) && Waiting(r[0], k) && n <= m < |r|
    ensures NextSlot(r[n]) <= PROC_MAX && NextSlot(r[m]) <= PROC_MAX && 1 <= k < PROC_MAX
    ensures Ahead(NextSlot(r[m]), k) <= Ahead(NextSlot(r[n]), k)
    decreases m - n
  {
    hide Waiting;
    hide Next;
    hide Dispatches;
    hide Ahead;
    hide NextSlot;
    WaitingAt(r, k, n);
    WaitingAt(r, k, m);
    if n < m {
      PassOne(r[n], r[n + 1], k);
      AheadFalls(r, k, n + 1, m);
    }
  }

  // Eventual dispatch, over infinite runs.

  ghost predicate Forever(f: nat -> System) {
    forall n: nat :: Next(f(n), f(n + 1))
  }

  /** Every dispatched process gives the processor back some time later. */
  ghost predicate AlwaysYields(f: nat -> System) {
    forall n: nat | f(n).mode.User? :: exists m: nat :: n < m && !f(m).mode.User?
  }

  /** Slot k is not dispatched from time n to time m. */
  ghost predicate PassedUntil(f: nat -> System, k: nat, n: nat, m: nat) {
    forall i, j | n <= i < m && j == i + 1 :: !Dispatches(f(i), f(j), k)
  }

  lemma {:induction false} UserStretch(f: nat -> System, k: nat, a: nat, b: nat) returns (m: nat)
    requires Forever(f) && Waiting(f(a), k) && f(a).mode.User? && a < b && !f(b).mode.User?
    ensures a < m <= b && Waiting(f(m), k) && f(m).mode.Sweep? && NextSlot(f(m)) == NextSlot(f(a))
    ensures forall i | a <= i < m :: f(i).mode.User?
    decreases b - a
  {
    hide Waiting;
    hide Next;
    hide NextSlot;
    hide Ahead;
    hide SweepSteps;
    assert Next(f(a), f(a + 1));
    PassOne(f(a), f(a + 1), k);
    if f(a + 1).mode.User? {
      m := UserStretch(f, k, a + 1, b);
    } else {
      m := a + 1;
    }
  }

  /** If processes always give the processor back, a runable process is dispatched in the end. */
  lemma {:induction false} EventuallyDispatched(f: nat -> System, k: nat, n: nat) returns (m: nat)
    requires Forever(f) && AlwaysYields(f) && Waiting(f(n), k)
    ensures n <= m && Dispatches(f(m), f(m + 1), k)
    ensures PassedUntil(f, k, n, m)
    decreases SweepSteps(f(n), k), if f(n).mode.User? then 1 else 0
  {
    hide Waiting;
    hide Next;
    hide Ahead;
    assert Next(f(n), f(n + 1));
    if f(n).mode.User? {
      var b: nat :| n < b && !f(b).mode.User?;
      var a := UserStretch(f, k, n, b);
      m := EventuallyDispatched(f, k, a);
    } else if Dispatches(f(n), f(n + 1), k) {
      m := n;
    } else {
      PassOne(f(n), f(n + 1), k);
      m := EventuallyDispatched(f, k, n + 1);
    }
  }
}
