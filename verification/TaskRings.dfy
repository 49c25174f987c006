/** The rings of tasks as nodes in memory (core/proc.c:81-116, core/exec.c:175-181, core/syscall.c:179-183).
    Every slot of the process table has two list nodes, the head of its children and the node by which it
    hangs in its parent's list. What the kernel does to them keeps them linked as the process machine says,
    through every step of every run. */
module TaskRings {
  import opened Process
  import opened KList

  /** heads[k] and nodes[k] are the `children` and `tasks` nodes of slot k. */
  ghost predicate NodesOk(heads: seq<ListHead>, nodes: seq<ListHead>) {
    && |heads| == |nodes| == PROC_MAX
    && (forall i, j | 0 <= i < j < PROC_MAX :: heads[i] != heads[j])
    && (forall i, j | 0 <= i < j < PROC_MAX :: nodes[i] != nodes[j])
    && (forall i, j | 0 <= i < PROC_MAX && 0 <= j < PROC_MAX :: heads[i] != nodes[j])
  }

  ghost function Tasks(nodes: seq<ListHead>, ring: seq<nat>): (r: seq<ListHead>)
    requires forall j | 0 <= j < |ring| :: ring[j] < |nodes|
    ensures |r| == |ring| && forall j | 0 <= j < |r| :: r[j] == nodes[ring[j]]
  {
    seq(|ring|, j requires 0 <= j < |ring| => nodes[ring[j]])
  }

  /** The children of every process in use are linked in order behind its head. */
  ghost predicate Linked(heads: seq<ListHead>, nodes: seq<ListHead>, s: System)
    requires NodesOk(heads, nodes) && Shaped(s)
    reads heads, nodes
  {
    forall q | 0 <= q < PROC_MAX && s.tab[q].used :: List(heads[q], Tasks(nodes, s.tab[q].children))
  }

  /** No two places on rings have the same node. */
  lemma OneRing(heads: seq<ListHead>, nodes: seq<ListHead>, s: System, q: nat, i: nat, r: nat, j: nat)
    requires NodesOk(heads, nodes) && Inv(s) && q < PROC_MAX && r < PROC_MAX && s.tab[q].used && s.tab[r].used
    requires i < |s.tab[q].children| && j < |s.tab[r].children|
    requires Tasks(nodes, s.tab[q].children)[i] == Tasks(nodes, s.tab[r].children)[j]
    ensures q == r && i == j
  {
    hide PidsOk;
    hide ForestOk;
    hide RunningOk;
    hide SweepOk;
    hide WaitsOk;
    assert RingOk(s, q) && RingOk(s, r);
    SameNode(heads, nodes, s.tab[q].children[i], s.tab[r].children[j]);
  }

  lemma SameNode(heads: seq<ListHead>, nodes: seq<ListHead>, i: nat, j: nat)
    requires NodesOk(heads, nodes) && i < PROC_MAX && j < PROC_MAX && nodes[i] == nodes[j]
    ensures i == j
  {
  }

  /** Places whose slots in use have the same children are linked alike. */
  lemma SameRings(heads: seq<ListHead>, nodes: seq<ListHead>, s: System, s': System)
    requires NodesOk(heads, nodes) && Shaped(s) && Shaped(s') && Linked(heads, nodes, s)
    requires forall q | 0 <= q < PROC_MAX && s'.tab[q].used :: s.tab[q].used && s'.tab[q].children == s.tab[q].children
    ensures Linked(heads, nodes, s')
  {
    forall q | 0 <= q < PROC_MAX && s'.tab[q].used ensures List(heads[q], Tasks(nodes, s'.tab[q].children)) {
      assert List(heads[q], Tasks(nodes, s.tab[q].children));
    }
  }

  /** The ring of slot r, empty when the slot is not in use. */
  ghost function RingOf(heads: seq<ListHead>, nodes: seq<ListHead>, s: System, r: nat): (c: seq<ListHead>)
    requires NodesOk(heads, nodes) && Shaped(s) && r < PROC_MAX
  {
    if s.tab[r].used then [heads[r]] + Tasks(nodes, s.tab[r].children) else []
  }

  /** A node on no ring but perhaps that of slot q. */
  ghost predicate OffOthers(heads: seq<ListHead>, nodes: seq<ListHead>, s: System, q: nat, x: ListHead)
    requires NodesOk(heads, nodes) && Shaped(s)
  {
    forall r | 0 <= r < PROC_MAX && r != q :: x !in RingOf(heads, nodes, s, r)
  }

  /** Neither the head of slot q nor the node of one of its children is on another ring. */
  lemma RingAway(heads: seq<ListHead>, nodes: seq<ListHead>, s: System, q: nat, x: ListHead)
    requires NodesOk(heads, nodes) && Inv(s) && q < PROC_MAX && s.tab[q].used
    requires x in [heads[q]] + Tasks(nodes, s.tab[q].children)
    ensures OffOthers(heads, nodes, s, q, x)
  {
    hide PidsOk;
    hide ForestOk;
    hide RingsOk;
    hide RunningOk;
    hide SweepOk;
    hide WaitsOk;
    forall r, j | 0 <= r < PROC_MAX && s.tab[r].used && r != q && 0 <= j < |s.tab[r].children|
      ensures Tasks(nodes, s.tab[r].children)[j] != x
    {
      if x in Tasks(nodes, s.tab[q].children) {
        var i :| 0 <= i < |s.tab[q].children| && Tasks(nodes, s.tab[q].children)[i] == x;
        if Tasks(nodes, s.tab[r].children)[j] == x { OneRing(heads, nodes, s, q, i, r, j); }
      }
    }
  }

  /** The nodes of an unused slot are on no ring at all. */
  lemma Fresh(heads: seq<ListHead>, nodes: seq<ListHead>, s: System, np: nat, q: nat)
    requires NodesOk(heads, nodes) && Inv(s) && np < PROC_MAX && !s.tab[np].used && q < PROC_MAX
    ensures s.tab[q].used ==> heads[np] !in [heads[q]] + Tasks(nodes, s.tab[q].children)
    ensures s.tab[q].used ==> nodes[np] !in [heads[q]] + Tasks(nodes, s.tab[q].children)
    ensures OffOthers(heads, nodes, s, q, heads[np]) && OffOthers(heads, nodes, s, q, nodes[np])
  {
    hide PidsOk;
    hide ForestOk;
    hide RingsOk;
    hide RunningOk;
    hide SweepOk;
    hide WaitsOk;
    UnusedUnknown(s, np);
  }

  lemma NextInside(head: ListHead, s: seq<ListHead>)
    requires List(head, s)
    ensures head.next in [head] + s
  {
    HeadIn(head, s);
  }

  /** The rings of all slots but q. */
  ghost function Others(heads: seq<ListHead>, nodes: seq<ListHead>, s: System, q: nat): (cs: seq<seq<ListHead>>)
    requires NodesOk(heads, nodes) && Shaped(s) && q < PROC_MAX
    ensures |cs| == PROC_MAX && cs[q] == [] && forall r | 0 <= r < PROC_MAX && r != q :: cs[r] == RingOf(heads, nodes, s, r)
  {
    seq(PROC_MAX, r requires 0 <= r < PROC_MAX => if r == q then [] else RingOf(heads, nodes, s, r))
  }

  lemma OthersLinked(heads: seq<ListHead>, nodes: seq<ListHead>, s: System, q: nat)
    requires NodesOk(heads, nodes) && Shaped(s) && q < PROC_MAX && Linked(heads, nodes, s)
    ensures forall c | c in Others(heads, nodes, s, q) && c != [] :: Ring(c)
  {
    hide Ring;
    forall r | 0 <= r < PROC_MAX && r != q && s.tab[r].used ensures Ring(RingOf(heads, nodes, s, r)) {
      assert List(heads[r], Tasks(nodes, s.tab[r].children));
    }
  }

  lemma OffAll(heads: seq<ListHead>, nodes: seq<ListHead>, s: System, q: nat, x: ListHead)
    requires NodesOk(heads, nodes) && Shaped(s) && q < PROC_MAX && OffOthers(heads, nodes, s, q, x)
    ensures forall c | c in Others(heads, nodes, s, q) :: x !in c
  {
  }

  /** The pointer writes of a graft: two new lists, and the new node in front of a third; rings that hold
      none of the written nodes stay as they are. */
  method Attach(blank: ListHead, node: ListHead, head: ListHead, ghost ring: seq<ListHead>, ghost others: seq<seq<ListHead>>)
    requires List(head, ring) && blank !in [head] + ring && node !in [head] + ring && blank != node
    requires forall c | c in others :: blank !in c && node !in c && head !in c && head.next !in c
    requires forall c | c in others && c != [] :: Ring(c)
    modifies blank, node, head, head.next
    ensures List(blank, []) && List(head, [node] + ring)
    ensures forall c | c in others && c != [] :: Ring(c)
  {
    hide Ring;
    NextInside(head, ring);
    InitListHead(blank);
    InitListHead(node);
    ListAdd(head, node, ring);
    forall c | c in others && c != [] ensures Ring(c) {
      assert old(Ring(c));
    }
  }

  /** Linked again, once the two changed rings and the others are. */
  lemma LinkedAgain(heads: seq<ListHead>, nodes: seq<ListHead>, s: System, s': System, np: nat, q: nat)
    requires NodesOk(heads, nodes) && Shaped(s) && Shaped(s') && np < PROC_MAX && q < PROC_MAX && Grafted(s, s', np, q)
    requires List(heads[np], []) && List(heads[q], [nodes[np]] + Tasks(nodes, s.tab[q].children))
    requires forall c | c in Others(heads, nodes, s, q) && c != [] :: Ring(c)
    ensures Linked(heads, nodes, s')
  {
    hide Ring;
    assert Tasks(nodes, s'.tab[q].children) == [nodes[np]] + Tasks(nodes, s.tab[q].children);
    assert Tasks(nodes, []) == [];
    forall r | 0 <= r < PROC_MAX && s'.tab[r].used && r != q && r != np
      ensures List(heads[r], Tasks(nodes, s'.tab[r].children))
    {
      assert Others(heads, nodes, s, q)[r] == RingOf(heads, nodes, s, r);
    }
  }

  /** proc_alloc's two empty lists for slot np, and list_add of its node to q's children: the pointer side
      of fork and of execve. */
  method Graft(heads: seq<ListHead>, nodes: seq<ListHead>, np: nat, q: nat, ghost s: System, ghost s': System)
    requires NodesOk(heads, nodes) && Inv(s) && Shaped(s') && np < PROC_MAX && q < PROC_MAX && Grafted(s, s', np, q)
    requires Linked(heads, nodes, s)
    modifies heads[np], nodes[np], heads[q], heads[q].next
    ensures Linked(heads, nodes, s')
  {
    hide PidsOk;
    hide ForestOk;
    hide RingsOk;
    hide RunningOk;
    hide SweepOk;
    hide WaitsOk;
    hide Ring;
    hide OffOthers;
    hide Linked;
    Ready(heads, nodes, s, np, q);
    Attach(heads[np], nodes[np], heads[q], Tasks(nodes, s.tab[q].children), Others(heads, nodes, s, q));
    LinkedAgain(heads, nodes, s, s', np, q);
  }

  lemma Ready(heads: seq<ListHead>, nodes: seq<ListHead>, s: System, np: nat, q: nat)
    requires NodesOk(heads, nodes) && Inv(s) && np < PROC_MAX && !s.tab[np].used && q < PROC_MAX && s.tab[q].used
    requires Linked(heads, nodes, s)
    ensures List(heads[q], Tasks(nodes, s.tab[q].children)) && heads[np] != nodes[np]
    ensures heads[np] !in [heads[q]] + Tasks(nodes, s.tab[q].children)
    ensures nodes[np] !in [heads[q]] + Tasks(nodes, s.tab[q].children)
    ensures forall c | c in Others(heads, nodes, s, q) ::
              heads[np] !in c && nodes[np] !in c && heads[q] !in c && heads[q].next !in c
    ensures forall c | c in Others(heads, nodes, s, q) && c != [] :: Ring(c)
  {
    hide PidsOk;
    hide ForestOk;
    hide RingsOk;
    hide RunningOk;
    hide SweepOk;
    hide WaitsOk;
    hide Ring;
    hide OffOthers;
    hide Others;
    NextInside(heads[q], Tasks(nodes, s.tab[q].children));
    Fresh(heads, nodes, s, np, q);
    RingAway(heads, nodes, s, q, heads[q]);
    RingAway(heads, nodes, s, q, heads[q].next);
    OffAll(heads, nodes, s, q, heads[np]);
    OffAll(heads, nodes, s, q, nodes[np]);
    OffAll(heads, nodes, s, q, heads[q]);
    OffAll(heads, nodes, s, q, heads[q].next);
    OthersLinked(heads, nodes, s, q);
  }

  /** proc_alloc and proc_free on one slot: its lists are made and unlinked again, and no other ring sees it. */
  method Abandon(blank: ListHead, node: ListHead, ghost others: seq<seq<ListHead>>)
    requires blank != node && forall c | c in others :: blank !in c && node !in c
    requires forall c | c in others && c != [] :: Ring(c)
    modifies blank, node
    ensures forall c | c in others && c != [] :: Ring(c)
  {
    hide Ring;
    InitListHead(blank);
    InitListHead(node);
    Alone(blank);
    Alone(node);
    ListDel(blank, [blank], 0);
    ListDel(node, [node], 0);
    forall c | c in others && c != [] ensures Ring(c) {
      assert old(Ring(c));
    }
  }

  lemma Alone(node: ListHead)
    requires List(node, [])
    ensures Ring([node]) && node.next == node && node.prev == node
  {
    assert [node] + [] == [node];
    assert [node][0] == node;
  }

  /** An execve that cannot load its program: the slot is taken and given back. */
  method GraftAndFree(heads: seq<ListHead>, nodes: seq<ListHead>, np: nat, ghost s: System, ghost s': System)
    requires NodesOk(heads, nodes) && Inv(s) && Shaped(s') && np < PROC_MAX && !s.tab[np].used
    requires forall r | 0 <= r < PROC_MAX && s'.tab[r].used ::
               r != np && s.tab[r].used && s'.tab[r].children == s.tab[r].children
    requires Linked(heads, nodes, s)
    modifies heads[np], nodes[np]
    ensures Linked(heads, nodes, s')
  {
    hide PidsOk;
    hide ForestOk;
    hide RingsOk;
    hide RunningOk;
    hide SweepOk;
    hide WaitsOk;
    hide Ring;
    hide OffOthers;
    hide Linked;
    Fresh(heads, nodes, s, np, np);
    OffAll(heads, nodes, s, np, heads[np]);
    OffAll(heads, nodes, s, np, nodes[np]);
    OthersLinked(heads, nodes, s, np);
    Abandon(heads[np], nodes[np], Others(heads, nodes, s, np));
    AllLinked(heads, nodes, s, np);
    SameRings(heads, nodes, s, s');
  }

  lemma AllLinked(heads: seq<ListHead>, nodes: seq<ListHead>, s: System, np: nat)
    requires NodesOk(heads, nodes) && Shaped(s) && np < PROC_MAX && !s.tab[np].used
    requires forall c | c in Others(heads, nodes, s, np) && c != [] :: Ring(c)
    ensures Linked(heads, nodes, s)
  {
    hide Ring;
    forall r | 0 <= r < PROC_MAX && s.tab[r].used ensures List(heads[r], Tasks(nodes, s.tab[r].children)) {
      assert Others(heads, nodes, s, np)[r] == RingOf(heads, nodes, s, r);
    }
  }

  /** The same slots in use, with the same children. */
  ghost predicate KeepsRings(s: System, s': System) {
    && |s.tab| == |s'.tab| == PROC_MAX
    && forall r | 0 <= r < PROC_MAX :: s'.tab[r].used == s.tab[r].used && s'.tab[r].children == s.tab[r].children
  }

  lemma YieldKeeps(s: System)
    requires Shaped(s)
    ensures KeepsRings(s, Yield(s))
  {
  }

  lemma SlotKeeps(s: System, slot: nat)
    requires Shaped(s) && slot < PROC_MAX
    ensures KeepsRings(s, SlotStep(s, slot))
  {
    hide Yield;
    if s.tab[slot].state != Zombie {
      YieldKeeps(s.(tab := s.tab[s.cur := s.tab[s.cur].(wait := WaitSlot(slot))]));
    }
  }

  lemma ScanKeeps(s: System)
    requires Shaped(s)
    ensures KeepsRings(s, ScanStep(s))
  {
    hide Yield;
    hide FirstZombie;
    YieldKeeps(s.(tab := s.tab[s.cur := s.tab[s.cur].(wait := WaitAny)]));
  }

  lemma ExitKeeps(s: System, code: int)
    requires Shaped(s)
    ensures KeepsRings(s, ExitStep(s, code))
  {
    hide Yield;
    YieldKeeps(s.(tab := s.tab[s.cur := s.tab[s.cur].(exitCode := code, state := Zombie)]));
  }

  lemma VisitKeeps(s: System)
    requires Shaped(s) && s.mode.Sweep? && s.mode.i <= PROC_MAX
    ensures KeepsRings(s, VisitStep(s))
  {
  }

  /** An event that makes no process leaves every ring as it is. */
  lemma RingsStay(s: System, e: Event, s': System)
    requires Enabled(s, e) && !e.Fork? && !e.ExecOk? && !e.ExecFail? && s' == Step(s, e)
    ensures KeepsRings(s, s')
  {
    hide KeepsRings;
    hide Yield;
    hide SlotStep;
    hide ScanStep;
    hide ExitStep;
    hide VisitStep;
    match e
    case Visit => VisitKeeps(s);
    case Tick => YieldKeeps(s);
    case Exit(code) => ExitKeeps(s, code);
    case WaitAnyCall => ScanKeeps(s);
    case WaitPidCall(pid) =>
      PidKeeps(s, pid);
    case Resume =>
      match s.tab[s.cur].wait {
        case WaitAny => ScanKeeps(s);
        case WaitSlot(slot) => SlotKeeps(s, slot);
      }
  }

  lemma PidKeeps(s: System, pid: int)
    requires Shaped(s) && FindPid(s.tab, pid) < PROC_MAX
    ensures KeepsRings(s, WaitPidStep(s, pid))
  {
    hide SlotStep;
    SlotKeeps(s, FindPid(s.tab, pid));
  }

  /** The pointer side of any step of the machine: what is linked before is linked after. */
  method FollowStep(heads: seq<ListHead>, nodes: seq<ListHead>, s: System, e: Event, ghost s': System)
    requires NodesOk(heads, nodes) && Inv(s) && Enabled(s, e) && s' == Step(s, e) && Inv(s') && Linked(heads, nodes, s)
    modifies heads, nodes
    ensures Linked(heads, nodes, s')
  {
    hide PidsOk;
    hide ForestOk;
    hide RingsOk;
    hide RunningOk;
    hide SweepOk;
    hide WaitsOk;
    hide Ring;
    hide ForkStep;
    hide ExecStep;
    hide VisitStep;
    hide ScanStep;
    hide WaitPidStep;
    hide SlotStep;
    var np := FirstFree(s.tab);
    match e
    case Fork =>
      ForkGrafts(s);
      NextInHeads(heads, nodes, s, s.cur);
      Graft(heads, nodes, np, s.cur, s, s');
    case ExecOk =>
      ExecGrafts(s);
      NextInHeads(heads, nodes, s, s.tab[s.cur].parent);
      Graft(heads, nodes, np, s.tab[s.cur].parent, s, s');
    case ExecFail =>
      GraftAndFree(heads, nodes, np, s, s');
    case _ =>
      RingsStay(s, e, s');
      SameRings(heads, nodes, s, s');
  }

  lemma NextInHeads(heads: seq<ListHead>, nodes: seq<ListHead>, s: System, q: nat)
    requires NodesOk(heads, nodes) && Shaped(s) && Linked(heads, nodes, s) && q < PROC_MAX && s.tab[q].used
    ensures heads[q].next in heads + nodes
  {
    hide Ring;
    NextInside(heads[q], Tasks(nodes, s.tab[q].children));
  }

  /** proc_init and user_init: the kernel and the first program have no children yet. */
  method BootRings(heads: seq<ListHead>, nodes: seq<ListHead>, ghost s: System)
    requires NodesOk(heads, nodes) && Init(s)
    modifies heads, nodes
    ensures Linked(heads, nodes, s)
  {
    hide Ring;
    InitListHead(heads[0]);
    InitListHead(nodes[0]);
    InitListHead(heads[1]);
    InitListHead(nodes[1]);
    assert Tasks(nodes, []) == [];
  }

  /** A run of the machine from boot, event by event. */
  ghost predicate Follows(r: seq<System>, es: seq<Event>) {
    && |r| == |es| + 1 && Init(r[0])
    && forall n | 0 <= n < |es| :: Enabled(r[n], es[n]) && r[n + 1] == Step(r[n], es[n])
  }

  /** Over every run from boot the nodes stay linked as the machine says. */
  method FollowRun(heads: seq<ListHead>, nodes: seq<ListHead>, r: seq<System>, es: seq<Event>)
    requires NodesOk(heads, nodes) && Follows(r, es)
    modifies heads, nodes
    ensures Inv(r[|es|]) && Linked(heads, nodes, r[|es|])
  {
    hide Inv;
    hide Linked;
    hide Init;
    hide Enabled;
    hide Step;
    InitInv(r[0]);
    InvShaped(r[0]);
    BootRings(heads, nodes, r[0]);
    for n := 0 to |es|
      invariant Inv(r[n]) && Shaped(r[n]) && Linked(heads, nodes, r[n])
    {
      StepInv(r[n], es[n]);
      FollowStep(heads, nodes, r[n], es[n], r[n + 1]);
      InvShaped(r[n + 1]);
    }
  }

  lemma InvShaped(s: System)
    requires Inv(s)
    ensures Shaped(s)
  {
  }
}
