/** The processes and their pages together (core/proc.c:81-116, core/exec.c, core/syscall.c:155-187, core/user.c):
    the process machine and the kernel's memory take each step side by side. */
module ProcessMemory {
  import opened Bits
  import opened Wrappers
  import opened Mmu
  import opened PageTable
  import opened AddressSpace
  import opened Teardown
  import opened VirtualMemory
  import opened Fork
  import opened UserStack
  import opened Machine
  import opened Loader
  import opened Process
  import PT = ProcessTheorems
  import Slots

  /** What the scheduler or the current process does next: an event that makes no process, a store through the
      current process's addresses, a fork, or an execve of a file, if it can be opened. */
  datatype Request =
    | Simple(e: Event)
    | Store(dst: nat, src: seq<byte>)
    | Clone(trapframe: nat, helper: nat)
    | Execve(file: Option<Program>, argv: seq<seq<byte>>, envp: seq<seq<byte>>, helper: nat)

  /** Both sides at one time, and how many pages are free. */
  datatype Moment = Moment(s: System, mem: Memory, owner: Owners, spaces: Spaces, left: nat)

  /** The processes in use, and no others, have an address space. */
  ghost predicate Paired(s: System, spaces: Spaces) {
    |s.tab| == PROC_MAX && forall id: nat :: id in spaces <==> id < PROC_MAX && s.tab[id].used
  }

  ghost predicate Sound(a: Moment) {
    Inv(a.s) && Consistent(a.mem, a.owner, a.spaces) && Paired(a.s, a.spaces)
  }

  ghost function Now(k: Kernel, s: System): Moment
    reads k
  {
    Moment(s, k.mem, k.owner, k.spaces, |k.free|)
  }

  ghost predicate Together(k: Kernel, s: System)
    reads k
  {
    k.Valid() && Inv(s) && Paired(s, k.spaces)
  }

  predicate Strings(strings: seq<seq<byte>>) {
    forall k | 0 <= k < |strings| :: CString(strings[k])
  }

  /** Requests that can come now. A fork is one only when the parent's mappings can be copied. */
  predicate Possible(s: System, spaces: Spaces, q: Request) {
    && Shaped(s)
    && match q
       case Simple(e) => Enabled(s, e) && !e.Fork? && !e.ExecOk? && !e.ExecFail?
       case Store(_, _) => InUser(s)
       case Clone(_, _) => Enabled(s, Fork) && s.cur in spaces && AllPages(spaces[s.cur].maps, |spaces[s.cur].maps|)
       case Execve(file, argv, envp, helper) =>
         && Enabled(s, ExecOk) && Strings(argv) && Strings(envp) && helper < WORD_LIMIT
         && (file.Some? ==> file.value.entry < WORD_LIMIT)
  }

  /** exec gets past elf_loader: the file opens, its segments can be loaded, and its entry is not the -1 that
      stands for failure. */
  predicate Runs(file: Option<Program>) {
    file.Some? && Loadable(file.value.segments) && file.value.entry != WORD_LIMIT - 1
  }

  /** Process np is new: its pages, at least its root table, come from the free ones. Nothing else is written, and
      no page comes back. */
  ghost predicate Made(a: Moment, np: nat, b: Moment) {
    && OnlyOwn(np, a.mem, a.owner, b.mem, b.owner) && OthersKept(np, a.mem, a.spaces, b.mem)
    && np !in a.spaces && b.spaces.Keys == a.spaces.Keys + {np}
    && (forall q | q in a.spaces :: b.spaces[q].pgtbl == a.spaces[q].pgtbl)
    && b.spaces[np].pgtbl in a.owner && a.owner[b.spaces[np].pgtbl].Free?
    && b.spaces[np].pgtbl in b.owner && b.owner[b.spaces[np].pgtbl].Dir?
  }

  /** All pages but free ones are as they were. */
  ghost predicate GivenBack(a: Moment, b: Moment) {
    && b.owner == a.owner && b.spaces == a.spaces && b.mem.Keys == a.mem.Keys == a.owner.Keys
    && forall x | x in a.owner && !a.owner[x].Free? :: b.mem[x] == a.mem[x]
  }

  /** What a request does. */
  ghost predicate Effect(a: Moment, q: Request, b: Moment)
    requires Sound(a) && Possible(a.s, a.spaces, q)
  {
    var np := FirstFree(a.s.tab);
    match q
    case Simple(e) => b == a.(s := Step(a.s, e))
    case Store(dst, src) => b == a.(mem := b.mem) && Stored(a, dst, src, b)
    case Clone(trapframe, helper) =>
      && b.s == Step(a.s, Fork) && Made(a, np, b)
      && a.s.cur in b.spaces
      && ForkedImage(b.mem, b.spaces[a.s.cur].pgtbl, b.spaces[np].pgtbl, trapframe, STACK_TOP - CONTEXT_SIZE)
    case Execve(file, argv, envp, helper) =>
      if Runs(file) then
        && b.s == Step(a.s, ExecOk) && Made(a, np, b)
        && exists st :: StackIs(b.mem, b.spaces[np].pgtbl, st) && Registers(st, |argv|, file.value.entry, helper)
                        && (Fits(argv, envp) ==> StackImage(st, argv, envp, file.value.entry, helper))
      else
        b.s == Step(a.s, ExecFail) && GivenBack(a, b)
  }

  ghost predicate Stored(a: Moment, dst: nat, src: seq<byte>, b: Moment) {
    && a.s.cur in a.spaces
    && exists n :: Written(a.spaces, a.s.cur, a.owner, dst, src, n, a.mem, b.mem)
                   && (n == |src| || VByte(b.mem, a.spaces[a.s.cur].pgtbl, dst + n) == None)
  }

  /** What a panic can be for: too few free pages, a segment that fails its assertion, too many strings. */
  ghost predicate MayPanic(a: Moment, q: Request)
    requires Possible(a.s, a.spaces, q)
  {
    match q
    case Simple(_) => false
    case Store(_, _) => false
    case Clone(_, _) => a.left < 1 + CopyCost(a.spaces[a.s.cur].maps)
    case Execve(file, argv, envp, _) =>
      || a.left == 0
      || (file.Some? && (!SegmentsOk(file.value.segments) || a.left < 1 + LoadCost(file.value.segments) + 3 * (STACK_SIZE / PGSIZE)))
      || |argv| > ARGS_MAX || |envp| > ENVS_MAX
  }

  // One request.

  lemma RootIsOwn(id: nat, mem: Memory, owner: Owners, spaces: Spaces, n: nat)
    requires Consistent(mem, owner, spaces) && n in owner && n in mem && owner[n].Free?
    ensures OnlyOwn(id, mem, owner, mem[n := ZeroTable()], owner[n := Dir(id, 2, 0, 0)])
  {
    hide SpaceOk;
  }

  /** A process the kernel does not have has no pages. */
  lemma NoPages(mem: Memory, owner: Owners, spaces: Spaces, id: nat)
    requires Consistent(mem, owner, spaces) && id !in spaces
    ensures forall x | x in owner :: owner[x] != Held(id) && !(owner[x].Dir? && owner[x].id == id)
  {
    hide SpaceOk;
    forall x | x in owner && owner[x].Dir? ensures owner[x].id != id {
      assert DirOk(mem, owner, spaces, x);
    }
  }

  /** What the unfinished process took is free again, and nothing else is different. */
  lemma TakenAndReleased(np: nat, m0: Memory, o0: Owners, s0: Spaces, m1: Memory, o1: Owners, m2: Memory, o2: Owners)
    requires Consistent(m0, o0, s0) && np !in s0 && OnlyOwn(np, m0, o0, m1, o1)
    requires Released(OwnedBy(o1, np), m1, o1, m2, o2)
    ensures o2 == o0 && m2.Keys == m0.Keys == o0.Keys && forall x | x in o0 && !o0[x].Free? :: m2[x] == m0[x]
  {
    hide Consistent;
    NoPages(m0, o0, s0, np);
    forall x | x in o0 ensures o2[x] == o0[x] {
    }
  }

  lemma PairedMore(s: System, spaces: Spaces, s': System, spaces': Spaces, np: nat)
    requires Paired(s, spaces) && |s'.tab| == PROC_MAX && np < PROC_MAX && spaces'.Keys == spaces.Keys + {np}
    requires forall k | 0 <= k < PROC_MAX :: s'.tab[k].used <==> s.tab[k].used || k == np
    ensures Paired(s', spaces')
  {
  }

  lemma PairedSame(s: System, spaces: Spaces, s': System)
    requires Paired(s, spaces) && |s'.tab| == PROC_MAX
    requires forall k | 0 <= k < PROC_MAX :: s'.tab[k].used <==> s.tab[k].used
    ensures Paired(s', spaces)
  {
  }

  lemma TogetherMeans(k: Kernel, s: System)
    requires Together(k, s)
    ensures Shaped(s) && |s.tab| == PROC_MAX && s.cur < PROC_MAX && Sound(Now(k, s)) && k.Valid() && Inv(s) && Paired(s, k.spaces)
    ensures s.mode.User? ==> 1 <= s.cur && s.tab[s.cur].used && s.cur in k.spaces
    ensures FirstFree(s.tab) < PROC_MAX ==> FirstFree(s.tab) !in k.spaces
  {
    hide PidsOk;
    hide ForestOk;
    hide RingsOk;
    hide SweepOk;
    hide WaitsOk;
    hide TablesOk;
    hide SpaceOk;
    hide FreeOk;
  }

  /** Slot use, as far as the address spaces go. */
  lemma StepPairs(s: System, e: Event, spaces: Spaces, spaces': Spaces)
    requires Inv(s) && Enabled(s, e) && Paired(s, spaces)
    requires spaces'.Keys == if Slots.Born(e) then spaces.Keys + {FirstFree(s.tab)} else spaces.Keys
    ensures Inv(Step(s, e)) && Paired(Step(s, e), spaces')
  {
    hide Inv;
    hide Step;
    hide Enabled;
    StepInv(s, e);
    Slots.SlotUse(s, e);
    PT.InvShape(s);
    if Slots.Born(e) {
      FreeSlot(s, e);
      PairedMore(s, spaces, Step(s, e), spaces', FirstFree(s.tab));
    } else {
      PairedSame(s, spaces, Step(s, e));
      PairedKeys(Step(s, e), spaces, spaces');
    }
  }

  lemma FreeSlot(s: System, e: Event)
    requires Enabled(s, e) && Slots.Born(e)
    ensures |s.tab| == PROC_MAX && FirstFree(s.tab) < PROC_MAX
  {
  }

  lemma PairedKeys(s: System, a: Spaces, b: Spaces)
    requires Paired(s, a) && b.Keys == a.Keys
    ensures Paired(s, b)
  {
  }

  /** A new process, once CreateSpace and what comes after are put together. */
  lemma MadeOf(a: Moment, np: nat, root: nat, b1: Moment, b: Moment)
    requires Consistent(a.mem, a.owner, a.spaces) && np !in a.spaces
    requires root in a.mem && root in a.owner && a.owner[root].Free?
    requires b1.mem == a.mem[root := ZeroTable()] && b1.owner == a.owner[root := Dir(np, 2, 0, 0)]
    requires b1.spaces == a.spaces[np := Space(root, [])]
    requires OnlyOwn(np, b1.mem, b1.owner, b.mem, b.owner) && b.spaces.Keys == b1.spaces.Keys
    requires forall q | q in b1.spaces :: b.spaces[q].pgtbl == b1.spaces[q].pgtbl
    ensures Made(a, np, b)
  {
    hide Consistent;
    hide OthersKept;
    RootIsOwn(np, a.mem, a.owner, a.spaces, root);
    OwnThenOwn(np, a.mem, a.owner, b1.mem, b1.owner, b.mem, b.owner);
    AllOthersSee(np, a.mem, a.owner, a.spaces, b.mem, b.owner);
    assert b.owner[root] == b1.owner[root];
  }

  /** fork, on both sides. */
  method ServeClone(k: Kernel, s: System, trapframe: nat, helper: nat) returns (r: Outcome<System>)
    requires Together(k, s) && Possible(s, k.spaces, Clone(trapframe, helper))
    modifies k
    ensures r.Panic? ==> MayPanic(old(Now(k, s)), Clone(trapframe, helper))
    ensures r.Done? ==> Together(k, r.value) && Effect(old(Now(k, s)), Clone(trapframe, helper), Now(k, r.value))
  {
    hide Inv;
    hide FreeOk;
    hide Consistent;
    hide Paired;
    hide AllPages;
    hide Made;
    hide OnlyOwn;
    hide OthersKept;
    hide ForkedImage;
    hide ForkWords;
    hide ForkStep;
    hide CopyCost;
    TogetherMeans(k, s);
    ghost var a := Now(k, s);
    var np := FirstFree(s.tab);
    var _ :- k.CreateSpace(np);
    ghost var b1 := Now(k, s);
    PagesMean(k.spaces[s.cur].maps);
    var _ :- k.ForkImage(s.cur, np, trapframe, helper);
    ForkedRoots(b1.spaces, s.cur, np, k.spaces);
    MadeOf(a, np, b1.spaces[np].pgtbl, b1, Now(k, s));
    MadeOf(a, np, b1.spaces[np].pgtbl, b1, Now(k, ForkStep(s)));
    StepPairs(s, Fork, a.spaces, k.spaces);
    r := Done(ForkStep(s));
  }

  lemma ForkedRoots(s0: Spaces, p: nat, np: nat, s1: Spaces)
    requires ForkedSpaces(s0, p, np, s1)
    ensures s1.Keys == s0.Keys && forall q | q in s0 :: s1[q].pgtbl == s0[q].pgtbl
  {
  }

  lemma PagesMean(maps: seq<Mapping>)
    requires AllPages(maps, |maps|)
    ensures forall k | 0 <= k < |maps| :: PageMapping(maps[k])
  {
  }

  /** exec, on the memory side, up to where it fails: whether it got past elf_loader. */
  method Image(k: Kernel, np: nat, file: Option<Program>, argv: seq<seq<byte>>, envp: seq<seq<byte>>, helper: nat)
    returns (r: Outcome<bool>, ghost st: seq<byte>)
    requires k.Valid() && np in k.spaces && Strings(argv) && Strings(envp) && helper < WORD_LIMIT
    requires file.Some? ==> file.value.entry < WORD_LIMIT
    modifies k
    ensures r.Panic? ==>
              && file.Some?
              && (!SegmentsOk(file.value.segments) || |argv| > ARGS_MAX || |envp| > ENVS_MAX
                  || |old(k.free)| < LoadCost(file.value.segments) + 3 * (STACK_SIZE / PGSIZE))
    ensures r.Done? ==>
              && k.Valid() && Extends(np, old(k.mem), old(k.owner), old(k.spaces), k.mem, k.owner, k.spaces)
              && (r.value <==> Runs(file))
    ensures r.Done? && r.value ==>
              && np in k.spaces && StackIs(k.mem, k.spaces[np].pgtbl, st) && Registers(st, |argv|, file.value.entry, helper)
              && (Fits(argv, envp) ==> StackImage(st, argv, envp, file.value.entry, helper))
  {
    hide FreeOk;
    hide Consistent;
    hide Extends;
    hide OnlyOwn;
    hide OthersKept;
    hide AllPages;
    hide Tidy;
    hide StackIs;
    hide Registers;
    hide StackImage;
    hide Fits;
    hide ContextAlias;
    hide SegmentOk;
    hide LoadCost;
    st := [];
    ghost var m0, o0, s0 := k.mem, k.owner, k.spaces;
    ExtendsNot(np, m0, o0, s0);
    if file.None? { return Done(false), st; }
    var loaded :- LoadProgram(k, np, file.value.segments);
    if !loaded || file.value.entry == WORD_LIMIT - 1 { return Done(false), st; }
    ghost var m1, o1, s1 := k.mem, k.owner, k.spaces;
    ExtendsMeans(np, m0, o0, s0, m1, o1, s1);
    var done, stack := k.Exec(np, argv, envp, file.value.entry, helper);
    if done.Panic? { return Panic, st; }
    ExecExtends(np, m1, o1, s1, k.mem, k.owner, k.spaces);
    ExtendsThen(np, m0, o0, s0, m1, o1, s1, k.mem, k.owner, k.spaces);
    st := stack;
    r := Done(true);
  }

  lemma ExecExtends(id: nat, m0: Memory, o0: Owners, s0: Spaces, m1: Memory, o1: Owners, s1: Spaces)
    requires OnlyOwn(id, m0, o0, m1, o1) && id in s0 && id in s1 && s1 == s0[id := s1[id]] && s1[id].pgtbl == s0[id].pgtbl
    ensures Extends(id, m0, o0, s0, m1, o1, s1)
  {
  }

  lemma ExtendsRoots(id: nat, m0: Memory, o0: Owners, s0: Spaces, m1: Memory, o1: Owners, s1: Spaces)
    requires Extends(id, m0, o0, s0, m1, o1, s1)
    ensures OnlyOwn(id, m0, o0, m1, o1) && id in s1 && s1.Keys == s0.Keys && s1 - {id} == s0 - {id}
    ensures forall q | q in s0 :: s1[q].pgtbl == s0[q].pgtbl
  {
    hide OnlyOwn;
  }

  /** execve, on both sides: whichever way it ends. */
  method ServeExecve(k: Kernel, s: System, file: Option<Program>, argv: seq<seq<byte>>, envp: seq<seq<byte>>, helper: nat)
    returns (r: Outcome<System>)
    requires Together(k, s) && Possible(s, k.spaces, Execve(file, argv, envp, helper))
    modifies k
    ensures r.Panic? ==> MayPanic(old(Now(k, s)), Execve(file, argv, envp, helper))
    ensures r.Done? ==> Together(k, r.value) && Effect(old(Now(k, s)), Execve(file, argv, envp, helper), Now(k, r.value))
  {
    hide Inv;
    hide FreeOk;
    hide Consistent;
    hide Paired;
    hide Made;
    hide OnlyOwn;
    hide OthersKept;
    hide Extends;
    hide Released;
    hide OwnedBy;
    hide Strings;
    hide Runs;
    hide StackIs;
    hide Registers;
    hide StackImage;
    hide Fits;
    hide SegmentsOk;
    hide LoadCost;
    hide ExecStep;
    hide ExecFailStep;
    TogetherMeans(k, s);
    ghost var a := Now(k, s);
    var np := FirstFree(s.tab);
    var _ :- k.CreateSpace(np);
    ghost var b1 := Now(k, s);
    var image, st := Image(k, np, file, argv, envp, helper);
    if image.Panic? { return Panic; }
    ExtendsRoots(np, b1.mem, b1.owner, b1.spaces, k.mem, k.owner, k.spaces);
    if image.value {
      MadeOf(a, np, b1.spaces[np].pgtbl, b1, Now(k, ExecStep(s)));
      StepPairs(s, ExecOk, a.spaces, k.spaces);
      r := Done(ExecStep(s));
    } else {
      ghost var m1, o1 := k.mem, k.owner;
      MadeOf(a, np, b1.spaces[np].pgtbl, b1, Now(k, s));
      MadeOwn(a, np, Now(k, s));
      k.PgtblFree(np);
      TakenAndReleased(np, a.mem, a.owner, a.spaces, m1, o1, k.mem, k.owner);
      assert k.spaces == a.spaces;
      ExecCanFail(s);
      StepPairs(s, ExecFail, a.spaces, k.spaces);
      r := Done(ExecFailStep(s));
    }
  }

  lemma MadeOwn(a: Moment, np: nat, b: Moment)
    requires Made(a, np, b)
    ensures OnlyOwn(np, a.mem, a.owner, b.mem, b.owner) && np !in a.spaces
  {
  }

  lemma ExecCanFail(s: System)
    requires Enabled(s, ExecOk)
    ensures Enabled(s, ExecFail)
  {
  }

  /** Any request. A panic, for one of the reasons named, stops the machine. */
  method Serve(k: Kernel, s: System, q: Request) returns (r: Outcome<System>)
    requires Together(k, s) && Possible(s, k.spaces, q)
    modifies k
    ensures r.Panic? ==> MayPanic(old(Now(k, s)), q)
    ensures r.Done? ==> Together(k, r.value) && Effect(old(Now(k, s)), q, Now(k, r.value))
  {
    hide Inv;
    hide FreeOk;
    hide Consistent;
    hide Paired;
    hide Step;
    hide Enabled;
    hide Made;
    hide GivenBack;
    hide Runs;
    hide CopyCost;
    hide LoadCost;
    hide AllPages;
    TogetherMeans(k, s);
    ghost var a := Now(k, s);
    match q {
      case Simple(e) =>
        StepPairs(s, e, a.spaces, k.spaces);
        r := Done(Step(s, e));
      case Store(dst, src) =>
        UserShape(s);
        var c, n := k.CopyToVa(k.spaces[s.cur].pgtbl, dst, src, s.cur);
        r := Done(s);
        assert Stored(a, dst, src, Now(k, s));
      case Clone(trapframe, helper) =>
        r := ServeClone(k, s, trapframe, helper);
      case Execve(file, argv, envp, helper) =>
        r := ServeExecve(k, s, file, argv, envp, helper);
    }
  }

  lemma UserShape(s: System)
    requires Shaped(s) && InUser(s)
    ensures s.mode.User?
  {
  }

  // Runs.

  /** A request that cannot come is skipped. */
  ghost predicate Turn(a: Moment, q: Request, b: Moment)
    requires Sound(a)
  {
    if Possible(a.s, a.spaces, q) then Effect(a, q, b) else b == a
  }

  ghost predicate AllSound(h: seq<Moment>) {
    forall i | 0 <= i < |h| :: Sound(h[i])
  }

  ghost predicate Past(h: seq<Moment>, script: seq<Request>) {
    && |h| == |script| + 1 && AllSound(h)
    && forall i, j | 0 <= i < |script| && j == i + 1 :: Turn(h[i], script[i], h[j])
  }

  lemma PastMore(h: seq<Moment>, script: seq<Request>, q: Request, b: Moment)
    requires Past(h, script) && Sound(b) && Turn(h[|script|], q, b)
    ensures Past(h + [b], script + [q])
  {
    hide Turn;
    hide Sound;
    var g, qs := h + [b], script + [q];
    forall i | 0 <= i < |g| ensures Sound(g[i]) {
      if i < |h| { assert g[i] == h[i]; }
    }
    forall i, j | 0 <= i < |qs| && j == i + 1 ensures Turn(g[i], qs[i], g[j]) {
      if i < |script| { assert g[i] == h[i] && g[j] == h[j] && qs[i] == script[i]; }
    }
  }

  lemma PastNone(a: Moment)
    requires Sound(a)
    ensures Past([a], [])
  {
    hide Sound;
  }

  /** Any list of requests. Each that can come has its effect on both sides, and at every moment both are in
      order and belong together. */
  method Run(k: Kernel, s: System, script: seq<Request>) returns (r: Outcome<System>, ghost h: seq<Moment>)
    requires Together(k, s)
    modifies k
    ensures 0 < |h| <= |script| + 1 && Past(h, script[..|h| - 1]) && h[0] == old(Now(k, s))
    ensures r.Panic? ==>
              && |h| <= |script| && Possible(h[|h| - 1].s, h[|h| - 1].spaces, script[|h| - 1])
              && MayPanic(h[|h| - 1], script[|h| - 1])
    ensures r.Done? ==> Together(k, r.value) && |h| == |script| + 1 && h[|script|] == Now(k, r.value)
  {
    hide Sound;
    hide Together;
    hide Turn;
    hide Past;
    hide MayPanic;
    hide Possible;
    var now := s;
    h := [Now(k, s)];
    TogetherIsSound(k, s);
    PastNone(Now(k, s));
    assert script[..0] == [];
    var i := 0;
    while i < |script|
      invariant 0 <= i <= |script| && |h| == i + 1
      invariant Together(k, now) && Sound(Now(k, now)) && h[i] == Now(k, now)
      invariant Past(h, script[..i]) && h[0] == old(Now(k, s))
    {
      if Possible(now, k.spaces, script[i]) {
        var done := Serve(k, now, script[i]);
        if done.Panic? { return Panic, h; }
        now := done.value;
        TogetherIsSound(k, now);
        DidTurn(h[i], script[i], Now(k, now));
      } else {
        SkippedTurn(h[i], script[i]);
      }
      PastMore(h, script[..i], script[i], Now(k, now));
      assert script[..i + 1] == script[..i] + [script[i]];
      h := h + [Now(k, now)];
      i := i + 1;
    }
    assert script[..i] == script;
    r := Done(now);
  }

  lemma TogetherIsSound(k: Kernel, s: System)
    requires Together(k, s)
    ensures Sound(Now(k, s))
  {
    hide Inv;
    hide Paired;
    hide Consistent;
    hide FreeOk;
  }

  lemma DidTurn(a: Moment, q: Request, b: Moment)
    requires Sound(a) && Possible(a.s, a.spaces, q) && Effect(a, q, b)
    ensures Turn(a, q, b)
  {
  }

  lemma SkippedTurn(a: Moment, q: Request)
    requires Sound(a) && !Possible(a.s, a.spaces, q)
    ensures Turn(a, q, a)
  {
  }

  /** The request makes a process. */
  predicate Makes(s: System, spaces: Spaces, q: Request) {
    Possible(s, spaces, q) && (q.Clone? || (q.Execve? && Runs(q.file)))
  }

  /** The request stores through the addresses of process id. */
  predicate StoresFor(s: System, q: Request, id: nat) {
    q.Store? && s.cur == id
  }

  /** What every request keeps: no page changes hands but from the free list to a new process, every process keeps
      its root. */
  ghost predicate Keeps(a: Moment, q: Request, b: Moment) {
    && a.owner.Keys == b.owner.Keys
    && (forall x | x in a.owner && !a.owner[x].Free? :: b.owner[x] == a.owner[x])
    && (forall id | id in a.spaces :: id in b.spaces && b.spaces[id].pgtbl == a.spaces[id].pgtbl)
    && (forall id, x | id in a.spaces && x in a.owner && a.owner[x].Free? ::
          b.owner[x] != Held(id) && !(b.owner[x].Dir? && b.owner[x].id == id))
    && (if Makes(a.s, a.spaces, q) then exists x :: x in a.owner && a.owner[x].Free? && !b.owner[x].Free? else b.owner == a.owner)
  }

  lemma MadeKeeps(a: Moment, np: nat, q: Request, b: Moment)
    requires Made(a, np, b) && Makes(a.s, a.spaces, q)
    ensures Keeps(a, q, b)
  {
    hide OthersKept;
    hide Makes;
    assert a.owner[b.spaces[np].pgtbl].Free? && !b.owner[b.spaces[np].pgtbl].Free?;
  }

  lemma TurnKeeps(a: Moment, q: Request, b: Moment)
    requires Sound(a) && Turn(a, q, b)
    ensures Keeps(a, q, b)
  {
    hide Inv;
    hide Consistent;
    hide Paired;
    hide Made;
    hide Runs;
    hide ForkedImage;
    hide StackIs;
    hide Registers;
    hide StackImage;
    hide Step;
    hide Enabled;
    hide AllPages;
    hide Stored;
    hide InUser;
    if Makes(a.s, a.spaces, q) {
      MadeKeeps(a, FirstFree(a.s.tab), q, b);
    }
  }

  /** Nor do the bytes of a process change but by its own stores, or, while it is made, by its maker. */
  lemma TurnBytes(a: Moment, q: Request, b: Moment, id: nat)
    requires Sound(a) && Turn(a, q, b) && id in a.spaces && !StoresFor(a.s, q, id)
    ensures id in b.spaces && forall v: nat :: VByte(b.mem, b.spaces[id].pgtbl, v) == VByte(a.mem, a.spaces[id].pgtbl, v)
  {
    hide Inv;
    hide Consistent;
    hide Paired;
    hide Made;
    hide GivenBack;
    hide Runs;
    hide ForkedImage;
    hide StackIs;
    hide Registers;
    hide StackImage;
    hide Step;
    hide Enabled;
    hide AllPages;
    hide Stored;
    hide InUser;
    hide VByte;
    var np := FirstFree(a.s.tab);
    if Makes(a.s, a.spaces, q) {
      MadeBytes(a, np, b, id);
    } else if Possible(a.s, a.spaces, q) && q.Execve? {
      GivenBackBytes(a, b, id);
    } else if Possible(a.s, a.spaces, q) && q.Store? {
      StoredBytes(a, q.dst, q.src, b, id);
    }
  }

  lemma MadeBytes(a: Moment, np: nat, b: Moment, id: nat)
    requires Made(a, np, b) && id in a.spaces
    ensures id in b.spaces && forall v: nat :: VByte(b.mem, b.spaces[id].pgtbl, v) == VByte(a.mem, a.spaces[id].pgtbl, v)
  {
    hide OnlyOwn;
    hide VByte;
  }

  lemma GivenBackBytes(a: Moment, b: Moment, id: nat)
    requires Consistent(a.mem, a.owner, a.spaces) && GivenBack(a, b) && id in a.spaces
    ensures id in b.spaces && forall v: nat :: VByte(b.mem, b.spaces[id].pgtbl, v) == VByte(a.mem, a.spaces[id].pgtbl, v)
  {
    hide Consistent;
    hide VByte;
    OthersSee(a.mem, a.owner, a.spaces, id, id + 1, b.mem, b.owner);
  }

  lemma StoredBytes(a: Moment, dst: nat, src: seq<byte>, b: Moment, id: nat)
    requires Stored(a, dst, src, b) && b == a.(mem := b.mem) && id in a.spaces && id != a.s.cur
    ensures forall v: nat :: VByte(b.mem, b.spaces[id].pgtbl, v) == VByte(a.mem, a.spaces[id].pgtbl, v)
  {
    hide VByte;
    hide OnlyFramesOf;
  }

  lemma TurnIn(h: seq<Moment>, script: seq<Request>, n: nat)
    requires Past(h, script) && n < |script|
    ensures Sound(h[n]) && Turn(h[n], script[n], h[n + 1])
  {
    hide Sound;
    hide Turn;
  }

  /** Whoever has a page keeps it: over a whole run no page comes back, and no process loses its root. */
  lemma {:induction false} PagesNeverBack(h: seq<Moment>, script: seq<Request>, n: nat, m: nat)
    requires Past(h, script) && n <= m < |h|
    ensures h[m].owner.Keys == h[n].owner.Keys
    ensures forall x | x in h[n].owner && !h[n].owner[x].Free? :: h[m].owner[x] == h[n].owner[x]
    ensures forall id | id in h[n].spaces :: id in h[m].spaces && h[m].spaces[id].pgtbl == h[n].spaces[id].pgtbl
    decreases m
  {
    hide Turn;
    hide Sound;
    hide Past;
    PastLength(h, script);
    if n < m {
      PagesNeverBack(h, script, n, m - 1);
      TurnIn(h, script, m - 1);
      TurnKeeps(h[m - 1], script[m - 1], h[m]);
    }
  }

  lemma PastLength(h: seq<Moment>, script: seq<Request>)
    requires Past(h, script)
    ensures |h| == |script| + 1
  {
    hide Turn;
    hide Sound;
  }

  /** A process has the same pages from the request that made it on, to the end of the run, alive or dead. */
  lemma {:induction false} PagesFixed(h: seq<Moment>, script: seq<Request>, n: nat, m: nat, id: nat)
    requires Past(h, script) && n <= m < |h| && id in h[n].spaces
    ensures id in h[m].spaces && OwnedBy(h[m].owner, id) == OwnedBy(h[n].owner, id)
    decreases m
  {
    hide Turn;
    hide Sound;
    hide Past;
    PastLength(h, script);
    if n < m {
      PagesFixed(h, script, n, m - 1, id);
      TurnIn(h, script, m - 1);
      TurnKeeps(h[m - 1], script[m - 1], h[m]);
      OwnedSame(h[m - 1], script[m - 1], h[m], id);
    }
  }

  lemma OwnedSame(a: Moment, q: Request, b: Moment, id: nat)
    requires Keeps(a, q, b) && id in a.spaces
    ensures OwnedBy(b.owner, id) == OwnedBy(a.owner, id)
  {
    forall x ensures x in OwnedBy(b.owner, id) <==> x in OwnedBy(a.owner, id) {
    }
  }

  /** Between two moments the free pages are the same exactly when no request in between made a process. */
  lemma {:induction false} FreePagesExactly(h: seq<Moment>, script: seq<Request>, n: nat, m: nat)
    requires Past(h, script) && n <= m < |h|
    ensures (forall x | x in h[n].owner && h[n].owner[x].Free? :: x in h[m].owner && h[m].owner[x].Free?) <==>
              forall i | n <= i < m :: !Makes(h[i].s, h[i].spaces, script[i])
    decreases m
  {
    hide Turn;
    hide Sound;
    hide Past;
    hide Makes;
    PastLength(h, script);
    if n < m {
      FreePagesExactly(h, script, n, m - 1);
      PagesNeverBack(h, script, n, m - 1);
      PagesNeverBack(h, script, m - 1, m);
      TurnIn(h, script, m - 1);
      TurnKeeps(h[m - 1], script[m - 1], h[m]);
      if Makes(h[m - 1].s, h[m - 1].spaces, script[m - 1]) {
        var x :| x in h[m - 1].owner && h[m - 1].owner[x].Free? && !h[m].owner[x].Free?;
        assert h[n].owner[x].Free?;
      }
    }
  }

  /** What a process sees changes only by its own stores. */
  lemma {:induction false} BytesKept(h: seq<Moment>, script: seq<Request>, n: nat, m: nat, id: nat, v: nat)
    requires Past(h, script) && n <= m < |h| && id in h[n].spaces
    requires forall i | n <= i < m :: !StoresFor(h[i].s, script[i], id)
    ensures id in h[m].spaces && VByte(h[m].mem, h[m].spaces[id].pgtbl, v) == VByte(h[n].mem, h[n].spaces[id].pgtbl, v)
    decreases m
  {
    hide Turn;
    hide Sound;
    hide Past;
    hide StoresFor;
    hide VByte;
    PastLength(h, script);
    if n < m {
      BytesKept(h, script, n, m - 1, id, v);
      TurnIn(h, script, m - 1);
      TurnBytes(h[m - 1], script[m - 1], h[m], id);
    }
  }

  /** The process side of a run is a run of the process machine, so what is proved of its reachable states holds at
      every moment. */
  lemma {:induction false} MomentsReachable(h: seq<Moment>, script: seq<Request>, n: nat)
    requires Past(h, script) && n < |h| && PT.Reachable(h[0].s)
    ensures PT.Reachable(h[n].s)
    decreases n
  {
    hide Turn;
    hide Sound;
    hide Past;
    hide PT.Reachable;
    PastLength(h, script);
    if n > 0 {
      MomentsReachable(h, script, n - 1);
      TurnIn(h, script, n - 1);
      TurnSteps(h[n - 1], script[n - 1], h[n]);
      if h[n].s != h[n - 1].s { PT.ReachableNext(h[n - 1].s, h[n].s); }
    }
  }

  lemma TurnSteps(a: Moment, q: Request, b: Moment)
    requires Sound(a) && Turn(a, q, b)
    ensures b.s == a.s || Next(a.s, b.s)
  {
    hide Inv;
    hide Consistent;
    hide Paired;
    hide Made;
    hide GivenBack;
    hide Runs;
    hide ForkedImage;
    hide StackIs;
    hide Registers;
    hide StackImage;
    hide Step;
    hide AllPages;
    hide Stored;
    hide InUser;
    if Possible(a.s, a.spaces, q) {
      match q
      case Simple(e) => assert Enabled(a.s, e);
      case Store(_, _) =>
      case Clone(_, _) => assert Enabled(a.s, Fork);
      case Execve(file, _, _, _) => assert Enabled(a.s, if Runs(file) then ExecOk else ExecFail);
    }
  }

  lemma DeadTurn(a: Moment, q: Request, b: Moment, j: nat)
    requires Sound(a) && Turn(a, q, b) && PT.Dead(a.s, j)
    ensures PT.Dead(b.s, j)
  {
    hide Inv;
    hide Consistent;
    hide Paired;
    hide Made;
    hide GivenBack;
    hide Runs;
    hide ForkedImage;
    hide StackIs;
    hide Registers;
    hide StackImage;
    hide Step;
    hide AllPages;
    hide Stored;
    hide InUser;
    hide PT.Dead;
    if Possible(a.s, a.spaces, q) {
      match q
      case Simple(e) => PT.DeadStep(a.s, e, j);
      case Store(_, _) =>
      case Clone(_, _) => PT.DeadStep(a.s, Fork, j);
      case Execve(file, _, _, _) =>
        PT.DeadStep(a.s, ExecOk, j);
        PT.DeadStep(a.s, ExecFail, j);
    }
  }

  lemma DeadHasSpace(a: Moment, j: nat)
    requires Sound(a) && PT.Dead(a.s, j)
    ensures j in a.spaces && a.spaces[j].pgtbl in OwnedBy(a.owner, j)
  {
    hide Inv;
    hide SpaceOk;
  }

  /** A dead process, reaped or replaced, keeps all its pages to the end of every run, and it has at least one. */
  lemma {:induction false} DeadKeepsPages(h: seq<Moment>, script: seq<Request>, n: nat, m: nat, j: nat)
    requires Past(h, script) && n <= m < |h| && PT.Dead(h[n].s, j)
    ensures PT.Dead(h[m].s, j) && OwnedBy(h[m].owner, j) == OwnedBy(h[n].owner, j) && OwnedBy(h[n].owner, j) != {}
    decreases m
  {
    hide Turn;
    hide Sound;
    hide Past;
    hide PT.Dead;
    PastLength(h, script);
    if n < m {
      DeadKeepsPages(h, script, n, m - 1, j);
      TurnIn(h, script, m - 1);
      DeadTurn(h[m - 1], script[m - 1], h[m], j);
    }
    SoundAt(h, script, n);
    DeadHasSpace(h[n], j);
    PagesFixed(h, script, n, m, j);
  }

  lemma SoundAt(h: seq<Moment>, script: seq<Request>, n: nat)
    requires Past(h, script) && n < |h|
    ensures Sound(h[n])
  {
    hide Sound;
    hide Turn;
  }

  // Booting.

  /** The pages, the kernel's own slot, and the first program. A program that cannot be run is a panic. */
  method Start(start: nat, end: nat, file: Option<Program>, argv: seq<seq<byte>>, envp: seq<seq<byte>>, helper: nat)
    returns (r: Outcome<System>, k: Kernel)
    requires forall x | x in WholePages(start, end) :: KernelPage(x)
    requires Strings(argv) && Strings(envp) && helper < WORD_LIMIT && (file.Some? ==> file.value.entry < WORD_LIMIT)
    ensures fresh(k)
    ensures r.Done? ==> Init(r.value) && Together(k, r.value)
    ensures r.Panic? ==>
              || !Runs(file) || !SegmentsOk(file.value.segments) || |argv| > ARGS_MAX || |envp| > ENVS_MAX
              || |WholePages(start, end)| < 2 + LoadCost(file.value.segments) + 3 * (STACK_SIZE / PGSIZE)
  {
    hide Inv;
    hide FreeOk;
    hide Consistent;
    hide Paired;
    hide Extends;
    hide Runs;
    hide StackIs;
    hide Registers;
    hide StackImage;
    hide Fits;
    hide SegmentsOk;
    hide LoadCost;
    hide WholePages;
    k := Boot(start, end);
    var zero := k.CreateSpace(0);
    if zero.Panic? { return Panic, k; }
    var one := k.CreateSpace(1);
    if one.Panic? { return Panic, k; }
    ghost var m1, o1, s1 := k.mem, k.owner, k.spaces;
    var image, st := Image(k, 1, file, argv, envp, helper);
    if image.Panic? || !image.value { return Panic, k; }
    ExtendsRoots(1, m1, o1, s1, k.mem, k.owner, k.spaces);
    BootPairs(k.spaces);
    r := Done(PT.Booted());
  }

  lemma BootPairs(spaces: Spaces)
    requires spaces.Keys == {0, 1}
    ensures Init(PT.Booted()) && Inv(PT.Booted()) && Paired(PT.Booted(), spaces)
  {
    InitInv(PT.Booted());
  }
}
