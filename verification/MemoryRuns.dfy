/** Runs of memory operations: any number of processes created, grown, forked, written and torn down
    in any order, with the kernel taking and returning pages of its own in between. */
module MemoryRuns {
  import opened Bits
  import opened Sequences
  import opened Wrappers
  import opened Mmu
  import opened PageTable
  import opened AddressSpace
  import opened Teardown
  import opened VirtualMemory
  import opened Fork
  import opened Machine
  import opened MemoryTheorems

  datatype Op =
    | Create(id: nat)
    | Grow(id: nat, start: nat, end: nat)
    | Write(id: nat, dst: nat, src: seq<byte>)
    | Clone(parent: nat, child: nat)
    | Destroy(id: nat)
    | Take
    | Return(page: nat)

  /** The state between two operations; `taken` are the pages the kernel holds for itself, `left` is how
      many are free. */
  datatype Snapshot = Snapshot(mem: Memory, owner: Owners, spaces: Spaces, taken: set<nat>, left: nat)

  /** A process all of whose mappings can be copied, and one to copy them to. Copying any other mapping
      would end the invariant (Machine.Kernel.CopyPagetable), so that is no operation here. */
  predicate CanClone(a: Snapshot, p: nat, np: nat) {
    p in a.spaces && np in a.spaces && p != np && a.spaces[np].maps == [] && AllPages(a.spaces[p].maps, |a.spaces[p].maps|)
  }

  /** A new process: an empty list, and a free page as its zero root table. */
  ghost predicate Created(a: Snapshot, id: nat, b: Snapshot) {
    && id in b.spaces
    && var root := b.spaces[id].pgtbl;
       && root in a.owner && a.owner[root].Free? && b.taken == a.taken && b.spaces == a.spaces[id := Space(root, [])]
       && b.mem == a.mem[root := ZeroTable()] && b.owner == a.owner[root := Dir(id, 2, 0, 0)]
  }

  /** One zero frame for every page of the range. */
  ghost predicate Grown(a: Snapshot, id: nat, start: nat, end: nat, b: Snapshot) {
    && b.taken == a.taken
    && exists got :: |got| == PagesBetween(start, PageUp(end))
                     && Granted(id, start, got, USER_PERM, a.mem, a.owner, a.spaces, b.mem, b.owner, b.spaces)
  }

  /** A prefix of the bytes is written, all of them or up to the first unmapped page. */
  ghost predicate WrittenTo(a: Snapshot, id: nat, dst: nat, src: seq<byte>, b: Snapshot) {
    && id in a.spaces && b == a.(mem := b.mem)
    && exists n :: Written(a.spaces, id, a.owner, dst, src, n, a.mem, b.mem)
                   && (n == |src| || VByte(b.mem, a.spaces[id].pgtbl, dst + n) == None)
  }

  ghost predicate Cloned(a: Snapshot, p: nat, np: nat, b: Snapshot) {
    && b.taken == a.taken && OnlyGrows(np, a.mem, a.owner, b.mem, b.owner)
    && ForkedSpaces(a.spaces, p, np, b.spaces) && SameView(b.mem, b.spaces[p].pgtbl, b.spaces[np].pgtbl)
  }

  /** What the process owned, and nothing else, is free. */
  ghost predicate Destroyed(a: Snapshot, id: nat, b: Snapshot) {
    && b.taken == a.taken && b.spaces == a.spaces - {id}
    && Released(OwnedBy(a.owner, id), a.mem, a.owner, b.mem, b.owner)
  }

  ghost predicate TookPage(a: Snapshot, p: nat, b: Snapshot) {
    && p in a.owner && a.owner[p].Free? && b.left == a.left - 1
    && b == Snapshot(a.mem[p := JunkPage()], a.owner[p := Other], a.spaces, a.taken + {p}, b.left)
  }

  ghost predicate Returned(a: Snapshot, p: nat, b: Snapshot) {
    && p in b.mem && b.mem[p].Link?
    && b == Snapshot(a.mem[p := b.mem[p]], a.owner[p := Free], a.spaces, a.taken - {p}, a.left + 1)
  }

  /** What an operation does. One whose operands do not exist is skipped. */
  ghost predicate Effect(a: Snapshot, op: Op, b: Snapshot) {
    match op
    case Create(id) => if id in a.spaces then b == a else Created(a, id, b)
    case Grow(id, start, end) => if id in a.spaces then Grown(a, id, start, end, b) else b == a
    case Write(id, dst, src) => if id in a.spaces then WrittenTo(a, id, dst, src, b) else b == a
    case Clone(p, np) => if CanClone(a, p, np) then Cloned(a, p, np, b) else b == a
    case Destroy(id) => if id in a.spaces then Destroyed(a, id, b) else b == a
    case Take => exists p :: TookPage(a, p, b)
    case Return(page) => if page in a.taken then Returned(a, page, b) else b == a
  }

  /** Free pages that are enough for an operation. */
  function Cost(a: Snapshot, op: Op): nat {
    match op
    case Create(id) => 1
    case Grow(id, start, end) => 3 * PagesBetween(start, PageUp(end))
    case Clone(p, np) => if p in a.spaces then CopyCost(a.spaces[p].maps) else 0
    case Take => 1
    case _ => 0
  }

  /** Every mapping is listed with the size of a page, as __proc_add_mapping's callers pass it. */
  ghost predicate PageSized(spaces: Spaces) {
    forall id, k | id in spaces && 0 <= k < |spaces[id].maps| :: spaces[id].maps[k].size == PGSIZE
  }

  /** The pages the kernel took for itself are owned by it. */
  ghost predicate TakenOk(owner: Owners, taken: set<nat>) {
    forall x | x in taken :: x in owner && owner[x].Other?
  }

  lemma {:induction false} ListedSized(start: nat, got: seq<nat>, perm: nat)
    ensures forall k | 0 <= k < |Listed(start, got, perm)| :: Listed(start, got, perm)[k].size == PGSIZE
  {
    if got != [] {
      ListedSized(start, got[..|got| - 1], perm);
    }
  }

  lemma ForkSized(spaces0: Spaces, p: nat, np: nat, spaces: Spaces)
    requires PageSized(spaces0) && ForkedSpaces(spaces0, p, np, spaces)
    ensures PageSized(spaces)
  {
    hide Reverse;
    var maps := spaces0[p].maps;
    forall id, k | id in spaces && 0 <= k < |spaces[id].maps| ensures spaces[id].maps[k].size == PGSIZE {
      if id == p { ReverseAt(maps, k); }
    }
  }

  lemma GrowSized(spaces0: Spaces, id: nat, start: nat, got: seq<nat>, perm: nat, spaces: Spaces)
    requires PageSized(spaces0) && Pushed(spaces0, id, Listed(start, got, perm), spaces)
    ensures PageSized(spaces)
  {
    hide Listed;
    ListedSized(start, got, perm);
  }

  lemma GrowTaken(id: nat, mem: Memory, owner: Owners, mem': Memory, owner': Owners, taken: set<nat>)
    requires TakenOk(owner, taken) && OnlyGrows(id, mem, owner, mem', owner')
    ensures TakenOk(owner', taken)
  {
  }

  ghost function Now(k: Kernel, taken: set<nat>): Snapshot
    reads k
  {
    Snapshot(k.mem, k.owner, k.spaces, taken, |k.free|)
  }

  /** One operation. A panic, for want of a free page, ends the run. */
  method Step(k: Kernel, op: Op, taken: set<nat>) returns (r: Outcome<()>, taken': set<nat>)
    requires k.Valid() && PageSized(k.spaces) && TakenOk(k.owner, taken)
    modifies k
    ensures r.Panic? ==> old(Now(k, taken)).left < Cost(old(Now(k, taken)), op)
    ensures r.Done? ==> k.Valid() && PageSized(k.spaces) && TakenOk(k.owner, taken')
    ensures r.Done? ==> k.mem.Keys == old(k.mem.Keys) && Effect(old(Now(k, taken)), op, Now(k, taken'))
  {
    hide FreeOk;
    hide Consistent;
    hide Listed;
    hide PageMapping;
    hide PageUp;
    hide PagesBetween;
    hide AllPages;
    hide CopyCost;
    hide Pushed;
    hide OnlyGrows;
    hide AllZero;
    hide SameView;
    hide ValidPerm;
    hide And;
    hide Written;
    hide Granted;
    hide ForkedSpaces;
    hide Released;
    hide OwnedBy;
    hide VByte;
    taken' := taken;
    ghost var a := Now(k, taken);
    match op {
      case Create(id) =>
        if id !in k.spaces {
          KeysAgree(k.mem, k.owner, k.spaces);
          var _ :- k.CreateSpace(id);
          KeysAgree(k.mem, k.owner, k.spaces);
          assert Created(a, id, Now(k, taken'));
        }
      case Grow(id, start, end) =>
        if id in k.spaces {
          UserPermValid();
          var _, got :- k.AllocVm(id, start, end, USER_PERM);
          GrantedMeans(id, start, got, USER_PERM, a, Now(k, taken'));
          GrowSized(a.spaces, id, start, got, USER_PERM, k.spaces);
          GrowTaken(id, a.mem, a.owner, k.mem, k.owner, taken);
          GrowKeys(id, a.mem, a.owner, k.mem, k.owner);
          assert Grown(a, id, start, end, Now(k, taken'));
        }
      case Write(id, dst, src) =>
        if id in k.spaces {
          var _, n := k.CopyToVa(k.spaces[id].pgtbl, dst, src, id);
          WriteKeys(k.spaces, id, k.owner, dst, src, n, a.mem, k.mem);
          assert WrittenTo(a, id, dst, src, Now(k, taken'));
        }
      case Clone(p, np) =>
        if p in k.spaces && np in k.spaces && p != np && k.spaces[np].maps == [] && AllPages(k.spaces[p].maps, |k.spaces[p].maps|) {
          var _ :- k.CopyPagetable(p, np);
          ForkSized(a.spaces, p, np, k.spaces);
          GrowTaken(np, a.mem, a.owner, k.mem, k.owner, taken);
          GrowKeys(np, a.mem, a.owner, k.mem, k.owner);
          assert Cloned(a, p, np, Now(k, taken'));
        }
      case Destroy(id) =>
        if id in k.spaces {
          k.PgtblFree(id);
          ReleaseKept(a, id, k.mem, k.owner, k.spaces);
          assert Destroyed(a, id, Now(k, taken'));
        }
      case Take =>
        KeysAgree(k.mem, k.owner, k.spaces);
        var p :- k.Kalloc();
        TakePage(a.mem, a.owner, k.spaces, p, JunkPage(), k.mem, k.owner);
        taken' := taken + {p};
        assert TookPage(a, p, Now(k, taken'));
      case Return(page) =>
        if page in taken {
          KernelPages(k.mem, k.owner, k.spaces, page);
          var _ := k.Kfree(page);
          ReturnPage(a.mem, a.owner, k.spaces, page, k.mem[page], k.mem, k.owner);
          taken' := taken - {page};
          assert Returned(a, page, Now(k, taken'));
        }
    }
    r := Done(());
  }

  /** Two pages from 0x6000 on, each of which straddles two. */
  lemma TwoStraddle(got: seq<nat>, perm: nat)
    requires |got| == 2
    ensures CopyCost(Listed(0x6000, got, perm)) == 10
  {
    var a, b := Mapping(got[1], 0x6000 + PGSIZE, PGSIZE, perm), Mapping(got[0], 0x6000, PGSIZE, perm);
    assert got[..1][..0] == [] && got[..1][0] == got[0];
    assert Listed(0x6000, got[..1], perm) == [b] + Listed(0x6000, got[..1][..0], perm);
    assert Listed(0x6000, got, perm) == [a, b];
    TwoPages(0x6000);
    TwoPages(0x6000 + PGSIZE);
    assert [a, b][..1] == [a] && [a][..0] == [];
    assert RoundCost(a) == 5 && RoundCost(b) == 5;
    assert CopyCost([]) == 0 && CopyCost([a]) == 5;
  }

  /** A process that loads a segment at 0x6000 with p_align 0x6000, and then forks: after that, the books no
      longer fit the pages. Sixteen free pages, and those that copying its other mappings takes, suffice to get
      there. */
  method UnalignedForkBreaks(k: Kernel, p: nat, np: nat) returns (r: Outcome<()>)
    requires k.Valid() && PageSized(k.spaces)
    requires p in k.spaces && np in k.spaces && p != np && k.spaces[np].maps == []
    modifies k
    ensures r.Panic? ==> |old(k.free)| < 16 + CopyCost(old(k.spaces[p].maps))
    ensures r.Done? ==> !k.Valid()
  {
    hide Consistent;
    hide FreeOk;
    hide OnlyGrows;
    hide AllZero;
    hide SameView;
    hide ForkedSpaces;
    hide CopyCost;
    hide VByte;
    hide And;
    UserPermValid();
    ghost var a := Now(k, {});
    var start := SegmentStart(0x6000, 0x6000);
    var end := SegmentStart(0x6000, 0x6000) + 0x6000;
    var _, got :- k.AllocVm(p, start, end, USER_PERM);
    GrantedMeans(p, start, got, USER_PERM, a, Now(k, {}));
    GrowSized(a.spaces, p, start, got, USER_PERM, k.spaces);
    FirstListed(start, got, USER_PERM, a.spaces[p].maps);
    assert start == 0x6000 && |got| == 2;
    TwoStraddle(got, USER_PERM);
    CostCat(Listed(start, got, USER_PERM), a.spaces[p].maps);
    var _ :- k.CopyPagetable(p, np);
    r := Done(());
  }

  lemma FirstListed(start: nat, got: seq<nat>, perm: nat, rest: seq<Mapping>)
    requires got != [] && start % PGSIZE != 0
    ensures !AllPages(Listed(start, got, perm) + rest, |Listed(start, got, perm) + rest|)
  {
    ListedFirst(start, got, perm);
    var maps := Listed(start, got, perm) + rest;
    var j := |Listed(start, got, perm)| - 1;
    assert maps[j] == Listed(start, got, perm)[j];
  }

  /** The first page of a range is the last on the part of the list it adds. */
  lemma {:induction false} ListedFirst(start: nat, got: seq<nat>, perm: nat)
    requires got != []
    ensures Listed(start, got, perm) != [] && Listed(start, got, perm)[|Listed(start, got, perm)| - 1].va == start
    decreases |got|
  {
    if |got| > 1 {
      ListedFirst(start, got[..|got| - 1], perm);
    } else {
      assert Listed(start, got[..0], perm) == [];
    }
  }

  lemma GrantedMeans(id: nat, start: nat, got: seq<nat>, perm: nat, a: Snapshot, b: Snapshot)
    requires Granted(id, start, got, perm, a.mem, a.owner, a.spaces, b.mem, b.owner, b.spaces)
    ensures OnlyGrows(id, a.mem, a.owner, b.mem, b.owner) && Pushed(a.spaces, id, Listed(start, got, perm), b.spaces)
  {
  }

  lemma ReleaseKept(a: Snapshot, id: nat, mem: Memory, owner: Owners, spaces: Spaces)
    requires PageSized(a.spaces) && TakenOk(a.owner, a.taken) && spaces == a.spaces - {id}
    requires Released(OwnedBy(a.owner, id), a.mem, a.owner, mem, owner)
    ensures PageSized(spaces) && TakenOk(owner, a.taken) && mem.Keys == a.mem.Keys
  {
    hide PageMapping;
  }

  lemma KeysAgree(mem: Memory, owner: Owners, spaces: Spaces)
    requires Consistent(mem, owner, spaces)
    ensures owner.Keys == mem.Keys
  {
  }

  lemma GrowKeys(id: nat, mem: Memory, owner: Owners, mem': Memory, owner': Owners)
    requires OnlyGrows(id, mem, owner, mem', owner')
    ensures mem'.Keys == mem.Keys
  {
  }

  lemma WriteKeys(spaces: Spaces, id: nat, owner: Owners, dst: nat, src: seq<byte>, n: nat, mem: Memory, mem': Memory)
    requires id in spaces && Written(spaces, id, owner, dst, src, n, mem, mem')
    ensures mem'.Keys == mem.Keys
  {
  }

  lemma KernelPages(mem: Memory, owner: Owners, spaces: Spaces, p: nat)
    requires Consistent(mem, owner, spaces) && p in owner
    ensures p in mem && KernelPage(p) && p % PGSIZE == 0 && owner.Keys == mem.Keys
  {
    hide KernelPage;
    hide SpaceOk;
    hide DirOk;
    assert KernelPage(p);
    KernelPointerDecodes(p);
  }

  /** A page the kernel held goes back to the free list. */
  lemma ReturnPage(mem: Memory, owner: Owners, spaces: Spaces, n: nat, f: Frame, mem': Memory, owner': Owners)
    requires Consistent(mem, owner, spaces)
    requires n in owner && n in mem && owner[n].Other? && mem' == mem[n := f] && owner' == owner[n := Free]
    ensures Consistent(mem', owner', spaces)
  {
    hide DirOk;
    hide EntryOk;
    hide TablesOk;
    hide Leaf;
    TablesOf(mem, owner, spaces);
    TablesFrame(mem, owner, spaces, mem', owner', spaces);
    forall id | id in spaces ensures SpaceOk(mem', owner', id, spaces[id]) {
      LeafFrame(mem, owner, spaces, mem', id);
      SpaceFrame(mem, owner, id, spaces[id], mem', owner');
    }
  }

  /** Each operation did to the state before it what it should. */
  ghost predicate History(h: seq<Snapshot>, ops: seq<Op>) {
    |h| == |ops| + 1 && forall i, j | 0 <= i < |ops| && j == i + 1 :: Effect(h[i], ops[i], h[j])
  }

  lemma HistoryMore(h: seq<Snapshot>, ops: seq<Op>, op: Op, b: Snapshot)
    requires History(h, ops) && Effect(h[|ops|], op, b)
    ensures History(h + [b], ops + [op])
  {
    hide Effect;
  }

  /** Any sequence of operations: every one has its effect, the invariant holds at the end, and the set of
      managed pages never changes; unless one panics, and then fewer pages were free than it may need. */
  method Run(k: Kernel, ops: seq<Op>) returns (r: Outcome<()>, ghost h: seq<Snapshot>)
    requires k.Valid() && PageSized(k.spaces)
    modifies k
    ensures r.Panic? ==> 0 < |h| <= |ops| && History(h, ops[..|h| - 1]) && h[|h| - 1].left < Cost(h[|h| - 1], ops[|h| - 1])
    ensures r.Done? ==> k.Valid() && PageSized(k.spaces) && k.mem.Keys == old(k.mem.Keys)
    ensures r.Done? ==> History(h, ops) && h[0] == old(Now(k, {})) && h[|ops|] == Now(k, h[|ops|].taken)
  {
    hide FreeOk;
    hide Consistent;
    hide Effect;
    hide History;
    hide Cost;
    var taken: set<nat> := {};
    h := [Now(k, {})];
    NoHistory(h);
    var i := 0;
    while i < |ops|
      invariant 0 <= i <= |ops|
      invariant k.Valid() && PageSized(k.spaces) && TakenOk(k.owner, taken)
      invariant k.mem.Keys == old(k.mem.Keys)
      invariant History(h, ops[..i]) && |h| == i + 1 && h[0] == old(Now(k, {})) && h[i] == Now(k, taken)
    {
      var done, t := Step(k, ops[i], taken);
      if done.Panic? { return Panic, h; }
      taken := t;
      HistoryMore(h, ops[..i], ops[i], Now(k, taken));
      assert ops[..i + 1] == ops[..i] + [ops[i]];
      h := h + [Now(k, taken)];
      i := i + 1;
    }
    assert ops[..i] == ops;
    r := Done(());
  }

  lemma NoHistory(h: seq<Snapshot>)
    requires |h| == 1
    ensures History(h, [])
  {
  }
}
