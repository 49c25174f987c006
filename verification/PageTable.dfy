/** The kernel's page memory and what the three-level page tables stored in it mean.

    A page is addressed by the kernel pointer to it. `Owner` is ghost bookkeeping: who holds each
    page, and for a table page which slot of which parent page points to it. Because every page
    has one owner, disjointness of the processes' pages is built in, and all invariants are local. */
module PageTable {
  import opened Bits
  import opened Mmu

  datatype Frame =
    | Link(next: nat)            // a free page, holding the free-list pointer
    | Table(pte: seq<nat>)       // a page-table page
    | Page(bytes: seq<byte>)     // a data page

  datatype Owner = Free | Other | Held(id: nat) | Dir(id: nat, level: nat, up: nat, idx: nat)

  datatype Mapping = Mapping(pa: nat, va: nat, size: nat, perm: nat)

  /** The memory part of a task_struct: root table and mapping list. */
  datatype Space = Space(pgtbl: nat, maps: seq<Mapping>)

  type Memory = map<nat, Frame>
  type Owners = map<nat, Owner>
  type Spaces = map<nat, Space>

  predicate TableAt(mem: Memory, p: nat) {
    p in mem && mem[p].Table? && |mem[p].pte| == ENTRIES
  }

  function ZeroTable(): (f: Frame)
    ensures f.Table? && |f.pte| == ENTRIES && forall i :: 0 <= i < ENTRIES ==> f.pte[i] == 0
  {
    Table(seq(ENTRIES, i => 0))
  }

  function ZeroPage(): (f: Frame)
    ensures f.Page? && |f.bytes| == PGSIZE && forall i :: 0 <= i < PGSIZE ==> f.bytes[i] == 0
  {
    Page(seq(PGSIZE, i => 0))
  }

  /** What kalloc fills a page with. */
  function JunkPage(): (f: Frame)
    ensures f.Page? && |f.bytes| == PGSIZE
  {
    Page(seq(PGSIZE, i => 5))
  }

  /** The table page reached from p through entry i, or 0. */
  ghost function Child(mem: Memory, p: nat, i: nat): nat
    requires i < ENTRIES
  {
    if TableAt(mem, p) then mem[p].pte[i] else 0
  }

  /** The leaf word for an index path, 0 when a directory on the path is missing. */
  ghost function Slot(mem: Memory, root: nat, i2: nat, i1: nat, i0: nat): nat
    requires i2 < ENTRIES && i1 < ENTRIES && i0 < ENTRIES
  {
    Child(mem, Child(mem, Child(mem, root, i2), i1), i0)
  }

  /** The leaf word for a virtual page number. */
  ghost function Leaf(mem: Memory, root: nat, vpn: nat): nat
    requires vpn < VPAGES
  {
    Slot(mem, root, vpn / 0x40_0000, vpn / 0x800 % 0x800, vpn % 0x800)
  }

  lemma LeafOfVa(mem: Memory, root: nat, va: nat)
    ensures Leaf(mem, root, Vpn(va)) == Slot(mem, root, Px(2, va), Px(1, va), Px(0, va))
  {
    PxSplit(va);
    var a, b, c := Px(2, va), Px(1, va), Px(0, va);
    var v := a * 0x40_0000 + b * 0x800 + c;
    assert v / 0x40_0000 == a && v / 0x800 == a * 0x800 + b && v % 0x800 == c;
  }

  ghost predicate DirOk(mem: Memory, owner: Owners, spaces: Spaces, x: nat)
    requires x in owner && owner[x].Dir?
  {
    var d := owner[x];
    && TableAt(mem, x) && d.id in spaces && d.level <= 2
    && (d.level == 2 ==> x == spaces[d.id].pgtbl)
    && (d.level < 2 ==>
          && d.idx < ENTRIES && d.up in owner && owner[d.up].Dir?
          && owner[d.up].id == d.id && owner[d.up].level == d.level + 1
          && Child(mem, d.up, d.idx) == x)
    && (d.level > 0 ==>
          forall i | 0 <= i < ENTRIES && mem[x].pte[i] != 0 ::
            mem[x].pte[i] in owner && owner[mem[x].pte[i]] == Dir(d.id, d.level - 1, x, i))
  }

  /** Every table page is reached from exactly the slot its owner entry names, every root is a
      process's, and every directory entry is 0 or the raw pointer of a table one level down. */
  ghost predicate TablesOk(mem: Memory, owner: Owners, spaces: Spaces) {
    && owner.Keys == mem.Keys
    && (forall x :: x in mem ==> KernelPage(x))
    && (forall id :: id in spaces ==>
          spaces[id].pgtbl in owner && owner[spaces[id].pgtbl] == Dir(id, 2, 0, 0))
    && (forall x :: x in owner && owner[x].Dir? ==> DirOk(mem, owner, spaces, x))
  }

  /** The table invariant depends only on the table pages and on the processes' roots. */
  lemma TablesFrame(mem: Memory, owner: Owners, spaces: Spaces, mem': Memory, owner': Owners, spaces': Spaces)
    requires TablesOk(mem, owner, spaces)
    requires mem'.Keys == mem.Keys && owner'.Keys == owner.Keys && spaces'.Keys == spaces.Keys
    requires forall x | x in owner && (owner[x].Dir? || owner'[x].Dir?) :: owner'[x] == owner[x] && mem'[x] == mem[x]
    requires forall id | id in spaces :: spaces'[id].pgtbl == spaces[id].pgtbl
    ensures TablesOk(mem', owner', spaces')
  {
    hide KernelPage;
    forall y | y in owner' && owner'[y].Dir? ensures DirOk(mem', owner', spaces', y) {
      assert DirOk(mem, owner, spaces, y);
    }
  }

  /** No leaf of any process differs between two memories. */
  ghost predicate SameSlots(spaces: Spaces, mem: Memory, mem': Memory) {
    forall id, i2, i1, i0 | id in spaces && 0 <= i2 < ENTRIES && 0 <= i1 < ENTRIES && 0 <= i0 < ENTRIES ::
      Slot(mem', spaces[id].pgtbl, i2, i1, i0) == Slot(mem, spaces[id].pgtbl, i2, i1, i0)
  }

  /** The only leaf that differs is the one of process `id` at index path (i2, i1, i0), now w. */
  ghost predicate OneSlot(spaces: Spaces, mem: Memory, mem': Memory, id: nat, i2: nat, i1: nat, i0: nat, w: nat) {
    forall id', j2, j1, j0 | id' in spaces && 0 <= j2 < ENTRIES && 0 <= j1 < ENTRIES && 0 <= j0 < ENTRIES ::
      Slot(mem', spaces[id'].pgtbl, j2, j1, j0)
      == if id' == id && j2 == i2 && j1 == i1 && j0 == i0 then w
         else Slot(mem, spaces[id'].pgtbl, j2, j1, j0)
  }

  lemma SameThenSame(spaces: Spaces, a: Memory, b: Memory, c: Memory)
    requires SameSlots(spaces, a, b) && SameSlots(spaces, b, c)
    ensures SameSlots(spaces, a, c)
  {
  }

  lemma SameThenOne(spaces: Spaces, a: Memory, b: Memory, c: Memory, id: nat, i2: nat, i1: nat, i0: nat, w: nat)
    requires SameSlots(spaces, a, b) && OneSlot(spaces, b, c, id, i2, i1, i0, w)
    ensures OneSlot(spaces, a, c, id, i2, i1, i0, w)
  {
  }

  /** Table pages of process `id` and free pages may change; free pages may become its tables. */
  ghost predicate OnlyTablesOf(id: nat, mem: Memory, owner: Owners, mem': Memory, owner': Owners) {
    && mem'.Keys == mem.Keys && owner'.Keys == owner.Keys
    && owner.Keys == mem.Keys
    && (forall x | x in owner ::
          && (!owner[x].Free? ==> owner'[x] == owner[x])
          && (owner[x].Free? ==> owner'[x].Free? || (owner'[x].Dir? && owner'[x].id == id))
          && (!owner[x].Free? && !(owner[x].Dir? && owner[x].id == id) ==> mem'[x] == mem[x]))
  }

  /** Among the table pages, only entry i of page x differs, and it is no longer empty. */
  ghost predicate OneEntry(mem: Memory, owner: Owners, x: nat, i: nat, mem': Memory) {
    && i < ENTRIES && Child(mem', x, i) != 0
    && forall p, j | p in owner && owner[p].Dir? && 0 <= j < ENTRIES && (p != x || j != i) ::
         Child(mem', p, j) == Child(mem, p, j)
  }

  /** Table page x gets fresh table n in its empty directory entry i. */
  ghost predicate Attached(mem: Memory, owner: Owners, x: nat, i: nat, n: nat, mem': Memory, owner': Owners) {
    && x in owner && owner[x].Dir? && owner[x].level > 0 && i < ENTRIES && TableAt(mem, x) && mem[x].pte[i] == 0
    && n in owner && !owner[n].Dir?
    && mem' == mem[n := ZeroTable()][x := Table(mem[x].pte[i := n])]
    && owner' == owner[n := Dir(owner[x].id, owner[x].level - 1, x, i)]
  }

  lemma AttachDirOk(mem: Memory, owner: Owners, spaces: Spaces, x: nat, i: nat, n: nat,
                    mem': Memory, owner': Owners, y: nat)
    requires TablesOk(mem, owner, spaces) && Attached(mem, owner, x, i, n, mem', owner')
    requires y in owner' && owner'[y].Dir?
    ensures DirOk(mem', owner', spaces, y)
  {
    assert DirOk(mem, owner, spaces, x);
    if y != n {
      assert DirOk(mem, owner, spaces, y);
      assert owner'[y] == owner[y];
      if y != x {
        assert mem'[y] == mem[y];
      }
    }
  }

  lemma AttachSlot(mem: Memory, owner: Owners, spaces: Spaces, x: nat, i: nat, n: nat,
                   mem': Memory, owner': Owners, id: nat, i2: nat, i1: nat, i0: nat)
    requires TablesOk(mem, owner, spaces) && Attached(mem, owner, x, i, n, mem', owner')
    requires id in spaces && i2 < ENTRIES && i1 < ENTRIES && i0 < ENTRIES
    ensures Slot(mem', spaces[id].pgtbl, i2, i1, i0) == Slot(mem, spaces[id].pgtbl, i2, i1, i0)
  {
    var r := spaces[id].pgtbl;
    assert DirOk(mem, owner, spaces, r);
    var a := Child(mem, r, i2);
    if a != 0 {
      assert owner[a] == Dir(id, 1, r, i2);
      assert Child(mem', r, i2) == a;
      assert DirOk(mem, owner, spaces, a);
      var b := Child(mem, a, i1);
      if b != 0 {
        assert owner[b] == Dir(id, 0, a, i1);
        assert Child(mem', a, i1) == b;
      }
    }
  }

  /** Hanging a fresh zero table under an empty directory entry changes no leaf of any process. */
  lemma AttachTable(mem: Memory, owner: Owners, spaces: Spaces, x: nat, i: nat, n: nat,
                    mem': Memory, owner': Owners)
    requires TablesOk(mem, owner, spaces) && Attached(mem, owner, x, i, n, mem', owner')
    ensures TablesOk(mem', owner', spaces)
    ensures SameSlots(spaces, mem, mem')
  {
    forall y | y in owner' && owner'[y].Dir? ensures DirOk(mem', owner', spaces, y) {
      AttachDirOk(mem, owner, spaces, x, i, n, mem', owner', y);
    }
    forall id, i2, i1, i0 | id in spaces && 0 <= i2 < ENTRIES && 0 <= i1 < ENTRIES && 0 <= i0 < ENTRIES
      ensures Slot(mem', spaces[id].pgtbl, i2, i1, i0) == Slot(mem, spaces[id].pgtbl, i2, i1, i0)
    {
      AttachSlot(mem, owner, spaces, x, i, n, mem', owner', id, i2, i1, i0);
    }
  }

  lemma AttachFrame(mem: Memory, owner: Owners, id: nat, x: nat, i: nat, n: nat, mem': Memory, owner': Owners)
    requires owner.Keys == mem.Keys && Attached(mem, owner, x, i, n, mem', owner') && n != 0
    requires owner[x].id == id && owner[n].Free?
    ensures OnlyTablesOf(id, mem, owner, mem', owner') && OneEntry(mem, owner, x, i, mem')
  {
  }

  /** Writing one leaf entry changes the leaf of exactly one index path of one process. */
  lemma WriteLeaf(mem: Memory, owner: Owners, spaces: Spaces, id: nat, i2: nat, i1: nat, i0: nat,
                  x: nat, w: nat, mem': Memory)
    requires TablesOk(mem, owner, spaces) && id in spaces
    requires i2 < ENTRIES && i1 < ENTRIES && i0 < ENTRIES
    requires x != 0 && x == Child(mem, Child(mem, spaces[id].pgtbl, i2), i1)
    requires TableAt(mem, x) && mem' == mem[x := Table(mem[x].pte[i0 := w])]
    ensures TablesOk(mem', owner, spaces)
    ensures x in owner && owner[x].Dir? && owner[x].id == id && owner[x].level == 0
    ensures OneSlot(spaces, mem, mem', id, i2, i1, i0, w)
  {
    var r := spaces[id].pgtbl;
    var a := Child(mem, r, i2);
    assert a != 0 && owner[a] == Dir(id, 1, r, i2) && owner[x] == Dir(id, 0, a, i1);
    forall y | y in owner && owner[y].Dir? ensures DirOk(mem', owner, spaces, y) {
      assert DirOk(mem, owner, spaces, y);
    }
    forall id', j2, j1, j0 | id' in spaces && 0 <= j2 < ENTRIES && 0 <= j1 < ENTRIES && 0 <= j0 < ENTRIES
      ensures Slot(mem', spaces[id'].pgtbl, j2, j1, j0)
              == if id' == id && j2 == i2 && j1 == i1 && j0 == i0 then w
                 else Slot(mem, spaces[id'].pgtbl, j2, j1, j0)
    {
      var r' := spaces[id'].pgtbl;
      var a' := Child(mem, r', j2);
      if a' != 0 {
        assert owner[a'] == Dir(id', 1, r', j2);
        var b' := Child(mem, a', j1);
        if b' != 0 {
          assert owner[b'] == Dir(id', 0, a', j1);
        }
      }
    }
  }

  /** One step down the tree: the table behind a non-zero directory entry. */
  lemma Descend(mem: Memory, owner: Owners, spaces: Spaces, x: nat, i: nat)
    requires TablesOk(mem, owner, spaces) && x in owner && owner[x].Dir? && i < ENTRIES
    ensures TableAt(mem, x) && Child(mem, x, i) == mem[x].pte[i] && x != 0
    ensures owner[x].level > 0 && mem[x].pte[i] != 0 ==>
              mem[x].pte[i] in owner && owner[mem[x].pte[i]] == Dir(owner[x].id, owner[x].level - 1, x, i)
  {
    assert DirOk(mem, owner, spaces, x);
  }
}
