/** The page-table editor (`kernel/mm/vmm.c`): it takes table pages from the
    physical allocator and edits them through the bootstrap identity map. */
module Vmm {
  import opened Machine
  import opened PageTables
  import Pmm

  /** `entry_table`: the page of the table an entry points to, 0 for NULL.  The PS
      bit is not looked at. */
  function EntryTable(e: u64): nat {
    if !Present(e) then 0
    else if Frame(e) >= BOOTSTRAP_PAGES then 0
    else Frame(e)
  }

  /** The editor takes a present, in-range, non-null entry for a table even where the MMU
      takes it for a leaf: the two agree exactly when the PS bit is clear. */
  lemma LeafMistakenForTable(e: u64)
    requires Present(e) && 0 < Frame(e) < BOOTSTRAP_PAGES
    ensures EntryTable(e) == Frame(e)
    ensures forall mem: Memory, root: nat, a: nat, b: nat, c: nat, d: nat ::
      a < ENTRIES && b < ENTRIES && c < ENTRIES && d < ENTRIES && EndsIn(mem, root, a, b, c, e) ==>
        (Lookup(mem, root, a, b, c, d).Large? <==> LargePage(e))
  {}

  /** `e` is the page-directory entry on the way to the given indices. */
  ghost predicate EndsIn(mem: Memory, root: nat, a: nat, b: nat, c: nat, e: u64)
    requires a < ENTRIES && b < ENTRIES && c < ENTRIES
  {
    var e4 := Fetch(mem, root, a);
    var e3 := Fetch(mem, Frame(e4), b);
    Present(e4) && Present(e3) && !LargePage(e3) && Fetch(mem, Frame(e3), c) == e
  }

  /** What the editor may do to the rest of the machine: tables stay where they
      are, pages only become used, and pages already in use by anybody else keep
      their contents. */
  ghost predicate Grown(mem: Memory, at: Placement, used: seq<bool>,
                        mem': Memory, at': Placement, used': seq<bool>) {
    && (forall n :: n in at ==> n in at' && at'[n] == at[n])
    && (forall n :: n in at' && n !in at ==> at'[n] < |used| && !used[at'[n]])
    && |used| == |used'| && (forall p :: 0 <= p < |used| && used[p] ==> used'[p])
    && UsedKept(mem, at, used, mem')
  }

  /** The tables `paging_init` has built once its loop is done. */
  lemma BootTree(mem: Memory, at: Placement, pml4: nat, pdpt: nat, pd: nat)
    requires forall p: nat :: p < BOOTSTRAP_PAGES ==> p in mem
    requires at == map[Pml4 := pml4, Pdpt(0) := pdpt, Pd(0, 0) := pd]
    requires pml4 != pdpt && pml4 != pd && pdpt != pd
    requires 0 < pml4 < BOOTSTRAP_PAGES && 0 < pdpt < BOOTSTRAP_PAGES && 0 < pd < BOOTSTRAP_PAGES
    requires mem[pml4] == ZeroTable()[0 := TableEntry(pdpt)]
    requires mem[pdpt] == ZeroTable()[0 := TableEntry(pd)]
    requires forall j :: 0 <= j < ENTRIES ==> mem[pd][j] == BootLeaf(j)
    ensures Tree(mem, pml4, at)
  {
    hide SlotOk, TableEntry, BootLeaf;
    forall n, i | n in at && 0 <= i < ENTRIES
      ensures SlotOk(mem, at, n, i)
    {
      BootSlot(mem, at, n, i);
    }
  }

  lemma BootSlot(mem: Memory, at: Placement, n: Node, i: nat)
    requires at.Keys == {Pml4, Pdpt(0), Pd(0, 0)} && n in at && i < ENTRIES
    requires forall m :: m in at ==> at[m] in mem && 0 < at[m] < BOOTSTRAP_PAGES
    requires mem[at[Pml4]] == ZeroTable()[0 := TableEntry(at[Pdpt(0)])]
    requires mem[at[Pdpt(0)]] == ZeroTable()[0 := TableEntry(at[Pd(0, 0)])]
    requires forall j :: 0 <= j < ENTRIES ==> mem[at[Pd(0, 0)]][j] == BootLeaf(j)
    ensures SlotOk(mem, at, n, i)
  {
    hide TableEntry, BootLeaf;
    match n
    case Pml4 =>
    case Pdpt(_) =>
    case Pd(_, _) =>
    case Pt(_, _, _) =>
  }

  /** With no last-level table anywhere, only the first GiB translates. */
  lemma BootWalk(mem: Memory, root: nat, at: Placement)
    requires Tree(mem, root, at) && forall n :: n in at ==> !n.Pt?
    ensures forall va: u64 ::
      LeafWord(mem, at, va) == 0
      && Translate(mem, root, va) == if InBootGigabyte(va) then Some(va % 0x4000_0000) else None
  {
    forall va: u64
      ensures LeafWord(mem, at, va) == 0
      ensures Translate(mem, root, va) == if InBootGigabyte(va) then Some(va % 0x4000_0000) else None
    {
      WalkOnTree(mem, root, at, va);
    }
  }

  /** A store to a page outside the tree keeps the tree and its leaf words. */
  lemma OutsideTree(mem: Memory, root: nat, at: Placement, page: nat, mem': Memory)
    requires Tree(mem, root, at) && (forall n :: n in at ==> at[n] != page)
    requires page in mem' && mem' == mem[page := mem'[page]]
    ensures Tree(mem', root, at)
    ensures forall va: u64 :: LeafWord(mem', at, va) == LeafWord(mem, at, va)
  {
    forall n, i | n in at && 0 <= i < ENTRIES
      ensures SlotOk(mem', at, n, i)
    {
      assert SlotOk(mem, at, n, i);
    }
  }

  /** What a slot above the last level holds, and how the editor reads it. */
  lemma SlotRead(mem: Memory, root: nat, at: Placement, n: Node, i: nat)
    requires Tree(mem, root, at) && n in at && !n.Pt? && n != Pd(0, 0) && i < ENTRIES
    ensures EntryTable(mem[at[n]][i]) == if Child(n, i) in at then at[Child(n, i)] else 0
  {
    assert SlotOk(mem, at, n, i);
    if Child(n, i) in at {
      TableEntryFields(at[Child(n, i)]);
    }
  }

  lemma SlotReadAny(mem: Memory, root: nat, at: Placement, n: Node, i: nat)
    requires Tree(mem, root, at) && n in at && !n.Pt? && i < ENTRIES
    ensures EntryTable(mem[at[n]][i]) ==
      if n == Pd(0, 0) then i * 0x200 else if Child(n, i) in at then at[Child(n, i)] else 0
    ensures n == Pd(0, 0) ==> Child(n, i) !in at
  {
    if n == Pd(0, 0) {
      assert SlotOk(mem, at, n, i);
      BootLeafFields(i);
    } else {
      SlotRead(mem, root, at, n, i);
    }
  }

  /** Reading the three upper levels on the way to an address outside the boot GiB. */
  lemma PathRead(mem: Memory, root: nat, at: Placement, va: u64)
    requires Tree(mem, root, at) && !InBootGigabyte(va)
    ensures
      var a, b, c := I4(va), I3(va), I2(va);
      && EntryTable(Fetch(mem, root, a)) == (if Pdpt(a) in at then at[Pdpt(a)] else 0)
      && (Pdpt(a) in at ==>
            EntryTable(Fetch(mem, at[Pdpt(a)], b)) == if Pd(a, b) in at then at[Pd(a, b)] else 0)
      && (Pd(a, b) in at ==>
            EntryTable(Fetch(mem, at[Pd(a, b)], c)) == if Pt(a, b, c) in at then at[Pt(a, b, c)] else 0)
  {
    var a, b, c := I4(va), I3(va), I2(va);
    SlotRead(mem, root, at, Pml4, a);
    if Pdpt(a) in at {
      SlotRead(mem, root, at, Pdpt(a), b);
    }
    if Pd(a, b) in at {
      SlotRead(mem, root, at, Pd(a, b), c);
    }
  }

  /** Below 1 GiB the way leads through the boot tables to a 2 MiB leaf, whose first page is
      read as a table; the leaf at address 0 reads as NULL. */
  lemma BootPathRead(mem: Memory, root: nat, at: Placement, va: u64)
    requires Tree(mem, root, at) && InBootGigabyte(va)
    ensures
      var pdpt, pd := at[Pdpt(0)], at[Pd(0, 0)];
      && EntryTable(Fetch(mem, root, 0)) == pdpt && EntryTable(Fetch(mem, pdpt, 0)) == pd
      && EntryTable(Fetch(mem, pd, I2(va))) == I2(va) * 0x200
      && Pt(0, 0, I2(va)) !in at
  {
    SlotRead(mem, root, at, Pml4, 0);
    SlotRead(mem, root, at, Pdpt(0), 0);
    assert SlotOk(mem, at, Pd(0, 0), I2(va));
    BootLeafFields(I2(va));
  }

  /** Used pages that are not tables keep their contents. */
  ghost predicate UsedKept(mem: Memory, at: Placement, used: seq<bool>, mem': Memory) {
    forall p: nat :: p < BOOTSTRAP_PAGES && p < |used| && used[p] && (forall n :: n in at ==> at[n] != p) ==>
      p in mem && p in mem' && mem'[p] == mem[p]
  }

  /** A page the allocator had free becomes used. */
  ghost predicate NewPage(at: Placement, used: seq<bool>, used': seq<bool>, page: nat) {
    && 0 < page < BOOTSTRAP_PAGES && page < |used| && !used[page] && used' == used[page := true]
    && forall n :: n in at ==> at[n] != page
  }

  /** How many of the three tables on the way to an address are missing. */
  function Missing(at: Placement, va: u64): nat {
    if Pdpt(I4(va)) !in at then 3 else if Pd(I4(va), I3(va)) !in at then 2
    else if Pt(I4(va), I3(va), I2(va)) !in at then 1 else 0
  }

  /** The first two of them. */
  function MissingDirectories(at: Placement, va: u64): nat {
    if Pdpt(I4(va)) !in at then 2 else if Pd(I4(va), I3(va)) !in at then 1 else 0
  }

  lemma MissingLast(mem: Memory, root: nat, at: Placement, va: u64)
    requires Tree(mem, root, at)
    ensures Missing(at, va) ==
      MissingDirectories(at, va) + (if Pt(I4(va), I3(va), I2(va)) in at then 0 else 1)
  {}

  /** The tables on the way to an address. */
  function TablesFor(va: u64): set<Node> {
    {Pdpt(I4(va)), Pd(I4(va), I3(va)), Pt(I4(va), I3(va), I2(va))}
  }

  lemma HookEffect(mem: Memory, used: seq<bool>, root: nat, at: Placement, n: Node, i: nat, page: nat)
    requires Hookable(mem, root, at, n, i, page)
    requires page < |used| && !used[page]
    ensures
      var mem', at' := Hook(mem, at[n], i, page), at[Child(n, i) := page];
      && Tree(mem', root, at')
      && (forall va: u64 :: LeafWord(mem', at', va) == LeafWord(mem, at, va))
      && Grown(mem, at, used, mem', at', used[page := true])
  {
    HookKeepsTree(mem, root, at, n, i, page);
    forall va: u64
      ensures LeafWord(Hook(mem, at[n], i, page), at[Child(n, i) := page], va) == LeafWord(mem, at, va)
    {
      HookKeepsLeaves(mem, root, at, n, i, page, va);
    }
  }

  lemma GrownSelf(mem: Memory, at: Placement, used: seq<bool>)
    requires forall p: nat :: p < BOOTSTRAP_PAGES ==> p in mem
    ensures Grown(mem, at, used, mem, at, used)
  {}

  lemma GrownTwice(m0: Memory, at0: Placement, u0: seq<bool>, m1: Memory, at1: Placement, u1: seq<bool>,
                   m2: Memory, at2: Placement, u2: seq<bool>)
    requires Grown(m0, at0, u0, m1, at1, u1) && Grown(m1, at1, u1, m2, at2, u2)
    ensures Grown(m0, at0, u0, m2, at2, u2)
  {}

  /** What a store through a path below 1 GiB does: it lands in the data under the leaf. */
  ghost predicate StoredInData(m0: Memory, m1: Memory, va: u64, e: u64) {
    var page := I2(va) * 0x200;
    page in m0 && m1 == m0[page := m0[page][I1(va) := e]]
  }

  /** What mapping a page of the first 2 MiB does: the 2 MiB leaf gives way to a new table
      with that page alone. */
  ghost predicate LeafReplaced(m0: Memory, at: Placement, u0: seq<bool>, m1: Memory, u1: seq<bool>,
                               root: nat, va: u64, e: u64) {
    && Pd(0, 0) in at && at[Pd(0, 0)] in m0
    && (exists page :: NewPage(at, u0, u1, page) && m1 == Split2M(m0, at[Pd(0, 0)], page, I1(va), e))
    && forall v: u64 ::
         LeafAt(m1, root, v) ==
           if InBootGigabyte(v) && I2(v) == 0 then (if I1(v) == I1(va) then Small(Frame(e)) else NotMapped)
           else LeafAt(m0, root, v)
  }

  /** An operation as a maintainer would state it: one page of the walk changes, and no
      used memory but the tables. */
  ghost predicate ChangesOneKey(m0: Memory, at: Placement, u0: seq<bool>, m1: Memory, root: nat, va: u64,
                                leaf: Leaf) {
    OneKey(m0, m1, root, va, leaf) && UsedKept(m0, at, u0, m1)
  }

  /** Leaf maps that differ in one key outside the boot GiB are walks that do. */
  lemma IsOneKey(m0: Memory, a0: Placement, m1: Memory, a1: Placement, root: nat, va: u64, e: u64)
    requires Tree(m0, root, a0) && Tree(m1, root, a1) && !InBootGigabyte(va)
    requires forall v: u64 :: LeafWord(m1, a1, v) == if Vpn(v) == Vpn(va) then e else LeafWord(m0, a0, v)
    ensures OneKey(m0, m1, root, va, if Present(e) then Small(Frame(e)) else NotMapped)
  {
    hide Tree, LeafWord, Lookup, Vpn;
    forall v: u64
      ensures LeafAt(m1, root, v) ==
        if Vpn(v) == Vpn(va) then (if Present(e) then Small(Frame(e)) else NotMapped) else LeafAt(m0, root, v)
    {
      LeafAtWord(m0, root, a0, v);
      LeafAtWord(m1, root, a1, v);
      SameIndices(v, va);
    }
  }

  lemma LeafAtWord(mem: Memory, root: nat, at: Placement, v: u64)
    requires Tree(mem, root, at)
    ensures LeafAt(mem, root, v) ==
      if InBootGigabyte(v) then Large(I2(v) * 0x200)
      else if Present(LeafWord(mem, at, v)) then Small(Frame(LeafWord(mem, at, v))) else NotMapped
  {
    LookupOnTree(mem, root, at, I4(v), I3(v), I2(v), I1(v));
  }

  /** The same leaf words are the same walks. */
  lemma SameWalks(m0: Memory, a0: Placement, m1: Memory, a1: Placement, root: nat)
    requires Tree(m0, root, a0) && Tree(m1, root, a1)
    requires forall v: u64 :: LeafWord(m1, a1, v) == LeafWord(m0, a0, v)
    ensures forall v: u64 ::
      LeafAt(m1, root, v) == LeafAt(m0, root, v) && Translate(m1, root, v) == Translate(m0, root, v)
  {
    hide Tree, LeafWord, Lookup;
    forall v: u64
      ensures LeafAt(m1, root, v) == LeafAt(m0, root, v)
    {
      LeafAtWord(m0, root, a0, v);
      LeafAtWord(m1, root, a1, v);
    }
  }

  lemma BootReplaced(m0: Memory, at: Placement, u0: seq<bool>, m: Memory, m1: Memory, u1: seq<bool>,
                     root: nat, va: u64, e: u64, page: nat)
    requires Tree(m0, root, at) && Present(e) && NewPage(at, u0, u1, page)
    requires Pd(0, 0) in at && at[Pd(0, 0)] in m0 && page in m && m == Hook(m0, at[Pd(0, 0)], 0, page)
    requires m1 == m[page := m[page][I1(va) := e]]
    ensures LeafReplaced(m0, at, u0, m1, u1, root, va, e)
  {
    hide Tree, Lookup, Hook;
    HookedPage(m0, at[Pd(0, 0)], page);
    assert m1 == Split2M(m0, at[Pd(0, 0)], page, I1(va), e);
    forall v: u64
      ensures LeafAt(m1, root, v) ==
        if InBootGigabyte(v) && I2(v) == 0 then (if I1(v) == I1(va) then Small(Frame(e)) else NotMapped)
        else LeafAt(m0, root, v)
    {
      SplitEffect(m0, root, at, page, I1(va), e, I4(v), I3(v), I2(v), I1(v));
    }
  }

  lemma HookedPage(m0: Memory, parent: nat, page: nat)
    requires parent in m0 && parent != page && page < BOOTSTRAP_PAGES
    ensures page in Hook(m0, parent, 0, page) && Hook(m0, parent, 0, page)[page] == ZeroTable()
  {}

  /** Storing a last-level word of the tree. */
  lemma LeafStored(mem: Memory, root: nat, at: Placement, used: seq<bool>, va: u64, e: u64)
    requires Tree(mem, root, at) && Pt(I4(va), I3(va), I2(va)) in at && (e == 0 || Present(e))
    ensures var page := at[Pt(I4(va), I3(va), I2(va))];
      page in mem
      && var m1: Memory := mem[page := mem[page][I1(va) := e]];
         && Tree(m1, root, at) && Grown(mem, at, used, m1, at, used)
         && forall v: u64 :: LeafWord(m1, at, v) == if Vpn(v) == Vpn(va) then e else LeafWord(mem, at, v)
  {
    SetLeaf(mem, root, at, va, e);
    hide LeafWord, SlotOk;
  }

  class Editor {
    const pmm: Pmm.Allocator
    /** `initial_pml4`, `initial_pdpt` and `initial_pd`: pages of the kernel image. */
    const pml4: nat
    const pdpt: nat
    const pd: nat
    var mem: Memory
    var pagingEnabled: bool
    ghost var at: Placement

    /** Every table is a page the allocator considers used. */
    ghost predicate TablesUsed()
      reads this, pmm, pmm.bitmap
      requires pmm.Valid()
    {
      forall n :: n in at ==> 0 < at[n] < BOOTSTRAP_PAGES && pmm.View()[at[n]]
    }

    ghost predicate Valid()
      reads this, pmm, pmm.bitmap
    {
      && pmm.Valid()
      && TablesUsed()
      && (forall p: nat :: p < BOOTSTRAP_PAGES ==> p in mem)
      && at.Keys >= {Pml4, Pdpt(0), Pd(0, 0)}
      && at[Pml4] == pml4 && at[Pdpt(0)] == pdpt && at[Pd(0, 0)] == pd
      && (if pagingEnabled then Tree(mem, pml4, at)
          else at == map[Pml4 := pml4, Pdpt(0) := pdpt, Pd(0, 0) := pd]
               && pml4 != pdpt && pml4 != pd && pdpt != pd)
    }

    /** The last-level word for an address: the editor's abstract state. */
    ghost function Leaf(va: u64): u64
      reads this
    {
      LeafWord(mem, at, va)
    }

    /** What the MMU makes of an address. */
    ghost function Walk(va: u64): Option<nat>
      reads this
    {
      Translate(mem, pml4, va)
    }

    /** The static tables lie in the kernel image, which boot reserved. */
    constructor (pmm: Pmm.Allocator, memory: Memory, pml4: nat, pdpt: nat, pd: nat)
      requires pmm.Valid()
      requires forall p: nat :: p < BOOTSTRAP_PAGES ==> p in memory
      requires pml4 != pdpt && pml4 != pd && pdpt != pd
      requires 0 < pml4 < BOOTSTRAP_PAGES && 0 < pdpt < BOOTSTRAP_PAGES && 0 < pd < BOOTSTRAP_PAGES
      requires pmm.View()[pml4] && pmm.View()[pdpt] && pmm.View()[pd]
      ensures Valid() && !pagingEnabled
      ensures this.pmm == pmm && mem == memory && this.pml4 == pml4 && this.pdpt == pdpt && this.pd == pd
    {
      this.pmm := pmm;
      this.pml4, this.pdpt, this.pd := pml4, pdpt, pd;
      mem := memory;
      pagingEnabled := false;
      at := map[Pml4 := pml4, Pdpt(0) := pdpt, Pd(0, 0) := pd];
    }

    /** A store through the bootstrap identity map. */
    method Store(page: nat, index: nat, value: u64)
      requires page in mem && index < ENTRIES
      modifies this`mem
      ensures mem == old(mem)[page := old(mem)[page][index := value]]
    {
      mem := mem[page := mem[page][index := value]];
    }

    method ZeroPage(page: nat)
      requires page in mem
      modifies this`mem
      ensures mem == old(mem)[page := ZeroTable()]
    {
      for index := 0 to ENTRIES
        invariant page in mem
        invariant mem == old(mem)[page := mem[page]]
        invariant forall j :: 0 <= j < index ==> mem[page][j] == 0
      {
        Store(page, index, 0);
      }
      assert mem[page] == ZeroTable();
    }

    /** `paging_init`: identity-map the first GiB with 2 MiB leaves. */
    method PagingInit()
      requires Valid()
      modifies this`mem, this`pagingEnabled
      ensures Valid() && pagingEnabled
      ensures old(pagingEnabled) ==> mem == old(mem)
      ensures !old(pagingEnabled) ==>
        forall va: u64 :: Leaf(va) == 0
          && Walk(va) == if InBootGigabyte(va) then Some(va % 0x4000_0000) else None
    {
      if pagingEnabled {
        return;
      }
      BuildStatics();
      BootTree(mem, at, pml4, pdpt, pd);
      pagingEnabled := true;
      BootWalk(mem, pml4, at);
    }

    /** The stores of `paging_init`. */
    method BuildStatics()
      requires pml4 in mem && pdpt in mem && pd in mem && pml4 != pdpt && pml4 != pd && pdpt != pd
      requires pml4 < BOOTSTRAP_PAGES && pdpt < BOOTSTRAP_PAGES && pd < BOOTSTRAP_PAGES
      modifies this`mem
      ensures pml4 in mem && pdpt in mem && pd in mem
      ensures mem.Keys == old(mem).Keys
      ensures mem[pml4] == ZeroTable()[0 := TableEntry(pdpt)] && mem[pdpt] == ZeroTable()[0 := TableEntry(pd)]
      ensures forall j :: 0 <= j < ENTRIES ==> mem[pd][j] == BootLeaf(j)
    {
      ZeroPage(pml4);
      ZeroPage(pdpt);
      ZeroPage(pd);
      Store(pml4, 0, TableEntry(pdpt));
      Store(pdpt, 0, TableEntry(pd));
      label tables:
      for index := 0 to ENTRIES
        invariant pd in mem && mem == old@tables(mem)[pd := mem[pd]]
        invariant forall j :: 0 <= j < index ==> mem[pd][j] == BootLeaf(j)
      {
        Store(pd, index, BootLeaf(index));
      }
    }

    /** `allocate_table`: a zeroed page below 8 MiB, or 0. */
    method AllocateTable() returns (page: nat)
      requires Valid() && pagingEnabled
      modifies this`mem, pmm`freePages, pmm.bitmap
      ensures Valid()
      ensures page == 0 <==> Pmm.FreeLow(old(pmm.View())) == 0
      ensures page == 0 ==> mem == old(mem) && pmm.View() == old(pmm.View())
      ensures page != 0 ==> Pmm.FreeLow(pmm.View()) == Pmm.FreeLow(old(pmm.View())) - 1
      ensures page != 0 ==>
        && 0 < page < BOOTSTRAP_PAGES && !old(pmm.View())[page]
        && pmm.View() == old(pmm.View())[page := true]
        && mem == old(mem)[page := ZeroTable()]
    {
      var physical := pmm.AllocPageLow();
      if physical == 0 {
        return 0;
      }
      page := physical / PAGE_SIZE;
      ZeroPage(page);
      OutsideTree(old(mem), pml4, at, page, mem);
    }

    /** Tables, memory and page allocator are what they were. */
    twostate predicate SameMachine()
      reads this, pmm, pmm.bitmap
    {
      mem == old(mem) && at == old(at) && pmm.View() == old(pmm.View())
    }

    /** The creating half of `next_table`.  Below the boot page directory it makes a table
        that is not part of the tree. */
    method HookNewTable(table: nat, index: nat, ghost n: Node) returns (next: nat)
      requires Valid() && pagingEnabled
      requires n in at && at[n] == table && !n.Pt? && index < ENTRIES && Child(n, index) !in at
      modifies this`mem, this`at, pmm`freePages, pmm.bitmap
      ensures pmm.Valid()
      ensures next == 0 <==> Pmm.FreeLow(old(pmm.View())) == 0
      ensures next == 0 ==> Valid() && SameMachine()
      ensures next != 0 ==> Pmm.FreeLow(pmm.View()) == Pmm.FreeLow(old(pmm.View())) - 1
      ensures next != 0 ==>
        && NewPage(old(at), old(pmm.View()), pmm.View(), next)
        && table in old(mem) && mem == Hook(old(mem), table, index, next)
        && at == if n == Pd(0, 0) then old(at) else old(at)[Child(n, index) := next]
      ensures next != 0 && n != Pd(0, 0) ==> Valid() && Hookable(old(mem), pml4, old(at), n, index, next)
    {
      next := AllocateTable();
      if next == 0 {
        return;
      }
      Store(table, index, TableEntry(next));
      if n != Pd(0, 0) {
        assert Hookable(old(mem), pml4, at, n, index, next);
        HookKeepsTree(old(mem), pml4, at, n, index, next);
        at := at[Child(n, index) := next];
      }
    }

    /** `next_table`: follow or create the table below slot `index`.  A 2 MiB leaf of the
        boot page directory is followed into its data, except the first, which is replaced. */
    method NextTable(table: nat, index: nat, ghost n: Node) returns (next: nat)
      requires Valid() && pagingEnabled
      requires n in at && at[n] == table && !n.Pt? && index < ENTRIES
      modifies this`mem, this`at, pmm`freePages, pmm.bitmap
      ensures pmm.Valid()
      ensures next == 0 <==>
        Child(n, index) !in old(at) && !(n == Pd(0, 0) && index > 0) && Pmm.FreeLow(old(pmm.View())) == 0
      ensures next == 0 ==> Valid() && SameMachine()
      ensures next != 0 && Child(n, index) !in old(at) && !(n == Pd(0, 0) && index > 0) ==>
        Pmm.FreeLow(pmm.View()) == Pmm.FreeLow(old(pmm.View())) - 1
      ensures n != Pd(0, 0) ==>
        && Valid() && Grown(old(mem), old(at), old(pmm.View()), mem, at, pmm.View())
        && forall va: u64 :: Leaf(va) == old(Leaf(va))
      ensures n != Pd(0, 0) && next != 0 ==>
        Child(n, index) in at && at[Child(n, index)] == next && at == old(at)[Child(n, index) := next]
      ensures Child(n, index) in old(at) ==> SameMachine()
      ensures n == Pd(0, 0) && index > 0 ==> next == index * 0x200 && Valid() && SameMachine()
      ensures n == Pd(0, 0) && index == 0 && next != 0 ==>
        && at == old(at) && NewPage(old(at), old(pmm.View()), pmm.View(), next)
        && table in old(mem) && mem == Hook(old(mem), table, 0, next)
    {
      SlotReadAny(mem, pml4, at, n, index);
      GrownSelf(mem, at, pmm.View());
      next := EntryTable(mem[table][index]);
      if next != 0 {
        assert n != Pd(0, 0) ==> at == at[Child(n, index) := next];
        return;
      }
      next := HookNewTable(table, index, n);
      if next != 0 && n != Pd(0, 0) {
        HookEffect(old(mem), old(pmm.View()), pml4, old(at), n, index, next);
      }
    }

    /** The argument checks of `map_page`. */
    static predicate Acceptable(va: u64, physical: u64, flags: u64) {
      && Canonical(va) && va % PAGE_SIZE == 0
      && physical % PAGE_SIZE == 0 && physical < 0x10_0000_0000_0000
      && flags < PAGE_SIZE
    }

    /** The first two `next_table` steps of `map_page`. */
    method Directory(va: u64) returns (pdPage: nat)
      requires Valid() && pagingEnabled
      modifies this`mem, this`at, pmm`freePages, pmm.bitmap
      ensures Valid() && Grown(old(mem), old(at), old(pmm.View()), mem, at, pmm.View())
      ensures forall v: u64 :: Leaf(v) == old(Leaf(v))
      ensures pdPage == 0 <==> MissingDirectories(old(at), va) > Pmm.FreeLow(old(pmm.View()))
      ensures Pmm.FreeLow(pmm.View()) ==
        if pdPage == 0 then 0 else Pmm.FreeLow(old(pmm.View())) - MissingDirectories(old(at), va)
      ensures Pmm.FreeLow(old(pmm.View())) == 0 ==> SameMachine()
      ensures pdPage == 0 ==>
        forall c :: Pt(I4(va), I3(va), c) !in old(at) && Pt(I4(va), I3(va), c) !in at
      ensures pdPage != 0 ==>
        && Pd(I4(va), I3(va)) in at && at[Pd(I4(va), I3(va))] == pdPage
        && at.Keys == old(at).Keys + {Pdpt(I4(va)), Pd(I4(va), I3(va))}
      ensures forall c :: Pt(I4(va), I3(va), c) in at <==> Pt(I4(va), I3(va), c) in old(at)
      ensures InBootGigabyte(va) ==> pdPage == pd && SameMachine()
    {
      ghost var a, b := I4(va), I3(va);
      hide Grown, LeafWord, pmm.View, Pmm.FreeLow, UsedKept, I4, I3;
      ghost var m0, at0, u0 := mem, at, pmm.View();
      pdPage := 0;
      var pdptPage := NextTable(pml4, I4(va), Pml4);
      if pdptPage == 0 {
        return;
      }
      ghost var m1, at1, u1 := mem, at, pmm.View();
      pdPage := NextTable(pdptPage, I3(va), Pdpt(a));
      GrownTwice(m0, at0, u0, m1, at1, u1, mem, at, pmm.View());
    }

    /** The three `next_table` steps of `map_page`. */
    method TablePath(va: u64) returns (ptPage: nat)
      requires Valid() && pagingEnabled
      modifies this`mem, this`at, pmm`freePages, pmm.bitmap
      ensures pmm.Valid()
      ensures !InBootGigabyte(va) ==>
        && (ptPage == 0 <==> Missing(old(at), va) > Pmm.FreeLow(old(pmm.View())))
        && Pmm.FreeLow(pmm.View()) ==
             (if ptPage == 0 then 0 else Pmm.FreeLow(old(pmm.View())) - Missing(old(at), va))
      // a failing call leaves tables behind exactly when there was a page for one
      ensures ptPage == 0 ==> Valid() && (SameMachine() <==> Pmm.FreeLow(old(pmm.View())) == 0)
      ensures !InBootGigabyte(va) ==>
        && Valid() && Grown(old(mem), old(at), old(pmm.View()), mem, at, pmm.View())
        && forall v: u64 :: Leaf(v) == old(Leaf(v))
      ensures !InBootGigabyte(va) && ptPage != 0 ==>
        && Pt(I4(va), I3(va), I2(va)) in at && at[Pt(I4(va), I3(va), I2(va))] == ptPage
        && at.Keys == old(at).Keys + TablesFor(va)
      ensures !InBootGigabyte(va) && ptPage == 0 ==> Pt(I4(va), I3(va), I2(va)) !in at
      ensures InBootGigabyte(va) ==> (ptPage == 0 <==> I2(va) == 0 && Pmm.FreeLow(old(pmm.View())) == 0)
      ensures InBootGigabyte(va) && I2(va) > 0 ==> ptPage == I2(va) * 0x200 && Valid() && SameMachine()
      ensures InBootGigabyte(va) && ptPage == 0 ==> SameMachine()
      ensures InBootGigabyte(va) && I2(va) == 0 && ptPage != 0 ==>
        && at == old(at) && NewPage(old(at), old(pmm.View()), pmm.View(), ptPage)
        && pd in old(mem) && mem == Hook(old(mem), pd, 0, ptPage)
    {
      hide Grown, LeafWord, pmm.View, Pmm.FreeLow, UsedKept, Tree;
      ghost var m0, at0, u0 := mem, at, pmm.View();
      MissingLast(mem, pml4, at, va);
      hide Missing, MissingDirectories;
      ptPage := 0;
      var pdPage := Directory(va);
      if pdPage == 0 {
        return;
      }
      ghost var m1, at1, u1 := mem, at, pmm.View();
      ptPage := NextTable(pdPage, I2(va), Pd(I4(va), I3(va)));
      if !InBootGigabyte(va) {
        GrownTwice(m0, at0, u0, m1, at1, u1, mem, at, pmm.View());
      }
    }

    /** The store at the end of `map_page` and `unmap_page`.  On a last-level table of the
        tree it sets one key of the leaf map; elsewhere it is a store to a page. */
    method WriteLeaf(ptPage: nat, va: u64, e: u64)
      requires pmm.Valid() && ptPage in mem && (e == 0 || Present(e))
      modifies this`mem
      ensures mem == old(mem)[ptPage := old(mem)[ptPage][I1(va) := e]]
      ensures old(Valid()) && pagingEnabled && Pt(I4(va), I3(va), I2(va)) in at
              && at[Pt(I4(va), I3(va), I2(va))] == ptPage ==>
        && Valid() && Grown(old(mem), at, pmm.View(), mem, at, pmm.View())
        && forall v: u64 :: Leaf(v) == (if Vpn(v) == Vpn(va) then e else old(Leaf(v)))
      ensures old(Valid()) && pagingEnabled && (forall n :: n in at ==> at[n] != ptPage) ==>
        Valid() && forall v: u64 :: Leaf(v) == old(Leaf(v))
    {
      hide pmm.View, Tree, Grown, LeafWord;
      if Valid() && pagingEnabled {
        if Pt(I4(va), I3(va), I2(va)) in at && at[Pt(I4(va), I3(va), I2(va))] == ptPage {
          LeafStored(mem, pml4, at, pmm.View(), va, e);
        }
        if forall n :: n in at ==> at[n] != ptPage {
          OutsideTree(mem, pml4, at, ptPage, mem[ptPage := mem[ptPage][I1(va) := e]]);
        }
      }
      Store(ptPage, I1(va), e);
    }

    /** When no table could be had, the page is not mapped. */
    lemma NothingMapped(m0: Memory, a0: Placement, va: u64, leaf: PageTables.Leaf)
      requires Valid() && pagingEnabled && Tree(m0, pml4, a0) && leaf.Small?
      requires InBootGigabyte(va) || Pt(I4(va), I3(va), I2(va)) !in at
      ensures !OneKey(m0, mem, pml4, va, leaf)
    {
      hide Tree, LeafAt, Lookup, Frame, Vpn, InBootGigabyte;
      if InBootGigabyte(va) {
        BootPagesShareLeaves(m0, mem, pml4, a0, va, leaf);
      } else {
        LeafAtWord(mem, pml4, at, va);
      }
    }

    /** `map_page`.  Outside the boot GiB: update of one key of the leaf map, or, when a
        table is needed and no page below 8 MiB is free, no change to any translation.
        Inside it: never that. */
    method MapPage(va: u64, physical: u64, flags: u64)
      requires Valid()
      modifies this`mem, this`at, pmm`freePages, pmm.bitmap
      ensures pmm.Valid()
      // bits 63:48 of the address are alike, and bits 51:12 of the frame are all it has
      ensures Acceptable(va, physical, flags) <==>
        && (va < 0x1_0000_0000_0000 || va >= 0xFFFF_0000_0000_0000) && va % 4096 == 0
        && physical % 4096 == 0 && physical < 0x10_0000_0000_0000 && flags < 4096
      ensures !(pagingEnabled && Acceptable(va, physical, flags)) ==> Valid() && SameMachine()
      ensures !InBootGigabyte(va) ==>
        Valid() && Grown(old(mem), old(at), old(pmm.View()), mem, at, pmm.View())
      ensures pagingEnabled && Acceptable(va, physical, flags) && !InBootGigabyte(va) ==>
        if Missing(old(at), va) <= Pmm.FreeLow(old(pmm.View())) then
          && (forall v: u64 ::
                Leaf(v) == (if Vpn(v) == Vpn(va) then LeafEntry(physical, flags) else old(Leaf(v))))
          && at.Keys == old(at).Keys + TablesFor(va)
          && Pmm.FreeLow(pmm.View()) == Pmm.FreeLow(old(pmm.View())) - Missing(old(at), va)
        else
          && (forall v: u64 :: Leaf(v) == old(Leaf(v)))
          && Pmm.FreeLow(pmm.View()) == 0 && (SameMachine() <==> Pmm.FreeLow(old(pmm.View())) == 0)
      ensures pagingEnabled && Acceptable(va, physical, flags) && InBootGigabyte(va) ==>
        BootOutcome(va, LeafEntry(physical, flags))
      ensures pagingEnabled && Acceptable(va, physical, flags) ==>
        (ChangesOneKey(old(mem), old(at), old(pmm.View()), mem, pml4, va, Small(physical / PAGE_SIZE)) <==>
          !InBootGigabyte(va) && Missing(old(at), va) <= Pmm.FreeLow(old(pmm.View())))
    {
      hide pmm.View, Tree, LeafWord, Pmm.FreeLow, UsedKept, OneKey;
      GrownSelf(mem, at, pmm.View());
      if !pagingEnabled || !Acceptable(va, physical, flags) {
        return;
      }
      ghost var m0, a0, u0, e := mem, at, pmm.View(), LeafEntry(physical, flags);
      Put(va, LeafEntry(physical, flags));
      if InBootGigabyte(va) {
        BootPagesShareLeaves(m0, mem, pml4, a0, va, Small(physical / PAGE_SIZE));
      } else if Missing(a0, va) <= Pmm.FreeLow(u0) {
        IsOneKey(m0, a0, mem, at, pml4, va, e);
      } else {
        NothingMapped(m0, a0, va, Small(physical / PAGE_SIZE));
      }
    }

    /** What an accepted call below 1 GiB leaves behind. */
    twostate predicate BootOutcome(va: u64, e: u64)
      reads this, pmm, pmm.bitmap
      requires old(pmm.Valid())
    {
      && at == old(at)
      && if I2(va) > 0 then
           && StoredInData(old(mem), mem, va, e) && pmm.View() == old(pmm.View())
           && ((forall n :: n in at ==> at[n] != I2(va) * 0x200) ==>
                 Valid() && forall v: u64 :: Leaf(v) == old(Leaf(v)) && Walk(v) == old(Walk(v)))
         else if Pmm.FreeLow(old(pmm.View())) > 0 then
           LeafReplaced(old(mem), at, old(pmm.View()), mem, pmm.View(), pml4, va, e)
         else Valid() && SameMachine()
    }

    /** The last-level table for an address and the store into it. */
    method Put(va: u64, e: u64)
      requires Valid() && pagingEnabled && Present(e)
      modifies this`mem, this`at, pmm`freePages, pmm.bitmap
      ensures pmm.Valid()
      ensures !InBootGigabyte(va) ==>
        Valid() && Grown(old(mem), old(at), old(pmm.View()), mem, at, pmm.View())
      ensures !InBootGigabyte(va) ==>
        if Missing(old(at), va) <= Pmm.FreeLow(old(pmm.View())) then
          && (forall v: u64 :: Leaf(v) == (if Vpn(v) == Vpn(va) then e else old(Leaf(v))))
          && at.Keys == old(at).Keys + TablesFor(va)
          && Pmm.FreeLow(pmm.View()) == Pmm.FreeLow(old(pmm.View())) - Missing(old(at), va)
        else
          && (forall v: u64 :: Leaf(v) == old(Leaf(v))) && Pt(I4(va), I3(va), I2(va)) !in at
          && Pmm.FreeLow(pmm.View()) == 0 && (SameMachine() <==> Pmm.FreeLow(old(pmm.View())) == 0)
      ensures InBootGigabyte(va) ==> BootOutcome(va, e)
    {
      hide pmm.View, Tree, Grown, LeafWord, Pmm.FreeLow, UsedKept, LeafReplaced, LeafAt, Lookup, Split2M, Hook;
      ghost var m0, a0, u0 := mem, at, pmm.View();
      var ptPage := TablePath(va);
      if ptPage == 0 {
        return;
      }
      ghost var m, a, u := mem, at, pmm.View();
      if InBootGigabyte(va) && I2(va) == 0 {
        HookedPage(m0, pd, ptPage);
      }
      WriteLeaf(ptPage, va, e);
      if !InBootGigabyte(va) {
        GrownTwice(m0, a0, u0, m, a, u, mem, at, pmm.View());
      } else if I2(va) > 0 {
        if forall n :: n in at ==> at[n] != ptPage {
          assert m == m0 && forall v: u64 :: Leaf(v) == LeafWord(m0, at, v);
          SameWalks(m0, at, mem, at, pml4);
        }
      } else {
        BootReplaced(m0, a0, u0, m, mem, pmm.View(), pml4, va, e, ptPage);
      }
    }

    static predicate Removable(va: u64) { Canonical(va) && va % PAGE_SIZE == 0 }

    /** `unmap_page`.  Outside the boot GiB: removal of one key of the leaf map.  Inside it
        a word of data is cleared, or nothing happens, and the page stays mapped. */
    method UnmapPage(va: u64)
      requires Valid()
      modifies this`mem
      ensures Removable(va) <==>
        (va < 0x1_0000_0000_0000 || va >= 0xFFFF_0000_0000_0000) && va % 4096 == 0
      ensures !(pagingEnabled && Removable(va)) ==> mem == old(mem)
      ensures !InBootGigabyte(va) ==> Valid() && Grown(old(mem), at, pmm.View(), mem, at, pmm.View())
      ensures !InBootGigabyte(va) ==> forall v: u64 ::
        Leaf(v) == (if pagingEnabled && Removable(va) && Vpn(v) == Vpn(va) then 0 else old(Leaf(v)))
      ensures pagingEnabled && Removable(va) && InBootGigabyte(va) ==>
        if I2(va) > 0 then
          && StoredInData(old(mem), mem, va, 0)
          && ((forall n :: n in at ==> at[n] != I2(va) * 0x200) ==>
                Valid() && forall v: u64 :: Leaf(v) == old(Leaf(v)) && Walk(v) == old(Walk(v)))
        else mem == old(mem)
      ensures pagingEnabled && Removable(va) ==>
        (ChangesOneKey(old(mem), at, pmm.View(), mem, pml4, va, NotMapped) <==> !InBootGigabyte(va))
    {
      hide pmm.View, Tree, UsedKept, OneKey, LeafWord, Lookup;
      GrownSelf(mem, at, pmm.View());
      if !pagingEnabled || !Removable(va) {
        return;
      }
      ghost var m0 := mem;
      if InBootGigabyte(va) {
        BootPathRead(m0, pml4, at, va);
      }
      var ptPage := GetPageTable(va);
      if ptPage == 0 {
        NoTableNoLeaf(va);
      } else {
        WriteLeaf(ptPage, va, 0);
      }
      if InBootGigabyte(va) {
        BootPagesShareLeaves(m0, mem, pml4, at, va, NotMapped);
        if I2(va) > 0 && forall n :: n in at ==> at[n] != ptPage {
          assert forall v: u64 :: Leaf(v) == LeafWord(m0, at, v);
          SameWalks(m0, at, mem, at, pml4);
        }
      } else {
        IsOneKey(m0, at, mem, at, pml4, va, 0);
      }
    }

    lemma NoTableNoLeaf(va: u64)
      ensures Pt(I4(va), I3(va), I2(va)) !in at ==> forall v: u64 :: Vpn(v) == Vpn(va) ==> Leaf(v) == 0
    {
      forall v: u64 | Vpn(v) == Vpn(va)
        ensures Pt(I4(va), I3(va), I2(va)) !in at ==> Leaf(v) == 0
      {
        SameIndices(v, va);
      }
    }

    /** `get_page_table`: the page taken for the last-level table of an address, 0 for NULL. */
    function GetPageTable(va: u64): (page: nat)
      requires Valid()
      reads this, pmm, pmm.bitmap
      ensures page ==
        if !pagingEnabled || !Canonical(va) then 0
        else if InBootGigabyte(va) then I2(va) * 0x200
        else if Pt(I4(va), I3(va), I2(va)) in at then at[Pt(I4(va), I3(va), I2(va))] else 0
    {
      if !pagingEnabled || !Canonical(va) then 0
      else
        EitherPathRead(va);
        var pdptPage := EntryTable(Fetch(mem, pml4, I4(va)));
        var pdPage := if pdptPage == 0 then 0 else EntryTable(Fetch(mem, pdptPage, I3(va)));
        if pdPage == 0 then 0 else EntryTable(Fetch(mem, pdPage, I2(va)))
    }

    lemma EitherPathRead(va: u64)
      requires Valid() && pagingEnabled
      ensures
        var pdptPage := EntryTable(Fetch(mem, pml4, I4(va)));
        var pdPage := if pdptPage == 0 then 0 else EntryTable(Fetch(mem, pdptPage, I3(va)));
        (if pdPage == 0 then 0 else EntryTable(Fetch(mem, pdPage, I2(va)))) ==
          if InBootGigabyte(va) then I2(va) * 0x200
          else if Pt(I4(va), I3(va), I2(va)) in at then at[Pt(I4(va), I3(va), I2(va))] else 0
    {
      hide pmm.View, EntryTable;
      if InBootGigabyte(va) {
        BootPathRead(mem, pml4, at, va);
      } else {
        PathRead(mem, pml4, at, va);
      }
    }

    /** The MMU's view, from the leaf map. */
    lemma WalkIsLeaf(va: u64)
      requires Valid() && pagingEnabled
      ensures Walk(va) ==
        if InBootGigabyte(va) then Some(va % 0x4000_0000)
        else if Present(Leaf(va)) then Some(Frame(Leaf(va)) * PAGE_SIZE + va % PAGE_SIZE)
        else None
    {
      WalkOnTree(mem, pml4, at, va);
    }
  }
}
