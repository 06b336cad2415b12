/** Four-level x86-64 page tables over physical memory, following section 4.5 of
    the Intel SDM, Volume 3A: the walk the MMU performs, the tree shape the VMM
    keeps, and what one table update does to every translation. */
module PageTables {
  import opened Machine

  const ENTRIES: nat := 512

  /** Physical pages reachable through the bootstrap identity map (first GiB). */
  const BOOTSTRAP_PAGES: nat := 0x4_0000

  type Table = t: seq<u64> | |t| == ENTRIES witness seq(ENTRIES, _ => 0)

  /** Physical memory, page number to page content viewed as 512 entries. */
  type Memory = map<nat, Table>

  function ZeroTable(): (t: Table)
    ensures forall i :: 0 <= i < ENTRIES ==> t[i] == 0
  {
    seq(ENTRIES, _ => 0)
  }

  // ----- entries -----

  predicate Present(e: u64) { e % 2 == 1 }

  /** The PS bit (bit 7). */
  predicate LargePage(e: u64) { e / 0x80 % 2 == 1 }

  /** `e & PAGE_ADDRESS_MASK` (bits 51:12), as a page number. */
  function Frame(e: u64): nat { e / PAGE_SIZE % 0x100_0000_0000 }

  /** `table_entry`: address, present, writable. */
  function TableEntry(page: nat): u64
    requires page < 0x100_0000_0000
  {
    page * PAGE_SIZE + 3
  }

  /** The 2 MiB leaf `paging_init` writes: address, present, writable, PS. */
  function BootLeaf(index: nat): u64
    requires index < ENTRIES
  {
    index * 0x20_0000 + 0x83
  }

  lemma TableEntryFields(page: nat)
    requires page < 0x100_0000_0000
    ensures var e := TableEntry(page); e != 0 && Present(e) && !LargePage(e) && Frame(e) == page
  {}

  lemma BootLeafFields(index: nat)
    requires index < ENTRIES
    ensures var e := BootLeaf(index); e != 0 && Present(e) && LargePage(e) && Frame(e) == index * 0x200
  {
    assert BootLeaf(index) / PAGE_SIZE == index * 0x200;
    assert BootLeaf(index) / 0x80 == index * 0x4000 + 1;
  }

  /** `(physical & ADDRESS_MASK) | (flags & FLAG_MASK) | PRESENT`. */
  function LeafEntry(physical: u64, flags: u64): (e: u64)
    requires physical % PAGE_SIZE == 0 && physical < 0x10_0000_0000_0000 && flags < PAGE_SIZE
    ensures Present(e) && Frame(e) == physical / PAGE_SIZE
    ensures e % PAGE_SIZE == if flags % 2 == 1 then flags else flags + 1
  {
    physical + (if flags % 2 == 1 then flags else flags + 1)
  }

  // ----- virtual addresses -----

  function I4(va: u64): (i: nat) ensures i < ENTRIES { va / 0x80_0000_0000 % ENTRIES }
  function I3(va: u64): (i: nat) ensures i < ENTRIES { va / 0x4000_0000 % ENTRIES }
  function I2(va: u64): (i: nat) ensures i < ENTRIES { va / 0x20_0000 % ENTRIES }
  function I1(va: u64): (i: nat) ensures i < ENTRIES { va / 0x1000 % ENTRIES }

  /** Bits 47:12, the part of the address the walk looks at. */
  function Vpn(va: u64): nat { va / PAGE_SIZE % 0x10_0000_0000 }

  /** `canonical_address`: bits 63:48 all zero or all one (bit 47 is not compared). */
  predicate Canonical(va: u64) {
    var upper := va / 0x1_0000_0000_0000;
    upper == 0 || upper == 0xFFFF
  }

  /** What the hardware calls canonical: bits 63:47 all equal. */
  predicate TrulyCanonical(va: u64) {
    va < 0x8000_0000_0000 || va >= 0xFFFF_8000_0000_0000
  }

  /** The check accepts every canonical address, and beside those exactly the addresses
      whose bit 47 differs from the equal bits above it. */
  lemma CanonicalGap(va: u64)
    ensures Canonical(va) <==>
      TrulyCanonical(va)
      || (va / 0x8000_0000_0000 == 1 || va / 0x8000_0000_0000 == 0x1_FFFE)
    ensures Canonical(0x8000_0000_0000) && !TrulyCanonical(0x8000_0000_0000)
  {}

  /** Addresses whose low 48 bits fall in the first GiB, covered by 2 MiB leaves. */
  predicate InBootGigabyte(va: u64) { I4(va) == 0 && I3(va) == 0 }

  /** Two addresses use the same four indices exactly when bits 47:12 agree. */
  lemma SameIndices(a: u64, b: u64)
    ensures I4(a) == I4(b) && I3(a) == I3(b) && I2(a) == I2(b) && I1(a) == I1(b) <==> Vpn(a) == Vpn(b)
  {
    VpnFromIndices(a);
    VpnFromIndices(b);
  }

  lemma VpnFromIndices(va: u64)
    ensures Vpn(va) == ((I4(va) * ENTRIES + I3(va)) * ENTRIES + I2(va)) * ENTRIES + I1(va)
    ensures I1(va) == Vpn(va) % ENTRIES && I2(va) == Vpn(va) / ENTRIES % ENTRIES
    ensures I3(va) == Vpn(va) / 0x4_0000 % ENTRIES && I4(va) == Vpn(va) / 0x800_0000
  {
    ShiftShift(va, 0x1000, 0x200);
    ShiftShift(va, 0x1000, 0x4_0000);
    ShiftShift(va, 0x1000, 0x800_0000);
    LowBits(va / PAGE_SIZE);
  }

  /** Shifting in two steps. */
  lemma ShiftShift(x: nat, a: nat, b: nat)
    requires a == 0x1000 && (b == 0x200 || b == 0x4_0000 || b == 0x800_0000)
    ensures x / a / b == x / (a * b)
  {}

  /** Reducing modulo 2^36 keeps every nine-bit digit below. */
  lemma LowBits(p: nat)
    ensures
      var q := p % 0x10_0000_0000;
      && q % 0x200 == p % 0x200
      && q / 0x200 % 0x200 == p / 0x200 % 0x200
      && q / 0x4_0000 % 0x200 == p / 0x4_0000 % 0x200
      && q / 0x800_0000 == p / 0x800_0000 % 0x200
      && q == ((q / 0x800_0000 * 0x200 + q / 0x4_0000 % 0x200) * 0x200 + q / 0x200 % 0x200) * 0x200 + q % 0x200
  {
    var q, d := p % 0x10_0000_0000, p / 0x10_0000_0000;
    Split(p, q, d, 0x200, 0x800_0000);
    Split(p, q, d, 0x4_0000, 0x4_0000);
    Split(p, q, d, 0x800_0000, 0x200);
    LowDigit(d * 0x800_0000, q);
    LowDigit(d * 0x4_0000, q / 0x200);
    LowDigit(d * 0x200, q / 0x4_0000);
    LowDigit(d, q / 0x800_0000);
    Digits(q);
  }

  lemma LowDigit(a: nat, b: nat)
    ensures (a * 0x200 + b) % 0x200 == b % 0x200
  {}

  lemma Split(p: nat, q: nat, d: nat, low: nat, high: nat)
    requires p == d * 0x10_0000_0000 + q
    requires (low, high) == (0x200, 0x800_0000) || (low, high) == (0x4_0000, 0x4_0000)
      || (low, high) == (0x800_0000, 0x200)
    ensures p / low == d * high + q / low
  {
    if low == 0x200 {
      assert p / 0x200 == d * 0x800_0000 + q / 0x200;
    } else if low == 0x4_0000 {
      assert p / 0x4_0000 == d * 0x4_0000 + q / 0x4_0000;
    } else {
      assert p / 0x800_0000 == d * 0x200 + q / 0x800_0000;
    }
  }

  lemma Digits(q: nat)
    ensures q == ((q / 0x800_0000 * 0x200 + q / 0x4_0000 % 0x200) * 0x200 + q / 0x200 % 0x200) * 0x200 + q % 0x200
  {
    assert q / 0x200 / 0x200 == q / 0x4_0000;
    assert q / 0x4_0000 / 0x200 == q / 0x800_0000;
  }

  // ----- the MMU -----

  /** The entry at `index` of the table in page `page`; not-present outside memory. */
  function Fetch(mem: Memory, page: nat, index: nat): u64
    requires index < ENTRIES
  {
    if page in mem then mem[page][index] else 0
  }

  /** Where a walk ends: nowhere, or in a leaf of one of the three page sizes. */
  datatype Leaf = NotMapped | Giant(frame: nat) | Large(frame: nat) | Small(frame: nat)

  /** The hardware walk from the table in page `root` (CR3), given the four indices. */
  function Lookup(mem: Memory, root: nat, i4: nat, i3: nat, i2: nat, i1: nat): Leaf
    requires i4 < ENTRIES && i3 < ENTRIES && i2 < ENTRIES && i1 < ENTRIES
  {
    var e4 := Fetch(mem, root, i4);
    if !Present(e4) then NotMapped else
    var e3 := Fetch(mem, Frame(e4), i3);
    if !Present(e3) then NotMapped else
    if LargePage(e3) then Giant(Frame(e3)) else
    var e2 := Fetch(mem, Frame(e3), i2);
    if !Present(e2) then NotMapped else
    if LargePage(e2) then Large(Frame(e2)) else
    var e1 := Fetch(mem, Frame(e2), i1);
    if !Present(e1) then NotMapped else Small(Frame(e1))
  }

  /** The physical address the MMU produces, if any. */
  function Translate(mem: Memory, root: nat, va: u64): Option<nat> {
    match Lookup(mem, root, I4(va), I3(va), I2(va), I1(va))
    case NotMapped => None
    case Giant(f) => Some(f / 0x4_0000 * 0x4000_0000 + va % 0x4000_0000)
    case Large(f) => Some(f / 0x200 * 0x20_0000 + va % 0x20_0000)
    case Small(f) => Some(f * PAGE_SIZE + va % PAGE_SIZE)
  }

  // ----- the tree -----

  /** A position in the tree of tables: the indices on the way down from CR3. */
  datatype Node =
    | Pml4
    | Pdpt(i4: nat)
    | Pd(i4: nat, i3: nat)
    | Pt(i4: nat, i3: nat, i2: nat)

  function Child(n: Node, i: nat): Node
    requires !n.Pt?
  {
    match n
    case Pml4 => Pdpt(i)
    case Pdpt(i4) => Pd(i4, i)
    case Pd(i4, i3) => Pt(i4, i3, i)
  }

  /** Where each table of the tree lives. */
  type Placement = map<Node, nat>

  ghost predicate SlotOk(mem: Memory, at: Placement, n: Node, i: nat)
    requires n in at && at[n] in mem && i < ENTRIES
  {
    var e := mem[at[n]][i];
    match n
    case Pt(_, _, _) => e == 0 || Present(e)
    case _ =>
      if n == Pd(0, 0) then e == BootLeaf(i) && Child(n, i) !in at
      else if Child(n, i) in at then at[Child(n, i)] < BOOTSTRAP_PAGES && e == TableEntry(at[Child(n, i)])
      else e == 0
  }

  /** The tables reachable from `root` form a tree: one page per position, a pointer
      to that page in exactly the parent's slot, zero in every other slot. */
  ghost predicate Tree(mem: Memory, root: nat, at: Placement) {
    && Pml4 in at && at[Pml4] == root
    && Pdpt(0) in at && Pd(0, 0) in at
    && (forall p: nat :: p < BOOTSTRAP_PAGES ==> p in mem)
    && (forall n :: n in at ==> 0 < at[n] < BOOTSTRAP_PAGES)
    && (forall n, m :: n in at && m in at && at[n] == at[m] ==> n == m)
    && (forall n, i: nat :: n in at && !n.Pt? && Child(n, i) in at ==> i < ENTRIES)
    && (forall a, b :: Pd(a, b) in at ==> Pdpt(a) in at)
    && (forall a, b, c :: Pt(a, b, c) in at ==> Pd(a, b) in at)
    && (forall n, i :: n in at && 0 <= i < ENTRIES ==> SlotOk(mem, at, n, i))
  }

  /** The word in the last-level entry for `va`; 0 where there is no last-level table. */
  function LeafWord(mem: Memory, at: Placement, va: u64): u64 {
    var n := Pt(I4(va), I3(va), I2(va));
    if n in at then Fetch(mem, at[n], I1(va)) else 0
  }

  lemma LookupOnTree(mem: Memory, root: nat, at: Placement, a: nat, b: nat, c: nat, d: nat)
    requires Tree(mem, root, at)
    requires a < ENTRIES && b < ENTRIES && c < ENTRIES && d < ENTRIES
    ensures Lookup(mem, root, a, b, c, d) ==
      if a == 0 && b == 0 then Large(c * 0x200)
      else
        var word := if Pt(a, b, c) in at then Fetch(mem, at[Pt(a, b, c)], d) else 0;
        if Present(word) then Small(Frame(word)) else NotMapped
  {
    assert SlotOk(mem, at, Pml4, a);
    if Pdpt(a) in at {
      assert SlotOk(mem, at, Pdpt(a), b);
      TableEntryFields(at[Pdpt(a)]);
      if Pd(a, b) in at {
        assert SlotOk(mem, at, Pd(a, b), c);
        TableEntryFields(at[Pd(a, b)]);
        if a == 0 && b == 0 {
          BootLeafFields(c);
        } else if Pt(a, b, c) in at {
          TableEntryFields(at[Pt(a, b, c)]);
        }
      }
    }
  }

  /** On a tree the walk is: identity below 1 GiB, the leaf word elsewhere. */
  lemma WalkOnTree(mem: Memory, root: nat, at: Placement, va: u64)
    requires Tree(mem, root, at)
    ensures Translate(mem, root, va) ==
      if InBootGigabyte(va) then Some(va % 0x4000_0000)
      else if Present(LeafWord(mem, at, va)) then
        Some(Frame(LeafWord(mem, at, va)) * PAGE_SIZE + va % PAGE_SIZE)
      else None
  {
    LookupOnTree(mem, root, at, I4(va), I3(va), I2(va), I1(va));
    if InBootGigabyte(va) {
      BootLeafTarget(va);
    }
  }

  lemma BootLeafTarget(va: u64)
    ensures I2(va) * 0x20_0000 + va % 0x20_0000 == va % 0x4000_0000
  {
    var a := va / 0x20_0000;
    assert va / 0x4000_0000 == a / ENTRIES;
    assert a == a / ENTRIES * ENTRIES + a % ENTRIES;
  }

  /** Slot `i` of the table at `m` points at the table in `page`. */
  ghost predicate PointsAt(mem: Memory, at: Placement, m: Node, i: nat, page: nat) {
    && m in at && !m.Pt? && i < ENTRIES && at[m] in mem
    && var e := mem[at[m]][i];
       Present(e) && !LargePage(e) && Frame(e) == page
  }

  /** Every table but the root's has exactly one parent entry. */
  lemma UniqueParent(mem: Memory, root: nat, at: Placement, n: Node) returns (m: Node, i: nat)
    requires Tree(mem, root, at) && n in at && n != Pml4
    ensures PointsAt(mem, at, m, i, at[n]) && Child(m, i) == n
    ensures forall k, j :: PointsAt(mem, at, k, j, at[n]) ==> k == m && j == i
  {
    match n {
      case Pdpt(a) => m, i := Pml4, a;
      case Pd(a, b) => m, i := Pdpt(a), b;
      case Pt(a, b, c) => m, i := Pd(a, b), c;
    }
    assert m in at && Child(m, i) == n && i < ENTRIES;
    assert SlotOk(mem, at, m, i);
    TableEntryFields(at[n]);
    forall k, j | PointsAt(mem, at, k, j, at[n])
      ensures k == m && j == i
    {
      assert SlotOk(mem, at, k, j);
      if k == Pd(0, 0) {
        BootLeafFields(j);
        assert false;
      }
      TableEntryFields(at[Child(k, j)]);
    }
  }

  // ----- growing the tree -----

  /** Zeroing `page` and pointing slot `i` of the table in `parent` at it. */
  function Hook(mem: Memory, parent: nat, i: nat, page: nat): Memory
    requires parent in mem && parent != page && i < ENTRIES && page < BOOTSTRAP_PAGES
  {
    var cleared: Memory := mem[page := ZeroTable()];
    var slots: Table := cleared[parent][i := TableEntry(page)];
    cleared[parent := slots]
  }

  ghost predicate Hookable(mem: Memory, root: nat, at: Placement, n: Node, i: nat, page: nat) {
    && Tree(mem, root, at)
    && n in at && !n.Pt? && n != Pd(0, 0) && i < ENTRIES && Child(n, i) !in at
    && 0 < page < BOOTSTRAP_PAGES && (forall m :: m in at ==> at[m] != page)
  }

  /** Hooking a zeroed page into an empty slot keeps the tree. */
  lemma HookKeepsTree(mem: Memory, root: nat, at: Placement, n: Node, i: nat, page: nat)
    requires Hookable(mem, root, at, n, i, page)
    ensures Tree(Hook(mem, at[n], i, page), root, at[Child(n, i) := page])
  {
    var mem' := Hook(mem, at[n], i, page);
    var at' := at[Child(n, i) := page];
    forall m, j | m in at' && 0 <= j < ENTRIES
      ensures SlotOk(mem', at', m, j)
    {
      if m == Child(n, i) {
        NoGrandchild(mem, root, at, n, i, j);
      } else if m == n {
        HookedSlot(mem, root, at, n, i, page, j);
      } else {
        assert SlotOk(mem, at, m, j);
        assert at[m] != at[n];
      }
    }
  }

  lemma HookedSlot(mem: Memory, root: nat, at: Placement, n: Node, i: nat, page: nat, j: nat)
    requires Hookable(mem, root, at, n, i, page) && j < ENTRIES
    ensures SlotOk(Hook(mem, at[n], i, page), at[Child(n, i) := page], n, j)
  {
    assert SlotOk(mem, at, n, j);
  }

  /** An absent node has no child in the tree. */
  lemma NoGrandchild(mem: Memory, root: nat, at: Placement, n: Node, i: nat, j: nat)
    requires Tree(mem, root, at)
    requires !n.Pt? && Child(n, i) !in at
    ensures !Child(n, i).Pt? ==> Child(Child(n, i), j) !in at
  {}

  /** Hooking changes no leaf word; with WalkOnTree, no translation. */
  lemma HookKeepsLeaves(mem: Memory, root: nat, at: Placement, n: Node, i: nat, page: nat, va: u64)
    requires Hookable(mem, root, at, n, i, page)
    ensures LeafWord(Hook(mem, at[n], i, page), at[Child(n, i) := page], va) == LeafWord(mem, at, va)
  {
    var p := Pt(I4(va), I3(va), I2(va));
    if p in at {
      assert at[p] != at[n];
    }
  }

  /** Writing one last-level entry keeps the tree and changes exactly the leaf words
      of the addresses in that one virtual page. */
  lemma SetLeaf(mem: Memory, root: nat, at: Placement, va: u64, e: u64)
    requires Tree(mem, root, at)
    requires Pt(I4(va), I3(va), I2(va)) in at
    requires e == 0 || Present(e)
    ensures
      var page := at[Pt(I4(va), I3(va), I2(va))];
      var mem' := mem[page := mem[page][I1(va) := e]];
      && Tree(mem', root, at)
      && forall v: u64 :: LeafWord(mem', at, v) == if Vpn(v) == Vpn(va) then e else LeafWord(mem, at, v)
  {
    var n := Pt(I4(va), I3(va), I2(va));
    var page := at[n];
    var mem' := mem[page := mem[page][I1(va) := e]];
    forall m, j | m in at && 0 <= j < ENTRIES
      ensures SlotOk(mem', at, m, j)
    {
      assert SlotOk(mem, at, m, j);
    }
    forall v: u64
      ensures LeafWord(mem', at, v) == if Vpn(v) == Vpn(va) then e else LeafWord(mem, at, v)
    {
      SameIndices(v, va);
    }
  }

  // ----- the first GiB -----

  /** Where the walk of an address ends. */
  function LeafAt(mem: Memory, root: nat, va: u64): Leaf {
    Lookup(mem, root, I4(va), I3(va), I2(va), I1(va))
  }

  /** From `mem` to `mem'` the walk changed for one 4 KiB page alone, which now ends in
      `leaf`. */
  ghost predicate OneKey(mem: Memory, mem': Memory, root: nat, va: u64, leaf: Leaf) {
    forall v: u64 :: LeafAt(mem', root, v) == if Vpn(v) == Vpn(va) then leaf else LeafAt(mem, root, v)
  }

  /** A page under a 2 MiB leaf: another one with the same upper indices. */
  lemma Sibling(va: u64) returns (v: u64)
    ensures Vpn(v) != Vpn(va) && I4(v) == I4(va) && I3(v) == I3(va) && I2(v) == I2(va)
  {
    var block := va / 0x20_0000;
    var k := if I1(va) == 0 then 1 else 0;
    v := block * 0x20_0000 + k * 0x1000;
    assert v / 0x20_0000 == block && v / 0x1000 == block * 0x200 + k;
    assert v / 0x4000_0000 == block / 0x200 && va / 0x4000_0000 == block / 0x200;
    assert v / 0x80_0000_0000 == block / 0x4_0000 && va / 0x80_0000_0000 == block / 0x4_0000;
    assert I1(v) == k != I1(va);
    SameIndices(v, va);
  }

  /** No change of memory whatsoever maps or unmaps a single 4 KiB page below 1 GiB, where
      512 pages share a leaf. */
  lemma BootPagesShareLeaves(mem: Memory, mem': Memory, root: nat, at: Placement, va: u64, leaf: Leaf)
    requires Tree(mem, root, at) && InBootGigabyte(va) && (leaf.Small? || leaf.NotMapped?)
    ensures !OneKey(mem, mem', root, va, leaf)
  {
    var v := Sibling(va);
    LookupOnTree(mem, root, at, I4(v), I3(v), I2(v), I1(v));
    assert LeafAt(mem, root, v).Large?;
    assert LeafAt(mem', root, v).Large? ==> LeafAt(mem', root, va) == LeafAt(mem', root, v);
  }

  /** A table hooked into slot 0 of the boot page directory, with one entry set. */
  function Split2M(mem: Memory, pd: nat, page: nat, i1: nat, e: u64): Memory
    requires pd in mem && pd != page && i1 < ENTRIES && page < BOOTSTRAP_PAGES
  {
    var hooked := Hook(mem, pd, 0, page);
    var entries: Table := ZeroTable()[i1 := e];
    hooked[page := entries]
  }

  /** It takes the first 2 MiB away but for one page, and leaves all else as it was. */
  lemma SplitEffect(mem: Memory, root: nat, at: Placement, page: nat, i1: nat, e: u64,
                    a: nat, b: nat, c: nat, d: nat)
    requires Tree(mem, root, at) && i1 < ENTRIES && Present(e)
    requires 0 < page < BOOTSTRAP_PAGES && forall n :: n in at ==> at[n] != page
    requires a < ENTRIES && b < ENTRIES && c < ENTRIES && d < ENTRIES
    ensures Lookup(Split2M(mem, at[Pd(0, 0)], page, i1, e), root, a, b, c, d) ==
      if a == 0 && b == 0 && c == 0 then (if d == i1 then Small(Frame(e)) else NotMapped)
      else Lookup(mem, root, a, b, c, d)
  {
    var mem' := Split2M(mem, at[Pd(0, 0)], page, i1, e);
    assert SlotOk(mem, at, Pml4, a);
    if Pdpt(a) in at {
      assert SlotOk(mem, at, Pdpt(a), b);
      TableEntryFields(at[Pdpt(a)]);
      if Pd(a, b) in at {
        assert SlotOk(mem, at, Pd(a, b), c);
        TableEntryFields(at[Pd(a, b)]);
        TableEntryFields(page);
        if a == 0 && b == 0 {
          BootLeafFields(c);
        } else if Pt(a, b, c) in at {
          TableEntryFields(at[Pt(a, b, c)]);
        }
      }
    }
  }
}
