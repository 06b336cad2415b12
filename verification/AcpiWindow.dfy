/** The virtual window through which ACPI memory is mapped
    (`uacpi_kernel_map` and `uacpi_kernel_unmap`, `kernel/acpi/kernel_apis.c`). */
module AcpiWindow {
  import opened Machine
  import opened Bitmaps
  import opened PageTables
  import Pmm
  import Vmm

  const WINDOW_BASE: u64 := 0xFFFF_8000_0000_0000
  const WINDOW_PAGES: nat := 16384
  const RECORDS: nat := 256
  const WRITABLE: u64 := 2
  const IDENTITY_LIMIT: u64 := 0x4000_0000
  const MAP_FAILED: u64 := 0xFFFF_FFFF_FFFF_FFFF

  datatype Mapping = Mapping(virtualBase: u64, pageCount: u64)

  /** What a caller asked for when the record was made. */
  datatype Request = Request(addr: u64, len: u64)

  // ----- addresses -----

  function SlotAddress(slot: nat): u64
    requires slot < WINDOW_PAGES
  {
    WINDOW_BASE + slot * PAGE_SIZE
  }

  /** The slot whose virtual page contains `v`; outside [0, WINDOW_PAGES) for other pages. */
  function SlotOf(v: u64): int { Vpn(v) - 0x8_0000_0000 }

  function FirstSlot(m: Mapping): int { (m.virtualBase - WINDOW_BASE) / PAGE_SIZE }

  lemma SlotAddressFacts(slot: nat)
    requires slot < WINDOW_PAGES
    ensures
      var va := SlotAddress(slot);
      SlotOf(va) == slot && va % PAGE_SIZE == 0 && Canonical(va) && !InBootGigabyte(va)
  {
    var va := SlotAddress(slot);
    assert va / PAGE_SIZE == 0xF_FFF8_0000_0000 + slot;
    assert va / 0x80_0000_0000 == 0x1FF_FF00;
  }

  /** `((length + offset + 4095) & ~4095) / 4096`, or nothing when C's guards see a wrap. */
  function PageCount(address: u64, length: u64): (pages: Option<nat>)
    ensures pages.None? <==> address % 4096 + length + 4095 >= 0x1_0000_0000_0000_0000
    ensures pages.Some? ==> Spans(address, length, pages.value)
  {
    var offset := address % PAGE_SIZE;
    if length > TWO_64 - 1 - offset then None
    else if length + offset > TWO_64 - 1 - (PAGE_SIZE - 1) then None
    else Some(PageDown(length + offset + PAGE_SIZE - 1) / PAGE_SIZE)
  }

  /** So many pages, and no fewer, hold the bytes asked for. */
  predicate Spans(address: u64, length: u64, count: int) {
    (count - 1) * 4096 < address % 4096 + length <= count * 4096
  }

  lemma OneSpan(address: u64, length: u64, i: int, j: int)
    requires Spans(address, length, i) && Spans(address, length, j)
    ensures i == j
  {}

  /** The path `uacpi_kernel_map` takes without touching the window. */
  predicate IdentityMapped(addr: u64, len: u64) {
    addr < IDENTITY_LIMIT && len <= IDENTITY_LIMIT - addr
  }

  /** The last-level word of the `k`-th page of a mapping of `base`. */
  function Word(base: nat, k: int): int { base + k * PAGE_SIZE + WRITABLE + 1 }

  // ----- records against slots -----

  /** A record in use describes a run of slots, big enough for its request. */
  ghost predicate RecordOk(m: Mapping, q: Request) {
    || (m.pageCount == 0 && m.virtualBase == 0)
    || (&& m.pageCount > 0
        && m.virtualBase >= WINDOW_BASE && m.virtualBase % PAGE_SIZE == 0
        && FirstSlot(m) + m.pageCount <= WINDOW_PAGES
        && q.len > 0 && PageCount(q.addr, q.len) == Some(m.pageCount) && Spans(q.addr, q.len, m.pageCount)
        && PageDown(q.addr) + m.pageCount * PAGE_SIZE <= 0x10_0000_0000_0000)
  }

  ghost predicate Covers(m: Mapping, slot: int) {
    m.pageCount > 0 && FirstSlot(m) <= slot < FirstSlot(m) + m.pageCount
  }

  /** The slots of `m` were free before, and those alone are used besides now. */
  ghost predicate TakenBy(before: seq<bool>, after: seq<bool>, m: Mapping) {
    && |before| == |after| == WINDOW_PAGES && 0 <= FirstSlot(m)
    && after == Filled(before, FirstSlot(m), FirstSlot(m) + m.pageCount, true)
    && forall i: nat :: i < WINDOW_PAGES && Covers(m, i) ==> !before[i]
  }

  /** The set slot bits are the disjoint union of the record intervals: `owner`
      names, for each slot, the one record covering it, or is -1. */
  ghost predicate Partition(used: seq<bool>, ms: seq<Mapping>, qs: seq<Request>, owner: seq<int>) {
    && |used| == |owner| == WINDOW_PAGES && |ms| == |qs| == RECORDS
    && (forall r :: 0 <= r < RECORDS ==> RecordOk(ms[r], qs[r]))
    && (forall i :: 0 <= i < WINDOW_PAGES ==> -1 <= owner[i] < RECORDS && used[i] == (owner[i] >= 0))
    && (forall i, r :: 0 <= i < WINDOW_PAGES && 0 <= r < RECORDS ==> (owner[i] == r <==> Covers(ms[r], i)))
  }

  function Owned(owner: seq<int>, start: nat, count: nat, r: int): (o: seq<int>) {
    seq(|owner|, i requires 0 <= i < |owner| => if start <= i < start + count then r else owner[i])
  }

  lemma OpenRecord(used: seq<bool>, ms: seq<Mapping>, qs: seq<Request>, owner: seq<int>,
                   r: nat, m: Mapping, q: Request, start: nat)
    requires Partition(used, ms, qs, owner)
    requires r < RECORDS && ms[r].pageCount == 0
    requires RecordOk(m, q) && m.pageCount > 0 && FirstSlot(m) == start
    requires forall i :: start <= i < start + m.pageCount ==> !used[i]
    ensures Partition(Filled(used, start, start + m.pageCount, true), ms[r := m], qs[r := q],
                      Owned(owner, start, m.pageCount, r))
  {
    FilledAt(used, start, start + m.pageCount, true);
    OwnedAt(owner, start, m.pageCount, r);
    hide Filled, Owned, RecordOk, FirstSlot;
    var ms', owner' := ms[r := m], Owned(owner, start, m.pageCount, r);
    forall i, k | 0 <= i < WINDOW_PAGES && 0 <= k < RECORDS
      ensures owner'[i] == k <==> Covers(ms'[k], i)
    {
      assert owner[i] == k <==> Covers(ms[k], i);
    }
  }

  lemma CloseRecord(used: seq<bool>, ms: seq<Mapping>, qs: seq<Request>, owner: seq<int>, r: nat)
    requires Partition(used, ms, qs, owner)
    requires r < RECORDS && ms[r].pageCount > 0
    ensures FirstSlot(ms[r]) >= 0
    ensures
      var start, count := FirstSlot(ms[r]), ms[r].pageCount;
      Partition(Filled(used, start, start + count, false), ms[r := Mapping(0, 0)], qs,
                Owned(owner, start, count, -1))
  {
    assert RecordOk(ms[r], qs[r]);
    hide RecordOk, Filled, Owned;
    var start, count := FirstSlot(ms[r]), ms[r].pageCount;
    var ms', owner' := ms[r := Mapping(0, 0)], Owned(owner, start, count, -1);
    OwnedAt(owner, start, count, -1);
    FilledAt(used, start, start + count, false);
    EmptyRecord(qs[r]);
    forall i, k | 0 <= i < WINDOW_PAGES && 0 <= k < RECORDS
      ensures owner'[i] == k <==> Covers(ms'[k], i)
    {
      assert owner[i] == k <==> Covers(ms[k], i);
      assert owner[i] == r <==> Covers(ms[r], i);
    }
  }

  lemma OwnedAt(owner: seq<int>, start: nat, count: nat, r: int)
    ensures |Owned(owner, start, count, r)| == |owner|
    ensures forall i :: 0 <= i < |owner| ==>
      Owned(owner, start, count, r)[i] == if start <= i < start + count then r else owner[i]
  {}

  lemma FilledAt(v: seq<bool>, start: nat, end: nat, used: bool)
    ensures forall p :: 0 <= p < |v| ==> Filled(v, start, end, used)[p] == if start <= p < end then used else v[p]
  {}

  lemma EmptyRecord(q: Request)
    ensures RecordOk(Mapping(0, 0), q)
  {}

  lemma NoRecords(used: seq<bool>, ms: seq<Mapping>, qs: seq<Request>, owner: seq<int>)
    requires |used| == |owner| == WINDOW_PAGES && |ms| == |qs| == RECORDS
    requires forall i :: 0 <= i < WINDOW_PAGES ==> !used[i] && owner[i] == -1
    requires forall r :: 0 <= r < RECORDS ==> ms[r] == Mapping(0, 0)
    ensures Partition(used, ms, qs, owner)
  {}

  /** Byte `offset` of the window area starting at slot `first`. */
  lemma WindowByte(first: nat, offset: nat)
    requires first + offset / PAGE_SIZE < WINDOW_PAGES
    ensures
      var v := WINDOW_BASE + first * PAGE_SIZE + offset;
      && v < TWO_64 && v % PAGE_SIZE == offset % PAGE_SIZE
      && SlotOf(v) == first + offset / PAGE_SIZE && !InBootGigabyte(v)
  {
    var slot, r := first + offset / PAGE_SIZE, offset % PAGE_SIZE;
    var v := WINDOW_BASE + slot * PAGE_SIZE + r;
    assert v == WINDOW_BASE + first * PAGE_SIZE + offset;
    assert v / PAGE_SIZE == 0xF_FFF8_0000_0000 + slot;
    assert v / 0x80_0000_0000 == 0x1FF_FF00;
  }

  lemma WordFields(base: u64, k: nat)
    requires base % PAGE_SIZE == 0 && base + k * PAGE_SIZE < 0x10_0000_0000_0000
    ensures
      var w := Word(base, k);
      w < TWO_64 && w != 0 && Present(w) && Frame(w) * PAGE_SIZE == base + k * PAGE_SIZE
  {
    var page := base / PAGE_SIZE + k;
    assert base == base / PAGE_SIZE * PAGE_SIZE;
    LowFlags(Word(base, k), page);
  }

  lemma LowFlags(w: nat, page: nat)
    requires w == page * PAGE_SIZE + 3
    ensures w / PAGE_SIZE == page && w % 2 == 1
  {}

  lemma AllClear(bytes: seq<bv8>)
    requires forall i :: 0 <= i < |bytes| ==> bytes[i] == 0
    ensures forall i :: 0 <= i < 8 * |bytes| ==> !Bits(bytes)[i]
  {}

  // ----- tables for a run of slots -----

  /** The tables on the way to any of the slots. */
  ghost function RunTables(start: nat, count: nat): set<Node>
    requires start + count <= WINDOW_PAGES
  {
    if count == 0 then {}
    else RunTables(start, count - 1) + Vmm.TablesFor(SlotAddress(start + count - 1))
  }

  /** How many of them are missing. */
  ghost function RunMissing(at: Placement, start: nat, count: nat): nat
    requires start + count <= WINDOW_PAGES
  {
    |RunTables(start, count) - at.Keys|
  }

  lemma NoTables(at: Placement, start: nat)
    requires start <= WINDOW_PAGES
    ensures RunTables(start, 0) == {} && RunMissing(at, start, 0) == 0
  {
    assert RunTables(start, 0) - at.Keys == {};
  }

  lemma MissingCount(mem: Memory, root: nat, at: Placement, va: u64)
    requires Tree(mem, root, at)
    ensures Vmm.Missing(at, va) == |Vmm.TablesFor(va) - at.Keys|
  {
    OnTheWay(Pdpt(I4(va)), Pd(I4(va), I3(va)), Pt(I4(va), I3(va), I2(va)), at.Keys);
  }

  lemma OnTheWay(a: Node, b: Node, c: Node, k: set<Node>)
    requires a != b && a != c && b != c && (b in k ==> a in k) && (c in k ==> b in k)
    ensures |{a, b, c} - k| == if a !in k then 3 else if b !in k then 2 else if c !in k then 1 else 0
  {
    assert {a, b, c} - k == if a !in k then {a, b, c} else if b !in k then {b, c} else if c !in k then {c} else {};
  }

  /** The tables of a longer run: those of the shorter one, and those the next slot lacks then. */
  lemma RunStep(mem: Memory, root: nat, at0: Placement, at: Placement, start: nat, index: nat)
    requires start + index < WINDOW_PAGES && Tree(mem, root, at)
    requires at.Keys == at0.Keys + RunTables(start, index)
    ensures RunTables(start, index + 1) == RunTables(start, index) + Vmm.TablesFor(SlotAddress(start + index))
    ensures RunMissing(at0, start, index + 1) ==
      RunMissing(at0, start, index) + Vmm.Missing(at, SlotAddress(start + index))
  {
    hide Tree, Vmm.TablesFor, Vmm.Missing, SlotAddress;
    var va := SlotAddress(start + index);
    MissingCount(mem, root, at, va);
    CountMore(RunTables(start, index), Vmm.TablesFor(va), at0.Keys, at.Keys);
  }

  lemma CountMore(s: set<Node>, t: set<Node>, k0: set<Node>, k: set<Node>)
    requires k == k0 + s
    ensures |s + t - k0| == |s - k0| + |t - k|
  {
    assert s + t - k0 == (s - k0) + (t - k) && (s - k0) !! (t - k);
  }

  lemma {:induction false} RunMissingGrows(at: Placement, start: nat, i: nat, j: nat)
    requires i <= j && start + j <= WINDOW_PAGES
    ensures RunMissing(at, start, i) <= RunMissing(at, start, j)
    decreases j
  {
    hide RunMissing;
    if i < j {
      RunMissingGrows(at, start, i, j - 1);
      OneMoreSlot(at, start, j);
    }
  }

  lemma OneMoreSlot(at: Placement, start: nat, j: nat)
    requires 0 < j && start + j <= WINDOW_PAGES
    ensures RunMissing(at, start, j - 1) <= RunMissing(at, start, j)
  {
    var more := Vmm.TablesFor(SlotAddress(start + j - 1));
    assert RunTables(start, j) == RunTables(start, j - 1) + more;
    hide Vmm.TablesFor, SlotAddress, RunTables;
    Subset(RunTables(start, j - 1) - at.Keys, RunTables(start, j) - at.Keys);
  }

  lemma {:induction false} Subset(a: set<Node>, b: set<Node>)
    requires a <= b
    ensures |a| <= |b|
  {
    assert b == a + (b - a) && a !! (b - a);
  }

  /** The first run of `count` free slots. */
  ghost predicate FirstRun(used: seq<bool>, start: nat, count: nat)
    requires |used| == WINDOW_PAGES
  {
    && start + count <= WINDOW_PAGES && (forall i :: start <= i < start + count ==> !used[i])
    && forall s: nat :: s < start ==> Window.Blocked(used, s, count)
  }

  lemma OneFirstRun(used: seq<bool>, s: nat, t: nat, count: nat)
    requires |used| == WINDOW_PAGES && FirstRun(used, s, count) && FirstRun(used, t, count)
    ensures s == t
  {
    FreeNotBlocked(used, s, count);
    FreeNotBlocked(used, t, count);
  }

  lemma FreeOrBlocked(used: seq<bool>, s: nat, count: nat)
    requires |used| == WINDOW_PAGES && s + count <= WINDOW_PAGES
    ensures (forall i :: s <= i < s + count ==> !used[i]) <==> !Window.Blocked(used, s, count)
  {}

  lemma FreeNotBlocked(used: seq<bool>, s: nat, count: nat)
    requires |used| == WINDOW_PAGES && s + count <= WINDOW_PAGES && forall i :: s <= i < s + count ==> !used[i]
    ensures !Window.Blocked(used, s, count)
  {}

  /** The first run lacks more tables than there are pages for. */
  ghost predicate TooFewTables(used: seq<bool>, at: Placement, freeLow: nat, count: nat)
    requires |used| == WINDOW_PAGES
  {
    exists start: nat :: FirstRun(used, start, count) && RunMissing(at, start, count) > freeLow
  }

  lemma OnlyRun(used: seq<bool>, at: Placement, freeLow: nat, start: nat, count: nat)
    requires |used| == WINDOW_PAGES && FirstRun(used, start, count)
    ensures TooFewTables(used, at, freeLow, count) <==> RunMissing(at, start, count) > freeLow
    ensures !Window.NoRun(used, count)
  {
    FreeNotBlocked(used, start, count);
    if TooFewTables(used, at, freeLow, count) {
      var s: nat :| FirstRun(used, s, count) && RunMissing(at, s, count) > freeLow;
      OneFirstRun(used, s, start, count);
    }
  }

  class Window {
    const vmm: Vmm.Editor
    const slots: array<bv8>
    const mappings: array<Mapping>
    /** For each slot the record covering it, or -1. */
    ghost var owner: seq<int>
    /** For each record the request it serves. */
    ghost var requests: seq<Request>

    ghost function Used(): (v: seq<bool>)
      reads slots
      ensures |v| == 8 * slots.Length
    {
      Bits(slots[..])
    }

    /** A free slot translates to nothing; a covered slot maps its page of the request. */
    ghost predicate LeafOk(v: u64)
      reads this, vmm, vmm.pmm, slots, mappings
      requires Arrays() && Partition(Used(), mappings[..], requests, owner)
      requires 0 <= SlotOf(v) < WINDOW_PAGES
    {
      var r := owner[SlotOf(v)];
      vmm.Leaf(v) == if r < 0 then 0 else Word(PageDown(requests[r].addr), SlotOf(v) - FirstSlot(mappings[r]))
    }

    /** Outside a run of slots the translations are those of the records. */
    ghost predicate RestShown(used: seq<bool>, start: nat, count: nat)
      reads this, vmm, vmm.pmm, mappings
      requires Arrays() && Partition(used, mappings[..], requests, owner)
    {
      forall v: u64 :: 0 <= SlotOf(v) < WINDOW_PAGES && !(start <= SlotOf(v) < start + count) ==>
        vmm.Leaf(v) == var o := owner[SlotOf(v)];
          if o < 0 then 0 else Word(PageDown(requests[o].addr), SlotOf(v) - FirstSlot(mappings[o]))
    }

    ghost predicate Translations()
      reads this, vmm, vmm.pmm, slots, mappings
      requires Arrays() && Partition(Used(), mappings[..], requests, owner)
    {
      forall v: u64 :: 0 <= SlotOf(v) < WINDOW_PAGES ==> LeafOk(v)
    }

    ghost predicate Arrays()
      reads this, vmm, vmm.pmm
    {
      && slots.Length * 8 == WINDOW_PAGES && mappings.Length == RECORDS
      && slots != vmm.pmm.bitmap
    }

    ghost predicate Valid()
      reads this, slots, mappings, vmm, vmm.pmm, vmm.pmm.bitmap
    {
      && vmm.Valid() && vmm.pagingEnabled
      && Arrays()
      && Partition(Used(), mappings[..], requests, owner)
      && Translations()
    }

    /** The zero-initialised statics, once paging is on and the window unused. */
    constructor (vmm: Vmm.Editor)
      requires vmm.Valid() && vmm.pagingEnabled
      requires forall v: u64 :: vmm.Leaf(v) == 0
      ensures Valid() && this.vmm == vmm && fresh(slots) && fresh(mappings)
      ensures forall r :: 0 <= r < RECORDS ==> mappings[r].pageCount == 0
    {
      this.vmm := vmm;
      slots := new bv8[2048](_ => 0);
      mappings := new Mapping[RECORDS](_ => Mapping(0, 0));
      owner := seq(WINDOW_PAGES, _ => -1);
      requests := seq(RECORDS, _ => Request(0, 0));
      new;
      hide vmm.Valid, vmm.Leaf, vmm.Walk, vmm.pmm.View, Bits, BitOf, SlotOf, Partition, Word;
      AllClear(slots[..]);
      NoRecords(Used(), mappings[..], requests, owner);
    }

    /** The memory one call returned is really there: every byte of the request
        translates to the byte asked for. */
    ghost predicate Honoured(q: Request, va: u64)
      reads vmm
    {
      va + q.len <= TWO_64
      && forall v: u64 :: va <= v < va + q.len ==> vmm.Walk(v) == Some(q.addr + (v - va))
    }

    ghost predicate Live(r: int)
      reads mappings
    {
      0 <= r < mappings.Length && mappings[r].pageCount > 0
    }

    /** The address handed out for record `r`. */
    ghost function Handle(r: int): int
      reads this, mappings
      requires 0 <= r < mappings.Length && r < |requests|
    {
      mappings[r].virtualBase + requests[r].addr % PAGE_SIZE
    }

    /** In every reachable state every live window mapping is honoured. */
    lemma LiveHonoured(r: int)
      requires Valid() && Live(r)
      ensures Handle(r) < TWO_64 && Honoured(requests[r], Handle(r))
    {
      hide vmm.Valid, vmm.Walk, vmm.Leaf, Used, Vpn, Word, InBootGigabyte, PageCount;
      var q, m := requests[r], mappings[r];
      ByteInMapping(m, q, 0);
      ByteInMapping(m, q, q.len - 1);
      forall v: u64 | Handle(r) <= v < Handle(r) + q.len
        ensures vmm.Walk(v) == Some(q.addr + (v - Handle(r)))
      {
        ByteInMapping(m, q, v - Handle(r));
        assert owner[SlotOf(v)] == r;
        vmm.WalkIsLeaf(v);
      }
    }

    /** Where byte `i` of a request falls. */
    lemma ByteInMapping(m: Mapping, q: Request, i: nat)
      requires RecordOk(m, q) && m.pageCount > 0 && i < q.len
      ensures
        var v := m.virtualBase + q.addr % PAGE_SIZE + i;
        && v < TWO_64
        && !InBootGigabyte(v)
        && Covers(m, SlotOf(v))
        && var w := Word(PageDown(q.addr), SlotOf(v) - FirstSlot(m));
           0 <= w < TWO_64 && Present(w) && Frame(w) * PAGE_SIZE + v % PAGE_SIZE == q.addr + i
    {
      var offset := q.addr % PAGE_SIZE + i;
      assert offset / PAGE_SIZE < m.pageCount;
      WindowByte(FirstSlot(m), offset);
      assert m.virtualBase == WINDOW_BASE + FirstSlot(m) * PAGE_SIZE;
      WordFields(PageDown(q.addr), offset / PAGE_SIZE);
    }

    // ----- slots and records -----

    /** No run of `count` free slots starts anywhere. */
    static ghost predicate NoRun(used: seq<bool>, count: nat)
      requires |used| == WINDOW_PAGES
    {
      forall s: nat :: s + count <= WINDOW_PAGES ==> Blocked(used, s, count)
    }

    static ghost predicate Blocked(used: seq<bool>, s: nat, count: nat)
      requires |used| == WINDOW_PAGES && s + count <= WINDOW_PAGES
    {
      exists i :: s <= i < s + count && used[i]
    }

    /** `reserve_slots`: first fit; fails exactly when no run fits. */
    method ReserveSlots(count: nat) returns (ok: bool, start: nat)
      requires Arrays()
      modifies slots
      ensures !ok ==> Used() == old(Used())
      ensures !ok ==> count == 0 || count > WINDOW_PAGES || NoRun(Used(), count)
      ensures ok ==>
        && 0 < count && start + count <= WINDOW_PAGES
        && (forall i :: start <= i < start + count ==> !old(Used())[i])
        && (forall s :: 0 <= s < start ==> Blocked(old(Used()), s, count))
        && Used() == Filled(old(Used()), start, start + count, true)
    {
      start := 0;
      if count == 0 || count > WINDOW_PAGES {
        return false, 0;
      }
      while start <= WINDOW_PAGES - count
        invariant start <= WINDOW_PAGES - count + 1
        invariant Used() == old(Used())
        invariant forall s :: 0 <= s < start ==> Blocked(Used(), s, count)
        modifies {}
      {
        var index := 0;
        while index < count
          invariant index <= count
          invariant forall i :: start <= i < start + index ==> !Used()[i]
          modifies {}
        {
          var used := TestBit(slots, start + index);
          if used {
            break;
          }
          index := index + 1;
        }
        if index == count {
          break;
        }
        assert Blocked(Used(), start, count);
        start := start + 1;
      }
      if start > WINDOW_PAGES - count {
        return false, 0;
      }
      FillSlots(start, count, true);
      return true, start;
    }

    /** The loops that set or clear a run of slots. */
    method FillSlots(start: nat, count: nat, used: bool)
      requires Arrays() && start + count <= WINDOW_PAGES
      modifies slots
      ensures Used() == Filled(old(Used()), start, start + count, used)
    {
      ghost var was := Used();
      FilledNone(was, start, start, used);
      for index := 0 to count
        invariant Used() == Filled(was, start, start + index, used)
      {
        FilledStep(was, start, start + index, used);
        if used {
          SetBit(slots, start + index);
        } else {
          ClearBit(slots, start + index);
        }
      }
    }

    /** `release_slots`. */
    method ReleaseSlots(start: nat, count: nat)
      requires Arrays()
      modifies slots
      ensures Used() ==
        if start >= WINDOW_PAGES || count > WINDOW_PAGES - start then old(Used())
        else Filled(old(Used()), start, start + count, false)
    {
      if start >= WINDOW_PAGES || count > WINDOW_PAGES - start {
        return;
      }
      FillSlots(start, count, false);
    }

    /** `reserve_mapping_record`: the first unused record, or -1. */
    method ReserveMappingRecord() returns (r: int)
      requires Arrays()
      ensures -1 <= r < RECORDS
      ensures r == -1 ==> forall j :: 0 <= j < RECORDS ==> Live(j)
      ensures r >= 0 ==> !Live(r) && forall j :: 0 <= j < r ==> Live(j)
    {
      for index := 0 to RECORDS
        invariant forall j :: 0 <= j < index ==> Live(j)
      {
        if mappings[index].pageCount == 0 {
          return index;
        }
      }
      return -1;
    }

    /** `find_mapping`: the record with this base and size, or -1. */
    method FindMapping(virtualBase: u64, pageCount: u64) returns (r: int)
      requires Arrays()
      ensures -1 <= r < RECORDS
      ensures r == -1 ==> Mapping(virtualBase, pageCount) !in mappings[..]
      ensures r >= 0 ==> mappings[r] == Mapping(virtualBase, pageCount)
    {
      for index := 0 to RECORDS
        invariant forall j :: 0 <= j < index ==> mappings[j] != Mapping(virtualBase, pageCount)
      {
        if mappings[index].virtualBase == virtualBase && mappings[index].pageCount == pageCount {
          return index;
        }
      }
      return -1;
    }

    // ----- pages -----

    /** `mapping_was_installed`.  The present bit is not tested; outside the boot GiB and
        for a non-zero physical page the answer is right all the same, because every
        last-level word is either zero or present.  Inside it a word of data is compared. */
    method MappingWasInstalled(va: u64, physical: u64) returns (installed: bool)
      requires vmm.Valid()
      ensures !(vmm.pagingEnabled && Canonical(va)) ==> !installed
      ensures vmm.pagingEnabled && Canonical(va) && !InBootGigabyte(va) && physical != 0 ==>
        (installed <==> Present(vmm.Leaf(va)) && Frame(vmm.Leaf(va)) * PAGE_SIZE == physical)
      ensures vmm.pagingEnabled && Canonical(va) && !InBootGigabyte(va) && physical == 0 ==>
        (installed <==> Pt(I4(va), I3(va), I2(va)) in vmm.at && Frame(vmm.Leaf(va)) == 0)
      ensures vmm.pagingEnabled && Canonical(va) && InBootGigabyte(va) ==>
        (installed <==> I2(va) > 0 && Frame(Fetch(vmm.mem, I2(va) * 0x200, I1(va))) * PAGE_SIZE == physical)
    {
      hide vmm.pmm.View;
      var table := vmm.GetPageTable(va);
      if table == 0 {
        return false;
      }
      if !InBootGigabyte(va) {
        assert SlotOk(vmm.mem, vmm.at, Pt(I4(va), I3(va), I2(va)), I1(va));
      }
      return Frame(vmm.mem[table][I1(va)]) * PAGE_SIZE == physical;
    }

    /** One round of the mapping loop: map a page and look whether it is there. */
    method ShowPage(slot: nat, va: u64, physical: u64) returns (installed: bool)
      requires vmm.Valid() && vmm.pagingEnabled && slot < WINDOW_PAGES && va == SlotAddress(slot)
      requires physical != 0 && physical % PAGE_SIZE == 0
      requires forall v: u64 :: SlotOf(v) == slot ==> vmm.Leaf(v) == 0
      modifies vmm`mem, vmm`at, vmm.pmm`freePages, vmm.pmm.bitmap
      ensures vmm.Valid()
      ensures installed <==>
        physical < 0x10_0000_0000_0000 && Vmm.Missing(old(vmm.at), va) <= Pmm.FreeLow(old(vmm.pmm.View()))
      ensures installed ==>
        && vmm.at.Keys == old(vmm.at).Keys + Vmm.TablesFor(va)
        && Pmm.FreeLow(vmm.pmm.View()) == Pmm.FreeLow(old(vmm.pmm.View())) - Vmm.Missing(old(vmm.at), va)
        && forall v: u64 ::
             vmm.Leaf(v) == (if SlotOf(v) == slot then physical + WRITABLE + 1 else old(vmm.Leaf(v)))
      ensures !installed ==> forall v: u64 :: vmm.Leaf(v) == old(vmm.Leaf(v))
    {
      hide vmm.Valid, vmm.Leaf, vmm.pmm.View, Vmm.Grown, Vmm.ChangesOneKey, vmm.BootOutcome, Vmm.Missing, Pmm.FreeLow,
        Vmm.TablesFor;
      SlotAddressFacts(slot);
      vmm.MapPage(va, physical, WRITABLE);
      installed := MappingWasInstalled(va, physical);
    }

    /** The mapping loop of `uacpi_kernel_map`, with its rollback: either every page
        of the run shows its page of `base`, or no translation has changed. */
    method MapPages(start: nat, count: nat, base: u64) returns (ok: bool)
      requires vmm.Valid() && vmm.pagingEnabled
      requires start + count <= WINDOW_PAGES && 0 < base && base % PAGE_SIZE == 0
      requires forall v: u64 :: start <= SlotOf(v) < start + count ==> vmm.Leaf(v) == 0
      modifies vmm`mem, vmm`at, vmm.pmm`freePages, vmm.pmm.bitmap
      ensures vmm.Valid()
      ensures ok <==>
        (count > 0 ==>
           && base + count * PAGE_SIZE <= 0x10_0000_0000_0000
           && RunMissing(old(vmm.at), start, count) <= Pmm.FreeLow(old(vmm.pmm.View())))
      ensures ok ==> forall v: u64 ::
        vmm.Leaf(v) == (if start <= SlotOf(v) < start + count then Word(base, SlotOf(v) - start)
                        else old(vmm.Leaf(v)))
      ensures !ok ==> forall v: u64 :: vmm.Leaf(v) == old(vmm.Leaf(v))
    {
      hide vmm.Leaf, vmm.pmm.View, vmm.TablesUsed, Tree, Vmm.Grown, RunMissing, RunTables, Vmm.Missing,
        Vmm.TablesFor, Pmm.FreeLow, PageDown;
      var index := 0;
      ghost var at0 := vmm.at;
      NoTables(at0, start);
      while index < count
        invariant index <= count
        invariant vmm.Valid() && vmm.pagingEnabled
        invariant index > 0 ==> base + index * PAGE_SIZE <= 0x10_0000_0000_0000
        invariant vmm.at.Keys == at0.Keys + RunTables(start, index)
        invariant Pmm.FreeLow(vmm.pmm.View()) + RunMissing(at0, start, index) == Pmm.FreeLow(old(vmm.pmm.View()))
        invariant forall v: u64 ::
          vmm.Leaf(v) == (if start <= SlotOf(v) < start + index then Word(base, SlotOf(v) - start)
                          else old(vmm.Leaf(v)))
      {
        SlotAddressFacts(start + index);
        var virtualPage := SlotAddress(start + index);
        var physicalPage := (base + index * PAGE_SIZE) % TWO_64;
        assert physicalPage == base + index * PAGE_SIZE != 0;
        RunStep(vmm.mem, vmm.pml4, at0, vmm.at, start, index);
        RunMissingGrows(at0, start, index + 1, count);
        var installed := ShowPage(start + index, virtualPage, physicalPage);
        if !installed {
          Rollback(start, index);
          return false;
        }
        index := index + 1;
      }
      return true;
    }

    /** Unmap the slots [start, start + index), last first. */
    method Rollback(start: nat, index: nat)
      requires vmm.Valid() && vmm.pagingEnabled && start + index <= WINDOW_PAGES
      modifies vmm`mem
      ensures vmm.Valid()
      ensures forall v: u64 ::
        vmm.Leaf(v) == (if start <= SlotOf(v) < start + index then 0 else old(vmm.Leaf(v)))
    {
      hide vmm.Valid, vmm.Leaf, Vmm.Grown;
      var i := index;
      while i != 0
        invariant 0 <= i <= index
        invariant vmm.Valid()
        invariant forall v: u64 ::
          vmm.Leaf(v) == (if start + i <= SlotOf(v) < start + index then 0 else old(vmm.Leaf(v)))
      {
        i := i - 1;
        SlotAddressFacts(start + i);
        vmm.UnmapPage(SlotAddress(start + i));
      }
    }

    // ----- the two entry points -----

    /** Slots, records and translations are what they were. */
    twostate predicate SameState()
      reads this, vmm, vmm.pmm, slots, mappings
    {
      && Used() == old(Used()) && mappings[..] == old(mappings[..])
      && forall v: u64 :: vmm.Leaf(v) == old(vmm.Leaf(v))
    }

    /** And so are the requests being served. */
    twostate predicate Untouched()
      reads this, vmm, vmm.pmm, slots, mappings
    {
      SameState() && requests == old(requests)
    }

    /** Why a request for `count` pages fails: no record, no run of slots, an address beyond
        the 52 bits of an entry, or too few low pages for the tables the run lacks. */
    ghost predicate CannotMap(addr: u64, count: nat)
      reads this, slots, mappings, vmm, vmm.pmm, vmm.pmm.bitmap
      requires Arrays() && vmm.pmm.Valid()
    {
      (forall r :: 0 <= r < RECORDS ==> Live(r)) || CannotShow(PageDown(addr), count)
    }

    /** No live mapping reaches into the slots [s, s + count). */
    ghost predicate Clear(s: nat, count: nat)
      reads mappings
    {
      forall r :: 0 <= r < mappings.Length && mappings[r].pageCount > 0 ==>
        || mappings[r].virtualBase + mappings[r].pageCount * 4096 <= 0xFFFF_8000_0000_0000 + s * 4096
        || 0xFFFF_8000_0000_0000 + (s + count) * 4096 <= mappings[r].virtualBase
    }

    lemma ClearIsFree(s: nat, count: nat)
      requires Valid() && 0 < count && s + count <= WINDOW_PAGES
      ensures Clear(s, count) <==> !Blocked(Used(), s, count)
    {
      hide vmm.Valid, vmm.Leaf, Translations, Used, Filled, PageCount, Spans;
      if Clear(s, count) {
        forall i | s <= i < s + count
          ensures !Used()[i]
        {
          CoveredBytes(i);
        }
      } else {
        var r :| 0 <= r < mappings.Length && mappings[r].pageCount > 0
          && mappings[r].virtualBase + mappings[r].pageCount * 4096 > 0xFFFF_8000_0000_0000 + s * 4096
          && 0xFFFF_8000_0000_0000 + (s + count) * 4096 > mappings[r].virtualBase;
        assert RecordOk(mappings[r], requests[r]);
        var first := FirstSlot(mappings[r]);
        var i := if first < s then s else first;
        assert mappings[r].virtualBase == WINDOW_BASE + first * PAGE_SIZE;
        assert owner[i] == r <==> Covers(mappings[r], i);
        assert Used()[i];
      }
    }

    lemma CoveredBytes(i: nat)
      requires Valid() && i < WINDOW_PAGES
      ensures Used()[i] ==>
        var r := owner[i];
        && 0 <= r < mappings.Length && mappings[r].pageCount > 0
        && mappings[r].virtualBase <= WINDOW_BASE + i * PAGE_SIZE
        && WINDOW_BASE + (i + 1) * PAGE_SIZE <= mappings[r].virtualBase + mappings[r].pageCount * PAGE_SIZE
    {
      hide vmm.Valid, vmm.Leaf, Translations, Used, Filled, PageCount, Spans;
      if Used()[i] {
        var r := owner[i];
        assert RecordOk(mappings[r], requests[r]) && Covers(mappings[r], i);
        assert mappings[r].virtualBase == WINDOW_BASE + FirstSlot(mappings[r]) * PAGE_SIZE;
      }
    }

    /** The causes of a failure, read off the live mappings. */
    lemma CannotMapMeans(addr: u64, count: nat)
      requires Valid() && 0 < count <= WINDOW_PAGES
      ensures CannotMap(addr, count) <==>
        || (forall r :: 0 <= r < 256 ==> mappings[r].pageCount > 0)
        || (forall s: nat :: s + count <= 16384 ==> !Clear(s, count))
        || addr - addr % 4096 + count * 4096 > 0x10_0000_0000_0000
        || (exists s: nat :: s + count <= 16384 && Clear(s, count) && (forall t: nat :: t < s ==> !Clear(t, count))
              && RunMissing(vmm.at, s, count) > Pmm.FreeLow(vmm.pmm.View()))
    {
      hide vmm.Leaf, vmm.TablesUsed, Used, Translations, Partition, Clear, RunMissing, Pmm.FreeLow, Blocked;
      forall s: nat | s + count <= WINDOW_PAGES
        ensures Clear(s, count) <==> !Blocked(Used(), s, count)
      {
        ClearIsFree(s, count);
      }
      forall s: nat | s + count <= WINDOW_PAGES
        ensures (forall i :: s <= i < s + count ==> !Used()[i]) <==> !Blocked(Used(), s, count)
      {
        FreeOrBlocked(Used(), s, count);
      }
      var missing, low := vmm.at, Pmm.FreeLow(vmm.pmm.View());
      assert TooFewTables(Used(), missing, low, count) <==>
        exists s: nat :: s + count <= 16384 && Clear(s, count) && (forall t: nat :: t < s ==> !Clear(t, count))
          && RunMissing(missing, s, count) > low;
      assert forall r :: 0 <= r < RECORDS ==> (Live(r) <==> mappings[r].pageCount > 0);
    }

    /** Why a request outside the identity map fails. */
    ghost predicate Refused(addr: u64, len: u64)
      reads this, slots, mappings, vmm, vmm.pmm, vmm.pmm.bitmap
      requires Arrays() && vmm.pmm.Valid()
    {
      var pages := PageCount(addr, len);
      pages == None || pages.value > WINDOW_PAGES || CannotMap(addr, pages.value)
    }

    /** The length is refused for its own sake when rounding it up wraps or gives more
        pages than the window has; else the pages it spans decide. */
    lemma RefusedMeans(addr: u64, len: u64)
      requires Valid()
      ensures Refused(addr, len) <==>
        || addr % 4096 + len + 4095 >= 0x1_0000_0000_0000_0000 || addr % 4096 + len > 16384 * 4096
        || exists count: nat :: Spans(addr, len, count) && CannotMap(addr, count)
    {
      hide CannotMap, Valid, PageCount;
      var pages := PageCount(addr, len);
      if pages.Some? {
        forall count: nat | Spans(addr, len, count)
          ensures count == pages.value
        {
          OneSpan(addr, len, count, pages.value);
        }
      }
    }

    /** `uacpi_kernel_map`.  `record` names the record taken on the window path. */
    method KernelMap(addr: u64, len: u64) returns (va: u64, ghost record: int)
      requires Valid()
      modifies this, slots, mappings, vmm`mem, vmm`at, vmm.pmm`freePages, vmm.pmm.bitmap
      ensures Valid()
      ensures va == MAP_FAILED ==> Untouched()
      ensures va != MAP_FAILED ==> len > 0 && Honoured(Request(addr, len), va)
      ensures len > 0 && IdentityMapped(addr, len) ==> va == addr && Untouched()
      ensures va != MAP_FAILED && !IdentityMapped(addr, len) ==>
        && 0 <= record < RECORDS && !old(Live(record)) && Live(record)
        && requests == old(requests)[record := Request(addr, len)] && va == Handle(record)
        && mappings[..] == old(mappings[..])[record := mappings[record]]
        && TakenBy(old(Used()), Used(), mappings[record])
        && (forall v: u64 :: !Covers(mappings[record], SlotOf(v)) ==> vmm.Leaf(v) == old(vmm.Leaf(v)))
      ensures va == MAP_FAILED <==> (len == 0 || (!IdentityMapped(addr, len) && old(Refused(addr, len))))
      // the same without the functions of the code: up to 1 GiB nothing is refused ...
      ensures len > 0 && addr + len <= 0x4000_0000 ==> va == addr
      // ... beyond it a length for its own sake, when rounding wraps or 16384 pages are too few ...
      ensures len > 0 && addr + len > 0x4000_0000
              && (addr % 4096 + len + 4095 >= 0x1_0000_0000_0000_0000 || addr % 4096 + len > 16384 * 4096) ==>
        va == MAP_FAILED
      // ... and else the least number of pages that hold the bytes
      ensures len > 0 && addr + len > 0x4000_0000
              && addr % 4096 + len + 4095 < 0x1_0000_0000_0000_0000 && addr % 4096 + len <= 16384 * 4096 ==>
        (va == MAP_FAILED <==> exists count: nat ::
           (count - 1) * 4096 < addr % 4096 + len <= count * 4096 && old(CannotMap(addr, count)))
      ensures va != MAP_FAILED && addr + len > 0x4000_0000 ==>
        (mappings[record].pageCount - 1) * 4096 < addr % 4096 + len <= mappings[record].pageCount * 4096
    {
      hide vmm.Valid, vmm.Leaf, vmm.pmm.View, Used, Filled, Translations, PageCount, Covers, Handle, RecordOk;
      record := -1;
      RefusedMeans(addr, len);
      if len == 0 {
        return MAP_FAILED, -1;
      }
      if IdentityMapped(addr, len) {
        IdentityHonoured(Request(addr, len));
        return addr, -1;
      }
      var pages := PageCount(addr, len);
      if pages == None || pages.value == 0 || pages.value > WINDOW_PAGES {
        SomePages(addr, len);
        return MAP_FAILED, -1;
      }
      va, record := MapWindow(addr, len, pages.value);
      if va != MAP_FAILED {
        LiveHonoured(record);
        RecordSpans(record);
      }
    }

    lemma RecordSpans(r: int)
      requires Valid() && Live(r)
      ensures Spans(requests[r].addr, requests[r].len, mappings[r].pageCount)
    {
      assert RecordOk(mappings[r], requests[r]);
    }

    static lemma SomePages(addr: u64, len: u64)
      requires len > 0
      ensures PageCount(addr, len).Some? ==> PageCount(addr, len).value > 0
    {}

    /** The window path: record, slots, pages, and the record filled in. */
    method MapWindow(addr: u64, len: u64, count: nat) returns (va: u64, ghost record: int)
      requires Valid() && PageCount(addr, len) == Some(count) && 0 < count <= WINDOW_PAGES
      requires len > 0 && !IdentityMapped(addr, len)
      modifies this, slots, mappings, vmm`mem, vmm`at, vmm.pmm`freePages, vmm.pmm.bitmap
      ensures Valid()
      ensures va == MAP_FAILED ==> Untouched()
      ensures va != MAP_FAILED ==>
        && 0 <= record < RECORDS && !old(Live(record)) && Live(record)
        && requests == old(requests)[record := Request(addr, len)] && va == Handle(record)
        && mappings[..] == old(mappings[..])[record := mappings[record]]
        && TakenBy(old(Used()), Used(), mappings[record])
        && (forall v: u64 :: !Covers(mappings[record], SlotOf(v)) ==> vmm.Leaf(v) == old(vmm.Leaf(v)))
      ensures va == MAP_FAILED <==> old(CannotMap(addr, count))
    {
      hide vmm.Leaf, vmm.Walk, vmm.pmm.View, Used, Filled, RecordOk, PageCount, SlotOf, Word, NoRun, SlotAddress,
        IdentityMapped, Bits, vmm.TablesUsed, Translations, Handle, FirstSlot, PageDown, CannotMap, TakenBy, RestShown;
      ghost var used := Used();
      var r, start := ShowRun(addr, len, count);
      if r == -1 {
        return MAP_FAILED, -1;
      }
      Takes(used, Used(), start, count, Mapping(SlotAddress(start), count));
      va := FillRecord(r, start, addr, len, count, used);
      record := r;
    }

    static lemma Takes(before: seq<bool>, after: seq<bool>, start: nat, count: nat, m: Mapping)
      requires 0 < count && start + count <= WINDOW_PAGES == |before| == |after|
      requires forall i :: start <= i < start + count ==> !before[i]
      requires after == Filled(before, start, start + count, true) && m == Mapping(SlotAddress(start), count)
      ensures TakenBy(before, after, m)
    {
      SlotAddressFacts(start);
    }

    /** The record of a run that is shown, and the address handed out. */
    method FillRecord(r: nat, start: nat, addr: u64, len: u64, count: nat, ghost used: seq<bool>) returns (va: u64)
      requires vmm.Valid() && vmm.pagingEnabled && Arrays()
      requires Partition(used, mappings[..], requests, owner)
      requires r < RECORDS && !Live(r) && 0 < count && start + count <= WINDOW_PAGES
      requires len > 0 && PageCount(addr, len) == Some(count)
      requires PageDown(addr) + count * PAGE_SIZE <= 0x10_0000_0000_0000
      requires forall i :: start <= i < start + count ==> !used[i]
      requires Used() == Filled(used, start, start + count, true)
      requires forall v: u64 :: start <= SlotOf(v) < start + count ==>
        vmm.Leaf(v) == Word(PageDown(addr), SlotOf(v) - start)
      requires RestShown(used, start, count)
      modifies this, mappings
      ensures Valid()
      ensures mappings[..] == old(mappings[..])[r := mappings[r]] && requests == old(requests)[r := Request(addr, len)]
      ensures Live(r) && mappings[r] == Mapping(SlotAddress(start), count) && FirstSlot(mappings[r]) == start
      ensures Used() == old(Used()) && forall v: u64 :: vmm.Leaf(v) == old(vmm.Leaf(v))
      ensures va == Handle(r) && va != MAP_FAILED
    {
      hide vmm.Leaf, vmm.Walk, vmm.pmm.View, Used, Filled, RecordOk, PageCount, SlotOf, Word, SlotAddress,
        Bits, vmm.TablesUsed, FirstSlot, Partition, PageDown, vmm.Valid, RestShown;
      SlotAddressFacts(start);
      NewRecord(addr, len, start, count);
      Commit(r, start, Mapping(SlotAddress(start), count), Request(addr, len), used);
      va := SlotAddress(start) + addr % PAGE_SIZE;
    }

    static lemma NewRecord(addr: u64, len: u64, start: nat, count: nat)
      requires 0 < count && start + count <= WINDOW_PAGES && len > 0 && PageCount(addr, len) == Some(count)
      requires PageDown(addr) + count * PAGE_SIZE <= 0x10_0000_0000_0000
      ensures var m, va := Mapping(SlotAddress(start), count), SlotAddress(start) + addr % PAGE_SIZE;
        RecordOk(m, Request(addr, len)) && FirstSlot(m) == start && va < TWO_64 && va != MAP_FAILED
    {
      SlotAddressFacts(start);
      WindowByte(start, addr % PAGE_SIZE);
    }

    /** A run of pages shown in the window, with the slots outside it still showing what
        their records say. */
    method ShowRun(addr: u64, len: u64, count: nat) returns (r: int, start: nat)
      requires Valid() && PageCount(addr, len) == Some(count) && 0 < count <= WINDOW_PAGES
      requires !IdentityMapped(addr, len)
      modifies slots, vmm`mem, vmm`at, vmm.pmm`freePages, vmm.pmm.bitmap
      ensures vmm.Valid() && vmm.pagingEnabled && Arrays()
      ensures r == -1 ==> Used() == old(Used()) && forall v: u64 :: vmm.Leaf(v) == old(vmm.Leaf(v))
      ensures r == -1 <==> old(CannotMap(addr, count))
      ensures r != -1 ==>
        && 0 <= r < RECORDS && !Live(r) && start + count <= WINDOW_PAGES
        && PageDown(addr) + count * PAGE_SIZE <= 0x10_0000_0000_0000
        && (forall i :: start <= i < start + count ==> !old(Used())[i])
        && Used() == Filled(old(Used()), start, start + count, true)
        && (forall v: u64 ::
              vmm.Leaf(v) == (if start <= SlotOf(v) < start + count then Word(PageDown(addr), SlotOf(v) - start)
                              else old(vmm.Leaf(v))))
      ensures r == -1 ==> Valid()
      ensures r != -1 ==> RestShown(old(Used()), start, count)
    {
      hide vmm.Leaf, vmm.Walk, vmm.pmm.View, Used, Filled, RecordOk, PageCount, SlotOf, Word, NoRun, IdentityMapped,
        Bits, vmm.TablesUsed, FirstSlot, CannotMap, Pmm.FreeLow, Tree;
      assert forall v: u64 :: 0 <= SlotOf(v) < WINDOW_PAGES ==> LeafOk(v);
      r, start := MapRun(addr, len, count);
    }

    /** The part of the window path that can fail: a record, a run of slots, and the
        pages shown in it. */
    method MapRun(addr: u64, len: u64, count: nat) returns (r: int, start: nat)
      requires Valid() && PageCount(addr, len) == Some(count) && 0 < count <= WINDOW_PAGES
      requires !IdentityMapped(addr, len)
      modifies slots, vmm`mem, vmm`at, vmm.pmm`freePages, vmm.pmm.bitmap
      ensures vmm.Valid() && vmm.pagingEnabled && Arrays()
      ensures r == -1 ==> Used() == old(Used()) && forall v: u64 :: vmm.Leaf(v) == old(vmm.Leaf(v))
      ensures r == -1 <==> old(CannotMap(addr, count))
      ensures r != -1 ==>
        && 0 <= r < RECORDS && !Live(r) && start + count <= WINDOW_PAGES
        && PageDown(addr) + count * PAGE_SIZE <= 0x10_0000_0000_0000
        && (forall i :: start <= i < start + count ==> !old(Used())[i])
        && Used() == Filled(old(Used()), start, start + count, true)
        && (forall v: u64 ::
              vmm.Leaf(v) == (if start <= SlotOf(v) < start + count then Word(PageDown(addr), SlotOf(v) - start)
                              else old(vmm.Leaf(v))))
    {
      hide vmm.Leaf, vmm.Walk, vmm.pmm.View, vmm.TablesUsed, Used, Bits, RecordOk, Word, Filled, PageCount,
        PageDown, IdentityMapped, Partition, Translations, CannotShow, SlotOf, Pmm.FreeLow;
      BaseNotZero(addr, len);
      start := 0;
      r := ReserveMappingRecord();
      if r == -1 {
        forall j | 0 <= j < RECORDS
          ensures old(Live(j))
        {
          assert Live(j);
        }
        return;
      }
      assert !old(Live(r));
      var ok;
      ok, start := ShowSlots(PageDown(addr), count);
      if !ok {
        r := -1;
      }
    }

    /** The part of that beyond the record. */
    ghost predicate CannotShow(base: u64, count: nat)
      reads this, slots, mappings, vmm, vmm.pmm, vmm.pmm.bitmap
      requires Arrays() && vmm.pmm.Valid()
    {
      || NoRun(Used(), count)
      || base + count * PAGE_SIZE > 0x10_0000_0000_0000
      || TooFewTables(Used(), vmm.at, Pmm.FreeLow(vmm.pmm.View()), count)
    }

    /** A run of slots and the pages shown in it, or neither. */
    method ShowSlots(base: u64, count: nat) returns (ok: bool, start: nat)
      requires Valid() && 0 < count <= WINDOW_PAGES && 0 < base && base % PAGE_SIZE == 0
      modifies slots, vmm`mem, vmm`at, vmm.pmm`freePages, vmm.pmm.bitmap
      ensures vmm.Valid() && vmm.pagingEnabled && Arrays()
      ensures ok <==> !old(CannotShow(base, count))
      ensures !ok ==> Used() == old(Used()) && forall v: u64 :: vmm.Leaf(v) == old(vmm.Leaf(v))
      ensures ok ==>
        && start + count <= WINDOW_PAGES && base + count * PAGE_SIZE <= 0x10_0000_0000_0000
        && (forall i :: start <= i < start + count ==> !old(Used())[i])
        && Used() == Filled(old(Used()), start, start + count, true)
        && (forall v: u64 ::
              vmm.Leaf(v) == (if start <= SlotOf(v) < start + count then Word(base, SlotOf(v) - start)
                              else old(vmm.Leaf(v))))
    {
      hide vmm.Leaf, vmm.Walk, vmm.pmm.View, vmm.TablesUsed, Used, Bits, NoRun, RecordOk, Word, Filled,
        Partition, Translations, TooFewTables, RunMissing, Pmm.FreeLow, Blocked;
      FreeSlotsUnmapped();
      ok, start := ReserveSlots(count);
      if !ok {
        return;
      }
      OnlyRun(old(Used()), vmm.at, Pmm.FreeLow(vmm.pmm.View()), start, count);
      ok := MapPages(start, count, base);
      if !ok {
        ReleaseSlots(start, count);
        FilledBack(old(Used()), start, count);
      }
    }

    lemma FreeSlotsUnmapped()
      requires Valid()
      ensures forall v: u64 :: 0 <= SlotOf(v) < WINDOW_PAGES && !Used()[SlotOf(v)] ==> vmm.Leaf(v) == 0
    {
      hide vmm.Leaf, Used, SlotOf, vmm.Valid, Word, PageDown;
      assert forall v: u64 :: 0 <= SlotOf(v) < WINDOW_PAGES ==> LeafOk(v);
    }

    /** Writing the record at the end of `uacpi_kernel_map`. */
    method Commit(r: nat, start: nat, m: Mapping, q: Request, ghost used: seq<bool>)
      requires vmm.Valid() && vmm.pagingEnabled && Arrays()
      requires Partition(used, mappings[..], requests, owner)
      requires r < RECORDS && !Live(r) && RecordOk(m, q) && m.pageCount > 0 && FirstSlot(m) == start
      requires forall i :: start <= i < start + m.pageCount ==> !used[i]
      requires Used() == Filled(used, start, start + m.pageCount, true)
      requires forall v: u64 :: start <= SlotOf(v) < start + m.pageCount ==>
        vmm.Leaf(v) == Word(PageDown(q.addr), SlotOf(v) - start)
      requires RestShown(used, start, m.pageCount)
      modifies this, mappings
      ensures Valid()
      ensures mappings[..] == old(mappings[..])[r := m] && requests == old(requests)[r := q]
      ensures Live(r) && mappings[r] == m && Handle(r) == m.virtualBase + q.addr % PAGE_SIZE
    {
      hide vmm.Leaf, vmm.pmm.View, Used, Filled, RecordOk;
      OpenRecord(used, mappings[..], requests, owner, r, m, q, start);
      mappings[r] := m;
      requests := requests[r := q];
      owner := Owned(owner, start, m.pageCount, r);
      assert mappings[..] == old(mappings[..])[r := m];
      forall v: u64 | 0 <= SlotOf(v) < WINDOW_PAGES
        ensures LeafOk(v)
      {
        assert !Covers(old(mappings[..])[r], SlotOf(v));
      }
    }

    static lemma FilledBack(used: seq<bool>, start: nat, count: nat)
      requires start + count <= |used| && forall i :: start <= i < start + count ==> !used[i]
      ensures Filled(Filled(used, start, start + count, true), start, start + count, false) == used
    {}

    /** `uacpi_kernel_unmap`.  Only an address and length that select a record have an
        effect; `record` names it. */
    method KernelUnmap(addr: u64, len: u64) returns (ghost record: int)
      requires Valid()
      modifies this, slots, mappings, vmm`mem
      ensures Valid()
      ensures record == -1 ==> Untouched()
      // which record an address and a length name
      ensures record == -1 <==> len == 0 || forall r :: 0 <= r < 256 && old(mappings[r]).pageCount > 0 ==>
        !(&& old(mappings[r]).virtualBase == addr - addr % 4096
          && (old(mappings[r]).pageCount - 1) * 4096 < addr % 4096 + len <= old(mappings[r]).pageCount * 4096)
      ensures record == -1 ==>
        || addr == 0 || addr == MAP_FAILED || len == 0 || PageCount(addr, len) == None
        || Mapping(PageDown(addr), PageCount(addr, len).value) !in old(mappings[..])
      ensures record != -1 ==>
        && 0 <= record < RECORDS && old(Live(record))
        && PageCount(addr, len) != None
        && old(mappings[record]) == Mapping(PageDown(addr), PageCount(addr, len).value)
        && mappings[..] == old(mappings[..])[record := Mapping(0, 0)]
        && requests == old(requests)
        && Used() == Filled(old(Used()), FirstSlot(old(mappings[record])),
                            FirstSlot(old(mappings[record])) + old(mappings[record]).pageCount, false)
        && (forall v: u64 ::
              vmm.Leaf(v) == (if Covers(old(mappings[record]), SlotOf(v)) then 0 else old(vmm.Leaf(v))))
    {
      hide vmm.Valid, vmm.Leaf, vmm.Walk, vmm.pmm.View, Used, Filled, Partition, Translations, PageCount, Covers;
      record := -1;
      NamedRecord(addr, len);
      if addr == 0 || addr == MAP_FAILED || len == 0 {
        return;
      }
      var pages := PageCount(addr, len);
      if pages == None {
        return;
      }
      var count, virtualBase := pages.value, PageDown(addr);
      if virtualBase < WINDOW_BASE || count == 0 || count > WINDOW_PAGES
         || virtualBase > WINDOW_BASE + (WINDOW_PAGES - count) * PAGE_SIZE
      {
        NotRecorded(addr, len);
        return;
      }
      var r := FindMapping(virtualBase, count);
      if r == -1 {
        return;
      }
      Close(r);
      record := r;
    }

    /** A range that does not fit the window is in no record. */
    lemma NamedRecord(addr: u64, len: u64)
      requires Valid()
      ensures forall r :: 0 <= r < RECORDS && Live(r) && mappings[r].virtualBase == addr - addr % 4096 ==>
        && addr != 0 && addr != MAP_FAILED
        && (Spans(addr, len, mappings[r].pageCount) <==> PageCount(addr, len) == Some(mappings[r].pageCount))
    {
      hide vmm.Valid, vmm.Leaf, vmm.Walk, vmm.pmm.View, Used, Filled, Translations, Covers, PageCount;
      forall r | 0 <= r < RECORDS && Live(r) && mappings[r].virtualBase == addr - addr % 4096
        ensures addr != 0 && addr != MAP_FAILED
        ensures Spans(addr, len, mappings[r].pageCount) <==> PageCount(addr, len) == Some(mappings[r].pageCount)
      {
        assert RecordOk(mappings[r], requests[r]);
        var pages := PageCount(addr, len);
        if Spans(addr, len, mappings[r].pageCount) && pages.Some? {
          OneSpan(addr, len, mappings[r].pageCount, pages.value);
        }
      }
    }

    lemma NotRecorded(addr: u64, len: u64)
      requires Valid() && PageCount(addr, len).Some? && len > 0
      requires var m := Mapping(PageDown(addr), PageCount(addr, len).value);
        || m.virtualBase < WINDOW_BASE || m.pageCount == 0 || m.pageCount > WINDOW_PAGES
        || m.virtualBase > WINDOW_BASE + (WINDOW_PAGES - m.pageCount) * PAGE_SIZE
      ensures Mapping(PageDown(addr), PageCount(addr, len).value) !in mappings[..]
    {
      hide vmm.Valid, vmm.Leaf, vmm.Walk, vmm.pmm.View, Used, Filled, Translations, Covers;
      forall r | 0 <= r < RECORDS && mappings[r].pageCount > 0
        ensures RecordOk(mappings[r], requests[r])
      {}
    }

    /** The tail of `uacpi_kernel_unmap`, once the record is found. */
    method Close(r: nat)
      requires Valid() && Live(r)
      modifies this, slots, mappings, vmm`mem
      ensures Valid()
      ensures mappings[..] == old(mappings[..])[r := Mapping(0, 0)] && requests == old(requests)
      ensures Used() == Filled(old(Used()), FirstSlot(old(mappings[r])),
                               FirstSlot(old(mappings[r])) + old(mappings[r]).pageCount, false)
      ensures forall v: u64 ::
        vmm.Leaf(v) == (if Covers(old(mappings[r]), SlotOf(v)) then 0 else old(vmm.Leaf(v)))
    {
      hide vmm.Leaf, vmm.Valid, vmm.pmm.View, Used, Filled, Bits, Word, SlotOf, PageDown;
      var virtualBase, count := mappings[r].virtualBase, mappings[r].pageCount;
      assert RecordOk(mappings[r], requests[r]);
      var start := (virtualBase - WINDOW_BASE) / PAGE_SIZE;
      ghost var used := Used();
      UnmapPages(virtualBase, start, count);
      ReleaseSlots(start, count);
      forall v: u64 | 0 <= SlotOf(v) < WINDOW_PAGES && !(start <= SlotOf(v) < start + count)
        ensures old(LeafOk(v)) && vmm.Leaf(v) == old(vmm.Leaf(v))
      {}
      Erase(r, start, used);
    }

    /** Clearing the record at the end of `uacpi_kernel_unmap`. */
    method Erase(r: nat, start: nat, ghost used: seq<bool>)
      requires vmm.Valid() && vmm.pagingEnabled && Arrays()
      requires Partition(used, mappings[..], requests, owner)
      requires r < RECORDS && Live(r) && FirstSlot(mappings[r]) == start
      requires Used() == Filled(used, start, start + mappings[r].pageCount, false)
      requires forall v: u64 :: start <= SlotOf(v) < start + mappings[r].pageCount ==> vmm.Leaf(v) == 0
      requires RestShown(used, start, mappings[r].pageCount)
      modifies this`owner, mappings
      ensures Valid()
      ensures mappings[..] == old(mappings[..])[r := Mapping(0, 0)]
    {
      hide vmm.Leaf, vmm.pmm.View, Used, Filled, RecordOk;
      CloseRecord(used, mappings[..], requests, owner, r);
      owner := Owned(owner, start, mappings[r].pageCount, -1);
      mappings[r] := Mapping(0, 0);
      assert mappings[..] == old(mappings[..])[r := Mapping(0, 0)];
      forall v: u64 | 0 <= SlotOf(v) < WINDOW_PAGES
        ensures LeafOk(v)
      {
        assert old(owner)[SlotOf(v)] == r <==> Covers(old(mappings[..])[r], SlotOf(v));
      }
    }

    /** The unmapping loop of `uacpi_kernel_unmap`. */
    method UnmapPages(virtualBase: u64, start: nat, count: nat)
      requires vmm.Valid() && vmm.pagingEnabled && start + count <= WINDOW_PAGES
      requires virtualBase == WINDOW_BASE + start * PAGE_SIZE
      modifies vmm`mem
      ensures vmm.Valid()
      ensures forall v: u64 ::
        vmm.Leaf(v) == (if start <= SlotOf(v) < start + count then 0 else old(vmm.Leaf(v)))
    {
      hide vmm.Valid, vmm.Leaf, Vmm.Grown;
      for index := 0 to count
        invariant vmm.Valid()
        invariant forall v: u64 ::
          vmm.Leaf(v) == (if start <= SlotOf(v) < start + index then 0 else old(vmm.Leaf(v)))
      {
        SlotAddressFacts(start + index);
        vmm.UnmapPage(virtualBase + index * PAGE_SIZE);
      }
    }

    /** The identity path needs nothing but the boot leaves. */
    lemma IdentityHonoured(q: Request)
      requires vmm.Valid() && vmm.pagingEnabled && IdentityMapped(q.addr, q.len)
      ensures Honoured(q, q.addr)
    {
      hide vmm.pmm.View, vmm.Leaf, vmm.Walk;
      forall v: u64 | q.addr <= v < q.addr + q.len
        ensures vmm.Walk(v) == Some(v)
      {
        vmm.WalkIsLeaf(v);
      }
    }

    /** A request that reaches the window never maps physical page 0. */
    static lemma BaseNotZero(addr: u64, len: u64)
      requires !IdentityMapped(addr, len)
      requires PageCount(addr, len) != None && PageCount(addr, len).value <= WINDOW_PAGES
      ensures PageDown(addr) > 0 && PageDown(addr) % PAGE_SIZE == 0
    {}

    /** Unmapping what was just mapped undoes it: slots, records and translations
        are exactly what they were. */
    method MapThenUnmap(addr: u64, len: u64)
      requires Valid()
      modifies this, slots, mappings, vmm`mem, vmm`at, vmm.pmm`freePages, vmm.pmm.bitmap
      ensures Valid() && SameState()
    {
      hide vmm.Valid, vmm.Leaf, vmm.pmm.View, Used, Filled, PageCount, Spans, CannotMap, Refused, Honoured,
        Translations, TakenBy;
      FreeSlotsUnmapped();
      var va, r := KernelMap(addr, len);
      if va == MAP_FAILED {
        return;
      }
      if IdentityMapped(addr, len) {
        ghost var r0 := KernelUnmap(va, len);
        return;
      }
      label mapped:
      ghost var m := mappings[r];
      assert RecordOk(m, requests[r]) && RecordOk(old(mappings[..])[r], old(requests)[r]);
      WindowHandle(m, Request(addr, len));
      ghost var r' := KernelUnmap(va, len);
      assert old@mapped(mappings[..])[r] == m && old@mapped(mappings[..])[r'] == m;
      SameRecord(old@mapped(Used()), old@mapped(mappings[..]), old@mapped(requests), old@mapped(owner), r, r');
      TakenBack(old(Used()), old@mapped(Used()), m);
      assert forall v: u64 :: Covers(m, SlotOf(v)) ==> old(vmm.Leaf(v)) == 0;
    }

    /** Two records in use are never equal. */
    static lemma SameRecord(used: seq<bool>, ms: seq<Mapping>, qs: seq<Request>, owner: seq<int>, r: int, r': int)
      requires Partition(used, ms, qs, owner)
      requires 0 <= r < RECORDS && 0 <= r' < RECORDS && ms[r] == ms[r'] && ms[r].pageCount > 0
      ensures r == r'
    {
      assert RecordOk(ms[r], qs[r]);
      var i := FirstSlot(ms[r]);
      assert Covers(ms[r], i) && Covers(ms[r'], i);
      assert owner[i] == r;
    }

    static lemma TakenBack(before: seq<bool>, after: seq<bool>, m: Mapping)
      requires TakenBy(before, after, m) && FirstSlot(m) + m.pageCount <= WINDOW_PAGES && m.pageCount > 0
      ensures Filled(after, FirstSlot(m), FirstSlot(m) + m.pageCount, false) == before
      ensures forall i: nat :: i < WINDOW_PAGES && Covers(m, i) ==> i < |before| && !before[i]
    {
      FilledBack(before, FirstSlot(m), m.pageCount);
    }

    /** The handle of a window mapping leads back to its record. */
    static lemma WindowHandle(m: Mapping, q: Request)
      requires RecordOk(m, q) && m.pageCount > 0
      ensures
        var va := m.virtualBase + q.addr % PAGE_SIZE;
        && va < TWO_64 && va != 0 && va != MAP_FAILED
        && PageCount(va, q.len) == PageCount(q.addr, q.len) && PageDown(va) == m.virtualBase
    {
      assert m.virtualBase == WINDOW_BASE + FirstSlot(m) * PAGE_SIZE;
      WindowByte(FirstSlot(m), q.addr % PAGE_SIZE);
    }
  }

  // ----- whole runs -----

  datatype Call = Map(addr: u64, len: u64) | Unmap(addr: u64, len: u64)

  /** Any run of map and unmap calls, with any arguments, keeps every live mapping
      honoured. */
  method Run(w: Window, calls: seq<Call>)
    requires w.Valid()
    modifies w, w.slots, w.mappings, w.vmm`mem, w.vmm`at, w.vmm.pmm`freePages, w.vmm.pmm.bitmap
    ensures w.Valid()
    ensures forall r :: w.Live(r) ==> w.Handle(r) < TWO_64 && w.Honoured(w.requests[r], w.Handle(r))
  {
    for i := 0 to |calls|
      invariant w.Valid()
    {
      match calls[i]
      case Map(addr, len) =>
        var va, r := w.KernelMap(addr, len);
      case Unmap(addr, len) =>
        ghost var r := w.KernelUnmap(addr, len);
    }
    forall r | w.Live(r)
      ensures w.Handle(r) < TWO_64 && w.Honoured(w.requests[r], w.Handle(r))
    {
      w.LiveHonoured(r);
    }
  }

  /** A page of the kernel image, inside the bootstrap identity map. */
  ghost predicate InImage(page: nat, kernelStart: u64, kernelEnd: u64)
    requires kernelStart <= kernelEnd
  {
    0 < page < BOOTSTRAP_PAGES && Pmm.InsideRegion(page, kernelStart, kernelEnd - kernelStart)
  }

  /** Boot order: allocator, kernel image reserved, paging, window.  The static tables
      are fit for use because they lie in the reserved kernel image. */
  method Startup(entries: seq<Pmm.MmapEntry>, kernelStart: u64, kernelEnd: u64, memory: Memory,
                 pml4: nat, pdpt: nat, pd: nat) returns (w: Window)
    requires kernelStart <= kernelEnd && Pmm.NoWrap(kernelStart, kernelEnd - kernelStart)
    requires forall p: nat :: p < BOOTSTRAP_PAGES ==> p in memory
    requires pml4 != pdpt && pml4 != pd && pdpt != pd
    requires InImage(pml4, kernelStart, kernelEnd) && InImage(pdpt, kernelStart, kernelEnd)
    requires InImage(pd, kernelStart, kernelEnd)
    ensures w.Valid() && forall r :: !w.Live(r)
  {
    var pmm := Pmm.Boot(entries, kernelStart, kernelEnd);
    var vmm := new Vmm.Editor(pmm, memory, pml4, pdpt, pd);
    vmm.PagingInit();
    w := new Window(vmm);
  }
}
