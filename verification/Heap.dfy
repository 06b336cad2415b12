/** The kernel heap (`kernel/lib/std/stdlib.c`): first fit over a chain of headers
    kept inside the pool, with splitting, coalescing and reallocation. */
module Heap {
  import opened Machine
  import opened Words
  import opened HeapBlocks

  /** `align_size`: up to a multiple of 8, 0 when that would wrap. */
  function AlignSize(size: u64): (r: u64)
    ensures r % ALIGNMENT == 0
    ensures r == 0 <==> size == 0 || size > TWO_64 - ALIGNMENT
    ensures r != 0 ==> size <= r < size + ALIGNMENT
  {
    if size > TWO_64 - 1 - (ALIGNMENT - 1) then 0
    else (size + ALIGNMENT - 1) / ALIGNMENT * ALIGNMENT
  }

  const INITIAL: Block := Block(0, POOL_SIZE - HEADER, true)

  /** The first free block with room for `n` bytes; the length of the list if none. */
  function FirstFit(bs: seq<Block>, n: nat): (i: nat)
    ensures i <= |bs|
    ensures i < |bs| ==> bs[i].free && bs[i].size >= n
    ensures forall j :: 0 <= j < i ==> !(bs[j].free && bs[j].size >= n)
  {
    if bs == [] then 0
    else if bs[0].free && bs[0].size >= n then 0
    else 1 + FirstFit(bs[1..], n)
  }

  /** The block whose header is at `off`; the length of the list if none. */
  function IndexAt(bs: seq<Block>, off: int): (i: nat)
    ensures i <= |bs|
    ensures i < |bs| ==> bs[i].off == off
    ensures forall j :: 0 <= j < i ==> bs[j].off != off
  {
    if bs == [] then 0
    else if bs[0].off == off then 0
    else 1 + IndexAt(bs[1..], off)
  }

  /** What `malloc` of `n` aligned bytes does to the list. */
  function Allocated(bs: seq<Block>, n: nat): seq<Block> {
    var i := FirstFit(bs, n);
    if i == |bs| then bs else Replace(bs, i, i + 1, SplitTail(bs[i].(free := false), n))
  }

  /** What `free` of the block at `off` does to the list. */
  function Released(bs: seq<Block>, off: int): seq<Block> {
    var i := IndexAt(bs, off);
    if i == |bs| || bs[i].free then bs
    else Coalesced(Replace(bs, i, i + 1, [bs[i].(free := true)]))
  }

  /** What `realloc` of block `i` to `n` aligned bytes does to the list. */
  function Resized(bs: seq<Block>, i: nat, n: nat): seq<Block>
    requires i < |bs|
  {
    if bs[i].free then bs
    else if n <= bs[i].size then Replace(bs, i, i + 1, SplitTail(bs[i], n))
    else if i + 1 < |bs| && bs[i + 1].free && Merged(bs[i], bs[i + 1]).size >= n then
      Replace(bs, i, i + 2, SplitTail(Merged(bs[i], bs[i + 1]), n))
    else if FirstFit(bs, n) == |bs| then bs
    else Released(Allocated(bs, n), bs[i].off)
  }

  /** Where `realloc` of block `i` to `n` aligned bytes leaves the data: nowhere new when
      it fails, in place when the block or a free neighbour has room, else first fit. */
  function Destination(bs: seq<Block>, i: nat, n: nat): Option<nat>
    requires i < |bs|
  {
    if bs[i].free then None
    else if n <= bs[i].size || (i + 1 < |bs| && bs[i + 1].free && Merged(bs[i], bs[i + 1]).size >= n) then
      Some(bs[i].off)
    else if FirstFit(bs, n) == |bs| then None
    else Some(bs[FirstFit(bs, n)].off)
  }

  class Allocator {
    const pool: array<byte>
    /** The address of the pool. */
    const base: u64
    var freeList: u64
    var initialized: bool
    ghost var blocks: seq<Block>

    ghost predicate Placed() {
      && pool.Length == POOL_SIZE
      && 0 < base && base % ALIGNMENT == 0 && base + POOL_SIZE <= TWO_64
    }

    ghost predicate Valid()
      reads this, pool
    {
      && Placed()
      && if initialized then
           freeList == base && blocks != [] && Segment(pool[..], base, blocks, 0, POOL_SIZE, 0)
         else blocks == [INITIAL]
    }

    /** The zero-initialised statics, at a suitably aligned address. */
    constructor (base: u64)
      requires 0 < base && base % ALIGNMENT == 0 && base + POOL_SIZE <= TWO_64
      ensures Valid() && !initialized && this.base == base && fresh(pool)
    {
      pool := new byte[POOL_SIZE](_ => 0);
      this.base := base;
      freeList := 0;
      initialized := false;
      blocks := [INITIAL];
    }

    /** Used or not, the blocks tile the pool. */
    lemma BlocksTile()
      requires Valid()
      ensures Tiled(blocks, 0, POOL_SIZE)
    {
      if initialized {
        SegmentTiles(pool[..], base, blocks, 0, POOL_SIZE, 0);
      }
    }

    // ----- stores into headers -----

    method StoreWord(off: nat, x: nat, n: nat)
      requires off + n <= pool.Length
      modifies pool
      ensures pool[off..off + n] == ToBytes(x, n)
      ensures forall j :: 0 <= j < pool.Length && !(off <= j < off + n) ==> pool[j] == old(pool[j])
    {
      var w := ToBytes(x, n);
      forall k | 0 <= k < n {
        pool[off + k] := w[k];
      }
    }

    /** A header's three fields. */
    method StoreHeader(off: nat, h: Header)
      requires off + HEADER <= pool.Length
      requires h.size < TWO_64 && h.free < 0x1_0000_0000 && h.next < TWO_64
      modifies pool
      ensures HeaderAt(pool[..], off) == h
      ensures forall j :: 0 <= j < pool.Length && !(off <= j < off + HEADER) ==> pool[j] == old(pool[j])
    {
      hide ToBytes, FromBytes;
      BoundOfSizes();
      WordRoundTrip(h.size, 8);
      WordRoundTrip(h.free, 4);
      WordRoundTrip(h.next, 8);
      StoreWord(off, h.size, 8);
      label one:
      StoreWord(off + 8, h.free, 4);
      assert pool[off..off + 8] == old@one(pool[off..off + 8]);
      label two:
      StoreWord(off + 16, h.next, 8);
      assert pool[off..off + 8] == old@two(pool[off..off + 8]);
      assert pool[off + 8..off + 12] == old@two(pool[off + 8..off + 12]);
      assert pool[..][off..off + 8] == pool[off..off + 8];
      assert pool[..][off + 8..off + 12] == pool[off + 8..off + 12];
      assert pool[..][off + 16..off + 24] == pool[off + 16..off + 24];
    }

    method LoadHeader(off: nat) returns (h: Header)
      requires off + HEADER <= pool.Length
      ensures h == HeaderAt(pool[..], off)
    {
      h := Header(FromBytes(pool[off..off + 8]), FromBytes(pool[off + 8..off + 12]),
                  FromBytes(pool[off + 16..off + 24]));
      assert pool[..][off..off + 8] == pool[off..off + 8];
      assert pool[..][off + 8..off + 12] == pool[off + 8..off + 12];
      assert pool[..][off + 16..off + 24] == pool[off + 16..off + 24];
    }

    // ----- list operations -----

    ghost predicate Ready()
      reads this, pool
    {
      Valid() && initialized
    }

    /** `allocator_init`. */
    method AllocatorInit()
      requires Valid()
      modifies this`freeList, this`initialized, pool
      ensures Ready()
      ensures Kept(old(pool[..]), blocks, pool[..], blocks, -1)
    {
      if initialized {
        return;
      }
      freeList := base;
      StoreHeader(0, Header(POOL_SIZE - HEADER, 1, 0));
      initialized := true;
    }

    /** `block->free = flag`. */
    method SetFree(off: nat, flag: bool, ghost i: nat)
      requires Ready() && i < |blocks| && blocks[i].off == off
      modifies pool, this`blocks
      ensures Ready()
      ensures blocks == Replace(old(blocks), i, i + 1, [old(blocks)[i].(free := flag)])
      ensures Kept(old(pool[..]), old(blocks), pool[..], blocks, off)
      ensures SamePayload(old(pool[..]), pool[..], old(blocks)[i])
    {
      hide HeaderAt, Segment, Kept, Replace;
      Neighbour(pool[..], base, blocks, 0, POOL_SIZE, 0, i);
      var h := LoadHeader(off);
      StoreHeader(off, h.(free := Flag(flag)));
      ghost var b := blocks[i].(free := flag);
      OneBlock(pool[..], base, b, h.next);
      ReplaceRun(old(pool[..]), pool[..], base, blocks, i, i + 1, [b], off);
      NotEmpty(blocks, i, i + 1, [b]);
      blocks := Replace(blocks, i, i + 1, [b]);
    }

    /** `split_block`. */
    method SplitBlock(off: nat, size: nat, ghost i: nat)
      requires Ready() && i < |blocks| && blocks[i].off == off
      requires size % ALIGNMENT == 0 && size <= blocks[i].size
      modifies pool, this`blocks
      ensures Ready()
      ensures blocks == Replace(old(blocks), i, i + 1, SplitTail(old(blocks)[i], size))
      ensures Kept(old(pool[..]), old(blocks), pool[..], blocks, off)
      ensures forall j :: off + HEADER <= j < off + HEADER + size && j < POOL_SIZE ==> pool[j] == old(pool[j])
    {
      hide HeaderAt, Segment, Kept, Replace;
      Neighbour(pool[..], base, blocks, 0, POOL_SIZE, 0, i);
      var h := LoadHeader(off);
      if h.size < size + HEADER + ALIGNMENT {
        ReplaceSame(blocks, i);
        KeptSame(pool[..], blocks, off);
        return;
      }
      var remainder := off + HEADER + size;
      StoreHeader(remainder, Header(h.size - size - HEADER, 1, h.next));
      ghost var bytes := pool[..];
      StoreHeader(off, Header(size, h.free, base + remainder));
      HeaderFrame(bytes, pool[..], remainder);
      ghost var r := SplitTail(blocks[i], size);
      TwoBlocks(pool[..], base, r[0], r[1], h.next);
      ReplaceRun(old(pool[..]), pool[..], base, blocks, i, i + 1, r, off);
      NotEmpty(blocks, i, i + 1, r);
      blocks := Replace(blocks, i, i + 1, r);
    }

    /** Absorbing the next block: `size += sizeof(Block) + next->size; next = next->next`. */
    method AbsorbNext(off: nat, ghost i: nat)
      requires Ready() && i + 1 < |blocks| && blocks[i].off == off && blocks[i + 1].free
      modifies pool, this`blocks
      ensures Ready()
      ensures blocks == Replace(old(blocks), i, i + 2, [Merged(old(blocks)[i], old(blocks)[i + 1])])
      ensures Kept(old(pool[..]), old(blocks), pool[..], blocks, if old(blocks)[i].free then -1 else off)
      ensures SamePayload(old(pool[..]), pool[..], old(blocks)[i])
      ensures forall j :: 0 <= j < POOL_SIZE && !(off <= j < off + HEADER) ==> pool[j] == old(pool[j])
    {
      hide HeaderAt, Segment, Kept, Replace;
      Neighbour(pool[..], base, blocks, 0, POOL_SIZE, 0, i);
      Neighbour(pool[..], base, blocks, 0, POOL_SIZE, 0, i + 1);
      var h := LoadHeader(off);
      var next := LoadHeader(h.next - base);
      StoreHeader(off, Header(h.size + HEADER + next.size, h.free, next.next));
      ghost var b := Merged(blocks[i], blocks[i + 1]);
      OneBlock(pool[..], base, b, next.next);
      ReplaceRun(old(pool[..]), pool[..], base, blocks, i, i + 2, [b], if blocks[i].free then -1 else off);
      NotEmpty(blocks, i, i + 2, [b]);
      blocks := Replace(blocks, i, i + 2, [b]);
    }

    /** `current->next != NULL && current->next->free`. */
    method NextIsFree(off: nat, ghost i: nat) returns (b: bool)
      requires Ready() && i < |blocks| && blocks[i].off == off
      ensures b == (i + 1 < |blocks| && blocks[i + 1].free)
    {
      hide HeaderAt, Segment;
      Neighbour(pool[..], base, blocks, 0, POOL_SIZE, 0, i);
      var h := LoadHeader(off);
      if h.next == 0 {
        return false;
      }
      Neighbour(pool[..], base, blocks, 0, POOL_SIZE, 0, i + 1);
      var next := LoadHeader(h.next - base);
      return next.free != 0;
    }

    /** The pointer stored in a header, and the flag. */
    method Follow(off: nat, ghost i: nat) returns (h: Header)
      requires Ready() && i < |blocks| && blocks[i].off == off
      ensures h == Header(blocks[i].size, Flag(blocks[i].free), Pointer(i + 1))
      ensures blocks[i].End() <= POOL_SIZE
    {
      hide HeaderAt, Segment;
      Neighbour(pool[..], base, blocks, 0, POOL_SIZE, 0, i);
      h := LoadHeader(off);
    }

    /** The address of block `i`, NULL past the end. */
    ghost function Pointer(i: nat): nat
      reads this
    {
      if i < |blocks| then base + blocks[i].off else 0
    }

    lemma FirstBlock()
      requires Ready()
      ensures freeList == Pointer(0) && blocks != []
    {}

    /** `coalesce_all`. */
    method CoalesceAll()
      requires Ready()
      modifies pool, this`blocks
      ensures Ready()
      ensures blocks == Coalesced(old(blocks))
      ensures Kept(old(pool[..]), old(blocks), pool[..], blocks, -1)
      ensures StillDead(old(pool[..]), old(blocks), pool[..], blocks)
    {
      FirstBlock();
      hide HeaderAt, Segment, Kept, Replace, Coalesced, Dead;
      ghost var bytes, bs := pool[..], blocks;
      KeptSame(bytes, bs, -1);
      var current := freeList;
      ghost var k := 0;
      while current != 0
        invariant Ready()
        invariant k <= |blocks| && current == Pointer(k)
        invariant Coalesced(bs) == blocks[..k] + Coalesced(blocks[k..])
        invariant Kept(bytes, bs, pool[..], blocks, -1) && StillDead(bytes, bs, pool[..], blocks)
        decreases |blocks| - k
      {
        var h := Follow(current - base, k);
        if h.free != 0 {
          MergeRun(current - base, k, bs);
        }
        SweepKeep(blocks, k);
        h := Follow(current - base, k);
        current := h.next;
        k := k + 1;
      }
      assert blocks[k..] == [] && blocks[..k] == blocks;
      CoalescedNil();
    }

    /** The inner loop of `coalesce_all`: one free block swallows the free run after it. */
    method MergeRun(off: nat, ghost k: nat, ghost bs: seq<Block>)
      requires Ready() && k < |blocks| && blocks[k].off == off && blocks[k].free
      requires Coalesced(bs) == blocks[..k] + Coalesced(blocks[k..])
      modifies pool, this`blocks
      ensures Ready() && k < |blocks| && blocks[k].off == off && |blocks| <= |old(blocks)|
      ensures !(k + 1 < |blocks| && blocks[k + 1].free)
      ensures Coalesced(bs) == blocks[..k] + Coalesced(blocks[k..])
      ensures Kept(old(pool[..]), old(blocks), pool[..], blocks, -1)
      ensures StillDead(old(pool[..]), old(blocks), pool[..], blocks)
    {
      hide HeaderAt, Segment, Kept, Coalesced, Dead;
      ghost var bytes0, bs0 := pool[..], blocks;
      KeptSame(bytes0, bs0, -1);
      var more := NextIsFree(off, k);
      while more
        invariant Ready() && k < |blocks| && blocks[k].off == off && blocks[k].free && |blocks| <= |bs0|
        invariant more == (k + 1 < |blocks| && blocks[k + 1].free)
        invariant Coalesced(bs) == blocks[..k] + Coalesced(blocks[k..])
        invariant Kept(bytes0, bs0, pool[..], blocks, -1) && StillDead(bytes0, bs0, pool[..], blocks)
        decreases |blocks|
      {
        ghost var bytes1, bs1 := pool[..], blocks;
        SweepMerge(blocks, k);
        AbsorbNext(off, k);
        KeptTwice(bytes0, bs0, bytes1, bs1, pool[..], blocks, -1);
        AbsorbKeepsDead(bytes1, pool[..], base, bs1, k);
        more := NextIsFree(off, k);
      }
    }

    // ----- the public operations -----

    /** Every live block other than `except` keeps its bytes. */
    twostate predicate LiveKept(except: int)
      reads this, pool
      requires Placed()
    {
      Kept(old(pool[..]), old(blocks), pool[..], blocks, except)
    }

    /** `malloc`: first fit; 0 exactly when the size is unusable or nothing fits. */
    method Malloc(size: u64) returns (ptr: u64)
      requires Valid()
      modifies pool, this`blocks, this`freeList, this`initialized
      ensures Valid() && LiveKept(-1) && (old(initialized) ==> initialized)
      ensures
        var n, bs := AlignSize(size), old(blocks);
        if n == 0 || FirstFit(bs, n) == |bs| then ptr == 0 && blocks == bs
        else ptr == base + bs[FirstFit(bs, n)].Payload() && initialized && blocks == Allocated(bs, n)
      ensures ptr == 0 && AlignSize(size) != 0 && NoAdjacentFree(blocks) ==>
        forall lo: nat, hi: nat :: Gap(blocks, lo, hi) ==> hi - lo < HEADER + AlignSize(size)
    {
      hide HeaderAt, Segment, Kept, Replace, SplitTail;
      KeptSame(pool[..], blocks, -1);
      if size == 0 {
        return 0;
      }
      var n := AlignSize(size);
      if n == 0 {
        return 0;
      }
      AllocatorInit();
      FirstBlock();
      var block := freeList;
      ghost var i := 0;
      while block != 0
        invariant Ready() && i <= |blocks| && block == Pointer(i)
        invariant blocks == old(blocks) && LiveKept(-1)
        invariant forall j :: 0 <= j < i ==> !(blocks[j].free && blocks[j].size >= n)
        decreases |blocks| - i
      {
        var h := Follow(block - base, i);
        if h.free != 0 && h.size >= n {
          ghost var bytes := pool[..];
          Take(block - base, n, i);
          KeptTwice(old(pool[..]), old(blocks), bytes, old(blocks), pool[..], blocks, -1);
          return block + HEADER;
        }
        block := h.next;
        i := i + 1;
      }
      forall lo: nat, hi: nat | NoAdjacentFree(blocks) && Gap(blocks, lo, hi)
        ensures hi - lo < HEADER + n
      {
        SegmentTiles(pool[..], base, blocks, 0, POOL_SIZE, 0);
        NoGapFits(blocks, n, lo, hi);
      }
      return 0;
    }

    /** `split_block(block, size); block->free = 0;` */
    method Take(off: nat, n: nat, ghost i: nat)
      requires Ready() && i < |blocks| && blocks[i].off == off && blocks[i].free
      requires n % ALIGNMENT == 0 && n <= blocks[i].size
      modifies pool, this`blocks
      ensures Ready() && LiveKept(-1)
      ensures blocks == Replace(old(blocks), i, i + 1, SplitTail(old(blocks)[i].(free := false), n))
    {
      hide HeaderAt, Segment, Kept;
      ghost var bytes, bs := pool[..], blocks;
      SplitBlock(off, n, i);
      ghost var bytes1, bs1 := pool[..], blocks;
      SetFree(off, false, i);
      KeptTwice(bytes, bs, bytes1, bs1, pool[..], blocks, off);
      ExemptFree(bytes, bs, pool[..], blocks, base, i);
    }

    /** What `free` may be called with: the pointer to a block, or to a header of earlier
        days that still reads free. */
    ghost predicate Freeable(ptr: int)
      reads this, pool
      requires Placed()
    {
      var off := ptr - HEADER - base;
      || IndexAt(blocks, off) < |blocks|
      || (0 <= off && off + HEADER <= POOL_SIZE && HeaderAt(pool[..], off).free != 0)
    }

    /** `free`: NULL, a heap never used and an already free block are left alone;
        otherwise the block is released and the whole chain swept.  Either way the pointer
        can be freed again without effect, wherever its header has ended up. */
    method Free(ptr: u64)
      requires Valid()
      requires ptr == 0 || !initialized || Freeable(ptr)
      modifies pool, this`blocks
      ensures Valid() && initialized == old(initialized)
      ensures ptr != 0 && initialized ==>
        Freeable(ptr) && Released(blocks, ptr - HEADER - base) == blocks
      ensures LiveKept(ptr - HEADER - base)
      ensures blocks == if ptr == 0 || !initialized then old(blocks) else Released(old(blocks), ptr - HEADER - base)
    {
      hide HeaderAt, Segment, Kept, IndexAt, Coalesced, Replace;
      KeptSame(pool[..], blocks, ptr - HEADER - base);
      if ptr == 0 || !initialized {
        return;
      }
      var off := ptr - HEADER - base;
      ghost var i := IndexAt(blocks, off);
      if i < |blocks| {
        Neighbour(pool[..], base, blocks, 0, POOL_SIZE, 0, i);
      }
      var h := LoadHeader(off);
      if h.free != 0 {
        return;
      }
      ghost var bytes0, bs0 := pool[..], blocks;
      SetFree(off, true, i);
      FreedIsDead(pool[..], base, bs0, blocks, i);
      ghost var bytes1, bs1 := pool[..], blocks;
      CoalesceAll();
      DeadIsFreeable(pool[..], base, blocks, off);
      KeptWeaken(bytes1, bs1, pool[..], blocks, off);
      KeptTwice(bytes0, bs0, bytes1, bs1, pool[..], blocks, off);
    }

    /** The live block a pointer denotes. */
    ghost predicate LiveAt(ptr: int, b: Block)
      reads this
    {
      b in blocks && !b.free && ptr == base + b.Payload()
    }

    ghost function Address(off: Option<nat>): int {
      if off.None? then 0 else base + off.value + HEADER
    }

    /** `realloc`.  Shrinks in place, absorbs a free neighbour, or moves. */
    method Realloc(ptr: u64, newSize: u64) returns (p: u64)
      requires Valid()
      requires ptr == 0 || (initialized && IndexAt(blocks, ptr - HEADER - base) < |blocks|)
      modifies pool, this`blocks, this`freeList, this`initialized
      ensures Valid() && (old(initialized) ==> initialized)
      ensures LiveKept(ptr - HEADER - base)
      ensures ptr == 0 ==>
        var n, bs := AlignSize(newSize), old(blocks);
        if n == 0 || FirstFit(bs, n) == |bs| then p == 0 && blocks == bs
        else p == base + bs[FirstFit(bs, n)].Payload() && blocks == Allocated(bs, n)
      ensures ptr != 0 && newSize == 0 ==> p == 0 && blocks == Released(old(blocks), ptr - HEADER - base)
      ensures ptr != 0 && newSize != 0 && AlignSize(newSize) == 0 ==> p == 0
      ensures ptr != 0 && newSize != 0 && AlignSize(newSize) != 0 ==>
        var i := IndexAt(old(blocks), ptr - HEADER - base);
        && blocks == Resized(old(blocks), i, AlignSize(newSize))
        && p == Address(Destination(old(blocks), i, AlignSize(newSize)))
      // a non-zero size on a live block: NULL and nothing lost ...
      ensures ptr != 0 && newSize != 0 && p == 0 ==> blocks == old(blocks) && LiveKept(-1)
      // ... or a block with room for the new size and the first min(old, new) bytes
      ensures ptr != 0 && newSize != 0 && p != 0 ==>
        var b := old(blocks[IndexAt(blocks, ptr - HEADER - base)]);
        && !b.free
        && (exists c :: LiveAt(p, c) && AlignSize(newSize) <= c.size < AlignSize(newSize) + 32)
        && Copied(old(pool[..]), b.Payload(), pool[..], p - base, if b.size < newSize then b.size else newSize)
    {
      hide HeaderAt, Segment, Kept, Copied, Resized, Released, Destination, FirstFit, IndexAt, Allocated, AlignSize;
      if ptr == 0 {
        p := Malloc(newSize);
        KeptWeaken(old(pool[..]), old(blocks), pool[..], blocks, ptr - HEADER - base);
        return;
      }
      if newSize == 0 {
        Free(ptr);
        return 0;
      }
      var n := AlignSize(newSize);
      if n == 0 {
        KeptSame(pool[..], blocks, -1);
        KeptSame(pool[..], blocks, ptr - HEADER - base);
        return 0;
      }
      p := Resize(ptr, n, IndexAt(blocks, ptr - HEADER - base));
      ghost var b := old(blocks[IndexAt(blocks, ptr - HEADER - base)]);
      if p != 0 {
        CopiedPrefix(old(pool[..]), b.Payload(), pool[..], p - base, if b.size < n then b.size else n,
                     if b.size < newSize then b.size else newSize);
      }
    }

    /** `realloc` of a block to a non-zero aligned size. */
    method Resize(ptr: u64, n: u64, ghost i: nat) returns (p: u64)
      requires Ready() && ptr >= base + HEADER && i < |blocks| && i == IndexAt(blocks, ptr - HEADER - base)
      requires n % ALIGNMENT == 0
      modifies pool, this`blocks, this`freeList, this`initialized
      ensures Ready() && LiveKept(ptr - HEADER - base)
      ensures p == 0 ==> blocks == old(blocks) && LiveKept(-1)
      ensures p != 0 ==>
        var b := old(blocks)[i];
        && !b.free && (exists c :: LiveAt(p, c) && n <= c.size < n + 32)
        && Copied(old(pool[..]), b.Payload(), pool[..], p - base, if b.size < n then b.size else n)
      ensures blocks == Resized(old(blocks), i, n) && p == Address(Destination(old(blocks), i, n))
    {
      hide HeaderAt, Segment, Kept, Copied, Replace, SplitTail, FirstFit, IndexAt, Allocated, Released;
      var off := ptr - HEADER - base;
      KeptSame(pool[..], blocks, -1);
      KeptSame(pool[..], blocks, off);
      var h := Follow(off, i);
      if h.free != 0 {
        return 0;
      }
      if n <= h.size {
        Shrink(off, n, i);
        return ptr;
      }
      var extend := NextIsFree(off, i);
      if extend {
        var next := Follow(h.next - base, i + 1);
        if h.size + HEADER + next.size >= n {
          Extend(off, n, i);
          return ptr;
        }
      }
      p := Move(ptr, off, h.size, n, i);
    }

    /** The in-place shrinking path of `realloc`. */
    method Shrink(off: nat, n: nat, ghost i: nat)
      requires Ready() && i < |blocks| && blocks[i].off == off && !blocks[i].free
      requires n % ALIGNMENT == 0 && n <= blocks[i].size
      modifies pool, this`blocks
      ensures Ready() && LiveKept(off)
      ensures blocks == Replace(old(blocks), i, i + 1, SplitTail(old(blocks)[i], n))
      ensures exists c :: LiveAt(base + off + HEADER, c) && n <= c.size < n + 32
      ensures Copied(old(pool[..]), off + HEADER, pool[..], off + HEADER, n)
    {
      hide HeaderAt, Kept;
      Neighbour(pool[..], base, blocks, 0, POOL_SIZE, 0, i);
      SplitBlock(off, n, i);
      assert blocks[i] == SplitTail(old(blocks)[i], n)[0];
      assert LiveAt(base + off + HEADER, blocks[i]);
    }

    /** The path of `realloc` that absorbs the free block that follows. */
    method Extend(off: nat, n: nat, ghost i: nat)
      requires Ready() && i + 1 < |blocks| && blocks[i].off == off && !blocks[i].free && blocks[i + 1].free
      requires n % ALIGNMENT == 0 && blocks[i].size < n <= blocks[i].size + HEADER + blocks[i + 1].size
      modifies pool, this`blocks
      ensures Ready() && LiveKept(off)
      ensures blocks == Replace(old(blocks), i, i + 2, SplitTail(Merged(old(blocks)[i], old(blocks)[i + 1]), n))
      ensures exists c :: LiveAt(base + off + HEADER, c) && n <= c.size < n + 32
      ensures Copied(old(pool[..]), off + HEADER, pool[..], off + HEADER, old(blocks)[i].size)
    {
      hide HeaderAt, Segment, Kept;
      Neighbour(pool[..], base, blocks, 0, POOL_SIZE, 0, i + 1);
      Neighbour(pool[..], base, blocks, 0, POOL_SIZE, 0, i);
      ghost var bytes, bs := pool[..], blocks;
      AbsorbNext(off, i);
      ghost var bytes1, bs1 := pool[..], blocks;
      ReplaceTwice(bs, i, Merged(bs[i], bs[i + 1]), SplitTail(Merged(bs[i], bs[i + 1]), n));
      Shrink(off, n, i);
      KeptTwice(bytes, bs, bytes1, bs1, pool[..], blocks, off);
      CopiedPrefix(bytes1, off + HEADER, pool[..], off + HEADER, n, bs[i].size);
      KeptThenCopied(bytes, bytes1, bs[i], pool[..], off + HEADER, bs[i].size);
    }

    /** The moving path of `realloc`: allocate, copy, free. */
    method Move(ptr: u64, off: nat, oldSize: nat, n: u64, ghost i: nat) returns (p: u64)
      requires Ready() && ptr == base + off + HEADER && i < |blocks| && IndexAt(blocks, off) == i && !blocks[i].free
      requires n % ALIGNMENT == 0 && blocks[i].size == oldSize < n
      modifies pool, this`blocks, this`freeList, this`initialized
      ensures Ready() && LiveKept(off)
      ensures p == 0 ==> FirstFit(old(blocks), n) == |old(blocks)| && blocks == old(blocks) && LiveKept(-1)
      ensures p != 0 ==>
        && FirstFit(old(blocks), n) < |old(blocks)| && blocks == Released(Allocated(old(blocks), n), off)
        && p == base + old(blocks)[FirstFit(old(blocks), n)].Payload()
        && (exists c :: LiveAt(p, c) && n <= c.size < n + 32)
        && Copied(old(pool[..]), off + HEADER, pool[..], p - base, oldSize)
    {
      hide HeaderAt, Segment, Kept, Copied, Replace, SplitTail, Allocated, Released, SamePayload, Coalesced;
      ghost var bytes0, bs0 := pool[..], blocks;
      p := CopyOut(off, oldSize, n, i);
      if p == 0 {
        KeptWeaken(bytes0, bs0, pool[..], blocks, off);
        return;
      }
      ghost var bytes2, bs2, c := pool[..], blocks, blocks[FirstFit(bs0, n)];
      Free(ptr);
      KeptBlock(bytes2, bs2, pool[..], blocks, off, c);
      CopiedThenKept(bytes0, off + HEADER, bytes2, pool[..], c, oldSize);
      assert LiveAt(p, c);
      KeptWeaken(bytes0, bs0, bytes2, bs2, off);
      KeptTwice(bytes0, bs0, bytes2, bs2, pool[..], blocks, off);
    }

    /** Allocating the new block and copying the old payload into it. */
    method CopyOut(off: nat, oldSize: nat, n: u64, ghost i: nat) returns (p: u64)
      requires Ready() && i < |blocks| && IndexAt(blocks, off) == i && !blocks[i].free
      requires n % ALIGNMENT == 0 && blocks[i].size == oldSize < n
      modifies pool, this`blocks, this`freeList, this`initialized
      ensures Ready() && LiveKept(-1)
      ensures p == 0 ==> FirstFit(old(blocks), n) == |old(blocks)| && blocks == old(blocks)
      ensures p != 0 ==>
        var f := FirstFit(old(blocks), n);
        && f < |old(blocks)| && blocks == Allocated(old(blocks), n) && f < |blocks|
        && !blocks[f].free && n <= blocks[f].size < n + 32 && blocks[f].off != off && p == base + blocks[f].Payload()
        && blocks[f].off == old(blocks)[f].off
        && IndexAt(blocks, off) < |blocks|
        && Copied(old(pool[..]), off + HEADER, pool[..], blocks[f].Payload(), oldSize)
    {
      hide HeaderAt, Segment, Kept, Copied, Replace, SplitTail, Allocated, Released, SamePayload, Coalesced,
        FirstFit, IndexAt;
      ghost var bytes0, bs0 := pool[..], blocks;
      p := Malloc(n);
      if p == 0 {
        return;
      }
      ghost var bytes1 := pool[..];
      ghost var f := FirstFit(bs0, n);
      NewBlock(bs0, n);
      KeptBlock(bytes0, bs0, bytes1, blocks, -1, bs0[i]);
      ghost var i1 :| 0 <= i1 < |blocks| && blocks[i1] == bs0[i];
      OnlyBlockThere(bytes0, base, bs0, f);
      var dst := p - HEADER - base;
      CopyPayload(dst, off, oldSize, f, i1);
      KeptThenCopied(bytes0, bytes1, bs0[i], pool[..], p - base, oldSize);
      KeptSame(pool[..], blocks, -1);
      KeptThrice(bytes0, bs0, bytes1, blocks, pool[..], pool[..], blocks, dst, -1);
    }

    method CopyBytes(dst: nat, src: nat, count: nat)
      requires dst + count <= pool.Length && src + count <= pool.Length
      requires dst + count <= src || src + count <= dst
      modifies pool
      ensures pool[dst..dst + count] == old(pool[src..src + count])
      ensures forall j :: 0 <= j < pool.Length && !(dst <= j < dst + count) ==> pool[j] == old(pool[j])
    {
      var done := 0;
      while done < count
        invariant done <= count
        invariant forall j :: 0 <= j < pool.Length && !(dst <= j < dst + done) ==> pool[j] == old(pool[j])
        invariant pool[dst..dst + done] == old(pool[src..src + done])
      {
        pool[dst + done] := pool[src + done];
        done := done + 1;
      }
    }

    /** The byte-copy loop of `realloc`, on the payloads of two blocks. */
    method CopyPayload(dst: nat, src: nat, count: nat, ghost f: nat, ghost i: nat)
      requires Ready() && f < |blocks| && i < |blocks| && f != i && blocks[f].off == dst && blocks[i].off == src
      requires count <= blocks[f].size && count <= blocks[i].size
      modifies pool
      ensures Ready() && Kept(old(pool[..]), blocks, pool[..], blocks, dst)
      ensures Copied(old(pool[..]), src + HEADER, pool[..], dst + HEADER, count)
    {
      hide HeaderAt, Segment, Kept;
      Neighbour(pool[..], base, blocks, 0, POOL_SIZE, 0, f);
      Neighbour(pool[..], base, blocks, 0, POOL_SIZE, 0, i);
      InOrder(pool[..], base, blocks, 0, POOL_SIZE, 0, if f < i then f else i, if f < i then i else f);
      CopyBytes(dst + HEADER, src + HEADER, count);
      PayloadWrite(old(pool[..]), pool[..], base, blocks, f);
      assert pool[..][dst + HEADER..dst + HEADER + count] == pool[dst + HEADER..dst + HEADER + count];
    }

    /** `calloc`: the product must fit, and the memory handed out is zero. */
    method Calloc(num: u64, size: u64) returns (ptr: u64)
      requires Valid()
      modifies pool, this`blocks, this`freeList, this`initialized
      ensures Valid() && LiveKept(-1) && (old(initialized) ==> initialized) && (ptr != 0 ==> initialized)
      ensures
        var n, bs := if num * size < TWO_64 then AlignSize(num * size) else 0, old(blocks);
        if n == 0 || FirstFit(bs, n) == |bs| then ptr == 0 && blocks == bs
        else ptr == base + bs[FirstFit(bs, n)].Payload() && blocks == Allocated(bs, n)
      ensures ptr != 0 ==>
        && (exists c :: LiveAt(ptr, c) && c.size >= num * size)
        && forall k :: ptr - base <= k < ptr - base + num * size && 0 <= k < POOL_SIZE ==> pool[k] == 0
    {
      hide HeaderAt, Segment, Kept, Replace, SplitTail, Allocated;
      KeptSame(pool[..], blocks, -1);
      if num == 0 || size == 0 {
        assert num * size == 0;
        return 0;
      }
      if num > (TWO_64 - 1) / size {
        ProductOverflow(num, size);
        return 0;
      }
      ProductFits(num, size);
      var total := num * size;
      ghost var bytes0, bs0 := pool[..], blocks;
      ptr := Malloc(total);
      if ptr == 0 {
        return;
      }
      ghost var n := AlignSize(total);
      ghost var f := FirstFit(bs0, n);
      NewBlock(bs0, n);
      ghost var bytes1, c := pool[..], blocks[f];
      Neighbour(bytes1, base, blocks, 0, POOL_SIZE, 0, f);
      ZeroBytes(ptr - base, total);
      PayloadWrite(bytes1, pool[..], base, blocks, f);
      assert LiveAt(ptr, c);
      KeptSame(pool[..], blocks, -1);
      if old(initialized) {
        OnlyBlockThere(bytes0, base, bs0, f);
      }
      KeptThrice(bytes0, bs0, bytes1, blocks, pool[..], pool[..], blocks, c.off, -1);
    }

    /** The clearing loop of `calloc`. */
    method ZeroBytes(start: nat, count: nat)
      requires start + count <= pool.Length
      modifies pool
      ensures forall j :: 0 <= j < pool.Length ==> pool[j] == if start <= j < start + count then 0 else old(pool[j])
    {
      for index := 0 to count
        invariant forall j :: 0 <= j < pool.Length ==>
          pool[j] == if start <= j < start + index then 0 else old(pool[j])
      {
        pool[start + index] := 0;
      }
    }

    /** The tiling, seen from outside: the blocks fill the pool exactly, every payload
        is aligned, and two blocks share no byte. */
    lemma PoolLayout(i: nat, j: nat)
      requires Valid() && initialized && i < j < |blocks|
      ensures Extent(blocks) == POOL_SIZE
      ensures (base + blocks[i].Payload()) % ALIGNMENT == 0 && (base + blocks[j].Payload()) % ALIGNMENT == 0
      ensures blocks[i].off < blocks[i].Payload() <= blocks[i].End() <= blocks[j].off < blocks[j].End() <= POOL_SIZE
    {
      hide Segment;
      ExactTiling(pool[..], base, blocks, 0, POOL_SIZE, 0);
      InOrder(pool[..], base, blocks, 0, POOL_SIZE, 0, i, j);
      Aligned(pool[..], base, blocks, 0, POOL_SIZE, 0, i);
      Aligned(pool[..], base, blocks, 0, POOL_SIZE, 0, j);
      PayloadAligned(base, blocks[i].off);
      PayloadAligned(base, blocks[j].off);
    }
  }

  lemma PayloadAligned(base: nat, off: nat)
    requires base % ALIGNMENT == 0 && off % ALIGNMENT == 0
    ensures (base + (off + HEADER)) % ALIGNMENT == 0
  {
    MultipleOf8(base + (off + HEADER), base / ALIGNMENT + off / ALIGNMENT + 3);
  }

  lemma ProductOverflow(num: nat, size: nat)
    requires size > 0 && num > (TWO_64 - 1) / size
    ensures num * size >= TWO_64
  {
    var q := (TWO_64 - 1) / size;
    assert (q + 1) * size >= TWO_64;
    assert num * size >= (q + 1) * size;
  }

  lemma ProductFits(num: nat, size: nat)
    requires size > 0 && num <= (TWO_64 - 1) / size
    ensures num * size < TWO_64
  {
    var q := (TWO_64 - 1) / size;
    assert q * size <= TWO_64 - 1;
    assert num * size <= q * size;
  }

  /** The block an allocation creates. */
  lemma NewBlock(bs: seq<Block>, n: nat)
    requires FirstFit(bs, n) < |bs|
    ensures
      var f := FirstFit(bs, n);
      && f < |Allocated(bs, n)|
      && var c := Allocated(bs, n)[f];
         c.off == bs[f].off && !c.free && n <= c.size < n + 32
  {}

  /** Headers that read free and belong to free space go on to do so. */
  ghost predicate StillDead(bytes: seq<byte>, bs: seq<Block>, bytes': seq<byte>, bs': seq<Block>)
    requires |bytes| == |bytes'| == POOL_SIZE
  {
    forall off :: Dead(bytes, bs, off) ==> Dead(bytes', bs', off)
  }

  lemma FreedIsDead(bytes: seq<byte>, base: nat, bs: seq<Block>, bs': seq<Block>, i: nat)
    requires |bytes| == POOL_SIZE && Segment(bytes, base, bs', 0, POOL_SIZE, 0) && i < |bs|
    requires bs' == Replace(bs, i, i + 1, [bs[i].(free := true)])
    ensures Dead(bytes, bs', bs[i].off)
  {
    hide Segment, HeaderAt;
    assert i < |bs'| && bs'[i] == bs[i].(free := true);
    Neighbour(bytes, base, bs', 0, POOL_SIZE, 0, i);
    assert DeadIn(bs'[i], bs[i].off);
  }

  /** A dead header is no live block's. */
  lemma DeadIsFreeable(bytes: seq<byte>, base: nat, bs: seq<Block>, off: int)
    requires |bytes| == POOL_SIZE && Segment(bytes, base, bs, 0, POOL_SIZE, 0) && Dead(bytes, bs, off)
    ensures 0 <= off && off + HEADER <= POOL_SIZE && HeaderAt(bytes, off).free != 0
    ensures Released(bs, off) == bs
  {
    hide Segment, HeaderAt;
    var i := IndexAt(bs, off);
    if i < |bs| {
      Neighbour(bytes, base, bs, 0, POOL_SIZE, 0, i);
    }
  }

  lemma AbsorbKeepsDead(bytes: seq<byte>, bytes': seq<byte>, base: nat, bs: seq<Block>, i: nat)
    requires |bytes| == |bytes'| == POOL_SIZE && i + 1 < |bs| && bs[i].free && bs[i + 1].free
    requires Segment(bytes, base, bs, 0, POOL_SIZE, 0)
    requires Segment(bytes', base, Replace(bs, i, i + 2, [Merged(bs[i], bs[i + 1])]), 0, POOL_SIZE, 0)
    requires forall j :: 0 <= j < POOL_SIZE && !(bs[i].off <= j < bs[i].Payload()) ==> bytes'[j] == bytes[j]
    ensures StillDead(bytes, bs, bytes', Replace(bs, i, i + 2, [Merged(bs[i], bs[i + 1])]))
  {
    hide Dead, Segment;
    forall off | Dead(bytes, bs, off)
      ensures Dead(bytes', Replace(bs, i, i + 2, [Merged(bs[i], bs[i + 1])]), off)
    {
      DeadKept(bytes, bytes', base, bs, i, off);
    }
  }

  lemma KeptBlock(bytes: seq<byte>, bs: seq<Block>, bytes': seq<byte>, bs': seq<Block>, except: int, b: Block)
    requires |bytes| == |bytes'| == POOL_SIZE && Kept(bytes, bs, bytes', bs', except)
    requires b in bs && !b.free && b.off != except
    ensures b in bs' && SamePayload(bytes, bytes', b)
  {}

  lemma ReplaceTwice(bs: seq<Block>, i: nat, m: Block, r: seq<Block>)
    requires i + 1 < |bs|
    ensures var bs' := Replace(bs, i, i + 2, [m]);
      i < |bs'| && bs'[i] == m && Replace(bs', i, i + 1, r) == Replace(bs, i, i + 2, r)
  {}

  lemma CoalescedNil()
    ensures Coalesced([]) == []
  {}

  lemma NotEmpty(bs: seq<Block>, i: nat, k: nat, r: seq<Block>)
    requires i <= k <= |bs| && r != []
    ensures Replace(bs, i, k, r) != []
  {}

  lemma ReplaceSame(bs: seq<Block>, i: nat)
    requires i < |bs|
    ensures Replace(bs, i, i + 1, [bs[i]]) == bs
  {}

  lemma KeptSame(bytes: seq<byte>, bs: seq<Block>, except: int)
    requires |bytes| == POOL_SIZE
    ensures Kept(bytes, bs, bytes, bs, except)
  {}
}
