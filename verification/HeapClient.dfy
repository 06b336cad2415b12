/** The heap as its callers see it (`kernel/lib/std/stdlib.c`): independent byte strings,
    each named by the pointer that was handed out. */
module HeapClient {
  import opened Machine
  import opened Words
  import opened HeapBlocks
  import opened Heap
  import opened HeapRuns

  /** A block of that size holds the string and is less than a header and one unit longer. */
  predicate Snug(length: nat, size: nat) { size % 8 == 0 && length <= size < length + 32 }

  /** In multiples of 8: between the rounded length and a header beyond it. */
  lemma SnugMeans(length: nat, size: nat)
    ensures Snug(length, size) <==>
      size % 8 == 0 && (length + 7) / 8 * 8 <= size < (length + 7) / 8 * 8 + 32
  {}

  /** Every live block is behind one of the pointers. */
  ghost predicate AllHeld(blocks: seq<Block>, base: nat, keys: set<int>) {
    forall b :: HeldBy(blocks, base, keys, b)
  }

  ghost predicate HeldBy(blocks: seq<Block>, base: nat, keys: set<int>, b: Block) {
    b in blocks && !b.free ==> base + b.Payload() in keys
  }

  lemma HeldAllocated(bs: seq<Block>, n: nat, base: nat, keys: set<int>)
    requires AllHeld(bs, base, keys) && FirstFit(bs, n) < |bs|
    ensures AllHeld(Allocated(bs, n), base, keys + {base + bs[FirstFit(bs, n)].Payload()})
  {
    var f := FirstFit(bs, n);
    HeldReplaced(bs, f, f + 1, SplitTail(bs[f].(free := false), n), base, keys);
  }

  lemma HeldReplaced(bs: seq<Block>, i: nat, k: nat, r: seq<Block>, base: nat, keys: set<int>)
    requires AllHeld(bs, base, keys) && i < k <= |bs| && r != [] && forall j :: 1 <= j < |r| ==> r[j].free
    ensures AllHeld(Replace(bs, i, k, r), base, keys + {base + r[0].Payload()})
  {
    var out, more := Replace(bs, i, k, r), keys + {base + r[0].Payload()};
    forall b
      ensures HeldBy(out, base, more, b)
    {
      assert HeldBy(bs, base, keys, b);
      if b in out && !b.free {
        assert b in bs[..i] || b in r || b in bs[k..];
      }
    }
  }

  lemma HeldReleased(bs: seq<Block>, off: int, base: nat, keys: set<int>, p: int)
    requires p == base + off + HEADER
    requires Tiled(bs, 0, POOL_SIZE) && AllHeld(bs, base, keys)
    requires IndexAt(bs, off) < |bs| && !bs[IndexAt(bs, off)].free
    ensures AllHeld(Released(bs, off), base, keys - {p})
  {
    hide Tiled, Coalesced;
    var i := IndexAt(bs, off);
    var mid := Replace(bs, i, i + 1, [bs[i].(free := true)]);
    var out, fewer := Coalesced(mid), keys - {p};
    forall b
      ensures HeldBy(out, base, fewer, b)
    {
      if b in out && !b.free {
        CoalescedKeepsLive(mid, b);
        var j :| 0 <= j < |mid| && mid[j] == b;
        assert mid[j] == bs[j] && j != i;
        assert HeldBy(bs, base, keys, b);
        OtherOffset(bs, i, j);
      }
    }
  }

  lemma HeldResized(bs: seq<Block>, i: nat, n: nat, base: nat, keys: set<int>)
    requires Tiled(bs, 0, POOL_SIZE) && AllHeld(bs, base, keys)
    requires i < |bs| && IndexAt(bs, bs[i].off) == i && !bs[i].free && Destination(bs, i, n).Some?
    ensures AllHeld(Resized(bs, i, n), base,
                    keys - {base + bs[i].Payload()} + {base + Destination(bs, i, n).value + HEADER})
  {
    hide Tiled, Coalesced, Replace, AllHeld, SplitTail, Released, Allocated;
    Same(keys, base + bs[i].Payload());
    if n <= bs[i].size {
      HeldReplaced(bs, i, i + 1, SplitTail(bs[i], n), base, keys);
    } else if i + 1 < |bs| && bs[i + 1].free && Merged(bs[i], bs[i + 1]).size >= n {
      HeldReplaced(bs, i, i + 2, SplitTail(Merged(bs[i], bs[i + 1]), n), base, keys);
    } else {
      HeldMoved(bs, i, n, base, keys, base + bs[i].Payload(), base + bs[FirstFit(bs, n)].Payload());
    }
  }

  lemma HeldMoved(bs: seq<Block>, i: nat, n: nat, base: nat, keys: set<int>, p: int, q: int)
    requires Tiled(bs, 0, POOL_SIZE) && AllHeld(bs, base, keys)
    requires i < |bs| && !bs[i].free && FirstFit(bs, n) < |bs|
    requires p == base + bs[i].Payload() && q == base + bs[FirstFit(bs, n)].Payload()
    ensures AllHeld(Released(Allocated(bs, n), bs[i].off), base, keys - {p} + {q})
  {
    hide Allocated, Released, Tiled, AllHeld;
    var out, more := Allocated(bs, n), keys + {q};
    assert AllHeld(out, base, more) by {
      HeldAllocated(bs, n, base, keys);
    }
    assert AllHeld(Released(out, bs[i].off), base, more - {p}) by {
      AllocatedTiles(bs, n);
      StillThere(bs, i, n);
      HeldReleased(out, bs[i].off, base, more, p);
    }
    assert p != q by {
      OtherOffset(bs, i, FirstFit(bs, n));
    }
    assert more - {p} == keys - {p} + {q};
  }

  lemma OtherOffset(bs: seq<Block>, i: nat, j: nat)
    requires Tiled(bs, 0, POOL_SIZE) && i < |bs| && j < |bs| && i != j
    ensures bs[i].off != bs[j].off
  {
    hide Tiled;
    TiledInOrder(bs, 0, POOL_SIZE, if i < j then i else j, if i < j then j else i);
  }

  lemma Same(keys: set<int>, p: int)
    ensures keys + {p} == keys - {p} + {p}
  {}

  /** The bytes behind pointer `p` sit in the live block `c` of the pool. */
  ghost predicate Intact(pool: seq<byte>, blocks: seq<Block>, base: nat, p: int, c: Block, bytes: seq<byte>) {
    && c in blocks && !c.free && p == base + c.Payload()
    && 0 < |bytes| <= c.size && c.End() <= |pool| && Snug(|bytes|, c.size)
    && pool[c.Payload()..c.Payload() + |bytes|] == bytes
  }

  lemma NewIntact(pool: seq<byte>, blocks: seq<Block>, base: nat, p: int, c: Block, size: nat)
    requires c in blocks && !c.free && p == base + c.Payload()
    requires 0 < size <= c.size && c.End() <= |pool| && Snug(size, c.size)
    ensures Intact(pool, blocks, base, p, c, pool[c.Payload()..c.Payload() + size])
  {}

  lemma StaysIntact(pool: seq<byte>, blocks: seq<Block>, pool': seq<byte>, blocks': seq<Block>, except: int,
                    base: nat, p: int, c: Block, bytes: seq<byte>)
    requires |pool| == |pool'| == POOL_SIZE && Kept(pool, blocks, pool', blocks', except)
    requires Intact(pool, blocks, base, p, c, bytes) && c.off != except
    ensures Intact(pool', blocks', base, p, c, bytes)
  {
    assert SamePayload(pool, pool', c);
  }

  /** A block that is free is nobody's. */
  lemma NobodysBlock(pool: seq<byte>, blocks: seq<Block>, base: nat, f: nat, p: int, c: Block, bytes: seq<byte>)
    requires |pool| == POOL_SIZE && Segment(pool, base, blocks, 0, POOL_SIZE, 0)
    requires f < |blocks| && blocks[f].free && Intact(pool, blocks, base, p, c, bytes)
    ensures p != base + blocks[f].Payload()
  {
    hide Segment;
    var j :| 0 <= j < |blocks| && blocks[j] == c;
    OnlyBlockThere(pool, base, blocks, f);
  }

  lemma SnugSize(length: u64, size: nat)
    requires AlignSize(length) != 0 && AlignSize(length) <= size < AlignSize(length) + 32 && size % 8 == 0
    ensures Snug(length, size)
  {
    SnugMeans(length, size);
  }

  lemma NothingAllocated(bs: seq<Block>, n: nat)
    ensures FirstFit(bs, n) == |bs| ==> Allocated(bs, n) == bs
  {}

  /** The aligned size `calloc` asks for; 0 when the product or its rounding wraps. */
  function ProductSize(num: u64, size: u64): nat {
    if num * size < TWO_64 then AlignSize(num * size) else 0
  }

  lemma IntactPlace(pool: seq<byte>, blocks: seq<Block>, base: nat, p: int, c: Block, bytes: seq<byte>)
    requires |pool| == POOL_SIZE && Segment(pool, base, blocks, 0, POOL_SIZE, 0) && base % ALIGNMENT == 0
    requires Intact(pool, blocks, base, p, c, bytes)
    ensures p % ALIGNMENT == 0 && base + HEADER <= p && p + |bytes| <= base + POOL_SIZE
  {
    hide Segment;
    var i :| 0 <= i < |blocks| && blocks[i] == c;
    Neighbour(pool, base, blocks, 0, POOL_SIZE, 0, i);
    Aligned(pool, base, blocks, 0, POOL_SIZE, 0, i);
    PayloadAligned(base, c.off);
  }

  function Stored(bytes: seq<byte>, i: nat, b: byte): seq<byte>
    requires i < |bytes|
  {
    bytes[i := b]
  }

  /** The first `n` bytes of `was` are at `dst`. */
  ghost predicate Carried(bytes: seq<byte>, dst: int, n: nat, was: seq<byte>) {
    0 <= dst && dst + n <= |bytes| && forall k :: 0 <= k < |was| && k < n ==> bytes[dst + k] == was[k]
  }

  lemma Prefix(bytes: seq<byte>, bytes': seq<byte>, b: Block, dst: int, n: nat, was: seq<byte>)
    requires |bytes| == |bytes'| == POOL_SIZE && Copied(bytes, b.Payload(), bytes', dst, n)
    requires |was| <= b.size && b.End() <= POOL_SIZE && bytes[b.Payload()..b.Payload() + |was|] == was
    ensures Carried(bytes', dst, n, was)
  {
    forall k | 0 <= k < |was| && k < n
      ensures bytes'[dst + k] == was[k]
    {
      assert bytes'[dst..dst + n][k] == bytes[b.Payload()..b.Payload() + n][k];
      assert bytes[b.Payload()..b.Payload() + |was|][k] == was[k];
    }
  }

  lemma StoredIntact(pool: seq<byte>, blocks: seq<Block>, base: nat, p: int, c: Block, bytes: seq<byte>,
                     i: nat, b: byte)
    requires Intact(pool, blocks, base, p, c, bytes) && i < |bytes|
    ensures Intact(pool[c.Payload() + i := b], blocks, base, p, c, Stored(bytes, i, b))
  {}

  class Client {
    const heap: Allocator
    /** The live pointers and the bytes their owners expect behind them. */
    var held: map<int, seq<byte>>
    ghost var home: map<int, Block>
    /** What was asked of the heap so far. */
    ghost var history: seq<ListOp>

    ghost predicate Valid()
      reads this, heap, heap.pool
    {
      && heap.Valid() && heap.blocks == Play([INITIAL], history)
      && held.Keys == home.Keys && (held.Keys != {} ==> heap.initialized)
      && AllHeld(heap.blocks, heap.base, held.Keys)
      && forall p :: p in held ==> Intact(heap.pool[..], heap.blocks, heap.base, p, home[p], held[p])
    }

    constructor (base: u64)
      requires 0 < base && base % ALIGNMENT == 0 && base + POOL_SIZE <= TWO_64
      ensures Valid() && held == map[] && history == [] && fresh(heap) && fresh(heap.pool) && heap.base == base
    {
      heap := new Allocator(base);
      held := map[];
      home := map[];
      history := [];
    }

    /** The next operation on the heap, recorded. */
    ghost method Record(op: ListOp)
      requires heap.blocks == Apply(Play([INITIAL], history), op)
      modifies this`history
      ensures history == old(history) + [op] && heap.blocks == Play([INITIAL], history)
    {
      PlayStep([INITIAL], history, op);
      history := history + [op];
    }

    /** In every state a request that some gap has room for is refused exactly when the chain
        is fragmented; which it is not when no shrink has cut in front of a free block since
        the last `free` that swept. */
    lemma FitsExactly(n: nat)
      requires Valid()
      ensures Fits(heap.blocks, n) ==> RoomFor(heap.blocks, n)
      ensures RoomFor(heap.blocks, n) && !Fits(heap.blocks, n) <==> Fragmented(heap.blocks, n)
      ensures Swept([INITIAL], history) ==> NoAdjacentFree(heap.blocks) && !Fragmented(heap.blocks, n)
    {
      hide Segment, NoAdjacentFree, Fits, Fragmented, RoomFor, Intact, Play, Swept, Tiled;
      heap.BlocksTile();
      RefusedExactly(heap.blocks, n);
      if Swept([INITIAL], history) {
        UnusedHasNone();
        RunLeavesNoNeighbours([INITIAL], history);
      }
    }

    /** A stretch of the pool clear of all strings, with room around each for its header,
        its rounding and a tail too small to be split off. */
    ghost predicate Vacant(lo: int, hi: int)
      reads this
    {
      && heap.base <= lo <= hi <= heap.base + 0x10_0000
      && forall q :: q in held ==> q + |held[q]| + 32 <= lo || hi <= q - 24
    }

    ghost predicate Home(q: int, b: Block)
      reads this
    {
      q in held && q in home && home[q] == b && Snug(|held[q]|, b.size)
    }

    /** The block of a pointer, found by its place in the list. */
    lemma HomeOf(i: nat)
      requires i < |heap.blocks| && !heap.blocks[i].free && Valid()
      ensures Home(heap.base + heap.blocks[i].Payload(), heap.blocks[i])
    {
      hide Tiled, Snug;
      var q := heap.base + heap.blocks[i].Payload();
      assert HeldBy(heap.blocks, heap.base, held.Keys, heap.blocks[i]);
      var j :| 0 <= j < |heap.blocks| && heap.blocks[j] == home[q];
      heap.BlocksTile();
      if j != i {
        OtherOffset(heap.blocks, i, j);
      }
    }

    /** The block behind a string: its size rounded up to 8, and less than a header and one
        unit more. */
    lemma TightBlocks(p: int)
      requires Valid() && p in held
      ensures (|held[p]| + 7) / 8 * 8 <= home[p].size < (|held[p]| + 7) / 8 * 8 + 32
    {
      hide Segment, Play, AllHeld;
      SnugMeans(|held[p]|, home[p].size);
    }

    /** With no string held and no free neighbours, the pool is one free block again. */
    lemma NothingHeld()
      requires Valid() && held == map[] && NoAdjacentFree(heap.blocks)
      ensures heap.blocks == [INITIAL]
    {
      hide Segment, Play, Intact;
      var bs := heap.blocks;
      heap.BlocksTile();
      assert bs != [];
      forall i | 0 <= i < |bs|
        ensures bs[i].free
      {
        assert HeldBy(bs, heap.base, held.Keys, bs[i]);
      }
      TiledBlock(bs, 0, POOL_SIZE, 0);
    }

    lemma VacantIsRoom(lo: int, hi: int, n: nat)
      requires Valid() && Vacant(lo, hi) && hi - lo >= 24 + n
      ensures RoomFor(heap.blocks, n)
    {
      hide Valid;
      forall i | 0 <= i < |heap.blocks| && !heap.blocks[i].free
        ensures heap.blocks[i].End() <= lo - heap.base || hi - heap.base <= heap.blocks[i].off
      {
        HomeOf(i);
      }
      assert Gap(heap.blocks, lo - heap.base, hi - heap.base);
    }

    /** Where nothing but the string itself and free space lies in the way, it grows in place. */
    lemma GrowsInPlace(p: int, n: nat)
      requires Valid() && p in held && NoAdjacentFree(heap.blocks)
      requires p + n <= heap.base + 0x10_0000
      requires forall r :: r in held && r != p ==> r <= p || p + n + 24 <= r
      ensures var i := IndexAt(heap.blocks, p - HEADER - heap.base);
        i < |heap.blocks| && Destination(heap.blocks, i, n) == Some(p - HEADER - heap.base)
    {
      hide Valid, Tiled, Snug, IndexAt, FirstFit;
      HomeIndex(p);
      BlocksTile();
      var bs := heap.blocks;
      var i := IndexAt(bs, p - HEADER - heap.base);
      TiledBlock(bs, 0, POOL_SIZE, i);
      if n > bs[i].size {
        NextGivesWay(p, n, i);
      }
    }

    lemma NextGivesWay(p: int, n: nat, i: nat)
      requires Valid() && NoAdjacentFree(heap.blocks) && i < |heap.blocks|
      requires p == heap.base + heap.blocks[i].Payload() && n > heap.blocks[i].size
      requires p + n <= heap.base + 0x10_0000
      requires forall r :: r in held && r != p ==> r <= p || p + n + 24 <= r
      ensures var bs := heap.blocks;
        i + 1 < |bs| && bs[i + 1].free && Merged(bs[i], bs[i + 1]).size >= n
    {
      hide Valid, Tiled, Snug;
      BlocksTile();
      var bs := heap.blocks;
      TiledBlock(bs, 0, POOL_SIZE, i);
      if !bs[i + 1].free {
        HomeOf(i + 1);
        assert false;
      }
      TiledBlock(bs, 0, POOL_SIZE, i + 1);
      if i + 2 < |bs| {
        HomeOf(i + 2);
      }
    }

    lemma BlocksTile()
      requires Valid()
      ensures Tiled(heap.blocks, 0, POOL_SIZE)
    {
      heap.BlocksTile();
    }

    lemma StaysInPlace(p: int, n: nat)
      requires Valid() && p in held && n <= (|held[p]| + 7) / 8 * 8
      ensures var i := IndexAt(heap.blocks, p - HEADER - heap.base);
        i < |heap.blocks| && Destination(heap.blocks, i, n) == Some(p - HEADER - heap.base)
    {
      hide Valid, IndexAt, FirstFit;
      HomeIndex(p);
      HomeOf(IndexAt(heap.blocks, p - HEADER - heap.base));
      SnugMeans(|held[p]|, home[p].size);
    }

    /** A live byte string starts aligned, behind its header, and ends inside the pool. */
    lemma Placed(p: int)
      requires Valid() && p in held
      ensures p % ALIGNMENT == 0 && heap.base + HEADER <= p && p + |held[p]| <= heap.base + POOL_SIZE
    {
      hide Segment, Intact, Snug, AllHeld;
      IntactPlace(heap.pool[..], heap.blocks, heap.base, p, home[p], held[p]);
    }

    /** Any two live byte strings are apart, with room for a header between them. */
    lemma Apart(p: int, q: int)
      requires Valid() && p in held && q in held && p < q
      ensures p + |held[p]| + HEADER <= q
    {
      hide Snug, AllHeld;
      var i :| 0 <= i < |heap.blocks| && heap.blocks[i] == home[p];
      var j :| 0 <= j < |heap.blocks| && heap.blocks[j] == home[q];
      if i < j {
        heap.PoolLayout(i, j);
      } else if j < i {
        heap.PoolLayout(j, i);
      }
    }

    /** The owner of a live pointer finds its block by the header in front of it. */
    lemma HomeIndex(p: int)
      requires Valid() && p in held
      ensures heap.initialized && 0 < p < TWO_64 && p >= heap.base + HEADER
      ensures var i := IndexAt(heap.blocks, p - HEADER - heap.base);
        i < |heap.blocks| && heap.blocks[i] == home[p] && !home[p].free
    {
      hide Segment, IndexAt, Snug, AllHeld;
      var j :| 0 <= j < |heap.blocks| && heap.blocks[j] == home[p];
      OnlyBlockThere(heap.pool[..], heap.base, heap.blocks, j);
    }

    /** Pointers whose block an operation kept are still intact. */
    lemma KeepAll(bytes0: seq<byte>, bs0: seq<Block>, except: int, keep: set<int>)
      requires heap.pool.Length == POOL_SIZE == |bytes0| && held.Keys == home.Keys && keep <= held.Keys
      requires forall q :: q in keep ==> Intact(bytes0, bs0, heap.base, q, home[q], held[q]) && home[q].off != except
      requires Kept(bytes0, bs0, heap.pool[..], heap.blocks, except)
      ensures forall q :: q in keep ==> Intact(heap.pool[..], heap.blocks, heap.base, q, home[q], held[q])
    {
      hide Snug, AllHeld;
      forall q | q in keep
        ensures Intact(heap.pool[..], heap.blocks, heap.base, q, home[q], held[q])
      {
        StaysIntact(bytes0, bs0, heap.pool[..], heap.blocks, except, heap.base, q, home[q], held[q]);
      }
    }

    /** A pointer handed out becomes a byte string of its own. */
    method Adopt(p: int, size: nat, ghost c: Block)
      requires heap.blocks == Play([INITIAL], history)
      requires heap.Valid() && heap.initialized && held.Keys == home.Keys && p !in held
      requires heap.LiveAt(p, c) && 0 < size <= c.size && c.End() <= POOL_SIZE && Snug(size, c.size)
      requires AllHeld(heap.blocks, heap.base, held.Keys + {p})
      requires forall q :: q in held ==> Intact(heap.pool[..], heap.blocks, heap.base, q, home[q], held[q])
      modifies this`held, this`home
      ensures Valid() && p - heap.base >= 0
      ensures held == old(held)[p := heap.pool[p - heap.base..p - heap.base + size]]
    {
      hide Snug, AllHeld;
      hide Intact;
      NewIntact(heap.pool[..], heap.blocks, heap.base, p, c, size);
      var bytes := heap.pool[p - heap.base..p - heap.base + size];
      assert bytes == heap.pool[..][p - heap.base..p - heap.base + size];
      held := held[p := bytes];
      home := home[p := c];
      assert held.Keys == old(held.Keys) + {p};
    }

    /** A pointer to a new block becomes a string. */
    method Own(p: int, total: u64, ghost bytes0: seq<byte>, ghost bs0: seq<Block>)
      requires heap.blocks == Play([INITIAL], history) && |bytes0| == POOL_SIZE
      requires heap.Valid() && heap.initialized && held.Keys == home.Keys && AllHeld(bs0, heap.base, held.Keys)
      requires held.Keys != {} ==> Segment(bytes0, heap.base, bs0, 0, POOL_SIZE, 0)
      requires forall q :: q in held ==> Intact(bytes0, bs0, heap.base, q, home[q], held[q])
      requires forall q :: q in held ==> Intact(heap.pool[..], heap.blocks, heap.base, q, home[q], held[q])
      requires var n := AlignSize(total);
        && n != 0 && FirstFit(bs0, n) < |bs0| && heap.blocks == Allocated(bs0, n)
        && p == heap.base + bs0[FirstFit(bs0, n)].Payload()
      modifies this`held, this`home
      ensures Valid() && p !in old(held) && 0 <= p - heap.base && p - heap.base + total <= heap.pool.Length
      ensures held == old(held)[p := heap.pool[p - heap.base..p - heap.base + total]]
    {
      hide Segment, Intact, Allocated, Snug, AllHeld, Play, FirstFit, AlignSize;
      ghost var n := AlignSize(total);
      FreshBlock(bytes0, bs0, n, p);
      HeldAllocated(bs0, n, heap.base, held.Keys);
      SnugSize(total, heap.blocks[FirstFit(bs0, n)].size);
      Adopt(p, total, heap.blocks[FirstFit(bs0, n)]);
      assert p in held;
    }

    lemma VacancyIsRoom(n: nat)
      requires Valid()
      ensures forall lo: int, hi: int :: Vacant(lo, hi) && hi - lo >= 24 + n ==> RoomFor(heap.blocks, n)
    {
      hide Valid, Vacant;
      forall lo: int, hi: int | Vacant(lo, hi) && hi - lo >= 24 + n
        ensures RoomFor(heap.blocks, n)
      {
        VacantIsRoom(lo, hi, n);
      }
    }

    /** `malloc`: NULL when the size is unusable or no free block has room, and else a byte
        string nobody had. */
    method Malloc(size: u64) returns (p: u64)
      requires Valid()
      modifies this, heap.pool, heap`blocks, heap`freeList, heap`initialized
      ensures Valid() && history == old(history) + [Allocate(AlignSize(size))]
      ensures p == 0 ==> held == old(held)
      ensures p != 0 ==> p !in old(held) && p in held && |held[p]| == size && held == old(held)[p := held[p]]
      ensures p == 0 <==> AlignSize(size) == 0 || FirstFit(old(heap.blocks), AlignSize(size)) == |old(heap.blocks)|
      ensures var n, bs := AlignSize(size), old(heap.blocks);
        && (p == 0 && n != 0 && RoomFor(bs, n) <==> n != 0 && Fragmented(bs, n))
        && (p != 0 ==> RoomFor(bs, n))
      ensures Swept([INITIAL], old(history)) ==>
        (p == 0 <==> AlignSize(size) == 0 || !RoomFor(old(heap.blocks), AlignSize(size)))
      // and in terms of the strings alone: where a stretch clear of them holds it, it is met,
      // unless free blocks that a sweep would join stand in the way
      ensures AlignSize(size) != 0 ==>
        forall lo: int, hi: int :: old(Vacant(lo, hi)) && hi - lo >= 24 + AlignSize(size) ==>
          p != 0 || (Fragmented(old(heap.blocks), AlignSize(size)) && !Swept([INITIAL], old(history)))
    {
      hide Segment, Kept, Allocated, Intact, Swept, Play, RoomFor, FirstFit, Fragmented, Snug, AllHeld, Vacant;
      ghost var bytes0, bs0 := heap.pool[..], heap.blocks;
      FitsExactly(AlignSize(size));
      VacancyIsRoom(AlignSize(size));
      p := heap.Malloc(size);
      NothingAllocated(bs0, AlignSize(size));
      Record(Allocate(AlignSize(size)));
      KeepAll(bytes0, bs0, -1, held.Keys);
      if p == 0 {
        return;
      }
      Own(p, size, bytes0, bs0);
    }

    lemma FreshBlock(bytes0: seq<byte>, bs0: seq<Block>, n: nat, p: int)
      requires |bytes0| == POOL_SIZE && heap.Valid() && heap.initialized && held.Keys == home.Keys
      requires held.Keys != {} ==> Segment(bytes0, heap.base, bs0, 0, POOL_SIZE, 0)
      requires forall q :: q in held ==> Intact(bytes0, bs0, heap.base, q, home[q], held[q])
      requires FirstFit(bs0, n) < |bs0| && heap.blocks == Allocated(bs0, n)
      requires p == heap.base + bs0[FirstFit(bs0, n)].Payload()
      ensures p !in held
      ensures var f := FirstFit(bs0, n);
        && f < |heap.blocks| && heap.LiveAt(p, heap.blocks[f]) && n <= heap.blocks[f].size < n + 32
        && heap.blocks[f].size % 8 == 0 && heap.blocks[f].End() <= POOL_SIZE
    {
      hide Segment, Intact, Allocated, Snug, AllHeld;
      var f := FirstFit(bs0, n);
      NewBlock(bs0, n);
      if p in held {
        NobodysBlock(bytes0, bs0, heap.base, f, p, home[p], held[p]);
        assert false;
      }
      Neighbour(heap.pool[..], heap.base, heap.blocks, 0, POOL_SIZE, 0, f);
    }

    /** `calloc`: the same, and all zeros. */
    method Calloc(num: u64, size: u64) returns (p: u64)
      requires Valid()
      modifies this, heap.pool, heap`blocks, heap`freeList, heap`initialized
      ensures Valid() && history == old(history) + [Allocate(ProductSize(num, size))]
      ensures p == 0 ==> held == old(held)
      ensures p != 0 ==>
        && p !in old(held) && p in held && |held[p]| == num * size && held == old(held)[p := held[p]]
        && forall k :: 0 <= k < num * size ==> held[p][k] == 0
      ensures var n := ProductSize(num, size);
        p == 0 <==> n == 0 || FirstFit(old(heap.blocks), n) == |old(heap.blocks)|
      ensures var n, bs := ProductSize(num, size), old(heap.blocks);
        && (p == 0 && n != 0 && RoomFor(bs, n) <==> n != 0 && Fragmented(bs, n))
        && (p != 0 ==> RoomFor(bs, n))
      ensures Swept([INITIAL], old(history)) ==> var n := ProductSize(num, size);
        (p == 0 <==> n == 0 || !RoomFor(old(heap.blocks), n))
      ensures ProductSize(num, size) != 0 ==>
        forall lo: int, hi: int :: old(Vacant(lo, hi)) && hi - lo >= 24 + ProductSize(num, size) ==>
          p != 0 || (Fragmented(old(heap.blocks), ProductSize(num, size)) && !Swept([INITIAL], old(history)))
    {
      hide Segment, Kept, Allocated, Intact, Swept, Play, RoomFor, FirstFit, Fragmented, Snug, AllHeld, Vacant;
      ghost var bytes0, bs0 := heap.pool[..], heap.blocks;
      FitsExactly(ProductSize(num, size));
      VacancyIsRoom(ProductSize(num, size));
      p := heap.Calloc(num, size);
      NothingAllocated(bs0, ProductSize(num, size));
      Record(Allocate(ProductSize(num, size)));
      KeepAll(bytes0, bs0, -1, held.Keys);
      if p == 0 {
        return;
      }
      var total := num * size;
      Own(p, total, bytes0, bs0);
    }

    /** The other pointers, when one block was released or resized. */
    lemma OthersKept(bytes0: seq<byte>, bs0: seq<Block>, p: int)
      requires heap.Valid() && |bytes0| == POOL_SIZE && held.Keys == home.Keys && p in held
      requires forall q :: q in held ==> Intact(bytes0, bs0, heap.base, q, home[q], held[q])
      requires Kept(bytes0, bs0, heap.pool[..], heap.blocks, p - HEADER - heap.base)
      ensures forall q :: q in held && q != p ==> Intact(heap.pool[..], heap.blocks, heap.base, q, home[q], held[q])
    {
      hide Kept, Snug, AllHeld;
      KeepAll(bytes0, bs0, p - HEADER - heap.base, held.Keys - {p});
    }

    method Disown(p: int)
      requires heap.blocks == Play([INITIAL], history)
      requires heap.Valid() && heap.initialized && held.Keys == home.Keys && p in held
      requires forall q :: q in held && q != p ==> Intact(heap.pool[..], heap.blocks, heap.base, q, home[q], held[q])
      requires AllHeld(heap.blocks, heap.base, held.Keys - {p})
      modifies this`held, this`home
      ensures Valid() && held == old(held) - {p}
    {
      held := held - {p};
      home := home - {p};
    }

    /** `free` of a live pointer: that byte string is gone, the others are as they were. */
    method Free(p: u64)
      requires Valid() && p in held
      modifies this, heap.pool, heap`blocks
      ensures Valid() && held == old(held) - {p} && history == old(history) + [Release(p - HEADER - heap.base)]
      ensures Sweeps(old(heap.blocks), Release(p - HEADER - heap.base))
    {
      hide Segment, Kept, Intact, Released, IndexAt, Play, Snug, AllHeld;
      HomeIndex(p);
      ghost var bytes0, bs0 := heap.pool[..], heap.blocks;
      heap.Free(p);
      Record(Release(p - HEADER - heap.base));
      OthersKept(bytes0, bs0, p);
      SegmentTiles(bytes0, heap.base, bs0, 0, POOL_SIZE, 0);
      HeldReleased(bs0, p - HEADER - heap.base, heap.base, held.Keys, p);
      Disown(p);
    }

    /** The owner stores a byte of its own. */
    method Write(p: u64, i: nat, b: byte)
      requires Valid() && p in held && i < |held[p]|
      modifies this`held, heap.pool
      ensures Valid() && held == old(held)[p := Stored(old(held)[p], i, b)]
    {
      hide Segment, Kept, IndexAt, Intact, Stored, Play, Snug, AllHeld;
      HomeIndex(p);
      OwnBytes(p);
      ghost var bytes0, bs0, c := heap.pool[..], heap.blocks, home[p];
      var at := p - heap.base + i;
      heap.pool[at] := b;
      assert heap.pool[..] == bytes0[c.Payload() + i := b];
      PayloadWrite(bytes0, heap.pool[..], heap.base, bs0, IndexAt(bs0, p - HEADER - heap.base));
      OthersKept(bytes0, bs0, p);
      StoredIntact(bytes0, bs0, heap.base, p, c, held[p], i, b);
      held := held[p := Stored(held[p], i, b)];
      assert held.Keys == old(held.Keys);
    }

    lemma ByteOf(p: int, k: nat)
      requires Valid() && p in held && k < |held[p]|
      ensures 0 <= p - heap.base && p - heap.base + k < heap.pool.Length
      ensures heap.pool[p - heap.base + k] == held[p][k]
    {
      hide Snug, AllHeld;
      var b := home[p];
      assert heap.pool[..][b.Payload()..b.Payload() + |held[p]|][k] == heap.pool[..][b.Payload() + k];
    }

    /** Every live pointer still reads as its owner left it. */
    ghost predicate Faithful()
      reads this, heap, heap.pool
    {
      forall p, k :: p in held && 0 <= k < |held[p]| ==>
        && 0 <= p - heap.base && p - heap.base + k < heap.pool.Length
        && heap.pool[p - heap.base + k] == held[p][k]
    }

    /** Every live byte string is aligned and inside the pool, and any two are apart. */
    ghost predicate Separate()
      reads this
    {
      && (forall p :: p in held ==>
            p % ALIGNMENT == 0 && heap.base + HEADER <= p && p + |held[p]| <= heap.base + POOL_SIZE)
      && (forall p, q :: p in held && q in held && p < q ==> p + |held[p]| + HEADER <= q)
    }

    lemma AlwaysFaithful()
      requires Valid()
      ensures Faithful()
    {
      forall p, k | p in held && 0 <= k < |held[p]|
        ensures 0 <= p - heap.base && p - heap.base + k < heap.pool.Length
        ensures heap.pool[p - heap.base + k] == held[p][k]
      {
        ByteOf(p, k);
      }
    }

    lemma AlwaysSeparate()
      requires Valid()
      ensures Separate()
    {
      forall p | p in held
        ensures p % ALIGNMENT == 0 && heap.base + HEADER <= p && p + |held[p]| <= heap.base + POOL_SIZE
      {
        Placed(p);
      }
      forall p, q | p in held && q in held && p < q
        ensures p + |held[p]| + HEADER <= q
      {
        Apart(p, q);
      }
    }

    /** What an operation asks of the heap. */
    function Asked(op: Op): seq<ListOp>
      reads this
    {
      match op
      case DoMalloc(size) => [Allocate(AlignSize(size))]
      case DoCalloc(num, size) => [Allocate(ProductSize(num, size))]
      case DoRealloc(p, size) =>
        if p !in held then []
        else if size == 0 then [Release(p - HEADER - heap.base)]
        else [Resize(p - HEADER - heap.base, AlignSize(size))]
      case DoFree(p) => if p in held then [Release(p - HEADER - heap.base)] else []
      case DoWrite(_, _, _) => []
    }

    /** One operation, if its pointer is live. */
    method Do(op: Op)
      requires Valid()
      modifies this, heap.pool, heap`blocks, heap`freeList, heap`initialized
      ensures Valid() && history == old(history) + old(Asked(op))
    {
      hide Valid, FirstFit, Swept, RoomFor, Destination, Stored, IndexAt;
      match op
      case DoMalloc(size) =>
        var p := Malloc(size);
      case DoCalloc(num, size) =>
        var p := Calloc(num, size);
      case DoRealloc(p, size) =>
        if p in held && size == 0 {
          Free(p);
        } else if p in held {
          var q := Realloc(p, size);
        }
      case DoFree(p) =>
        if p in held {
          Free(p);
        }
      case DoWrite(p, i, b) =>
        if p in held && i < |held[p]| {
          Write(p, i, b);
        }
    }

    method Read(p: u64, i: nat) returns (b: byte)
      requires Valid() && p in held && i < |held[p]|
      ensures b == held[p][i]
    {
      hide Snug, AllHeld;
      HomeIndex(p);
      ByteOf(p, i);
      b := heap.pool[p - heap.base + i];
    }

    /** Where a successful `realloc` left the data: in a block nobody else had. */
    lemma Landed(bytes0: seq<byte>, bs0: seq<Block>, p: int, q: int, n: nat) returns (c: Block)
      requires |bytes0| == POOL_SIZE && heap.Valid() && heap.initialized && held.Keys == home.Keys && p in held
      requires Segment(bytes0, heap.base, bs0, 0, POOL_SIZE, 0)
      requires forall q :: q in held ==> Intact(bytes0, bs0, heap.base, q, home[q], held[q])
      requires exists c :: heap.LiveAt(q, c) && n <= c.size < n + 32
      requires var i := IndexAt(bs0, p - HEADER - heap.base);
        i < |bs0| && q == heap.Address(Destination(bs0, i, n)) && q != 0
      ensures heap.LiveAt(q, c) && n <= c.size < n + 32 && c.size % 8 == 0 && c.End() <= POOL_SIZE
      ensures q == p || q !in held
    {
      hide Segment, Intact, IndexAt, Snug, AllHeld;
      c :| heap.LiveAt(q, c) && n <= c.size < n + 32;
      var j :| 0 <= j < |heap.blocks| && heap.blocks[j] == c;
      Neighbour(heap.pool[..], heap.base, heap.blocks, 0, POOL_SIZE, 0, j);
      if q != p && q in held {
        NobodysBlock(bytes0, bs0, heap.base, FirstFit(bs0, n), q, home[q], held[q]);
        assert false;
      }
    }

    lemma OwnBytes(p: int)
      requires Valid() && p in held
      ensures var b := home[p];
        && |held[p]| <= b.size && b.End() <= POOL_SIZE
        && heap.pool[..][b.Payload()..b.Payload() + |held[p]|] == held[p]
    {
      hide Snug, AllHeld;
    }

    method Rename(p: int, q: int, size: nat, ghost c: Block, ghost n: nat)
      requires heap.blocks == Play([INITIAL], history)
      requires heap.Valid() && heap.initialized && held.Keys == home.Keys && p in held && (q == p || q !in held)
      requires forall r :: r in held && r != p ==> Intact(heap.pool[..], heap.blocks, heap.base, r, home[r], held[r])
      requires heap.LiveAt(q, c) && 0 < size <= c.size && c.End() <= POOL_SIZE && Snug(size, c.size)
      requires AllHeld(heap.blocks, heap.base, held.Keys - {p} + {q})
      requires Carried(heap.pool[..], q - heap.base, n, held[p])
      requires |held[p]| < size ==> |held[p]| <= n
      requires size <= |held[p]| ==> size <= n
      modifies this`held, this`home
      ensures Valid() && q in held && |held[q]| == size && held == (old(held) - {p})[q := held[q]]
      ensures forall k :: 0 <= k < |old(held)[p]| && k < size ==> held[q][k] == old(held)[p][k]
    {
      hide Intact;
      held := held - {p};
      home := home - {p};
      Adopt(q, size, c);
    }

    /** Nothing but free space lies between the string and the end it would have. */
    ghost predicate OpenBehind(p: int, n: nat)
      reads this
    {
      p + n <= heap.base + 0x10_0000 && forall r :: r in held && r != p ==> r <= p || p + n + 24 <= r
    }

    lemma Destinations(p: int, n: nat)
      requires Valid() && p in held
      ensures var i := IndexAt(heap.blocks, p - HEADER - heap.base);
        && i < |heap.blocks|
        && (n <= (|held[p]| + 7) / 8 * 8 ==> Destination(heap.blocks, i, n) == Some(p - HEADER - heap.base))
        && (Swept([INITIAL], history) && OpenBehind(p, n) ==>
              Destination(heap.blocks, i, n) == Some(p - HEADER - heap.base))
        && (Swept([INITIAL], history) ==>
              forall lo: int, hi: int :: Vacant(lo, hi) && hi - lo >= 24 + n ==> Destination(heap.blocks, i, n).Some?)
    {
      hide Valid, Snug, Vacant, Swept, Fragmented, RoomFor, IndexAt, NoAdjacentFree, FirstFit, Destination;
      HomeIndex(p);
      FitsExactly(n);
      if n <= (|held[p]| + 7) / 8 * 8 {
        StaysInPlace(p, n);
      }
      if Swept([INITIAL], history) && OpenBehind(p, n) {
        GrowsInPlace(p, n);
      }
      if Swept([INITIAL], history) {
        forall lo: int, hi: int | Vacant(lo, hi) && hi - lo >= 24 + n
          ensures Destination(heap.blocks, IndexAt(heap.blocks, p - HEADER - heap.base), n).Some?
        {
          VacantIsRoom(lo, hi, n);
          FitIsDestination(heap.blocks, IndexAt(heap.blocks, p - HEADER - heap.base), n);
        }
      }
    }

    static lemma FitIsDestination(bs: seq<Block>, i: nat, n: nat)
      requires i < |bs| && !bs[i].free && Fits(bs, n)
      ensures Destination(bs, i, n).Some?
    {}

    /** `realloc` of a live pointer to a non-zero size: NULL and nothing lost, or the byte
        string under its new name, cut or extended. */
    method Realloc(p: u64, size: u64) returns (q: u64)
      requires Valid() && p in held && size != 0
      modifies this, heap.pool, heap`blocks, heap`freeList, heap`initialized
      ensures Valid() && history == old(history) + [Resize(p - HEADER - heap.base, AlignSize(size))]
      ensures
        var n, at := AlignSize(size), IndexAt(old(heap.blocks), p - HEADER - heap.base);
        q == 0 <==> (n == 0 || Destination(old(heap.blocks), at, n).None?)
      ensures q == 0 ==> held == old(held)
      ensures q != 0 ==>
        && (q == p || q !in old(held)) && q in held && |held[q]| == size
        && held == (old(held) - {p})[q := held[q]]
        && forall k :: 0 <= k < |old(held)[p]| && k < size ==> held[q][k] == old(held)[p][k]
      // in place when the block has room, and, on a chain without a recent cut, when nothing
      // but free space lies between the string's new end and the next string
      ensures AlignSize(size) != 0 && AlignSize(size) <= (|old(held)[p]| + 7) / 8 * 8 ==> q == p
      ensures AlignSize(size) != 0 && Swept([INITIAL], old(history)) && old(OpenBehind(p, AlignSize(size))) ==> q == p
      // and met where a stretch clear of all strings holds it
      ensures AlignSize(size) != 0 && Swept([INITIAL], old(history)) ==>
        forall lo: int, hi: int :: old(Vacant(lo, hi)) && hi - lo >= 24 + AlignSize(size) ==> q != 0
    {
      hide Valid, Vacant, Swept, OpenBehind, AlignSize, FirstFit, Destination, IndexAt;
      Destinations(p, AlignSize(size));
      HomeIndex(p);
      q := ResizeHeld(p, size);
    }

    /** What `realloc` does to the string, and where it ends up. */
    method ResizeHeld(p: u64, size: u64) returns (q: u64)
      requires Valid() && p in held && size != 0
      modifies this, heap.pool, heap`blocks, heap`freeList, heap`initialized
      ensures Valid() && history == old(history) + [Resize(p - HEADER - heap.base, AlignSize(size))]
      ensures
        var n, at := AlignSize(size), IndexAt(old(heap.blocks), p - HEADER - heap.base);
        q == 0 <==> (n == 0 || Destination(old(heap.blocks), at, n).None?)
      ensures q == 0 ==> held == old(held)
      ensures q != 0 ==>
        && (q == p || q !in old(held)) && q in held && |held[q]| == size
        && held == (old(held) - {p})[q := held[q]]
        && forall k :: 0 <= k < |old(held)[p]| && k < size ==> held[q][k] == old(held)[p][k]
      ensures AlignSize(size) != 0 ==>
        var at := IndexAt(old(heap.blocks), p - HEADER - heap.base);
        at < |old(heap.blocks)| && q == heap.Address(Destination(old(heap.blocks), at, AlignSize(size)))
    {
      hide Segment, Kept, Intact, Resized, Destination, IndexAt, Copied, Play, Carried, Snug, AllHeld, AlignSize,
        FirstFit, heap.LiveAt;
      HomeIndex(p);
      ghost var bytes0, bs0, was, b := heap.pool[..], heap.blocks, held[p], home[p];
      OwnBytes(p);
      q := heap.Realloc(p, size);
      Record(Resize(p - HEADER - heap.base, AlignSize(size)));
      if q == 0 {
        KeepAll(bytes0, bs0, -1, held.Keys);
        return;
      }
      OthersKept(bytes0, bs0, p);
      ghost var c := Landed(bytes0, bs0, p, q, AlignSize(size));
      SnugSize(size, c.size);
      assert AllHeld(heap.blocks, heap.base, held.Keys - {p} + {q}) by {
        SegmentTiles(bytes0, heap.base, bs0, 0, POOL_SIZE, 0);
        HeldResized(bs0, IndexAt(bs0, p - HEADER - heap.base), AlignSize(size), heap.base, held.Keys);
      }
      assert Carried(heap.pool[..], q - heap.base, if b.size < size then b.size else size, was) by {
        Prefix(bytes0, heap.pool[..], b, q - heap.base, if b.size < size then b.size else size, was);
      }
      Rename(p, q, size, c, if b.size < size then b.size else size);
    }
  }

  datatype Op =
    | DoMalloc(size: u64)
    | DoCalloc(num: u64, size: u64)
    | DoRealloc(p: u64, size: u64)
    | DoFree(p: u64)
    | DoWrite(p: u64, i: nat, b: byte)

  /** Any run of the operations on live pointers, from an unused heap: every live pointer
      still reads as its owner left it, live byte strings stay apart and aligned, and no two
      free blocks are neighbours unless a shrink has cut in front of a free block since the
      last `free`, which takes a `realloc`. */
  method Run(base: u64, ops: seq<Op>) returns (c: Client)
    requires 0 < base && base % ALIGNMENT == 0 && base + POOL_SIZE <= TWO_64
    ensures c.Valid() && c.Faithful() && c.Separate()
    ensures Swept([INITIAL], c.history) ==> NoAdjacentFree(c.heap.blocks)
    ensures Swept([INITIAL], c.history) && c.held == map[] ==> c.heap.blocks == [INITIAL]
    ensures (forall op :: op in ops ==> !op.DoRealloc?) ==> NoAdjacentFree(c.heap.blocks)
  {
    hide Client.Valid, Client.Faithful, Client.Separate, NoAdjacentFree, Swept, RoomFor;
    c := new Client(base);
    for n := 0 to |ops|
      invariant c.Valid() && fresh(c) && fresh(c.heap) && fresh(c.heap.pool) && c.heap.base == base
      invariant (forall op :: op in ops ==> !op.DoRealloc?) ==> forall op :: op in c.history ==> !op.Resize?
    {
      c.Do(ops[n]);
    }
    c.AlwaysFaithful();
    c.AlwaysSeparate();
    c.FitsExactly(0);
    if Swept([INITIAL], c.history) && c.held == map[] {
      c.NothingHeld();
    }
    if forall op :: op in ops ==> !op.DoRealloc? {
      SweptWithoutResize([INITIAL], c.history);
    }
  }
}
