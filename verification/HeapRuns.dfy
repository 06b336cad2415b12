/** Fragmentation over whole runs of the heap (`kernel/lib/std/stdlib.c`): which
    operations can leave two free neighbours behind, and what that costs. */
module HeapRuns {
  import opened HeapBlocks
  import opened Heap
  import opened Words

  /** Allocation creates no pair of free neighbours. */
  lemma AllocationKeepsNoNeighbours(bs: seq<Block>, n: nat)
    requires NoAdjacentFree(bs)
    ensures NoAdjacentFree(Allocated(bs, n))
  {
    var i := FirstFit(bs, n);
    if i < |bs| {
      var r := SplitTail(bs[i].(free := false), n);
      var out := Allocated(bs, n);
      forall k | 0 <= k < |out| - 1
        ensures !(out[k].free && out[k + 1].free)
      {
        if k < i {
          assert out[k] == bs[k];
        } else if k >= i + |r| {
          assert out[k] == bs[k - |r| + 1] && out[k + 1] == bs[k - |r| + 2];
        } else if k == i + |r| - 1 {
          assert out[k + 1] == bs[i + 1];
        }
      }
    }
  }

  /** Releasing a live block leaves no two free neighbours anywhere in the pool. */
  lemma ReleaseLeavesNoNeighbours(bs: seq<Block>, off: nat)
    requires IndexAt(bs, off) < |bs| && !bs[IndexAt(bs, off)].free
    ensures NoAdjacentFree(Released(bs, off))
  {
    hide NoAdjacentFree, Coalesced, Replace, IndexAt;
    var i := IndexAt(bs, off);
    CoalescedHasNoNeighbours(Replace(bs, i, i + 1, [bs[i].(free := true)]));
  }

  /** Reallocation that shrinks creates a pair of free neighbours exactly when it cuts
      off a tail in front of a free block. */
  lemma ShrinkNeighbours(bs: seq<Block>, i: nat, n: nat)
    requires NoAdjacentFree(bs) && i < |bs| && !bs[i].free && n <= bs[i].size
    ensures NoAdjacentFree(Resized(bs, i, n)) <==>
      !(bs[i].size >= n + HEADER + ALIGNMENT && i + 1 < |bs| && bs[i + 1].free)
  {
    var r := SplitTail(bs[i], n);
    var out := Resized(bs, i, n);
    if |r| == 2 && i + 1 < |bs| {
      assert out[i + 1] == r[1] && out[i + 2] == bs[i + 1];
    }
    forall k | 0 <= k < |out| - 1 && k != i + |r| - 1
      ensures !(out[k].free && out[k + 1].free)
    {
      NeighboursAfterReplace(bs, i, i + 1, r, k);
    }
    if |r| == 1 && i + 1 < |bs| {
      assert out[i] == bs[i];
    }
  }

  lemma NeighboursAfterReplace(bs: seq<Block>, i: nat, k: nat, r: seq<Block>, j: nat)
    requires i < k <= |bs| && r != [] && j + 1 < |Replace(bs, i, k, r)| && j != i + |r| - 1
    requires r[0].free == bs[i].free
    ensures
      var out := Replace(bs, i, k, r);
      && (j + 1 <= i ==> out[j].free == bs[j].free && out[j + 1].free == bs[j + 1].free)
      && (i <= j < i + |r| - 1 ==> out[j] == r[j - i] && out[j + 1] == r[j - i + 1])
      && (j >= i + |r| ==> out[j] == bs[j - i - |r| + k] && out[j + 1] == bs[j - i - |r| + k + 1])
  {}

  lemma AbsorbKeepsNoNeighbours(bs: seq<Block>, i: nat, n: nat)
    requires NoAdjacentFree(bs) && i + 1 < |bs| && bs[i + 1].free && !bs[i].free
    requires n <= Merged(bs[i], bs[i + 1]).size
    ensures NoAdjacentFree(Replace(bs, i, i + 2, SplitTail(Merged(bs[i], bs[i + 1]), n)))
  {
    var r := SplitTail(Merged(bs[i], bs[i + 1]), n);
    var out := Replace(bs, i, i + 2, r);
    forall k | 0 <= k < |out| - 1
      ensures !(out[k].free && out[k + 1].free)
    {
      if k != i + |r| - 1 {
        NeighboursAfterReplace(bs, i, i + 2, r, k);
      } else {
        assert out[k + 1] == bs[i + 2] && bs[i + 1].free;
      }
    }
  }

  /** Reallocation that grows creates no pair of free neighbours. */
  lemma GrowthKeepsNoNeighbours(bs: seq<Block>, i: nat, n: nat)
    requires NoAdjacentFree(bs) && i < |bs| && n > bs[i].size
    ensures NoAdjacentFree(Resized(bs, i, n))
  {
    if !bs[i].free {
      hide Replace, SplitTail, Allocated, NoAdjacentFree;
      if i + 1 < |bs| && bs[i + 1].free && Merged(bs[i], bs[i + 1]).size >= n {
        AbsorbKeepsNoNeighbours(bs, i, n);
      } else if FirstFit(bs, n) < |bs| {
        var out := Allocated(bs, n);
        AllocationKeepsNoNeighbours(bs, n);
        var j := IndexAt(out, bs[i].off);
        if j < |out| && !out[j].free {
          ReleaseLeavesNoNeighbours(out, bs[i].off);
        }
      }
    }
  }

  lemma AllocatedTiles(bs: seq<Block>, n: nat)
    requires Tiled(bs, 0, POOL_SIZE)
    ensures Tiled(Allocated(bs, n), 0, POOL_SIZE)
  {
    var f := FirstFit(bs, n);
    if f < |bs| {
      var r := SplitTail(bs[f].(free := false), n);
      assert |r| == 2 ==> r[1..] == [r[1]] && r[1..][1..] == [];
      ReplaceTiles(bs, 0, POOL_SIZE, f, r);
    }
  }

  lemma Shifted(bs: seq<Block>, i: nat, n: nat) returns (at: nat)
    requires i < |bs| && !bs[i].free && FirstFit(bs, n) < |bs|
    ensures var out := Allocated(bs, n); at < |out| && out[at] == bs[i]
  {
    var f := FirstFit(bs, n);
    var r := SplitTail(bs[f].(free := false), n);
    at := if i < f then i else i + |r| - 1;
  }

  /** Allocation moves no other block. */
  lemma StillThere(bs: seq<Block>, i: nat, n: nat)
    requires Tiled(bs, 0, POOL_SIZE) && i < |bs| && !bs[i].free && FirstFit(bs, n) < |bs|
    ensures var out := Allocated(bs, n);
      var j := IndexAt(out, bs[i].off);
      j < |out| && !out[j].free
  {
    hide Tiled, Allocated, SplitTail;
    var out := Allocated(bs, n);
    var at := Shifted(bs, i, n);
    AllocatedTiles(bs, n);
    var j := IndexAt(out, bs[i].off);
    if j < at {
      TiledInOrder(out, 0, POOL_SIZE, j, at);
    }
  }

  /** The operations as they act on the block list; a size of 0 is one the heap refuses. */
  datatype ListOp = Allocate(n: nat) | Release(off: int) | Resize(off: int, n: nat)

  function Apply(bs: seq<Block>, op: ListOp): seq<Block> {
    match op
    case Allocate(n) => if n == 0 then bs else Allocated(bs, n)
    case Release(off) => Released(bs, off)
    case Resize(off, n) =>
      var i := IndexAt(bs, off);
      if n == 0 || i == |bs| then bs else Resized(bs, i, n)
  }

  /** A reallocation that cuts a tail off in front of a free block. */
  predicate Cuts(bs: seq<Block>, op: ListOp) {
    && op.Resize? && op.n != 0
    && var i := IndexAt(bs, op.off);
       && i + 1 < |bs| && !bs[i].free && bs[i].size >= op.n + HEADER + ALIGNMENT && bs[i + 1].free
  }

  /** A `free` that releases a block, and so sweeps the chain. */
  predicate Sweeps(bs: seq<Block>, op: ListOp) {
    op.Release? && IndexAt(bs, op.off) < |bs| && !bs[IndexAt(bs, op.off)].free
  }

  /** One operation on a chain without free neighbours leaves free neighbours exactly when
      it is a shrink that cuts in front of a free block. */
  lemma StepKeepsNoNeighbours(bs: seq<Block>, op: ListOp)
    requires NoAdjacentFree(bs)
    ensures NoAdjacentFree(Apply(bs, op)) <==> !Cuts(bs, op)
  {
    hide NoAdjacentFree, Allocated, Resized, Coalesced;
    match op
    case Allocate(n) =>
      AllocationKeepsNoNeighbours(bs, n);
    case Release(off) =>
      if Sweeps(bs, op) {
        ReleaseLeavesNoNeighbours(bs, off);
      }
    case Resize(off, n) =>
      var i := IndexAt(bs, off);
      if n != 0 && i < |bs| {
        ResizeKeepsNoNeighbours(bs, i, n);
      }
  }

  lemma ResizeKeepsNoNeighbours(bs: seq<Block>, i: nat, n: nat)
    requires NoAdjacentFree(bs) && i < |bs|
    ensures NoAdjacentFree(Resized(bs, i, n)) <==>
      !(i + 1 < |bs| && !bs[i].free && bs[i].size >= n + HEADER + ALIGNMENT && bs[i + 1].free)
  {
    hide NoAdjacentFree;
    if !bs[i].free {
      hide Resized;
      if n <= bs[i].size {
        ShrinkNeighbours(bs, i, n);
      } else {
        GrowthKeepsNoNeighbours(bs, i, n);
      }
    }
  }

  /** The list after a run. */
  function Play(bs: seq<Block>, ops: seq<ListOp>): seq<Block> {
    if ops == [] then bs else Apply(Play(bs, ops[..|ops| - 1]), ops[|ops| - 1])
  }

  /** No shrink has cut in front of a free block since the last `free` that swept, or since
      the start. */
  predicate Swept(bs: seq<Block>, ops: seq<ListOp>) {
    ops == [] ||
    var before, op := Play(bs, ops[..|ops| - 1]), ops[|ops| - 1];
    Sweeps(before, op) || (Swept(bs, ops[..|ops| - 1]) && !Cuts(before, op))
  }

  /** Over a whole run: no free neighbours, as long as the last cut is behind a sweep. */
  lemma {:induction false} RunLeavesNoNeighbours(bs: seq<Block>, ops: seq<ListOp>)
    requires NoAdjacentFree(bs) && Swept(bs, ops)
    ensures NoAdjacentFree(Play(bs, ops))
  {
    hide NoAdjacentFree, Cuts, Allocated, Resized, Coalesced;
    if ops != [] {
      var before, op := Play(bs, ops[..|ops| - 1]), ops[|ops| - 1];
      if Sweeps(before, op) {
        ReleaseLeavesNoNeighbours(before, op.off);
      } else {
        RunLeavesNoNeighbours(bs, ops[..|ops| - 1]);
        StepKeepsNoNeighbours(before, op);
      }
    }
  }

  lemma UnusedHasNone()
    ensures NoAdjacentFree([INITIAL])
  {}

  lemma PlayStep(bs: seq<Block>, ops: seq<ListOp>, op: ListOp)
    ensures Play(bs, ops + [op]) == Apply(Play(bs, ops), op)
  {
    assert (ops + [op])[..|ops|] == ops;
  }

  /** Without reallocation there is nothing to sweep. */
  lemma {:induction false} SweptWithoutResize(bs: seq<Block>, ops: seq<ListOp>)
    requires forall op :: op in ops ==> !op.Resize?
    ensures Swept(bs, ops)
  {
    hide Sweeps;
    if ops != [] {
      SweptWithoutResize(bs, ops[..|ops| - 1]);
    }
  }

  /** Some stretch of the pool clear of live blocks holds a header and `n` bytes. */
  ghost predicate RoomFor(bs: seq<Block>, n: nat) {
    exists lo: nat, hi: nat :: Gap(bs, lo, hi) && hi - lo >= HEADER + n
  }

  predicate Fits(bs: seq<Block>, n: nat) { FirstFit(bs, n) < |bs| }

  /** A chain that first fit refuses, and would not if it were swept before the scan. */
  predicate Fragmented(bs: seq<Block>, n: nat) { !Fits(bs, n) && Fits(Coalesced(bs), n) }

  /** On every chain there is room exactly when first fit succeeds on the swept chain. */
  lemma RoomExactly(bs: seq<Block>, n: nat)
    requires Tiled(bs, 0, POOL_SIZE)
    ensures RoomFor(bs, n) <==> Fits(Coalesced(bs), n)
  {
    hide NoAdjacentFree, Gap, Tiled, Coalesced;
    var cs := Coalesced(bs);
    var f := FirstFit(cs, n);
    CoalescedTiles(bs, 0, POOL_SIZE);
    CoalescedHasNoNeighbours(bs);
    if f < |cs| {
      FreeIsGap(cs, f);
      SameGaps(bs, cs[f].off, cs[f].End());
      assert cs[f].End() - cs[f].off >= HEADER + n;
    } else if RoomFor(bs, n) {
      var lo: nat, hi: nat :| Gap(bs, lo, hi) && hi - lo >= HEADER + n;
      SameGaps(bs, lo, hi);
      NoGapFits(cs, n, lo, hi);
    }
  }

  /** So a request is refused although a gap holds it exactly when the chain is fragmented;
      a chain without free neighbours never is, and a request that fits has room. */
  lemma RefusedExactly(bs: seq<Block>, n: nat)
    requires Tiled(bs, 0, POOL_SIZE)
    ensures RoomFor(bs, n) && !Fits(bs, n) <==> Fragmented(bs, n)
    ensures Fits(bs, n) ==> RoomFor(bs, n)
    ensures NoAdjacentFree(bs) ==> !Fragmented(bs, n)
  {
    RoomExactly(bs, n);
    SweptIsFixed(bs);
    hide NoAdjacentFree, Gap, Tiled, Coalesced;
    if Fits(bs, n) {
      var f := FirstFit(bs, n);
      FreeIsGap(bs, f);
      assert bs[f].End() - bs[f].off >= HEADER + n;
    }
  }

  /** The unused heap, `malloc(64)`, `realloc(.., 8)`: two free neighbours.  A request for
      all that lies behind the one live block is refused, though a gap holds it. */
  lemma ShrinkThenRefuse()
    ensures
      var bs, n := Play([INITIAL], [Allocate(64), Resize(0, 8)]), POOL_SIZE - 32 - HEADER;
      && bs == [Block(0, 8, false), Block(32, 32, true), Block(88, POOL_SIZE - 112, true)]
      && !NoAdjacentFree(bs) && Gap(bs, 32, POOL_SIZE) && POOL_SIZE - 32 == HEADER + n && Fragmented(bs, n)
  {
    var one := [Block(0, 64, false), Block(88, POOL_SIZE - 112, true)];
    PlayStep([INITIAL], [], Allocate(64));
    PlayStep([INITIAL], [Allocate(64)], Resize(0, 8));
    assert [] + [Allocate(64)] == [Allocate(64)];
    assert [Allocate(64)] + [Resize(0, 8)] == [Allocate(64), Resize(0, 8)];
    assert FirstFit([INITIAL], 64) == 0;
    assert Play([INITIAL], [Allocate(64)]) == one;
    assert IndexAt(one, 0) == 0;
    var two := [Block(0, 8, false), Block(32, 32, true), Block(88, POOL_SIZE - 112, true)];
    assert Resized(one, 0, 8) == two;
    assert two[1].free && two[2].free;
    var n := POOL_SIZE - 32 - HEADER;
    assert FirstFit(two, n) == 1 + FirstFit(two[1..], n);
    assert FirstFit(two[1..], n) == 1 + FirstFit(two[2..], n);
    assert FirstFit(two[2..], n) == 1 + FirstFit(two[3..], n);
    assert Coalesced(two) == [two[0]] + Coalesced(two[1..]);
    assert Coalesced(two[1..]) == Coalesced([Merged(two[1], two[2])] + two[3..]);
    assert Coalesced(two) == [two[0], Merged(two[1], two[2])];
  }
}
