/** The data structure inside the kernel heap's pool (`kernel/lib/std/stdlib.c`):
    headers stored as bytes in the pool itself, chained in address order. */
module HeapBlocks {
  import opened Machine
  import opened Words

  const POOL_SIZE: nat := 0x10_0000

  /** `sizeof(Block)` on x86-64: size at 0, free at 8, next at 16. */
  const HEADER: nat := 24
  const ALIGNMENT: nat := 8

  // ----- headers -----

  datatype Header = Header(size: nat, free: nat, next: nat)

  function HeaderAt(bytes: seq<byte>, off: nat): Header
    requires off + HEADER <= |bytes|
  {
    Header(FromBytes(bytes[off..off + 8]), FromBytes(bytes[off + 8..off + 12]),
           FromBytes(bytes[off + 16..off + 24]))
  }

  lemma HeaderFrame(bytes: seq<byte>, bytes': seq<byte>, off: nat)
    requires |bytes| == |bytes'| && off + HEADER <= |bytes|
    requires forall j :: off <= j < off + HEADER ==> bytes'[j] == bytes[j]
    ensures HeaderAt(bytes', off) == HeaderAt(bytes, off)
  {
    assert bytes'[off..off + 8] == bytes[off..off + 8];
    assert bytes'[off + 8..off + 12] == bytes[off + 8..off + 12];
    assert bytes'[off + 16..off + 24] == bytes[off + 16..off + 24];
  }

  // ----- blocks -----

  /** A block as the chain describes it: header offset, payload size, free flag. */
  datatype Block = Block(off: nat, size: nat, free: bool) {
    function Payload(): nat { off + HEADER }
    function End(): nat { off + HEADER + size }
  }

  /** The pointer to the first block of a list that starts at `lo` and is followed by `last`. */
  function Head(base: nat, bs: seq<Block>, lo: nat, last: nat): nat {
    if bs == [] then last else base + lo
  }

  /** The pool bytes [lo, hi) are tiled exactly by the blocks `bs`, whose headers link
      each to the next and the last one to `last`. */
  ghost predicate Segment(bytes: seq<byte>, base: nat, bs: seq<Block>, lo: nat, hi: nat, last: nat)
    requires |bytes| == POOL_SIZE
    decreases |bs|
  {
    if bs == [] then lo == hi
    else
      && bs[0].off == lo && bs[0].size % ALIGNMENT == 0 && bs[0].End() <= hi <= POOL_SIZE
      && HeaderAt(bytes, lo) ==
         Header(bs[0].size, if bs[0].free then 1 else 0, Head(base, bs[1..], bs[0].End(), last))
      && Segment(bytes, base, bs[1..], bs[0].End(), hi, last)
  }

  /** Where block `i` starts; the end of the segment when there is no such block. */
  function Start(bs: seq<Block>, i: nat, hi: nat): nat
    requires i <= |bs|
  {
    if i < |bs| then bs[i].off else hi
  }

  lemma {:induction false} Cut(bytes: seq<byte>, base: nat, bs: seq<Block>, lo: nat, hi: nat, last: nat, i: nat)
    requires |bytes| == POOL_SIZE && Segment(bytes, base, bs, lo, hi, last) && i <= |bs|
    ensures lo <= Start(bs, i, hi) <= hi
    ensures Segment(bytes, base, bs[..i], lo, Start(bs, i, hi), Head(base, bs[i..], Start(bs, i, hi), last))
    ensures Segment(bytes, base, bs[i..], Start(bs, i, hi), hi, last)
  {
    if i == 0 {
      assert bs[..0] == [] && bs[0..] == bs;
    } else {
      Cut(bytes, base, bs[1..], bs[0].End(), hi, last, i - 1);
      assert bs[..i][1..] == bs[1..][..i - 1] && bs[1..][i - 1..] == bs[i..];
      assert bs[..i][0] == bs[0];
    }
  }

  lemma {:induction false} Join(bytes: seq<byte>, base: nat, a: seq<Block>, b: seq<Block>,
                                lo: nat, mid: nat, hi: nat, last: nat)
    requires |bytes| == POOL_SIZE
    requires Segment(bytes, base, a, lo, mid, Head(base, b, mid, last)) && mid <= hi <= POOL_SIZE
    requires Segment(bytes, base, b, mid, hi, last)
    ensures Segment(bytes, base, a + b, lo, hi, last)
  {
    hide HeaderAt;
    if a == [] {
      assert a + b == b;
    } else {
      Join(bytes, base, a[1..], b, a[0].End(), mid, hi, last);
      assert (a + b)[1..] == a[1..] + b && (a + b)[0] == a[0];
    }
  }

  lemma {:induction false} SegmentFrame(bytes: seq<byte>, bytes': seq<byte>, base: nat, bs: seq<Block>,
                                        lo: nat, hi: nat, last: nat)
    requires |bytes| == |bytes'| == POOL_SIZE && Segment(bytes, base, bs, lo, hi, last)
    requires forall j :: lo <= j < hi && j < POOL_SIZE ==> bytes'[j] == bytes[j]
    ensures Segment(bytes', base, bs, lo, hi, last)
  {
    if bs != [] {
      HeaderFrame(bytes, bytes', lo);
      SegmentFrame(bytes, bytes', base, bs[1..], bs[0].End(), hi, last);
    }
  }

  /** Headers and payloads are laid out in address order without overlap or gap. */
  lemma {:induction false} InOrder(bytes: seq<byte>, base: nat, bs: seq<Block>, lo: nat, hi: nat, last: nat,
                                   i: nat, j: nat)
    requires |bytes| == POOL_SIZE && Segment(bytes, base, bs, lo, hi, last) && i < j < |bs|
    ensures lo <= bs[i].off && bs[i].End() <= bs[j].off && bs[j].End() <= hi
    ensures j == i + 1 ==> bs[i].End() == bs[j].off
  {
    Cut(bytes, base, bs, lo, hi, last, i);
    Cut(bytes, base, bs[i..], bs[i].off, hi, last, 1);
    Cut(bytes, base, bs[i + 1..], bs[i].End(), hi, last, j - i - 1);
    assert bs[i..][1..] == bs[i + 1..];
    assert bs[i + 1..][j - i - 1..] == bs[j..];
  }

  lemma {:induction false} Aligned(bytes: seq<byte>, base: nat, bs: seq<Block>, lo: nat, hi: nat, last: nat, i: nat)
    requires |bytes| == POOL_SIZE && Segment(bytes, base, bs, lo, hi, last) && i < |bs| && lo % ALIGNMENT == 0
    ensures bs[i].off % ALIGNMENT == 0
  {
    hide HeaderAt, Head;
    if i > 0 {
      Aligned(bytes, base, bs[1..], bs[0].End(), hi, last, i - 1);
    }
  }

  /** The headers and sizes of a tiling sum to the whole extent. */
  function Extent(bs: seq<Block>): nat {
    if bs == [] then 0 else HEADER + bs[0].size + Extent(bs[1..])
  }

  lemma {:induction false} ExactTiling(bytes: seq<byte>, base: nat, bs: seq<Block>, lo: nat, hi: nat, last: nat)
    requires |bytes| == POOL_SIZE && Segment(bytes, base, bs, lo, hi, last)
    ensures lo + Extent(bs) == hi
  {
    hide HeaderAt, Head;
    if bs != [] {
      ExactTiling(bytes, base, bs[1..], bs[0].End(), hi, last);
    }
  }

  // ----- what the operations do to the list -----

  /** `split_block`: the tail becomes a free block when it can hold a header and one unit. */
  function SplitTail(b: Block, size: nat): (r: seq<Block>)
    requires size <= b.size
    ensures r != [] && r[0].off == b.off && r[0].free == b.free && size <= r[0].size < size + 32
    ensures |r| <= 2 && (|r| == 2 ==> r[1].free)
  {
    if b.size < size + HEADER + ALIGNMENT then [b]
    else [Block(b.off, size, b.free), Block(b.off + HEADER + size, b.size - size - HEADER, true)]
  }

  /** The list with the blocks [i, k) replaced by `r`. */
  function Replace(bs: seq<Block>, i: nat, k: nat, r: seq<Block>): seq<Block>
    requires i <= k <= |bs|
  {
    bs[..i] + (r + bs[k..])
  }

  /** Two neighbours as one block. */
  function Merged(a: Block, b: Block): Block { Block(a.off, a.size + HEADER + b.size, a.free) }

  /** `coalesce_all`, as a function on the list. */
  function Coalesced(bs: seq<Block>): (r: seq<Block>)
    decreases |bs|
  {
    if |bs| < 2 then bs
    else if bs[0].free && bs[1].free then Coalesced([Merged(bs[0], bs[1])] + bs[2..])
    else [bs[0]] + Coalesced(bs[1..])
  }

  ghost predicate NoAdjacentFree(bs: seq<Block>) {
    forall i :: 0 <= i < |bs| - 1 ==> !(bs[i].free && bs[i + 1].free)
  }

  /** After the sweep no two neighbours are free. */
  lemma {:induction false} CoalescedHasNoNeighbours(bs: seq<Block>)
    ensures NoAdjacentFree(Coalesced(bs))
    ensures bs != [] ==> Coalesced(bs) != [] && Coalesced(bs)[0].free == bs[0].free
    decreases |bs|
  {
    if |bs| >= 2 {
      if bs[0].free && bs[1].free {
        CoalescedHasNoNeighbours([Merged(bs[0], bs[1])] + bs[2..]);
      } else {
        CoalescedHasNoNeighbours(bs[1..]);
        var r := Coalesced(bs[1..]);
        forall i | 0 <= i < |Coalesced(bs)| - 1
          ensures !(Coalesced(bs)[i].free && Coalesced(bs)[i + 1].free)
        {
          if i > 0 {
            assert Coalesced(bs)[i] == r[i - 1] && Coalesced(bs)[i + 1] == r[i];
          }
        }
      }
    }
  }

  /** The sweep keeps every live block and invents none. */
  lemma {:induction false} CoalescedKeepsLive(bs: seq<Block>, b: Block)
    requires !b.free
    ensures b in Coalesced(bs) <==> b in bs
    decreases |bs|
  {
    if |bs| >= 2 {
      if bs[0].free && bs[1].free {
        CoalescedKeepsLive([Merged(bs[0], bs[1])] + bs[2..], b);
        assert bs == [bs[0], bs[1]] + bs[2..];
      } else {
        CoalescedKeepsLive(bs[1..], b);
        assert bs == [bs[0]] + bs[1..];
      }
    }
  }

  lemma SweepMerge(bs: seq<Block>, k: nat)
    requires k + 1 < |bs| && bs[k].free && bs[k + 1].free
    ensures var bs' := Replace(bs, k, k + 2, [Merged(bs[k], bs[k + 1])]);
      k < |bs'| && bs'[..k] == bs[..k] && Coalesced(bs'[k..]) == Coalesced(bs[k..])
  {
    var m := Merged(bs[k], bs[k + 1]);
    assert bs[k..][2..] == bs[k + 2..];
    assert Replace(bs, k, k + 2, [m])[k..] == [m] + bs[k + 2..];
  }

  lemma SweepKeep(bs: seq<Block>, k: nat)
    requires k < |bs| && !(bs[k].free && k + 1 < |bs| && bs[k + 1].free)
    ensures bs[..k] + Coalesced(bs[k..]) == bs[..k + 1] + Coalesced(bs[k + 1..])
  {
    assert bs[k..][1..] == bs[k + 1..];
    assert bs[..k + 1] == bs[..k] + [bs[k]];
    assert Coalesced(bs[k..]) == [bs[k]] + Coalesced(bs[k + 1..]);
  }

  // ----- fragmentation -----

  /** No byte of [lo, hi) belongs to a live block, header included. */
  ghost predicate Gap(bs: seq<Block>, lo: nat, hi: nat) {
    && lo <= hi <= POOL_SIZE
    && (forall i :: 0 <= i < |bs| && !bs[i].free ==> bs[i].End() <= lo || hi <= bs[i].off)
  }

  /** The blocks tile [lo, hi): what the headers of a segment say, without the bytes. */
  ghost predicate Tiled(bs: seq<Block>, lo: nat, hi: nat)
    decreases |bs|
  {
    if bs == [] then lo == hi else bs[0].off == lo && bs[0].End() <= hi && Tiled(bs[1..], bs[0].End(), hi)
  }

  lemma {:induction false} SegmentTiles(bytes: seq<byte>, base: nat, bs: seq<Block>, lo: nat, hi: nat, last: nat)
    requires |bytes| == POOL_SIZE && Segment(bytes, base, bs, lo, hi, last)
    ensures Tiled(bs, lo, hi)
    decreases |bs|
  {
    if bs != [] {
      SegmentTiles(bytes, base, bs[1..], bs[0].End(), hi, last);
    }
  }

  lemma {:induction false} TiledBlock(bs: seq<Block>, lo: nat, hi: nat, i: nat)
    requires Tiled(bs, lo, hi) && i < |bs|
    ensures lo <= bs[i].off && bs[i].End() <= hi
    ensures i + 1 < |bs| ==> bs[i].End() == bs[i + 1].off && bs[i + 1].End() <= hi
    ensures i + 1 == |bs| ==> bs[i].End() == hi
    decreases |bs|
  {
    if i > 0 {
      TiledBlock(bs[1..], bs[0].End(), hi, i - 1);
    }
  }

  lemma {:induction false} TiledInOrder(bs: seq<Block>, lo: nat, hi: nat, i: nat, j: nat)
    requires Tiled(bs, lo, hi) && i < j < |bs|
    ensures bs[i].End() <= bs[j].off
    decreases |bs|
  {
    if i > 0 {
      TiledInOrder(bs[1..], bs[0].End(), hi, i - 1, j - 1);
    } else {
      TiledBlock(bs[1..], bs[0].End(), hi, j - 1);
    }
  }

  lemma {:induction false} TiledJoin(a: seq<Block>, b: seq<Block>, lo: nat, mid: nat, hi: nat)
    requires Tiled(a, lo, mid) && Tiled(b, mid, hi) && mid <= hi
    ensures Tiled(a + b, lo, hi)
    decreases |a|
  {
    if a == [] {
      assert a + b == b;
    } else {
      TiledJoin(a[1..], b, a[0].End(), mid, hi);
      assert (a + b)[1..] == a[1..] + b;
    }
  }

  lemma {:induction false} TiledBounds(bs: seq<Block>, lo: nat, hi: nat)
    requires Tiled(bs, lo, hi)
    ensures lo <= hi
    decreases |bs|
  {
    if bs != [] {
      TiledBounds(bs[1..], bs[0].End(), hi);
    }
  }

  /** One block of a tiling replaced by a tiling of its bytes. */
  lemma {:induction false} ReplaceTiles(bs: seq<Block>, lo: nat, hi: nat, i: nat, r: seq<Block>)
    requires Tiled(bs, lo, hi) && i < |bs| && Tiled(r, bs[i].off, bs[i].End())
    ensures Tiled(Replace(bs, i, i + 1, r), lo, hi)
    decreases i
  {
    var out := Replace(bs, i, i + 1, r);
    if i == 0 {
      TiledBounds(bs[1..], bs[0].End(), hi);
      TiledJoin(r, bs[1..], lo, bs[0].End(), hi);
      assert out == r + bs[1..];
    } else {
      ReplaceTiles(bs[1..], bs[0].End(), hi, i - 1, r);
      assert out[1..] == Replace(bs[1..], i - 1, i, r);
    }
  }

  /** The sweep keeps the tiling. */
  lemma {:induction false} CoalescedTiles(bs: seq<Block>, lo: nat, hi: nat)
    requires Tiled(bs, lo, hi)
    ensures Tiled(Coalesced(bs), lo, hi)
    decreases |bs|
  {
    if |bs| >= 2 {
      if bs[0].free && bs[1].free {
        var m := [Merged(bs[0], bs[1])] + bs[2..];
        assert m[1..] == bs[1..][1..];
        CoalescedTiles(m, lo, hi);
      } else {
        CoalescedTiles(bs[1..], bs[0].End(), hi);
        assert Coalesced(bs)[1..] == Coalesced(bs[1..]);
      }
    }
  }

  /** A list without free neighbours is one the sweep leaves alone. */
  lemma {:induction false} SweptIsFixed(bs: seq<Block>)
    ensures NoAdjacentFree(bs) <==> Coalesced(bs) == bs
    decreases |bs|
  {
    CoalescedHasNoNeighbours(bs);
    if NoAdjacentFree(bs) && |bs| >= 2 {
      SweptIsFixed(bs[1..]);
      assert bs == [bs[0]] + bs[1..];
    }
  }

  /** With no two free neighbours, if no free block holds `n` bytes then no gap
      between live allocations can hold a header and `n` bytes. */
  lemma NoGapFits(bs: seq<Block>, n: nat, lo: nat, hi: nat)
    requires Tiled(bs, 0, POOL_SIZE) && NoAdjacentFree(bs)
    requires forall i :: 0 <= i < |bs| && bs[i].free ==> bs[i].size < n
    requires Gap(bs, lo, hi)
    ensures hi - lo < HEADER + n
  {
    if lo < hi {
      var i := BlockAt(bs, 0, POOL_SIZE, lo);
      TiledBlock(bs, 0, POOL_SIZE, i);
    }
  }

  /** A free block is a gap. */
  lemma FreeIsGap(bs: seq<Block>, f: nat)
    requires Tiled(bs, 0, POOL_SIZE) && f < |bs| && bs[f].free
    ensures Gap(bs, bs[f].off, bs[f].End())
  {
    TiledBlock(bs, 0, POOL_SIZE, f);
    hide Tiled;
    forall i | 0 <= i < |bs| && !bs[i].free
      ensures bs[i].End() <= bs[f].off || bs[f].End() <= bs[i].off
    {
      TiledInOrder(bs, 0, POOL_SIZE, if i < f then i else f, if i < f then f else i);
    }
  }

  /** The sweep changes no gap. */
  lemma SameGaps(bs: seq<Block>, lo: nat, hi: nat)
    ensures Gap(Coalesced(bs), lo, hi) <==> Gap(bs, lo, hi)
  {
    var cs := Coalesced(bs);
    if Gap(cs, lo, hi) {
      forall i | 0 <= i < |bs| && !bs[i].free
        ensures bs[i].End() <= lo || hi <= bs[i].off
      {
        CoalescedKeepsLive(bs, bs[i]);
      }
    }
    if Gap(bs, lo, hi) {
      forall i | 0 <= i < |cs| && !cs[i].free
        ensures cs[i].End() <= lo || hi <= cs[i].off
      {
        CoalescedKeepsLive(bs, cs[i]);
      }
    }
  }

  lemma Neighbour(bytes: seq<byte>, base: nat, bs: seq<Block>, lo: nat, hi: nat, last: nat, i: nat)
    requires |bytes| == POOL_SIZE && Segment(bytes, base, bs, lo, hi, last) && i < |bs|
    ensures bs[i].End() == Start(bs, i + 1, hi)
    ensures lo <= bs[i].off && bs[i].End() <= hi <= POOL_SIZE && bs[i].size % ALIGNMENT == 0
    ensures i + 1 < |bs| ==> bs[i + 1].End() <= hi
    ensures HeaderAt(bytes, bs[i].off) ==
      Header(bs[i].size, if bs[i].free then 1 else 0, if i + 1 < |bs| then base + bs[i + 1].off else last)
  {
    Cut(bytes, base, bs, lo, hi, last, i);
    assert bs[i..][1..] == bs[i + 1..];
    Cut(bytes, base, bs[i..], bs[i].off, hi, last, 1);
  }

  /** Every byte of a tiled range lies in some block. */
  lemma {:induction false} BlockAt(bs: seq<Block>, lo: nat, hi: nat, p: nat) returns (i: nat)
    requires Tiled(bs, lo, hi) && lo <= p < hi
    ensures i < |bs| && bs[i].off <= p < bs[i].End()
    decreases |bs|
  {
    if p < bs[0].End() {
      i := 0;
    } else {
      var k := BlockAt(bs[1..], bs[0].End(), hi, p);
      i := k + 1;
    }
  }

  // ----- payload preservation -----

  ghost predicate SamePayload(bytes: seq<byte>, bytes': seq<byte>, b: Block)
    requires |bytes| == |bytes'| == POOL_SIZE
  {
    forall j :: b.Payload() <= j < b.End() && j < POOL_SIZE ==> bytes'[j] == bytes[j]
  }

  /** Every live block other than the one at `except` is still a live block with the
      same bytes. */
  ghost predicate Kept(bytes: seq<byte>, bs: seq<Block>, bytes': seq<byte>, bs': seq<Block>, except: int)
    requires |bytes| == |bytes'| == POOL_SIZE
  {
    forall b :: b in bs && !b.free && b.off != except ==> b in bs' && SamePayload(bytes, bytes', b)
  }

  lemma KeptTwice(b0: seq<byte>, s0: seq<Block>, b1: seq<byte>, s1: seq<Block>, b2: seq<byte>, s2: seq<Block>,
                  except: int)
    requires |b0| == |b1| == |b2| == POOL_SIZE
    requires Kept(b0, s0, b1, s1, except) && Kept(b1, s1, b2, s2, except)
    ensures Kept(b0, s0, b2, s2, except)
  {}

  /** `n` bytes at `src` have become the `n` bytes at `dst`. */
  ghost predicate Copied(bytes: seq<byte>, src: int, bytes': seq<byte>, dst: int, n: nat)
    requires |bytes| == |bytes'| == POOL_SIZE
  {
    && 0 <= src && src + n <= POOL_SIZE && 0 <= dst && dst + n <= POOL_SIZE
    && bytes'[dst..dst + n] == bytes[src..src + n]
  }

  lemma CopiedThenKept(b0: seq<byte>, src: int, b1: seq<byte>, b2: seq<byte>, c: Block, n: nat)
    requires |b0| == |b1| == |b2| == POOL_SIZE
    requires Copied(b0, src, b1, c.Payload(), n) && SamePayload(b1, b2, c) && n <= c.size
    ensures Copied(b0, src, b2, c.Payload(), n)
  {
    assert b2[c.Payload()..c.Payload() + n] == b1[c.Payload()..c.Payload() + n];
  }

  lemma KeptThenCopied(b0: seq<byte>, b1: seq<byte>, b: Block, b2: seq<byte>, dst: int, n: nat)
    requires |b0| == |b1| == |b2| == POOL_SIZE
    requires SamePayload(b0, b1, b) && Copied(b1, b.Payload(), b2, dst, n) && n <= b.size
    ensures Copied(b0, b.Payload(), b2, dst, n)
  {
    assert b1[b.Payload()..b.Payload() + n] == b0[b.Payload()..b.Payload() + n];
  }

  lemma CopiedPrefix(bytes: seq<byte>, src: int, bytes': seq<byte>, dst: int, n: nat, m: nat)
    requires |bytes| == |bytes'| == POOL_SIZE && Copied(bytes, src, bytes', dst, n) && m <= n
    ensures Copied(bytes, src, bytes', dst, m)
  {
    var a, b := bytes'[dst..dst + n], bytes[src..src + n];
    assert a[..m] == b[..m];
    assert a[..m] == bytes'[dst..dst + m] && b[..m] == bytes[src..src + m];
  }

  lemma KeptWeaken(bytes: seq<byte>, bs: seq<Block>, bytes': seq<byte>, bs': seq<Block>, except: int)
    requires |bytes| == |bytes'| == POOL_SIZE && Kept(bytes, bs, bytes', bs', -1)
    requires forall b :: b in bs ==> b.off >= 0
    ensures Kept(bytes, bs, bytes', bs', except)
  {}

  lemma KeptThrice(b0: seq<byte>, s0: seq<Block>, b1: seq<byte>, s1: seq<Block>, b2: seq<byte>,
                   b3: seq<byte>, s3: seq<Block>, dst: int, except: int)
    requires |b0| == |b1| == |b2| == |b3| == POOL_SIZE
    requires Kept(b0, s0, b1, s1, -1) && Kept(b1, s1, b2, s1, dst) && Kept(b2, s1, b3, s3, except)
    requires forall b :: b in s0 && !b.free ==> b.off != dst && b.off >= 0
    ensures Kept(b0, s0, b3, s3, except)
  {}

  /** Blocks have distinct offsets. */
  lemma OneBlockPerOffset(bytes: seq<byte>, base: nat, bs: seq<Block>, i: nat, j: nat)
    requires |bytes| == POOL_SIZE && Segment(bytes, base, bs, 0, POOL_SIZE, 0)
    requires i < |bs| && j < |bs| && bs[i].off == bs[j].off
    ensures i == j
  {
    if i < j {
      InOrder(bytes, base, bs, 0, POOL_SIZE, 0, i, j);
    } else if j < i {
      InOrder(bytes, base, bs, 0, POOL_SIZE, 0, j, i);
    }
  }

  lemma OnlyBlockThere(bytes: seq<byte>, base: nat, bs: seq<Block>, f: nat)
    requires |bytes| == POOL_SIZE && Segment(bytes, base, bs, 0, POOL_SIZE, 0) && f < |bs|
    ensures forall j :: 0 <= j < |bs| && bs[j].off == bs[f].off ==> j == f
  {
    hide Segment;
    forall j | 0 <= j < |bs| && bs[j].off == bs[f].off
      ensures j == f
    {
      OneBlockPerOffset(bytes, base, bs, j, f);
    }
  }

  /** Blocks have distinct offsets, so exempting a free block exempts no live one. */
  lemma ExemptFree(bytes: seq<byte>, bs: seq<Block>, bytes': seq<byte>, bs': seq<Block>, base: nat, i: nat)
    requires |bytes| == |bytes'| == POOL_SIZE && Segment(bytes, base, bs, 0, POOL_SIZE, 0)
    requires i < |bs| && bs[i].free && Kept(bytes, bs, bytes', bs', bs[i].off)
    ensures Kept(bytes, bs, bytes', bs', -1)
  {
    forall b | b in bs && !b.free
      ensures b.off != bs[i].off
    {
      var j :| 0 <= j < |bs| && bs[j] == b;
      if b.off == bs[i].off {
        OneBlockPerOffset(bytes, base, bs, i, j);
      }
    }
  }

  /** Rewriting the pool bytes of a run of blocks, so that they hold the chain `r`
      over the same extent, rewrites the whole chain; the live blocks outside the run
      keep their bytes. */
  lemma ReplaceRun(bytes: seq<byte>, bytes': seq<byte>, base: nat, bs: seq<Block>, i: nat, k: nat,
                   r: seq<Block>, except: int)
    requires |bytes| == |bytes'| == POOL_SIZE && Segment(bytes, base, bs, 0, POOL_SIZE, 0)
    requires i < k <= |bs| && r != []
    requires var lo, hi := bs[i].off, Start(bs, k, POOL_SIZE);
      && Segment(bytes', base, r, lo, hi, Head(base, bs[k..], hi, 0))
      && forall j :: 0 <= j < POOL_SIZE && !(lo <= j < hi) ==> bytes'[j] == bytes[j]
    requires forall j :: i <= j < k ==> bs[j].free || bs[j].off == except
    ensures Segment(bytes', base, Replace(bs, i, k, r), 0, POOL_SIZE, 0)
    ensures Kept(bytes, bs, bytes', Replace(bs, i, k, r), except)
  {
    var lo, hi := bs[i].off, Start(bs, k, POOL_SIZE);
    Cut(bytes, base, bs, 0, POOL_SIZE, 0, i);
    Cut(bytes, base, bs, 0, POOL_SIZE, 0, k);
    assert r[0].off == lo;
    SegmentFrame(bytes, bytes', base, bs[..i], 0, lo, Head(base, bs[i..], lo, 0));
    SegmentFrame(bytes, bytes', base, bs[k..], hi, POOL_SIZE, 0);
    Join(bytes', base, r, bs[k..], lo, hi, POOL_SIZE, 0);
    Join(bytes', base, bs[..i], r + bs[k..], 0, lo, POOL_SIZE, 0);
    ReplaceKeeps(bytes, bytes', base, bs, i, k, r, except);
  }

  lemma ReplaceKeeps(bytes: seq<byte>, bytes': seq<byte>, base: nat, bs: seq<Block>, i: nat, k: nat,
                     r: seq<Block>, except: int)
    requires |bytes| == |bytes'| == POOL_SIZE && Segment(bytes, base, bs, 0, POOL_SIZE, 0) && i < k <= |bs|
    requires forall j :: 0 <= j < POOL_SIZE && !(bs[i].off <= j < Start(bs, k, POOL_SIZE)) ==> bytes'[j] == bytes[j]
    requires forall j :: i <= j < k ==> bs[j].free || bs[j].off == except
    ensures Kept(bytes, bs, bytes', Replace(bs, i, k, r), except)
  {
    hide Segment;
    Neighbour(bytes, base, bs, 0, POOL_SIZE, 0, i);
    forall b | b in bs && !b.free && b.off != except
      ensures b in Replace(bs, i, k, r) && SamePayload(bytes, bytes', b)
    {
      var j :| 0 <= j < |bs| && bs[j] == b;
      if j < i {
        InOrder(bytes, base, bs, 0, POOL_SIZE, 0, j, i);
        assert bs[..i][j] == b;
      } else {
        Neighbour(bytes, base, bs, 0, POOL_SIZE, 0, j);
        if j > k {
          InOrder(bytes, base, bs, 0, POOL_SIZE, 0, k, j);
        }
        assert bs[k..][j - k] == b;
      }
    }
  }

  /** A header that reads free, of a free block or swallowed by one. */
  ghost predicate Dead(bytes: seq<byte>, bs: seq<Block>, off: int)
    requires |bytes| == POOL_SIZE
  {
    && 0 <= off && off + HEADER <= POOL_SIZE && HeaderAt(bytes, off).free == 1
    && exists j :: 0 <= j < |bs| && DeadIn(bs[j], off)
  }

  predicate DeadIn(b: Block, off: int) {
    b.free && (off == b.off || (b.Payload() <= off && off + HEADER <= b.End()))
  }

  /** A free block that swallows the next one leaves dead headers dead. */
  lemma DeadKept(bytes: seq<byte>, bytes': seq<byte>, base: nat, bs: seq<Block>, i: nat, off: int)
    requires |bytes| == |bytes'| == POOL_SIZE && i + 1 < |bs| && bs[i].free && bs[i + 1].free
    requires Segment(bytes, base, bs, 0, POOL_SIZE, 0)
    requires Segment(bytes', base, Replace(bs, i, i + 2, [Merged(bs[i], bs[i + 1])]), 0, POOL_SIZE, 0)
    requires forall j :: 0 <= j < POOL_SIZE && !(bs[i].off <= j < bs[i].Payload()) ==> bytes'[j] == bytes[j]
    requires Dead(bytes, bs, off)
    ensures Dead(bytes', Replace(bs, i, i + 2, [Merged(bs[i], bs[i + 1])]), off)
  {
    hide Segment, HeaderAt;
    var bs' := Replace(bs, i, i + 2, [Merged(bs[i], bs[i + 1])]);
    var j :| 0 <= j < |bs| && DeadIn(bs[j], off);
    Neighbour(bytes, base, bs, 0, POOL_SIZE, 0, i);
    Neighbour(bytes, base, bs, 0, POOL_SIZE, 0, j);
    assert DeadIn(bs'[if j <= i then j else j - 1], off);
    if off == bs[i].off {
      Neighbour(bytes', base, bs', 0, POOL_SIZE, 0, i);
    } else {
      if j != i {
        InOrder(bytes, base, bs, 0, POOL_SIZE, 0, if j < i then j else i, if j < i then i else j);
      }
      HeaderFrame(bytes, bytes', off);
    }
  }

  function Flag(free: bool): nat { if free then 1 else 0 }

  lemma OneBlock(bytes: seq<byte>, base: nat, b: Block, last: nat)
    requires |bytes| == POOL_SIZE && b.size % ALIGNMENT == 0 && b.End() <= POOL_SIZE
    requires HeaderAt(bytes, b.off) == Header(b.size, Flag(b.free), last)
    ensures Segment(bytes, base, [b], b.off, b.End(), last)
  {
    assert [b][1..] == [];
  }

  lemma TwoBlocks(bytes: seq<byte>, base: nat, a: Block, b: Block, last: nat)
    requires |bytes| == POOL_SIZE && a.size % ALIGNMENT == 0 && b.size % ALIGNMENT == 0
    requires a.End() == b.off && b.End() <= POOL_SIZE
    requires HeaderAt(bytes, a.off) == Header(a.size, Flag(a.free), base + b.off)
    requires HeaderAt(bytes, b.off) == Header(b.size, Flag(b.free), last)
    ensures Segment(bytes, base, [a, b], a.off, b.End(), last)
  {
    hide HeaderAt;
    OneBlock(bytes, base, b, last);
    assert [a, b][1..] == [b];
  }

  /** Writing inside one payload disturbs no header and no other payload. */
  lemma PayloadWrite(bytes: seq<byte>, bytes': seq<byte>, base: nat, bs: seq<Block>, i: nat)
    requires |bytes| == |bytes'| == POOL_SIZE && Segment(bytes, base, bs, 0, POOL_SIZE, 0) && i < |bs|
    requires forall j :: 0 <= j < POOL_SIZE && !(bs[i].Payload() <= j < bs[i].End()) ==> bytes'[j] == bytes[j]
    ensures Segment(bytes', base, bs, 0, POOL_SIZE, 0)
    ensures Kept(bytes, bs, bytes', bs, bs[i].off)
  {
    hide HeaderAt, Segment, Kept;
    Neighbour(bytes, base, bs, 0, POOL_SIZE, 0, i);
    HeaderFrame(bytes, bytes', bs[i].off);
    OneBlock(bytes', base, bs[i], if i + 1 < |bs| then base + bs[i + 1].off else 0);
    ReplaceRun(bytes, bytes', base, bs, i, i + 1, [bs[i]], bs[i].off);
    assert Replace(bs, i, i + 1, [bs[i]]) == bs;
  }
}
