/** Copying a span of bits between byte buffers, and buffer fields
    (`external/uacpi/source/io.c`). */
module BitSpans {
  import opened Bitmaps
  import opened Words

  // ----- bytes as bits -----

  /** Bit `i` of a byte string, the least significant bit of each byte first. */
  predicate BitAt(bytes: seq<bv8>, i: nat)
    requires i < 8 * |bytes|
  {
    BitOf(bytes[i / 8], i % 8)
  }

  /** `(1 << n) - 1`, or all ones from eight bits on. */
  function LowBits(n: nat): bv8 {
    if n == 0 then 0 else if n == 1 then 1 else if n == 2 then 3 else if n == 3 then 7
    else if n == 4 then 15 else if n == 5 then 31 else if n == 6 then 63 else if n == 7 then 127 else 255
  }

  /** `b >> k`. */
  function Shr(b: bv8, k: nat): bv8 {
    if k == 0 then b else if k == 1 then b >> 1 else if k == 2 then b >> 2 else if k == 3 then b >> 3
    else if k == 4 then b >> 4 else if k == 5 then b >> 5 else if k == 6 then b >> 6 else if k == 7 then b >> 7 else 0
  }

  /** `b << k` kept to a byte. */
  function Shl(b: bv8, k: nat): bv8 {
    if k == 0 then b else if k == 1 then b << 1 else if k == 2 then b << 2 else if k == 3 then b << 3
    else if k == 4 then b << 4 else if k == 5 then b << 5 else if k == 6 then b << 6 else if k == 7 then b << 7 else 0
  }

  /** `(uacpi_u16)(b << k)`. */
  function Wide(b: bv8, k: nat): bv16 {
    var w := b as bv16;
    if k == 0 then w else if k == 1 then w << 1 else if k == 2 then w << 2 else if k == 3 then w << 3
    else if k == 4 then w << 4 else if k == 5 then w << 5 else if k == 6 then w << 6 else w << 7
  }

  function Low(w: bv16): bv8 { (w & 0xFF) as bv8 }

  function High(w: bv16): bv8 { (w >> 8) as bv8 }

  lemma LowBitsBit(n: nat, j: nat)
    requires j < 8
    ensures BitOf(LowBits(n), j) <==> j < n
  {}

  lemma ShrBit(b: bv8, k: nat, j: nat)
    requires j < 8
    ensures BitOf(Shr(b, k), j) <==> j + k < 8 && BitOf(b, j + k)
  {}

  lemma ShlBit(b: bv8, k: nat, j: nat)
    requires j < 8
    ensures BitOf(Shl(b, k), j) <==> k <= j && BitOf(b, j - k)
  {}

  lemma WideBit(b: bv8, k: nat)
    requires k < 8
    ensures Low(Wide(b, k)) == Shl(b, k) && High(Wide(b, k)) == Shr(b, 8 - k)
  {}

  function Or(a: bv8, b: bv8): bv8 { a | b }

  /** A byte with the bits under a mask replaced: `(d & ~m) | (b & m)`. */
  function Merged(d: bv8, m: bv8, b: bv8): bv8 { Or(And(d, !m), And(b, m)) }

  function And(a: bv8, b: bv8): bv8 { a & b }

  lemma OrBit(a: bv8, b: bv8, j: nat)
    requires j < 8
    ensures BitOf(Or(a, b), j) <==> BitOf(a, j) || BitOf(b, j)
  {}

  lemma AndBit(a: bv8, b: bv8, j: nat)
    requires j < 8
    ensures BitOf(And(a, b), j) <==> BitOf(a, j) && BitOf(b, j)
  {}

  lemma NotBit(a: bv8, j: nat)
    requires j < 8
    ensures BitOf(!a, j) <==> !BitOf(a, j)
  {}

  lemma MergeBit(d: bv8, m: bv8, b: bv8, j: nat)
    requires j < 8
    ensures BitOf(Merged(d, m, b), j) <==> if BitOf(m, j) then BitOf(b, j) else BitOf(d, j)
  {
    hide BitOf, And, Or;
    OrBit(And(d, !m), And(b, m), j);
    AndBit(d, !m, j);
    NotBit(m, j);
    AndBit(b, m, j);
  }

  // ----- bit_copy -----

  /** `struct bit_span`: `length` bits from bit `index` of `data`. */
  datatype BitSpan = BitSpan(data: array<bv8>, index: nat, length: nat) {
    predicate Fits() { index + length <= 8 * data.Length }

    /** `bit_span_offset`: drops bits from the front, as far as there are any. */
    function Drop(bits: nat): (s: BitSpan)
      requires Fits()
      ensures s.Fits() && s.data == data && s.index + s.length == index + length
      ensures s.length == if bits < length then length - bits else 0
    {
      var delta := if length < bits then length else bits;
      BitSpan(data, index + delta, length - delta)
    }
  }

  /** Bit `j` of `dst` once bits [di, di + dl) hold `src`'s [si, si + sl), cut or padded
      with zeros. */
  predicate Spliced(dst: seq<bv8>, di: nat, dl: nat, src: seq<bv8>, si: nat, sl: nat, j: nat)
    requires si + sl <= 8 * |src| && j < 8 * |dst|
  {
    if di <= j < di + dl then j - di < sl && BitAt(src, si + (j - di)) else BitAt(dst, j)
  }

  lemma BitInByte(bytes: seq<bv8>, ptr: nat, k: nat)
    requires 8 * ptr + k < 8 * |bytes| && k < 16
    ensures BitAt(bytes, 8 * ptr + k) <==> if k < 8 then BitOf(bytes[ptr], k) else BitOf(bytes[ptr + 1], k - 8)
  {
    assert (8 * ptr + k) / 8 == if k < 8 then ptr else ptr + 1;
  }

  /** Eight bits starting `shift` bits into a byte, of which `count` are wanted. */
  function Straddled(low: bv8, next: bv8, shift: nat, count: nat): bv8
    requires shift < 8
  {
    if shift != 0 && count > 8 - shift then Or(Shr(low, shift), Shl(next, 8 - shift)) else Shr(low, shift)
  }

  /** Only the lowest `count` bits. */
  function Cut(b: bv8, count: nat): bv8 { if count < 8 then And(b, LowBits(count)) else b }

  lemma StraddledBit(low: bv8, next: bv8, shift: nat, count: nat, t: nat)
    requires shift < 8 && t < 8 && t < count
    ensures BitOf(Straddled(low, next, shift, count), t) <==>
      if shift + t < 8 then BitOf(low, shift + t) else BitOf(next, shift + t - 8)
  {
    hide BitOf, Shr, Shl, LowBits;
    ShrBit(low, shift, t);
    if shift != 0 && count > 8 - shift {
      OrBit(Shr(low, shift), Shl(next, 8 - shift), t);
      ShlBit(next, 8 - shift, t);
    }
  }

  lemma CutBit(b: bv8, count: nat, t: nat)
    requires t < 8
    ensures BitOf(Cut(b, count), t) <==> t < count && BitOf(b, t)
  {
    hide BitOf, LowBits;
    AndBit(b, LowBits(count), t);
    LowBitsBit(count, t);
  }

  lemma FetchedBit(bytes: seq<bv8>, ptr: nat, shift: nat, count: nat, next: bv8, t: nat)
    requires shift < 8 && t < 8 && 0 < count && 8 * ptr + shift + count <= 8 * |bytes|
    requires ptr + 1 < |bytes| ==> next == bytes[ptr + 1]
    ensures BitOf(Cut(Straddled(bytes[ptr], next, shift, count), count), t) <==>
      t < count && BitAt(bytes, 8 * ptr + shift + t)
  {
    hide BitOf, BitAt, Cut, Straddled;
    CutBit(Straddled(bytes[ptr], next, shift, count), count, t);
    if t < count {
      StraddledBit(bytes[ptr], next, shift, count, t);
      BitInByte(bytes, ptr, shift + t);
    }
  }

  /** Bits [di, di + dl) were replaced and nothing else was. */
  ghost predicate SpliceOf(was: seq<bv8>, now: seq<bv8>, di: nat, dl: nat, src: seq<bv8>, si: nat, sl: nat)
    requires si + sl <= 8 * |src|
  {
    |now| == |was| &&
    forall j :: 0 <= j < 8 * |was| ==> (BitAt(now, j) <==> Spliced(was, di, dl, src, si, sl, j))
  }

  lemma SameBits(a: bv8, b: bv8)
    requires forall t :: 0 <= t < 8 ==> (BitOf(a, t) <==> BitOf(b, t))
    ensures a == b
  {
    assert (BitOf(a, 0) <==> BitOf(b, 0)) && (BitOf(a, 1) <==> BitOf(b, 1));
    assert (BitOf(a, 2) <==> BitOf(b, 2)) && (BitOf(a, 3) <==> BitOf(b, 3));
    assert (BitOf(a, 4) <==> BitOf(b, 4)) && (BitOf(a, 5) <==> BitOf(b, 5));
    assert (BitOf(a, 6) <==> BitOf(b, 6)) && (BitOf(a, 7) <==> BitOf(b, 7));
  }

  lemma SameBytes(a: seq<bv8>, b: seq<bv8>)
    requires |a| == |b| && forall j :: 0 <= j < 8 * |a| ==> (BitAt(a, j) <==> BitAt(b, j))
    ensures a == b
  {
    hide BitOf;
    forall k | 0 <= k < |a|
      ensures a[k] == b[k]
    {
      forall t | 0 <= t < 8
        ensures BitOf(a[k], t) <==> BitOf(b[k], t)
      {
        assert BitAt(a, 8 * k + t) <==> BitAt(b, 8 * k + t);
      }
      SameBits(a[k], b[k]);
    }
  }

  /** What a splice leaves is determined to the byte, so any two ways of computing it
      agree. */
  lemma SpliceUnique(was: seq<bv8>, a: seq<bv8>, b: seq<bv8>, di: nat, dl: nat, src: seq<bv8>, si: nat, sl: nat)
    requires si + sl <= 8 * |src|
    requires SpliceOf(was, a, di, dl, src, si, sl) && SpliceOf(was, b, di, dl, src, si, sl)
    ensures a == b
  {
    hide BitAt, Spliced;
    SameBytes(a, b);
  }

  /** The next eight source bits, zeros beyond the last. */
  method FetchByte(src: array<bv8>, ptr: nat, shift: nat, count: nat) returns (bits: bv8)
    requires shift < 8 && 0 < count && 8 * ptr + shift + count <= 8 * src.Length
    ensures forall t :: 0 <= t < 8 ==>
      (BitOf(bits, t) <==> t < count && BitAt(src[..], 8 * ptr + shift + t))
  {
    hide BitOf, BitAt, Shr, Shl, LowBits, Or, Cut;
    bits := Shr(src[ptr], shift);
    if shift != 0 && count > 8 - shift {
      bits := Or(bits, Shl(src[ptr + 1], 8 - shift));
    }
    bits := Cut(bits, count);
    ghost var next := if ptr + 1 < src.Length then src[ptr + 1] else 0;
    assert bits == Cut(Straddled(src[..][ptr], next, shift, count), count);
    forall t | 0 <= t < 8
      ensures BitOf(bits, t) <==> t < count && BitAt(src[..], 8 * ptr + shift + t)
    {
      FetchedBit(src[..], ptr, shift, count, next, t);
    }
  }

  /** The byte the chunk starts in, and the one it spills into. */
  function FirstByte(d: bv8, bits: bv8, shift: nat, count: nat): bv8 {
    Merged(d, Shl(LowBits(count), shift), Shl(bits, shift))
  }

  function SpillByte(d: bv8, bits: bv8, shift: nat, count: nat): bv8
    requires shift < 8
  {
    Merged(d, Shr(LowBits(count), 8 - shift), Shr(bits, 8 - shift))
  }

  lemma FirstByteBit(d: bv8, bits: bv8, shift: nat, count: nat, t: nat)
    requires shift < 8 && t < 8
    ensures BitOf(FirstByte(d, bits, shift, count), t) <==>
      if shift <= t < shift + count then BitOf(bits, t - shift) else BitOf(d, t)
  {
    hide BitOf, Shr, Shl, LowBits, Merged;
    MergeBit(d, Shl(LowBits(count), shift), Shl(bits, shift), t);
    ShlBit(LowBits(count), shift, t);
    ShlBit(bits, shift, t);
    if t >= shift {
      LowBitsBit(count, t - shift);
    }
  }

  lemma SpillByteBit(d: bv8, bits: bv8, shift: nat, count: nat, t: nat)
    requires shift < 8 && t < 8
    ensures BitOf(SpillByte(d, bits, shift, count), t) <==>
      if t < shift && 8 + t < shift + count then BitOf(bits, 8 + t - shift) else BitOf(d, t)
  {
    hide BitOf, Shr, Shl, LowBits, Merged;
    MergeBit(d, Shr(LowBits(count), 8 - shift), Shr(bits, 8 - shift), t);
    ShrBit(LowBits(count), 8 - shift, t);
    ShrBit(bits, 8 - shift, t);
    if t < shift {
      LowBitsBit(count, t + 8 - shift);
    }
  }

  /** Up to eight bits stored at any bit position, across two bytes when they do not fit
      in one. */
  method DepositByte(dst: array<bv8>, ptr: nat, shift: nat, count: nat, bits: bv8)
    requires shift < 8 && 0 < count && 8 * ptr + shift + Capped(count) <= 8 * dst.Length
    modifies dst
    ensures forall j :: 0 <= j < 8 * dst.Length ==>
      (BitAt(dst[..], j) <==>
       if 8 * ptr + shift <= j < 8 * ptr + shift + Capped(count) then BitOf(bits, j - (8 * ptr + shift))
       else BitAt(old(dst[..]), j))
  {
    hide BitOf, Shr, Shl, LowBits, Wide, Low, High, Merged;
    ghost var was := dst[..];
    var chunk := LowBits(count);
    var mask := Wide(chunk, shift);
    WideBit(chunk, shift);
    dst[ptr] := Merged(dst[ptr], Low(mask), Shl(bits, shift));
    assert dst[ptr] == FirstByte(was[ptr], bits, shift, count);
    if shift != 0 && count > 8 - shift {
      dst[ptr + 1] := Merged(dst[ptr + 1], High(mask), Shr(bits, 8 - shift));
      assert dst[ptr + 1] == SpillByte(was[ptr + 1], bits, shift, count);
    }
    Deposited(was, dst[..], ptr, shift, count, bits);
  }

  lemma Deposited(was: seq<bv8>, now: seq<bv8>, ptr: nat, shift: nat, count: nat, bits: bv8)
    requires shift < 8 && 0 < count && 8 * ptr + shift + Capped(count) <= 8 * |was| && |now| == |was|
    requires now[ptr] == FirstByte(was[ptr], bits, shift, count)
    requires
      if shift != 0 && count > 8 - shift
      then now == was[ptr := now[ptr]][ptr + 1 := now[ptr + 1]]
        && now[ptr + 1] == SpillByte(was[ptr + 1], bits, shift, count)
      else now == was[ptr := now[ptr]]
    ensures forall j :: 0 <= j < 8 * |now| ==>
      (BitAt(now, j) <==>
       if 8 * ptr + shift <= j < 8 * ptr + shift + Capped(count) then BitOf(bits, j - (8 * ptr + shift))
       else BitAt(was, j))
  {
    hide BitOf, FirstByte, SpillByte;
    forall j | 0 <= j < 8 * |now|
      ensures BitAt(now, j) <==>
        if 8 * ptr + shift <= j < 8 * ptr + shift + Capped(count) then BitOf(bits, j - (8 * ptr + shift))
        else BitAt(was, j)
    {
      if j / 8 == ptr {
        FirstByteBit(was[ptr], bits, shift, count, j % 8);
      } else if j / 8 == ptr + 1 {
        SpillByteBit(was[ptr + 1], bits, shift, count, j % 8);
      }
    }
  }

  function Capped(count: nat): nat { if count < 8 then count else 8 }

  function Left(length: nat, used: nat): nat { if used < length then length - used else 0 }

  function Used(length: nat, n: nat): nat { if n < length then n else length }

  lemma ZeroBits(t: nat)
    requires t < 8
    ensures !BitOf(0, t)
  {}

  /** One chunk more of the span is in place. */
  lemma ChunkInPlace(was: seq<bv8>, before: seq<bv8>, now: seq<bv8>, di: nat, dl: nat,
                     src: seq<bv8>, si: nat, sl: nat, n: nat, bits: bv8)
    requires |was| == |before| == |now| && di + dl <= 8 * |was| && si + sl <= 8 * |src| && n < dl
    requires SpliceOf(was, before, di, n, src, si, sl)
    requires forall t :: 0 <= t < 8 ==> (BitOf(bits, t) <==> n + t < sl && BitAt(src, si + n + t))
    requires forall j :: 0 <= j < 8 * |was| ==>
      (BitAt(now, j) <==>
       if di + n <= j < di + n + Capped(dl - n) then BitOf(bits, j - (di + n)) else BitAt(before, j))
    ensures SpliceOf(was, now, di, Used(dl, n + 8), src, si, sl)
  {
    hide BitAt, BitOf;
  }

  /** Destination bits [index, index + length) become the source bits, cut or padded with
      zeros; no other bit changes. */
  method BitCopy(dst: BitSpan, src: BitSpan)
    requires dst.Fits() && src.Fits() && dst.data != src.data
    modifies dst.data
    ensures SpliceOf(old(dst.data[..]), dst.data[..], dst.index, dst.length, src.data[..], src.index, src.length)
  {
    hide BitAt, BitOf;
    ghost var was := dst.data[..];
    ghost var n: nat := 0;
    var dstPtr, srcPtr := dst.index / 8, src.index / 8;
    var dstCount, dstShift := dst.length, dst.index % 8;
    var srcCount, srcShift := src.length, src.index % 8;
    while dstCount != 0
      invariant 8 * dstPtr + dstShift == dst.index + n && dstCount == Left(dst.length, n)
      invariant srcCount == Left(src.length, n)
      invariant srcCount > 0 ==> 8 * srcPtr + srcShift == src.index + n
      invariant SpliceOf(was, dst.data[..], dst.index, Used(dst.length, n), src.data[..], src.index, src.length)
    {
      var bits: bv8 := 0;
      if srcCount != 0 {
        bits := FetchByte(src.data, srcPtr, srcShift, srcCount);
        if srcCount < 8 {
          srcCount := 0;
        } else {
          srcCount := srcCount - 8;
          srcPtr := srcPtr + 1;
        }
      } else {
        forall t | 0 <= t < 8
          ensures !BitOf(bits, t)
        {
          ZeroBits(t);
        }
      }
      ghost var before := dst.data[..];
      DepositByte(dst.data, dstPtr, dstShift, dstCount, bits);
      ChunkInPlace(was, before, dst.data[..], dst.index, dst.length, src.data[..], src.index, src.length, n, bits);
      dstCount := if dstCount > 8 then dstCount - 8 else 0;
      dstPtr := dstPtr + 1;
      n := n + 8;
    }
  }

  // ----- buffer fields -----

  function RoundUpBitsToBytes(bits: nat): nat { (bits + 7) / 8 }

  /** Fields a CreateField operator accepts: not empty and inside the buffer. */
  datatype BufferField = BufferField(backing: array<bv8>, bitIndex: nat, bitLength: nat) {
    predicate Valid() { 0 < bitLength && bitIndex + bitLength <= 8 * backing.Length }
  }

  /** `cut_misaligned_tail`. */
  method CutMisalignedTail(data: array<bv8>, offset: nat, bitLength: nat)
    requires bitLength % 8 != 0 ==> offset < data.Length
    modifies data
    ensures forall j :: 0 <= j < 8 * data.Length ==>
      (BitAt(data[..], j) <==>
       BitAt(old(data[..]), j) && (j / 8 == offset && bitLength % 8 != 0 ==> j % 8 < bitLength % 8))
    ensures forall k :: 0 <= k < data.Length && (k != offset || bitLength % 8 == 0) ==> data[k] == old(data[k])
  {
    hide BitOf, Cut;
    ghost var was := data[..];
    var remainder := bitLength % 8;
    if remainder == 0 {
      return;
    }
    data[offset] := Cut(data[offset], remainder);
    forall j | 0 <= j < 8 * data.Length
      ensures BitAt(data[..], j) <==> BitAt(was, j) && (j / 8 == offset ==> j % 8 < remainder)
    {
      CutBit(was[offset], remainder, j % 8);
    }
  }

  /** `uacpi_read_buffer_field`, byte-aligned or not: the field, zero-extended to whole
      bytes. */
  method ReadBufferField(field: BufferField, dst: array<bv8>)
    requires field.Valid() && dst != field.backing
    requires RoundUpBitsToBytes(field.bitLength) <= dst.Length
    modifies dst
    ensures SpliceOf(old(dst[..]), dst[..], 0, 8 * RoundUpBitsToBytes(field.bitLength),
      field.backing[..], field.bitIndex, field.bitLength)
  {
    hide BitOf;
    var src, count := field.backing, RoundUpBitsToBytes(field.bitLength);
    if field.bitIndex % 8 == 0 {
      ghost var was := dst[..];
      var first := field.bitIndex / 8;
      for i := 0 to count
        invariant forall k :: 0 <= k < dst.Length ==> dst[k] == if k < i then src[first + k] else was[k]
      {
        dst[i] := src[first + i];
      }
      CutMisalignedTail(dst, count - 1, field.bitLength);
      return;
    }
    BitCopy(BitSpan(dst, 0, 8 * count), BitSpan(src, field.bitIndex, field.bitLength));
  }

  /** The last byte of an aligned write: `bits` below the tail, the old byte above. */
  function Joined(bits: bv8, last: bv8, tail: nat): bv8
    requires tail < 8
  {
    Or(Shr(Shl(bits, 8 - tail), 8 - tail), Shl(Shr(last, tail), tail))
  }

  lemma JoinedBit(bits: bv8, last: bv8, tail: nat, t: nat)
    requires 0 < tail < 8 && t < 8
    ensures BitOf(Joined(bits, last, tail), t) <==> if t < tail then BitOf(bits, t) else BitOf(last, t)
  {
    hide BitOf, Shr, Shl, Or;
    var up, down := Shl(bits, 8 - tail), Shr(last, tail);
    OrBit(Shr(up, 8 - tail), Shl(down, tail), t);
    ShrBit(up, 8 - tail, t);
    ShlBit(down, tail, t);
    if t < tail {
      ShlBit(bits, 8 - tail, t + (8 - tail));
    } else {
      ShrBit(last, tail, t - tail);
    }
  }

  /** `uacpi_write_buffer_field`, byte-aligned or not: the value cut or zero-extended to
      the field, and no other bit of the buffer. */
  method WriteBufferField(field: BufferField, src: array<bv8>, size: nat)
    requires field.Valid() && src != field.backing && size <= src.Length
    modifies field.backing
    ensures SpliceOf(old(field.backing[..]), field.backing[..], field.bitIndex, field.bitLength,
      src[..], 0, 8 * size)
  {
    if field.bitIndex % 8 == 0 {
      WriteAligned(field, src, size);
      return;
    }
    BitCopy(BitSpan(field.backing, field.bitIndex, field.bitLength), BitSpan(src, 0, 8 * size));
  }

  method WriteAligned(field: BufferField, src: array<bv8>, size: nat)
    requires field.Valid() && src != field.backing && size <= src.Length && field.bitIndex % 8 == 0
    modifies field.backing
    ensures SpliceOf(old(field.backing[..]), field.backing[..], field.bitIndex, field.bitLength,
      src[..], 0, 8 * size)
  {
    hide BitOf, Shl, Shr, Or, Joined;
    var dst, first := field.backing, field.bitIndex / 8;
    ghost var was := dst[..];
    var count := RoundUpBitsToBytes(field.bitLength);
    var last := first + count - 1;
    var lastByte, tailShift := dst[last], field.bitLength % 8;
    MemcpyZerout(dst, first, count, src, size, 0);
    ghost var copied := dst[last];
    if tailShift != 0 {
      var lastShift := 8 - tailShift;
      dst[last] := Shl(dst[last], lastShift);
      dst[last] := Shr(dst[last], lastShift);
      dst[last] := Or(dst[last], Shl(Shr(lastByte, tailShift), tailShift));
      JoinedIs(copied, lastByte, tailShift);
    }
    AlignedBits(was, dst[..], first, field.bitLength, src[..], size);
  }

  /** The byte an aligned write stores at distance `k` from the field's first. */
  function StoredByte(src: seq<bv8>, size: nat, k: nat, old8: bv8, length: nat): bv8
    requires size <= |src| && 8 * k < length
  {
    var c := if k < size then src[k] else 0;
    if 8 * (k + 1) <= length then c else Joined(c, old8, length % 8)
  }

  lemma AlignedBits(was: seq<bv8>, now: seq<bv8>, first: nat, length: nat, src: seq<bv8>, size: nat)
    requires |now| == |was| && 8 * first + length <= 8 * |was| && size <= |src|
    requires forall k :: 0 <= k < |was| ==>
      now[k] == if first <= k && 8 * (k - first) < length
                then StoredByte(src, size, k - first, was[k], length) else was[k]
    ensures SpliceOf(was, now, 8 * first, length, src, 0, 8 * size)
  {
    hide BitOf, StoredByte;
    forall j | 0 <= j < 8 * |was|
      ensures BitAt(now, j) <==> Spliced(was, 8 * first, length, src, 0, 8 * size, j)
    {
      var k := j / 8 - first;
      if 0 <= k && 8 * k < length {
        StoredBit(src, size, k, was[j / 8], length, j % 8);
      }
    }
  }

  lemma StoredBit(src: seq<bv8>, size: nat, k: nat, old8: bv8, length: nat, t: nat)
    requires size <= |src| && 8 * k < length && t < 8
    ensures BitOf(StoredByte(src, size, k, old8, length), t) <==>
      if 8 * k + t < length then 8 * k + t < 8 * size && BitAt(src, 8 * k + t) else BitOf(old8, t)
  {
    hide BitOf, Joined;
    var c := if k < size then src[k] else 0;
    ZeroBits(t);
    assert BitOf(c, t) <==> 8 * k + t < 8 * size && BitAt(src, 8 * k + t);
    if length < 8 * (k + 1) {
      JoinedBit(c, old8, length % 8, t);
    }
  }

  lemma JoinedIs(bits: bv8, last: bv8, tail: nat)
    requires 0 < tail < 8
    ensures Joined(bits, last, tail) == Or(Shr(Shl(bits, 8 - tail), 8 - tail), Shl(Shr(last, tail), tail))
  {}

  /** Reading a buffer field gives back what was written, cut or zero-extended. */
  lemma BufferFieldRoundTrip(was: seq<bv8>, now: seq<bv8>, index: nat, length: nat, src: seq<bv8>, size: nat,
                             dst: seq<bv8>, read: seq<bv8>, count: nat)
    requires index + length <= 8 * |was| && size <= |src| && 8 * count <= 8 * |dst|
    requires SpliceOf(was, now, index, length, src, 0, 8 * size)
    requires SpliceOf(dst, read, 0, 8 * count, now, index, length)
    ensures forall j :: 0 <= j < 8 * count ==>
      (BitAt(read, j) <==> j < length && j < 8 * size && BitAt(src, j))
  {
    hide BitAt;
    forall j | 0 <= j < 8 * count
      ensures BitAt(read, j) <==> j < length && j < 8 * size && BitAt(src, j)
    {
      if j < length {
        assert BitAt(now, index + j) <==> Spliced(was, index, length, src, 0, 8 * size, index + j);
      }
    }
  }

  /** Writing one field never changes what a disjoint one reads as. */
  lemma DisjointFieldsIndependent(was: seq<bv8>, now: seq<bv8>, index: nat, length: nat, src: seq<bv8>, size: nat,
                                  other: nat, otherLength: nat, k: nat)
    requires index + length <= 8 * |was| && size <= |src| && other + otherLength <= 8 * |was| && k < otherLength
    requires other + otherLength <= index || index + length <= other
    requires SpliceOf(was, now, index, length, src, 0, 8 * size)
    ensures BitAt(now, other + k) <==> BitAt(was, other + k)
  {
    hide BitAt;
    assert BitAt(now, other + k) <==> Spliced(was, index, length, src, 0, 8 * size, other + k);
  }
}
