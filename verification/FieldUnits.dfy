/** Field units over a plain memory region (`external/uacpi/source/io.c`): a field of any
    bit length and offset is read and written through accesses of a fixed width. */
module FieldUnits {
  import opened Machine
  import opened Bitmaps
  import opened BitSpans
  import opened Words

  datatype UpdateRule = Preserve | WriteAsOnes | WriteAsZeroes | Reserved

  datatype FieldUnit = FieldUnit(byteOffset: nat, bitOffset: nat, bitLength: nat, widthBytes: nat, rule: UpdateRule) {
    /** What creating a field guarantees about its access width and offsets. */
    predicate Valid() {
      && (widthBytes == 1 || widthBytes == 2 || widthBytes == 4 || widthBytes == 8)
      && bitOffset < 8 * widthBytes
    }

    /** The region bit holding the field's first bit. */
    function First(): nat { 8 * byteOffset + bitOffset }

    function End(): nat { First() + bitLength }

    /** The first byte after the accesses a write makes. */
    function WriteEnd(): nat
      requires Valid()
    {
      if bitLength == 0 then byteOffset else byteOffset + AlignUp(bitOffset + bitLength, 8 * widthBytes) / 8
    }

    /** The first byte after the accesses a read makes: there is always one. */
    function ReadEnd(): nat
      requires Valid()
    {
      if bitOffset + bitLength == 0 then byteOffset + widthBytes
      else byteOffset + AlignUp(bitOffset + bitLength, 8 * widthBytes) / 8
    }

    /** The access at byte `at` covers region bits outside the field. */
    predicate Partial(at: nat) {
      8 * at < First() || End() < 8 * (at + widthBytes)
    }
  }

  /** `UACPI_ALIGN_UP`. */
  function AlignUp(n: nat, w: nat): nat
    requires w > 0
  {
    (n + w - 1) - (n + w - 1) % w
  }

  predicate AccessBits(w: nat) { w == 8 || w == 16 || w == 32 || w == 64 }

  lemma ModBy(m: nat, w: nat, k: nat)
    requires AccessBits(w) && k == m - m % w
    ensures k % w == 0 && k % 8 == 0
  {
    if w == 8 {
      Down8(m);
    } else if w == 16 {
      Down16(m);
    } else if w == 32 {
      Down32(m);
    } else {
      Down64(m);
    }
  }

  lemma Down8(m: nat)
    ensures (m - m % 8) % 8 == 0
  {}

  lemma Down16(m: nat)
    ensures (m - m % 16) % 16 == 0 && (m - m % 16) % 8 == 0
  {
    var q := m / 16;
    MultipleOf16(m - m % 16, q);
    MultipleOf8(m - m % 16, 2 * q);
  }

  lemma MultipleOf16(x: nat, q: nat)
    requires x == 16 * q
    ensures x % 16 == 0
  {}

  lemma MultipleOf32(x: nat, q: nat)
    requires x == 32 * q
    ensures x % 32 == 0
  {}

  lemma MultipleOf64(x: nat, q: nat)
    requires x == 64 * q
    ensures x % 64 == 0
  {}

  lemma Down32(m: nat)
    ensures (m - m % 32) % 32 == 0 && (m - m % 32) % 8 == 0
  {
    var q := m / 32;
    MultipleOf32(m - m % 32, q);
    MultipleOf8(m - m % 32, 4 * q);
  }

  lemma Down64(m: nat)
    ensures (m - m % 64) % 64 == 0 && (m - m % 64) % 8 == 0
  {
    var q := m / 64;
    MultipleOf64(m - m % 64, q);
    MultipleOf8(m - m % 64, 8 * q);
  }

  lemma AlignUpIs(n: nat, w: nat)
    requires AccessBits(w)
    ensures n <= AlignUp(n, w) < n + w && AlignUp(n, w) % w == 0 && AlignUp(n, w) % 8 == 0
  {
    ModBy(n + w - 1, w, AlignUp(n, w));
  }

  /** Multiples that differ differ by the whole width. */
  lemma Multiples(m: nat, k: nat, w: nat)
    requires AccessBits(w) && m % w == 0 && k % w == 0 && m < k
    ensures m + w <= k
  {}

  lemma AlignUpUnique(n: nat, w: nat, m: nat)
    requires AccessBits(w) && n <= m < n + w && m % w == 0
    ensures AlignUp(n, w) == m
  {
    AlignUpIs(n, w);
    hide AlignUp;
    if AlignUp(n, w) < m {
      Multiples(AlignUp(n, w), m, w);
      assert false;
    } else if m < AlignUp(n, w) {
      Multiples(m, AlignUp(n, w), w);
      assert false;
    }
  }

  lemma BelowAlignUp(n: nat, w: nat, m: nat)
    requires AccessBits(w) && m < n && m % w == 0
    ensures m + w <= AlignUp(n, w)
  {
    AlignUpIs(n, w);
    hide AlignUp;
    Multiples(m, AlignUp(n, w), w);
  }

  // ----- one access -----

  /** Reading `width` bytes of the region as a 64-bit word; out of bounds is an error. */
  method AccessRead(region: array<bv8>, at: nat, width: nat, out: array<bv8>) returns (ok: bool)
    requires out.Length == 8 && width <= 8 && out != region
    modifies out
    ensures ok <==> at + width <= region.Length
    ensures ok ==> forall t :: 0 <= t < 64 ==>
      (BitAt(out[..], t) <==> t < 8 * width && BitAt(region[..], 8 * at + t))
  {
    hide BitOf;
    if at + width > region.Length {
      return false;
    }
    for k := 0 to 8
      invariant forall j :: 0 <= j < k ==> out[j] == if j < width then region[at + j] else 0
    {
      out[k] := if k < width then region[at + k] else 0;
    }
    forall t | 0 <= t < 64
      ensures BitAt(out[..], t) <==> t < 8 * width && BitAt(region[..], 8 * at + t)
    {
      ZeroBits(t % 8);
    }
    return true;
  }

  method AccessWrite(region: array<bv8>, at: nat, width: nat, word: array<bv8>) returns (ok: bool)
    requires word.Length == 8 && width <= 8 && word != region
    modifies region
    ensures ok <==> at + width <= region.Length
    ensures !ok ==> region[..] == old(region[..])
    ensures ok ==> forall j :: 0 <= j < 8 * region.Length ==>
      (BitAt(region[..], j) <==>
       if 8 * at <= j < 8 * (at + width) then BitAt(word[..], j - 8 * at) else BitAt(old(region[..]), j))
  {
    hide BitOf;
    if at + width > region.Length {
      return false;
    }
    ghost var was := region[..];
    for k := 0 to width
      invariant forall j :: 0 <= j < region.Length ==>
        region[j] == if at <= j < at + k then word[j - at] else was[j]
    {
      region[at + k] := word[k];
    }
    return true;
  }

  // ----- writing -----

  /** What a region bit outside the field becomes when its unit is written. */
  predicate Filler(rule: UpdateRule, was: seq<bv8>, j: nat)
    requires j < 8 * |was|
  {
    match rule
    case Preserve => BitAt(was, j)
    case WriteAsOnes => true
    case _ => false
  }

  /** Bit `j` of the region once the units before byte `end` were written: the value cut
      or zero-extended in the field, the update rule around it, and nothing elsewhere. */
  predicate WrittenBit(f: FieldUnit, was: seq<bv8>, src: seq<bv8>, size: nat, end: nat, j: nat)
    requires j < 8 * |was| && size <= |src|
  {
    if j < 8 * f.byteOffset || 8 * end <= j then BitAt(was, j)
    else if f.First() <= j < f.End() then j - f.First() < 8 * size && BitAt(src, j - f.First())
    else Filler(f.rule, was, j)
  }

  ghost predicate Written(f: FieldUnit, was: seq<bv8>, now: seq<bv8>, src: seq<bv8>, size: nat, end: nat)
    requires size <= |src|
  {
    |now| == |was| &&
    forall j :: 0 <= j < 8 * |was| ==> (BitAt(now, j) <==> WrittenBit(f, was, src, size, end, j))
  }

  /** One round of the write loop: the unit at byte `at`, whose field bits are
      [idx, idx + n) and come from the source's bit `done` on. */
  method WriteUnit(region: array<bv8>, at: nat, width: nat, idx: nat, n: nat, rule: UpdateRule,
                   src: array<bv8>, size: nat, span: BitSpan, ghost done: nat) returns (ok: bool)
    requires width <= 8 && idx + n <= 8 * width && src != region && size <= src.Length
    requires span == BitSpan(src, Used(8 * size, done), Left(8 * size, done))
    modifies region
    ensures ok <==> at + width <= region.Length && !(rule.Reserved? && (idx != 0 || n < 8 * width))
    ensures !ok ==> region[..] == old(region[..])
    ensures ok ==> forall j :: 0 <= j < 8 * region.Length ==>
      (BitAt(region[..], j) <==>
       if !(8 * at <= j < 8 * (at + width)) then BitAt(old(region[..]), j)
       else if 8 * at + idx <= j < 8 * at + idx + n then
         var k := done + (j - (8 * at + idx));
         k < 8 * size && BitAt(src[..], k)
       else Filler(rule, old(region[..]), j))
  {
    hide BitAt, Filler;
    var word := new bv8[8](_ => 0);
    if idx != 0 || n < 8 * width {
      ok := FillWord(region, at, width, rule, word);
      if !ok {
        return;
      }
    }
    BitCopy(BitSpan(word, idx, n), span);
    ok := AccessWrite(region, at, width, word);
  }

  /** What surrounds the field in a unit it only covers in part. */
  method FillWord(region: array<bv8>, at: nat, width: nat, rule: UpdateRule, word: array<bv8>) returns (ok: bool)
    requires width <= 8 && word.Length == 8 && word != region && forall k :: 0 <= k < 8 ==> word[k] == 0
    modifies word
    ensures !ok <==> rule.Reserved? || (rule.Preserve? && at + width > region.Length)
    ensures ok && at + width <= region.Length ==> forall t :: 0 <= t < 8 * width ==>
      (BitAt(word[..], t) <==> Filler(rule, region[..], 8 * at + t))
  {
    hide BitAt;
    ok := true;
    match rule
    case Preserve =>
      ok := AccessRead(region, at, width, word);
    case WriteAsOnes =>
      word[0], word[1], word[2], word[3], word[4], word[5], word[6], word[7] :=
        0xFF, 0xFF, 0xFF, 0xFF, 0xFF, 0xFF, 0xFF, 0xFF;
      AllOnes(word[..]);
    case WriteAsZeroes =>
      AllZeros(word[..]);
    case Reserved =>
      return false;
  }

  lemma AllOnes(s: seq<bv8>)
    requires forall k :: 0 <= k < |s| ==> s[k] == 0xFF
    ensures forall j :: 0 <= j < 8 * |s| ==> BitAt(s, j)
  {}

  lemma AllZeros(s: seq<bv8>)
    requires forall k :: 0 <= k < |s| ==> s[k] == 0
    ensures forall j :: 0 <= j < 8 * |s| ==> !BitAt(s, j)
  {}

  /** The next unit carries the field from `done` on. */
  lemma UnitWritten(f: FieldUnit, was: seq<bv8>, before: seq<bv8>, now: seq<bv8>, src: seq<bv8>, size: nat,
                    at: nat, idx: nat, n: nat, done: nat)
    requires f.Valid() && size <= |src| && |now| == |was| && f.byteOffset <= at && at + f.widthBytes <= |was|
    requires Written(f, was, before, src, size, at) && done + n <= f.bitLength
    requires 8 * at + idx == f.First() + done && (done == 0 || idx == 0)
    requires done + n == f.bitLength || idx + n == 8 * f.widthBytes
    requires forall j :: 0 <= j < 8 * |was| ==>
      (BitAt(now, j) <==>
       if !(8 * at <= j < 8 * (at + f.widthBytes)) then BitAt(before, j)
       else if 8 * at + idx <= j < 8 * at + idx + n then
         var k := done + (j - (8 * at + idx));
         k < 8 * size && BitAt(src, k)
       else Filler(f.rule, before, j))
    ensures Written(f, was, now, src, size, at + f.widthBytes)
  {
    hide BitAt;
  }

  /** Where the write loop stands: the unit at byte `at` is next, the field continues at
      its bit `idx`, and `left` field bits remain. */
  ghost predicate Standing(f: FieldUnit, at: nat, idx: nat, left: nat) {
    && f.Valid() && left <= f.bitLength && f.byteOffset <= at
    && (8 * (at - f.byteOffset)) % (8 * f.widthBytes) == 0
    && (left > 0 ==>
        idx < 8 * f.widthBytes && 8 * at + idx == f.End() - left && (left == f.bitLength || idx == 0))
    && (left == 0 && f.bitLength > 0 ==> f.End() <= 8 * at < f.End() + 8 * f.widthBytes)
  }

  function Chunk(f: FieldUnit, idx: nat, left: nat): nat
    requires idx < 8 * f.widthBytes
  {
    if 8 * f.widthBytes - idx < left then 8 * f.widthBytes - idx else left
  }

  lemma StandingStep(f: FieldUnit, at: nat, idx: nat, left: nat)
    requires Standing(f, at, idx, left) && left > 0
    ensures Standing(f, at + f.widthBytes, 0, left - Chunk(f, idx, left))
    ensures at + f.widthBytes <= f.WriteEnd()
    ensures f.Partial(at) <==> idx != 0 || Chunk(f, idx, left) < 8 * f.widthBytes
  {
    hide AlignUp;
    BelowAlignUp(f.bitOffset + f.bitLength, 8 * f.widthBytes, 8 * (at - f.byteOffset));
    AlignUpIs(f.bitOffset + f.bitLength, 8 * f.widthBytes);
    NextMultiple(8 * (at - f.byteOffset), 8 * f.widthBytes);
  }

  lemma NextMultiple(m: nat, w: nat)
    requires AccessBits(w) && m % w == 0
    ensures (m + w) % w == 0
  {}

  lemma StandingEnd(f: FieldUnit, at: nat, idx: nat)
    requires Standing(f, at, idx, 0)
    ensures f.bitLength > 0 ==> at == f.WriteEnd()
  {
    hide AlignUp;
    if f.bitLength > 0 {
      AlignUpUnique(f.bitOffset + f.bitLength, 8 * f.widthBytes, 8 * (at - f.byteOffset));
    }
  }

  /** A round of the loop, in terms of the whole field. */
  method StepUnit(region: array<bv8>, at: nat, idx: nat, n: nat, f: FieldUnit, src: array<bv8>, size: nat,
                  span: BitSpan, ghost was: seq<bv8>, ghost left: nat) returns (ok: bool)
    requires Standing(f, at, idx, left) && left > 0 && n == Chunk(f, idx, left)
    requires src != region && size <= src.Length && |was| == region.Length
    requires span == BitSpan(src, Used(8 * size, f.bitLength - left), Left(8 * size, f.bitLength - left))
    requires Written(f, was, region[..], src[..], size, at)
    modifies region
    ensures ok <==> at + f.widthBytes <= region.Length && !(f.rule.Reserved? && f.Partial(at))
    ensures Written(f, was, region[..], src[..], size, if ok then at + f.widthBytes else at)
  {
    hide BitAt, Written, AlignUp;
    ghost var before, done := region[..], f.bitLength - left;
    StandingStep(f, at, idx, left);
    ok := WriteUnit(region, at, f.widthBytes, idx, n, f.rule, src, size, span, done);
    if ok {
      UnitWritten(f, was, before, region[..], src[..], size, at, idx, n, done);
    }
  }

  lemma NothingWritten(f: FieldUnit, was: seq<bv8>, src: seq<bv8>, size: nat)
    requires size <= |src|
    ensures Written(f, was, was, src, size, f.byteOffset)
  {}

  /** `write_generic_field_unit`: all units of the field in order; an access out of bounds
      or a reserved update rule stops it, with the units before written. */
  method WriteFieldUnit(region: array<bv8>, f: FieldUnit, src: array<bv8>, size: nat) returns (ok: bool, ghost end: nat)
    requires f.Valid() && region != src && size <= src.Length
    modifies region
    ensures Written(f, old(region[..]), region[..], src[..], size, end) && f.byteOffset <= end <= f.WriteEnd()
    ensures ok <==> end == f.WriteEnd()
    ensures !ok ==> end + f.widthBytes <= f.WriteEnd()
    ensures !ok ==> end + f.widthBytes > region.Length || (f.rule.Reserved? && f.Partial(end))
    ensures ok && f.bitLength > 0 ==> end <= region.Length
  {
    hide AlignUp, BitAt, Written;
    ghost var was := region[..];
    var bitsLeft: nat, at: nat, idx: nat := f.bitLength, f.byteOffset, f.bitOffset;
    var width := f.widthBytes;
    var span := BitSpan(src, 0, 8 * size);
    NothingWritten(f, was, src[..], size);
    while bitsLeft != 0
      invariant Standing(f, at, idx, bitsLeft) && at <= f.WriteEnd()
      invariant bitsLeft < f.bitLength ==> at <= region.Length
      invariant span == BitSpan(src, Used(8 * size, f.bitLength - bitsLeft), Left(8 * size, f.bitLength - bitsLeft))
      invariant Written(f, was, region[..], src[..], size, at)
    {
      var n := Chunk(f, idx, bitsLeft);
      StandingStep(f, at, idx, bitsLeft);
      ok := StepUnit(region, at, idx, n, f, src, size, span, was, bitsLeft);
      if !ok {
        return false, at;
      }
      span := span.Drop(n);
      bitsLeft := bitsLeft - n;
      idx := 0;
      at := at + width;
    }
    StandingEnd(f, at, idx);
    return true, at;
  }

  // ----- reading -----

  /** What the read loop has done: `dst` holds the field's bits before `done`, and zeros
      after them once an access was made. */
  ghost predicate PartlyRead(f: FieldUnit, region: seq<bv8>, was: seq<bv8>, now: seq<bv8>, size: nat,
                             done: nat, begun: bool) {
    && size <= |was| == |now|
    && forall j :: 0 <= j < 8 * |was| ==>
         (BitAt(now, j) <==>
          if 8 * size <= j then BitAt(was, j)
          else if j < done then f.First() + j < 8 * |region| && BitAt(region, f.First() + j)
          else !begun && BitAt(was, j))
  }

  lemma UnitRead(f: FieldUnit, region: seq<bv8>, was: seq<bv8>, before: seq<bv8>, now: seq<bv8>, size: nat,
                 done: nat, begun: bool, out: seq<bv8>, at: nat, idx: nat, n: nat)
    requires f.Valid() && |out| == 8 && at + f.widthBytes <= |region|
    requires idx + n <= 8 * f.widthBytes && 8 * at + idx == f.First() + done && (begun || done == 0)
    requires PartlyRead(f, region, was, before, size, done, begun)
    requires forall t :: 0 <= t < 64 ==> (BitAt(out, t) <==> t < 8 * f.widthBytes && BitAt(region, 8 * at + t))
    requires SpliceOf(before, now, Used(8 * size, done), Left(8 * size, done), out, idx, n)
    ensures PartlyRead(f, region, was, now, size, done + n, true)
  {
    hide BitAt;
  }

  lemma NothingRead(f: FieldUnit, region: seq<bv8>, was: seq<bv8>, size: nat)
    requires size <= |was|
    ensures PartlyRead(f, region, was, was, size, 0, false)
  {}

  lemma AllRead(f: FieldUnit, region: seq<bv8>, was: seq<bv8>, now: seq<bv8>, size: nat)
    requires f.End() <= 8 * |region| && PartlyRead(f, region, was, now, size, f.bitLength, true)
    ensures SpliceOf(was, now, 0, 8 * size, region, f.First(), f.bitLength)
  {
    hide BitAt;
  }

  /** Where the read loop stands: as for writing, with the number of accesses left. */
  ghost predicate Reading(f: FieldUnit, at: nat, idx: nat, left: nat, rounds: nat) {
    var w := 8 * f.widthBytes;
    && f.Valid() && left <= f.bitLength && f.byteOffset <= at && idx < w
    && 8 * (at - f.byteOffset) + w * rounds == AlignUp(f.bitOffset + f.bitLength, w)
    && (rounds > 0 ==> 8 * at + idx == f.End() - left && (left == f.bitLength || idx == 0))
    && (rounds == 0 ==> left == 0)
  }

  lemma ReadingStarts(f: FieldUnit)
    requires f.Valid() && f.bitOffset + f.bitLength > 0
    ensures var w := 8 * f.widthBytes;
      var rounds := AlignUp(f.bitOffset + f.bitLength, w) / w;
      rounds > 0 && Reading(f, f.byteOffset, f.bitOffset, f.bitLength, rounds)
  {
    hide AlignUp;
    var w := 8 * f.widthBytes;
    AlignUpIs(f.bitOffset + f.bitLength, w);
    Exact(AlignUp(f.bitOffset + f.bitLength, w), w);
  }

  lemma Exact(m: nat, w: nat)
    requires AccessBits(w) && m % w == 0
    ensures w * (m / w) == m && (m > 0 ==> m / w > 0)
  {}

  lemma ReadingStep(f: FieldUnit, at: nat, idx: nat, left: nat, rounds: nat)
    requires Reading(f, at, idx, left, rounds) && rounds > 0
    ensures Reading(f, at + f.widthBytes, 0, left - Chunk(f, idx, left), rounds - 1)
    ensures f.byteOffset <= at && at + f.widthBytes <= f.ReadEnd()
    ensures rounds == 1 ==> at + f.widthBytes == f.ReadEnd()
  {
    hide AlignUp;
    var w := 8 * f.widthBytes;
    AlignUpIs(f.bitOffset + f.bitLength, w);
    assert w * rounds == w * (rounds - 1) + w;
    if rounds > 1 {
      assert w * (rounds - 1) >= w;
    }
  }

  /** `do_read_misaligned_field_unit`: the field piece by piece, one access per unit. */
  method ReadMisaligned(region: array<bv8>, f: FieldUnit, dst: array<bv8>, size: nat) returns (ok: bool)
    requires f.Valid() && region != dst && size <= dst.Length && f.bitOffset + f.bitLength > 0
    modifies dst
    ensures ok <==> f.ReadEnd() <= region.Length
    ensures ok ==>
      && f.End() <= 8 * region.Length
      && SpliceOf(old(dst[..]), dst[..], 0, 8 * size, region[..], f.First(), f.bitLength)
    ensures forall k :: size <= k < dst.Length ==> dst[k] == old(dst[k])
  {
    hide BitAt, AlignUp, PartlyRead;
    ghost var was := dst[..];
    var width := f.widthBytes;
    var at: nat, bitsLeft: nat, idx: nat := f.byteOffset, f.bitLength, f.bitOffset;
    var out := new bv8[8];
    var span := BitSpan(dst, 0, 8 * size);
    var readsToDo: nat := AlignUp(f.bitOffset + f.bitLength, 8 * width) / (8 * width);
    ReadingStarts(f);
    NothingRead(f, region[..], was, size);
    while readsToDo > 0
      invariant Reading(f, at, idx, bitsLeft, readsToDo)
      invariant readsToDo == 0 ==> at == f.ReadEnd() <= region.Length
      invariant bitsLeft < f.bitLength ==> at > f.byteOffset
      invariant span == BitSpan(dst, Used(8 * size, f.bitLength - bitsLeft), Left(8 * size, f.bitLength - bitsLeft))
      invariant PartlyRead(f, region[..], was, dst[..], size, f.bitLength - bitsLeft, at > f.byteOffset)
    {
      ghost var before, begun := dst[..], at > f.byteOffset;
      var n := Chunk(f, idx, bitsLeft);
      ReadingStep(f, at, idx, bitsLeft, readsToDo);
      ok := AccessRead(region, at, width, out);
      if !ok {
        Untouched(f, region[..], was, dst[..], size, f.bitLength - bitsLeft, begun);
        return;
      }
      BitCopy(span, BitSpan(out, idx, n));
      UnitRead(f, region[..], was, before, dst[..], size, f.bitLength - bitsLeft, begun, out[..], at, idx, n);
      readsToDo := readsToDo - 1;
      bitsLeft := bitsLeft - n;
      idx := 0;
      span := span.Drop(n);
      at := at + width;
    }
    Untouched(f, region[..], was, dst[..], size, f.bitLength, true);
    EndInRead(f);
    AllRead(f, region[..], was, dst[..], size);
    ok := true;
  }

  lemma EndInRead(f: FieldUnit)
    requires f.Valid()
    ensures f.End() <= 8 * f.ReadEnd() && f.WriteEnd() <= f.ReadEnd()
  {
    hide AlignUp;
    AlignUpIs(f.bitOffset + f.bitLength, 8 * f.widthBytes);
  }

  lemma Untouched(f: FieldUnit, region: seq<bv8>, was: seq<bv8>, now: seq<bv8>, size: nat, done: nat, begun: bool)
    requires PartlyRead(f, region, was, now, size, done, begun)
    ensures forall k :: size <= k < |was| ==> now[k] == was[k]
  {
    hide BitOf;
    forall k | size <= k < |was|
      ensures now[k] == was[k]
    {
      forall t | 0 <= t < 8
        ensures BitOf(now[k], t) <==> BitOf(was[k], t)
      {
        assert BitAt(now, 8 * k + t) <==> BitAt(was, 8 * k + t);
      }
      SameBits(now[k], was[k]);
    }
  }

  /** `uacpi_read_field_unit`: the field cut or zero-extended to the destination, on the
      single-access path and on the other one alike. */
  method ReadFieldUnit(region: array<bv8>, f: FieldUnit, dst: array<bv8>, size: nat) returns (ok: bool)
    requires f.Valid() && region != dst && size <= dst.Length
    modifies dst
    ensures ok <==> f.ReadEnd() <= region.Length
    ensures ok ==>
      && f.End() <= 8 * region.Length
      && SpliceOf(old(dst[..]), dst[..], 0, 8 * size, region[..], f.First(), f.bitLength)
    ensures forall k :: size <= k < dst.Length ==> dst[k] == old(dst[k])
  {
    hide AlignUp;
    var fieldByteLength := RoundUpBitsToBytes(f.bitLength);
    if f.bitOffset == 0 && fieldByteLength <= f.widthBytes {
      ok := ReadSimple(region, f, dst, size, fieldByteLength);
      return;
    }
    ok := ReadMisaligned(region, f, dst, size);
  }

  /** The fast case: one access holds the whole field from its first bit on. */
  method ReadSimple(region: array<bv8>, f: FieldUnit, dst: array<bv8>, size: nat, fieldByteLength: nat)
    returns (ok: bool)
    requires f.Valid() && region != dst && size <= dst.Length && f.bitOffset == 0
    requires fieldByteLength == RoundUpBitsToBytes(f.bitLength) <= f.widthBytes
    modifies dst
    ensures ok <==> f.ReadEnd() <= region.Length
    ensures ok ==>
      && f.End() <= 8 * region.Length
      && SpliceOf(old(dst[..]), dst[..], 0, 8 * size, region[..], f.First(), f.bitLength)
    ensures forall k :: size <= k < dst.Length ==> dst[k] == old(dst[k])
  {
    hide BitOf, AlignUp;
    ghost var was := dst[..];
    SingleAccess(f);
    var out := new bv8[8];
    ok := AccessRead(region, f.byteOffset, f.widthBytes, out);
    if !ok {
      return;
    }
    MemcpyZerout(dst, 0, size, out, fieldByteLength, 0);
    ghost var copied := dst[..];
    if size >= fieldByteLength {
      CutMisalignedTail(dst, if fieldByteLength > 0 then fieldByteLength - 1 else 0, f.bitLength);
    }
    SimpleSplice(was, copied, dst[..], out[..], size, f.bitLength, region[..], f);
  }

  lemma SimpleSplice(was: seq<bv8>, copied: seq<bv8>, now: seq<bv8>, out: seq<bv8>, size: nat, length: nat,
                     region: seq<bv8>, f: FieldUnit)
    requires |copied| == |was| == |now| && size <= |was| && |out| == 8
    requires f.Valid() && length == f.bitLength <= 8 * f.widthBytes && f.bitOffset == 0 && f.End() <= 8 * |region|
    requires 8 * (f.byteOffset + f.widthBytes) <= 8 * |region|
    requires forall k :: 0 <= k < |was| ==>
      copied[k] == if size <= k then was[k] else if k < RoundUpBitsToBytes(length) then out[k] else 0
    requires forall t :: 0 <= t < 64 ==>
      (BitAt(out, t) <==> t < 8 * f.widthBytes && BitAt(region, 8 * f.byteOffset + t))
    requires forall j :: 0 <= j < 8 * |was| ==>
      (BitAt(now, j) <==>
       && BitAt(copied, j)
       && (size >= RoundUpBitsToBytes(length) && j / 8 == RoundUpBitsToBytes(length) - 1 && length % 8 != 0
           ==> j % 8 < length % 8))
    ensures SpliceOf(was, now, 0, 8 * size, region, f.First(), length)
  {
    hide BitOf, BitAt, AlignUp;
    forall j | 0 <= j < 8 * |was|
      ensures BitAt(now, j) <==> Spliced(was, 0, 8 * size, region, f.First(), length, j)
    {
      SimpleBit(was, copied, out, size, length, j);
    }
  }

  /** A bit of the copied word, before the bits above the field are cut. */
  lemma SimpleBit(was: seq<bv8>, copied: seq<bv8>, out: seq<bv8>, size: nat, length: nat, j: nat)
    requires |copied| == |was| && size <= |was| && |out| == 8 && length <= 64 && j < 8 * |was|
    requires forall k :: 0 <= k < |was| ==>
      copied[k] == if size <= k then was[k] else if k < RoundUpBitsToBytes(length) then out[k] else 0
    ensures BitAt(copied, j) <==>
      if 8 * size <= j then BitAt(was, j) else j < 8 * RoundUpBitsToBytes(length) && BitAt(out, j)
  {
    hide BitOf;
    ZeroBits(j % 8);
  }

  lemma SingleAccess(f: FieldUnit)
    requires f.Valid() && f.bitOffset == 0 && RoundUpBitsToBytes(f.bitLength) <= f.widthBytes
    ensures f.ReadEnd() == f.byteOffset + f.widthBytes && f.End() <= 8 * f.ReadEnd()
  {
    if f.bitLength > 0 {
      AlignUpUnique(f.bitLength, 8 * f.widthBytes, 8 * f.widthBytes);
    }
  }

  // ----- what a field is for -----

  /** The access width an AML access type asks for. */
  function AccessWidth(accessType: nat): Option<nat> {
    match accessType
    case 0 => Some(1)
    case 1 => Some(1)
    case 2 => Some(2)
    case 3 => Some(4)
    case 4 => Some(8)
    case 5 => Some(1)
    case _ => None
  }

  /** How the loader turns a bit position in the region into offsets: the field starts at
      exactly that bit, whatever the access width. */
  function NewField(bitOffset: nat, length: nat, accessType: nat, rule: UpdateRule): (r: Option<FieldUnit>)
    ensures r.None? <==> accessType > 5
    ensures r.Some? ==> r.value.Valid() && r.value.First() == bitOffset && r.value.bitLength == length
    // any, byte and buffer access go byte by byte, the others by words of 16, 32 and 64 bits
    ensures r.Some? ==>
      && r.value.rule == rule
      && (r.value.widthBytes == 8 <==> accessType == 4)
      && (r.value.widthBytes == 4 <==> accessType == 3)
      && (r.value.widthBytes == 2 <==> accessType == 2)
      && (r.value.widthBytes == 1 <==> accessType in {0, 1, 5})
      && (r.value.widthBytes == 8 ==> r.value.byteOffset % 8 == 0)
      && (r.value.widthBytes == 4 ==> r.value.byteOffset % 4 == 0)
      && (r.value.widthBytes == 2 ==> r.value.byteOffset % 2 == 0)
  {
    match AccessWidth(accessType)
    case None => None
    case Some(w) =>
      var byte := bitOffset / 8;
      Split(bitOffset, w);
      UnitAligned(byte);
      Some(FieldUnit(byte - byte % w, bitOffset % (8 * w), length, w, rule))
  }

  lemma UnitAligned(q: nat)
    ensures (q - q % 2) % 2 == 0 && (q - q % 4) % 4 == 0 && (q - q % 8) % 8 == 0
  {}

  lemma Split(b: nat, w: nat)
    requires w == 1 || w == 2 || w == 4 || w == 8
    ensures 8 * (b / 8 - b / 8 % w) + b % (8 * w) == b
  {
    if w == 2 {
      Split2(b);
    } else if w == 4 {
      Split4(b);
    } else if w == 8 {
      Split8(b);
    }
  }

  lemma Split2(b: nat)
    ensures b % 16 == b - 8 * (b / 8 - b / 8 % 2)
  {
    var units := b / 8 / 2;
    assert b == 16 * units + (8 * (b / 8 % 2) + b % 8);
    Mod16(b, units, 8 * (b / 8 % 2) + b % 8);
  }

  lemma Mod16(b: nat, q: nat, r: nat)
    requires b == 16 * q + r && r < 16
    ensures b % 16 == r
  {}

  lemma Split4(b: nat)
    ensures b % 32 == b - 8 * (b / 8 - b / 8 % 4)
  {
    var units := b / 8 / 4;
    assert b == 32 * units + (8 * (b / 8 % 4) + b % 8);
    Mod32(b, units, 8 * (b / 8 % 4) + b % 8);
  }

  lemma Mod32(b: nat, q: nat, r: nat)
    requires b == 32 * q + r && r < 32
    ensures b % 32 == r
  {}

  lemma Split8(b: nat)
    ensures b % 64 == b - 8 * (b / 8 - b / 8 % 8)
  {
    var units := b / 8 / 8;
    assert b == 64 * units + (8 * (b / 8 % 8) + b % 8);
    Mod64(b, units, 8 * (b / 8 % 8) + b % 8);
  }

  lemma Mod64(b: nat, q: nat, r: nat)
    requires b == 64 * q + r && r < 64
    ensures b % 64 == r
  {}

  /** Write then read: the value, cut or zero-extended first to the field and then to the
      destination. */
  lemma FieldRoundTrip(f: FieldUnit, was: seq<bv8>, now: seq<bv8>, src: seq<bv8>, size: nat,
                       dst: seq<bv8>, read: seq<bv8>, readSize: nat)
    requires f.Valid() && size <= |src| && readSize <= |dst| && f.ReadEnd() <= |was|
    requires Written(f, was, now, src, size, f.WriteEnd()) && f.End() <= 8 * |now|
    requires SpliceOf(dst, read, 0, 8 * readSize, now, f.First(), f.bitLength)
    ensures forall j :: 0 <= j < 8 * readSize ==>
      (BitAt(read, j) <==> j < f.bitLength && j < 8 * size && BitAt(src, j))
  {
    hide BitAt, AlignUp;
    AlignUpIs(f.bitOffset + f.bitLength, 8 * f.widthBytes);
    forall j | 0 <= j < 8 * readSize
      ensures BitAt(read, j) <==> j < f.bitLength && j < 8 * size && BitAt(src, j)
    {
      if j < f.bitLength {
        assert BitAt(now, f.First() + j) <==> WrittenBit(f, was, src, size, f.WriteEnd(), f.First() + j);
      }
    }
  }

  /** Storing into a field and loading from it: both succeed when the region holds every
      unit and the update rule is a defined one, and then the value comes back, cut or
      zero-extended first to the field and then to the destination. */
  method StoreAndLoad(region: array<bv8>, f: FieldUnit, src: array<bv8>, size: nat, dst: array<bv8>, readSize: nat)
    returns (stored: bool, loaded: bool)
    requires f.Valid() && region != src && region != dst && size <= src.Length && readSize <= dst.Length
    modifies region, dst
    ensures loaded <==> f.ReadEnd() <= region.Length
    ensures !f.rule.Reserved? && f.ReadEnd() <= region.Length ==> stored
    ensures stored && loaded ==> forall j :: 0 <= j < 8 * readSize ==>
      (BitAt(dst[..], j) <==> j < f.bitLength && j < 8 * size && BitAt(old(src[..]), j))
    ensures forall k :: readSize <= k < dst.Length ==> dst[k] == old(dst[k])
  {
    hide BitAt, AlignUp, Written, SpliceOf;
    ghost var was, source := region[..], src[..];
    EndInRead(f);
    ghost var end: nat;
    stored, end := WriteFieldUnit(region, f, src, size);
    ghost var before := dst[..];
    loaded := ReadFieldUnit(region, f, dst, readSize);
    if stored && loaded {
      FieldRoundTrip(f, was, region[..], source, size, before, dst[..], readSize);
    }
  }

  /** The bits around the field: kept under Preserve, and under the other rules all ones
      or all zeros in the touched units and kept elsewhere. */
  lemma AroundTheField(f: FieldUnit, was: seq<bv8>, now: seq<bv8>, src: seq<bv8>, size: nat, j: nat)
    requires f.Valid() && size <= |src| && Written(f, was, now, src, size, f.WriteEnd())
    requires j < 8 * |was| && !(f.First() <= j < f.End())
    ensures BitAt(now, j) <==>
      if f.rule.Preserve? || j < 8 * f.byteOffset || 8 * f.WriteEnd() <= j then BitAt(was, j)
      else f.rule.WriteAsOnes?
  {
    hide BitAt, AlignUp;
    assert BitAt(now, j) <==> WrittenBit(f, was, src, size, f.WriteEnd(), j);
  }

  /** Under Preserve the access width leaves no trace: two descriptions of the same bits
      leave the same region. */
  lemma WidthLeavesNoTrace(f: FieldUnit, g: FieldUnit, was: seq<bv8>, a: seq<bv8>, b: seq<bv8>,
                           src: seq<bv8>, size: nat)
    requires f.Valid() && g.Valid() && f.rule.Preserve? && g.rule.Preserve? && size <= |src|
    requires f.First() == g.First() && f.bitLength == g.bitLength
    requires Written(f, was, a, src, size, f.WriteEnd()) && Written(g, was, b, src, size, g.WriteEnd())
    ensures a == b
  {
    hide BitAt, BitOf, AlignUp;
    AlignUpIs(f.bitOffset + f.bitLength, 8 * f.widthBytes);
    AlignUpIs(g.bitOffset + g.bitLength, 8 * g.widthBytes);
    forall j | 0 <= j < 8 * |was|
      ensures BitAt(a, j) <==> BitAt(b, j)
    {
      assert BitAt(a, j) <==> WrittenBit(f, was, src, size, f.WriteEnd(), j);
      assert BitAt(b, j) <==> WrittenBit(g, was, src, size, g.WriteEnd(), j);
    }
    SameBytes(a, b);
  }
}
