/** Byte-packed bit arrays: the representation shared by the physical page
    allocator and by the slot table of the ACPI mapping window. */
module Bitmaps {

  /** `1 << k` as a byte. */
  function Mask(k: nat): bv8
    requires k < 8
  {
    if k == 0 then 1 else if k == 1 then 2 else if k == 2 then 4 else if k == 3 then 8
    else if k == 4 then 16 else if k == 5 then 32 else if k == 6 then 64 else 128
  }

  predicate BitOf(b: bv8, k: nat)
    requires k < 8
  {
    b & Mask(k) != 0
  }

  lemma SettingOneBit(b: bv8, k: nat, j: nat)
    requires k < 8 && j < 8
    ensures BitOf(b | Mask(k), j) == (j == k || BitOf(b, j))
  {}

  lemma ClearingOneBit(b: bv8, k: nat, j: nat)
    requires k < 8 && j < 8
    ensures BitOf(b & !Mask(k), j) == (j != k && BitOf(b, j))
  {}

  /** The abstract value of a byte array: one boolean per bit, bit `i` living in
      byte `i / 8` at position `i % 8`. */
  function Bits(bytes: seq<bv8>): (v: seq<bool>)
    ensures |v| == 8 * |bytes|
  {
    seq(8 * |bytes|, i requires 0 <= i < 8 * |bytes| => BitOf(bytes[i / 8], i % 8))
  }

  /** The view after the bits in [start, end) were all set to `used`. */
  function Filled(v: seq<bool>, start: nat, end: nat, used: bool): (w: seq<bool>)
    ensures |w| == |v|
  {
    seq(|v|, p requires 0 <= p < |v| => if start <= p < end then used else v[p])
  }

  lemma FilledStep(v: seq<bool>, start: nat, p: nat, used: bool)
    requires start <= p < |v|
    ensures Filled(v, start, p, used)[p := used] == Filled(v, start, p + 1, used)
  {}

  lemma FilledAll(v: seq<bool>, start: nat, p: nat, end: nat, used: bool)
    requires p == end || (|v| <= p <= end)
    ensures Filled(v, start, p, used) == Filled(v, start, end, used)
  {}

  lemma FilledNone(v: seq<bool>, start: nat, end: nat, used: bool)
    requires end <= start
    ensures Filled(v, start, end, used) == v
  {}

  method TestBit(a: array<bv8>, i: nat) returns (used: bool)
    requires i < 8 * a.Length
    ensures used == Bits(a[..])[i]
  {
    used := a[i / 8] & Mask(i % 8) != 0;
  }

  method SetBit(a: array<bv8>, i: nat)
    requires i < 8 * a.Length
    modifies a
    ensures Bits(a[..]) == old(Bits(a[..]))[i := true]
  {
    var b := a[i / 8] | Mask(i % 8);
    forall k | 0 <= k < 8
      ensures BitOf(b, k) == if k == i % 8 then true else BitOf(a[i / 8], k)
    {
      SettingOneBit(a[i / 8], i % 8, k);
    }
    OneBit(a[..], i, b, true);
    a[i / 8] := b;
    hide Bits;
    assert a[..] == old(a[..])[i / 8 := b];
  }

  method ClearBit(a: array<bv8>, i: nat)
    requires i < 8 * a.Length
    modifies a
    ensures Bits(a[..]) == old(Bits(a[..]))[i := false]
  {
    var b := a[i / 8] & !Mask(i % 8);
    forall k | 0 <= k < 8
      ensures BitOf(b, k) == if k == i % 8 then false else BitOf(a[i / 8], k)
    {
      ClearingOneBit(a[i / 8], i % 8, k);
    }
    OneBit(a[..], i, b, false);
    a[i / 8] := b;
    hide Bits;
    assert a[..] == old(a[..])[i / 8 := b];
  }

  lemma OneBit(was: seq<bv8>, i: nat, b: bv8, used: bool)
    requires i < 8 * |was|
    requires forall k :: 0 <= k < 8 ==> BitOf(b, k) == if k == i % 8 then used else BitOf(was[i / 8], k)
    ensures Bits(was[i / 8 := b]) == Bits(was)[i := used]
  {
    hide BitOf;
    var now := was[i / 8 := b];
    forall j | 0 <= j < 8 * |was|
      ensures Bits(now)[j] == Bits(was)[i := used][j]
    {
      assert j == j / 8 * 8 + j % 8 && i == i / 8 * 8 + i % 8;
    }
  }

  /** The number of clear bits. */
  function CountClear(v: seq<bool>): nat
  {
    if v == [] then 0 else CountClear(v[..|v| - 1]) + (if v[|v| - 1] then 0 else 1)
  }

  lemma {:induction false} CountAfterUpdate(v: seq<bool>, i: nat, b: bool)
    requires i < |v|
    ensures CountClear(v[i := b]) == CountClear(v) + (if v[i] then 1 else 0) - (if b then 1 else 0)
  {
    var n := |v| - 1;
    if i == n {
      assert v[i := b][..n] == v[..n];
    } else {
      CountAfterUpdate(v[..n], i, b);
      assert v[i := b][..n] == v[..n][i := b];
    }
  }

  lemma {:induction false} CountOfAllSet(v: seq<bool>)
    requires forall i :: 0 <= i < |v| ==> v[i]
    ensures CountClear(v) == 0
  {
    if v != [] {
      CountOfAllSet(v[..|v| - 1]);
    }
  }

  lemma {:induction false} CountPositive(v: seq<bool>, i: nat)
    requires i < |v| && !v[i]
    ensures CountClear(v) > 0
  {
    if i < |v| - 1 {
      CountPositive(v[..|v| - 1], i);
    }
  }
}
