/** Little-endian words as bytes, and the copy that pads with zeros
    (`external/uacpi/source/stdlib.c`). */
module Words {
  import opened Machine

  type byte = x: int | 0 <= x < 256

  // ----- little-endian words -----

  function ToBytes(x: nat, n: nat): (s: seq<byte>)
    ensures |s| == n
  {
    if n == 0 then [] else [x % 256] + ToBytes(x / 256, n - 1)
  }

  function FromBytes(s: seq<byte>): nat {
    if s == [] then 0 else s[0] + 256 * FromBytes(s[1..])
  }

  function Bound(n: nat): (m: nat)
    ensures m > 0
  {
    if n == 0 then 1 else 256 * Bound(n - 1)
  }

  lemma {:induction false} WordRoundTrip(x: nat, n: nat)
    requires x < Bound(n)
    ensures FromBytes(ToBytes(x, n)) == x
  {
    if n > 0 {
      WordRoundTrip(x / 256, n - 1);
      assert ToBytes(x, n)[1..] == ToBytes(x / 256, n - 1);
    }
  }

  /** Byte 0 is the least significant. */
  lemma EightBytes(s: seq<byte>)
    requires |s| == 8
    ensures FromBytes(s) ==
      (s[0] as int) + 0x100 * (s[1] as int) + 0x1_0000 * (s[2] as int) + 0x100_0000 * (s[3] as int)
      + 0x1_0000_0000 * ((s[4] as int) + 0x100 * (s[5] as int) + 0x1_0000 * (s[6] as int) + 0x100_0000 * (s[7] as int))
  {
    FourBytes(s);
    FourBytes(s[4..]);
    assert s[4..][4..] == [];
  }

  lemma FourBytes(s: seq<byte>)
    requires |s| >= 4
    ensures FromBytes(s) ==
      (s[0] as int) + 0x100 * (s[1] as int) + 0x1_0000 * (s[2] as int) + 0x100_0000 * (s[3] as int)
      + 0x1_0000_0000 * FromBytes(s[4..])
  {
    assert s[1..][1..] == s[2..] && s[2..][1..] == s[3..] && s[3..][1..] == s[4..];
  }

  lemma BoundOfSizes()
    ensures Bound(8) == TWO_64 && Bound(4) == 0x1_0000_0000
  {
    assert Bound(4) == 256 * (256 * (256 * (256 * Bound(0))));
    assert Bound(8) == 256 * (256 * (256 * (256 * Bound(4))));
  }

  /** `uacpi_memcpy_zerout`: the source is cut or padded with zeros to the size of the
      destination. */
  method MemcpyZerout<T>(dst: array<T>, at: nat, dstSize: nat, src: array<T>, srcSize: nat, zero: T)
    requires dst != src && at + dstSize <= dst.Length && srcSize <= src.Length
    modifies dst
    ensures forall k :: 0 <= k < dst.Length ==>
      dst[k] == if !(at <= k < at + dstSize) then old(dst[k])
                else if k - at < srcSize then src[k - at] else zero
  {
    var bytesToCopy := if srcSize < dstSize then srcSize else dstSize;
    for i := 0 to bytesToCopy
      invariant forall k :: 0 <= k < dst.Length ==>
        dst[k] == if at <= k < at + i then src[k - at] else old(dst[k])
    {
      dst[at + i] := src[i];
    }
    for i := bytesToCopy to dstSize
      invariant forall k :: 0 <= k < dst.Length ==>
        dst[k] == if !(at <= k < at + i) then old(dst[k])
                  else if k - at < bytesToCopy then src[k - at] else zero
    {
      dst[at + i] := zero;
    }
  }
}
