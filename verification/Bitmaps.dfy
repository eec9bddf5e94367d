/** kernel/kernel/bitmap.c: a packed, most-significant-bit-first bitmap inside byte-addressed memory. */
module Bitmaps {
  import opened Words
  import opened Bytes

  function Mask(k: nat): byte
    requires k < 8
  {
    0x80 >> k
  }

  /** The bit that index k of a byte selects, counted from the most significant bit. */
  predicate BitOf(b: byte, k: nat)
    requires k < 8
  {
    (b & Mask(k)) > 0
  }

  function Cleared(b: byte, k: nat): byte
    requires k < 8
  {
    b & !Mask(k)
  }

  function Raised(b: byte, k: nat): byte
    requires k < 8
  {
    b | Mask(k)
  }

  function WithBit(b: byte, k: nat, value: bool): byte
    requires k < 8
  {
    if value then Raised(Cleared(b, k), k) else Cleared(b, k)
  }

  /** Index 0 is the most significant bit, that of value 128, and index 7 the least significant one. */
  lemma BitIsBinaryDigit(b: byte, k: nat)
    requires k < 8
    ensures BitOf(b, k) <==> (b >> (7 - k)) & 1 == 1
  {
    var m := MaskCases(k);
    if
    case k == 0 =>
    case k == 1 =>
    case k == 2 =>
    case k == 3 =>
    case k == 4 =>
    case k == 5 =>
    case k == 6 =>
    case k == 7 =>
  }

  lemma WithBitReadsBack(b: byte, k: nat, value: bool, j: nat)
    requires k < 8 && j < 8
    ensures BitOf(WithBit(b, k, value), j) == if j == k then value else BitOf(b, j)
  {
    var m := MaskCases(k);
    var n := MaskCases(j);
  }

  /** The eight masks, spelled out so that no symbolic shift is left. */
  lemma MaskCases(k: nat) returns (m: byte)
    requires k < 8
    ensures m == Mask(k)
    ensures m == match k case 0 => 0x80 case 1 => 0x40 case 2 => 0x20 case 3 => 0x10
                         case 4 => 0x08 case 5 => 0x04 case 6 => 0x02 case _ => 0x01
  {
    m := Mask(k);
    if
    case k == 0 =>
    case k == 1 =>
    case k == 2 =>
    case k == 3 =>
    case k == 4 =>
    case k == 5 =>
    case k == 6 =>
    case k == 7 =>
  }

  ghost function ByteBits(b: byte): (bits: seq<bool>)
    ensures |bits| == 8
  {
    seq(8, k requires 0 <= k < 8 => BitOf(b, k))
  }

  /** The bits stored from address base to the end of memory, in index order. */
  ghost function BitsFrom(mem: seq<byte>, base: nat): (bits: seq<bool>)
    requires base <= |mem|
    ensures |bits| == 8 * (|mem| - base)
    decreases |mem| - base
  {
    if base == |mem| then [] else ByteBits(mem[base]) + BitsFrom(mem, base + 1)
  }

  lemma {:induction false} BitsFromAt(mem: seq<byte>, base: nat, i: nat)
    requires base + i / 8 < |mem|
    ensures BitsFrom(mem, base)[i] == BitOf(mem[base + i / 8], i % 8)
    decreases i
  {
    if i >= 8 {
      BitsFromAt(mem, base + 1, i - 8);
    }
  }

  /** Rewriting one bit of one byte is an update of one index of the bit sequence. */
  lemma BitsAfterSet(before: seq<byte>, after: seq<byte>, base: nat, index: nat, value: bool)
    requires |before| == |after| && base + index / 8 < |before|
    requires after == before[base + index / 8 := WithBit(before[base + index / 8], index % 8, value)]
    ensures BitsFrom(after, base) == BitsFrom(before, base)[index := value]
  {
    forall i | 0 <= i < 8 * (|before| - base)
      ensures BitsFrom(after, base)[i] == BitsFrom(before, base)[index := value][i]
    {
      BitsFromAt(before, base, i);
      BitsFromAt(after, base, i);
      if i / 8 == index / 8 {
        WithBitReadsBack(before[base + index / 8], index % 8, value, i % 8);
      }
    }
  }

  ghost function AllClear(n: nat): (bits: seq<bool>)
    ensures |bits| == n
  {
    seq(n, _ => false)
  }

  /** Zeroing the first n bytes clears the first 8 * n bits and nothing else. */
  lemma BitsAfterZeroing(before: seq<byte>, after: seq<byte>, base: nat, n: nat)
    requires |before| == |after| && base + n <= |before|
    requires forall a :: base <= a < |before| ==> after[a] == if a < base + n then 0 else before[a]
    ensures BitsFrom(after, base) == AllClear(8 * n) + BitsFrom(before, base)[8 * n..]
  {
    forall i | 0 <= i < 8 * (|before| - base)
      ensures BitsFrom(after, base)[i] == (AllClear(8 * n) + BitsFrom(before, base)[8 * n..])[i]
    {
      BitsFromAt(before, base, i);
      BitsFromAt(after, base, i);
      ZeroHasNoBits(i % 8);
    }
  }

  lemma ZeroBytesClearBits(mem: seq<byte>, base: nat, n: nat)
    requires base + n <= |mem| && forall a :: base <= a < base + n ==> mem[a] == 0
    ensures forall i :: 0 <= i < 8 * n ==> !BitsFrom(mem, base)[i]
  {
    forall i | 0 <= i < 8 * n
      ensures !BitsFrom(mem, base)[i]
    {
      BitsFromAt(mem, base, i);
      ZeroHasNoBits(i % 8);
    }
  }

  ghost predicate SameBit(b: byte, c: byte, k: nat) {
    k < 8 && BitOf(b, k) == BitOf(c, k)
  }

  /** A byte is its eight bits. */
  lemma BitsDecideByte(b: byte, c: byte)
    requires forall k :: 0 <= k < 8 ==> SameBit(b, c, k)
    ensures b == c
  {
    SameMasked(b, c, 0, 0x80);
    SameMasked(b, c, 1, 0x40);
    SameMasked(b, c, 2, 0x20);
    SameMasked(b, c, 3, 0x10);
    SameMasked(b, c, 4, 0x08);
    SameMasked(b, c, 5, 0x04);
    SameMasked(b, c, 6, 0x02);
    SameMasked(b, c, 7, 0x01);
    EightMasks(b, c);
  }

  lemma EightMasks(b: byte, c: byte)
    requires (b & 0x80 > 0) == (c & 0x80 > 0) && (b & 0x40 > 0) == (c & 0x40 > 0)
    requires (b & 0x20 > 0) == (c & 0x20 > 0) && (b & 0x10 > 0) == (c & 0x10 > 0)
    requires (b & 0x08 > 0) == (c & 0x08 > 0) && (b & 0x04 > 0) == (c & 0x04 > 0)
    requires (b & 0x02 > 0) == (c & 0x02 > 0) && (b & 0x01 > 0) == (c & 0x01 > 0)
    ensures b == c
  {
  }

  lemma SameMasked(b: byte, c: byte, k: nat, mask: byte)
    requires k < 8 && SameBit(b, c, k)
    requires mask == match k case 0 => 0x80 case 1 => 0x40 case 2 => 0x20 case 3 => 0x10
                             case 4 => 0x08 case 5 => 0x04 case 6 => 0x02 case _ => 0x01
    ensures (b & mask > 0) == (c & mask > 0)
  {
    var m := MaskCases(k);
  }

  /** Memory that holds the same bits from its n-th byte on holds the same bytes. */
  lemma BitsDecideBytes(before: seq<byte>, after: seq<byte>, base: nat, n: nat)
    requires |before| == |after| && base + n <= |before|
    ensures BitsFrom(after, base)[8 * n..] == BitsFrom(before, base)[8 * n..]
        <==> after[base + n..] == before[base + n..]
  {
    if BitsFrom(after, base)[8 * n..] == BitsFrom(before, base)[8 * n..] {
      forall a | base + n <= a < |before|
        ensures after[a] == before[a]
      {
        ByteDecided(before, after, base, n, a);
      }
    } else {
      SameBytesSameBits(before, after, base, n);
    }
  }

  lemma ByteDecided(before: seq<byte>, after: seq<byte>, base: nat, n: nat, a: nat)
    requires |before| == |after| && base + n <= a < |before|
    requires BitsFrom(after, base)[8 * n..] == BitsFrom(before, base)[8 * n..]
    ensures after[a] == before[a]
  {
    forall k | 0 <= k < 8
      ensures SameBit(after[a], before[a], k)
    {
      var i := 8 * (a - base) + k;
      BitsFromAt(before, base, i);
      BitsFromAt(after, base, i);
      assert BitsFrom(after, base)[8 * n..][i - 8 * n] == BitsFrom(before, base)[8 * n..][i - 8 * n];
    }
    BitsDecideByte(after[a], before[a]);
  }

  lemma SameBytesSameBits(before: seq<byte>, after: seq<byte>, base: nat, n: nat)
    requires |before| == |after| && base + n <= |before|
    ensures after[base + n..] == before[base + n..] ==>
              BitsFrom(after, base)[8 * n..] == BitsFrom(before, base)[8 * n..]
  {
    if after[base + n..] == before[base + n..] {
      forall i | 8 * n <= i < 8 * (|before| - base)
        ensures BitsFrom(after, base)[i] == BitsFrom(before, base)[i]
      {
        BitsFromAt(before, base, i);
        BitsFromAt(after, base, i);
        assert after[base + n..][i / 8 - n] == before[base + n..][i / 8 - n];
      }
    }
  }

  lemma ZeroHasNoBits(k: nat)
    requires k < 8
    ensures !BitOf(0, k)
  {
    var m := MaskCases(k);
  }

  /** bitmap_t. The buffer is an address; the code checks no bound, so neither do the methods. */
  class Bitmap {
    const mem: array<byte>
    var size: u32
    var buffer: u32

    constructor (mem: array<byte>, buffer: u32, size: u32)
      ensures this.mem == mem && this.buffer == buffer && this.size == size
    {
      this.mem := mem;
      this.buffer := buffer;
      this.size := size;
    }

    /** Every bit of memory from the buffer on: the bitmap's own 8 * size bits come first. */
    ghost function Cells(): (bits: seq<bool>)
      requires buffer <= mem.Length
      reads this, mem
      ensures |bits| == 8 * (mem.Length - buffer)
    {
      BitsFrom(mem[..], buffer)
    }

    function Get(index: u32): (locked: bool)
      requires buffer + index / 8 < mem.Length
      reads this, mem
      ensures locked == Cells()[index]
    {
      BitsFromAt(mem[..], buffer, index);
      var byteIndex := index / 8;
      var bitIndex := index % 8;
      var bitIndexer := Mask(bitIndex);
      mem[buffer + byteIndex] & bitIndexer > 0
    }

    /** Exactly one bit changes, and no byte other than the one that holds it. */
    method Set(index: u32, value: bool)
      requires buffer + index / 8 < mem.Length
      modifies mem
      ensures Cells() == old(Cells())[index := value]
      ensures forall a :: 0 <= a < mem.Length && a != buffer + index / 8 ==> mem[a] == old(mem[a])
    {
      var at := buffer + index / 8;
      var bitIndex := index % 8;
      ghost var before := mem[..];
      mem[at] := Cleared(mem[at], bitIndex);
      if value {
        mem[at] := Raised(mem[at], bitIndex);
      }
      ghost var after := mem[..];
      assert after[at] == WithBit(before[at], bitIndex, value);
      assert after == before[at := after[at]];
      BitsAfterSet(before, after, buffer, index, value);
    }
  }
}
