/** Physical memory: bytes, and the little-endian 32-bit words that four of them make up. */
module PhysicalMemory {
  import opened Words
  import opened Bytes
  import opened Bitmaps

  lemma BytesReadBack(b0: nat, b1: nat, b2: nat, b3: nat)
    requires b0 < 256 && b1 < 256 && b2 < 256 && b3 < 256
    ensures ByteValue(ToByte(b0)) == b0 && ByteValue(ToByte(b1)) == b1
    ensures ByteValue(ToByte(b2)) == b2 && ByteValue(ToByte(b3)) == b3
  {
    ByteReadsBack(b0);
    ByteReadsBack(b1);
    ByteReadsBack(b2);
    ByteReadsBack(b3);
  }

  /** The word of four bytes, least significant byte first. */
  function Compose(b0: nat, b1: nat, b2: nat, b3: nat): u32
    requires b0 < 256 && b1 < 256 && b2 < 256 && b3 < 256
  {
    b0 + 256 * (b1 + 256 * (b2 + 256 * b3))
  }

  /** Taking a word apart and putting it together again. */
  lemma ComposeParts(value: u32)
    ensures var x, y, z := value / 256, value / 256 / 256, value / 256 / 256 / 256;
      z < 256 && Compose(value % 256, x % 256, y % 256, z) == value
  {
  }

  function WordAt(mem: seq<byte>, w: nat): u32
    requires 4 * w + 4 <= |mem|
  {
    Compose(ByteValue(mem[4 * w]), ByteValue(mem[4 * w + 1]), ByteValue(mem[4 * w + 2]), ByteValue(mem[4 * w + 3]))
  }

  /** The first n words of memory. */
  ghost function FirstWords(mem: seq<byte>, n: nat): (words: seq<u32>)
    requires 4 * n <= |mem|
    ensures |words| == n
  {
    if n == 0 then [] else FirstWords(mem, n - 1) + [WordAt(mem, n - 1)]
  }

  /** All of its words. */
  ghost function WordsOf(mem: seq<byte>): (words: seq<u32>)
    ensures |words| == |mem| / 4
  {
    FirstWords(mem, |mem| / 4)
  }

  lemma {:induction false} FirstWordsAt(mem: seq<byte>, n: nat, w: nat)
    requires 4 * n <= |mem| && w < n
    ensures FirstWords(mem, n)[w] == WordAt(mem, w)
  {
    if w < n - 1 {
      FirstWordsAt(mem, n - 1, w);
    }
  }

  /** No byte outside [from, to) has changed. */
  ghost predicate SameOutside(before: seq<byte>, after: seq<byte>, from: nat, to: nat) {
    |after| == |before| && forall a :: 0 <= a < |before| && !(from <= a < to) ==> after[a] == before[a]
  }

  /** A change inside [from, to) and then one inside [more, end) is a change inside any range around both. */
  lemma SameOutsideBoth(a: seq<byte>, b: seq<byte>, c: seq<byte>,
                        from: nat, to: nat, more: nat, end: nat, low: nat, high: nat)
    requires SameOutside(a, b, from, to) && SameOutside(b, c, more, end)
    requires low <= from && to <= high && low <= more && end <= high
    ensures SameOutside(a, c, low, high)
  {
  }

  lemma SameOutsideAgain(a: seq<byte>, b: seq<byte>, c: seq<byte>, from: nat, to: nat)
    requires SameOutside(a, b, from, to) && SameOutside(b, c, from, to)
    ensures SameOutside(a, c, from, to)
  {
  }

  /** No byte has changed but in two ranges. */
  ghost predicate SameOutsideTwo(before: seq<byte>, after: seq<byte>, from: nat, to: nat, more: nat, end: nat) {
    && |after| == |before|
    && forall a :: 0 <= a < |before| && !(from <= a < to) && !(more <= a < end) ==> after[a] == before[a]
  }

  /** A change inside each of them. */
  lemma SameOutsideEach(a: seq<byte>, b: seq<byte>, c: seq<byte>, from: nat, to: nat, more: nat, end: nat)
    requires SameOutside(a, b, more, end) && SameOutside(b, c, from, to)
    ensures SameOutsideTwo(a, c, from, to, more, end)
  {
  }

  /** A word whose four bytes are the same is the same. */
  lemma SameWordAt(before: seq<byte>, after: seq<byte>, from: nat, to: nat, w: nat)
    requires SameOutside(before, after, from, to) && w < |before| / 4
    requires 4 * w + 4 <= from || to <= 4 * w
    ensures WordsOf(after)[w] == WordsOf(before)[w]
  {
    FirstWordsAt(before, |before| / 4, w);
    FirstWordsAt(after, |before| / 4, w);
  }

  function LoadWord(mem: array<byte>, w: nat): (value: u32)
    requires 4 * w + 4 <= mem.Length
    reads mem
    ensures w < |WordsOf(mem[..])| && value == WordsOf(mem[..])[w]
  {
    FirstWordsAt(mem[..], mem.Length / 4, w);
    Compose(ByteValue(mem[4 * w]), ByteValue(mem[4 * w + 1]), ByteValue(mem[4 * w + 2]), ByteValue(mem[4 * w + 3]))
  }

  /** A word is stored; no other word and no byte outside it changes. */
  method StoreWord(mem: array<byte>, w: nat, value: u32)
    requires 4 * w + 4 <= mem.Length
    modifies mem
    ensures w < old(|WordsOf(mem[..])|) && WordsOf(mem[..]) == old(WordsOf(mem[..]))[w := value]
    ensures SameOutside(old(mem[..]), mem[..], 4 * w, 4 * w + 4)
  {
    ghost var before := mem[..];
    ComposeParts(value);
    StoreBytes(mem, 4 * w, value);
    WordStored(before, mem[..], w, value);
  }

  /** The four bytes of the word, least significant byte first. */
  method StoreBytes(mem: array<byte>, at: nat, value: u32)
    requires at + 4 <= mem.Length
    modifies mem
    ensures mem[at] as int == value % 256 && mem[at + 1] as int == value / 256 % 256
    ensures mem[at + 2] as int == value / 256 / 256 % 256 && mem[at + 3] as int == value / 256 / 256 / 256
    ensures SameOutside(old(mem[..]), mem[..], at, at + 4)
  {
    mem[at] := ToByte(value % 256);
    mem[at + 1] := ToByte(value / 256 % 256);
    mem[at + 2] := ToByte(value / 256 / 256 % 256);
    mem[at + 3] := ToByte(value / 256 / 256 / 256);
    BytesReadBack(value % 256, value / 256 % 256, value / 256 / 256 % 256, value / 256 / 256 / 256);
  }

  lemma WordStored(before: seq<byte>, after: seq<byte>, w: nat, value: u32)
    requires w < |before| / 4 && SameOutside(before, after, 4 * w, 4 * w + 4) && WordAt(after, w) == value
    ensures WordsOf(after) == WordsOf(before)[w := value]
  {
    FirstWordsAt(after, |after| / 4, w);
    forall v | 0 <= v < |before| / 4 && v != w
      ensures WordsOf(after)[v] == WordsOf(before)[v]
    {
      SameWordAt(before, after, 4 * w, 4 * w + 4, v);
    }
  }

  /** memset with zero. */
  method Zero(mem: array<byte>, addr: nat, n: nat)
    requires addr + n <= mem.Length
    modifies mem
    ensures SameOutside(old(mem[..]), mem[..], addr, addr + n)
    ensures forall a :: addr <= a < addr + n ==> mem[a] == 0
  {
    for i := 0 to n
      invariant SameOutside(old(mem[..]), mem[..], addr, addr + i)
      invariant forall a :: addr <= a < addr + i ==> mem[a] == 0
    {
      mem[addr + i] := 0;
    }
  }

  /** memset with zero of n words. */
  method ZeroWords(mem: array<byte>, at: nat, n: nat)
    requires 4 * (at + n) <= mem.Length
    modifies mem
    ensures SameOutside(old(mem[..]), mem[..], 4 * at, 4 * (at + n))
    ensures ZeroedWords(old(WordsOf(mem[..])), WordsOf(mem[..]), at, n)
  {
    ghost var before := mem[..];
    Zero(mem, 4 * at, 4 * n);
    forall w | 0 <= w < |WordsOf(before)|
      ensures WordsOf(mem[..])[w] == if at <= w < at + n then 0 else WordsOf(before)[w]
    {
      if at <= w < at + n {
        ZeroWord(mem[..], w);
      } else {
        SameWordAt(before, mem[..], 4 * at, 4 * (at + n), w);
      }
    }
  }

  ghost predicate ZeroedWords(before: seq<u32>, after: seq<u32>, at: nat, n: nat) {
    && |after| == |before|
    && forall w :: 0 <= w < |before| ==> after[w] == if at <= w < at + n then 0 else before[w]
  }

  lemma ZeroWord(mem: seq<byte>, w: nat)
    requires 4 * w + 4 <= |mem| && mem[4 * w] == mem[4 * w + 1] == mem[4 * w + 2] == mem[4 * w + 3] == 0
    ensures WordsOf(mem)[w] == 0
  {
    FirstWordsAt(mem, |mem| / 4, w);
    assert ByteValue(0) == 0;
  }

  /** Bytes that are the same hold the same bits. */
  lemma SameBits(before: seq<byte>, after: seq<byte>, base: nat, n: nat)
    requires |after| == |before| && base + n <= |before|
    requires forall a :: base <= a < base + n ==> after[a] == before[a]
    ensures BitsFrom(after, base)[..8 * n] == BitsFrom(before, base)[..8 * n]
  {
    forall i | 0 <= i < 8 * n
      ensures BitsFrom(after, base)[i] == BitsFrom(before, base)[i]
    {
      BitsFromAt(before, base, i);
      BitsFromAt(after, base, i);
    }
  }

  /** Words whose bytes are the same are the same. */
  lemma SameWords(before: seq<byte>, after: seq<byte>, from: nat, to: nat, low: nat, high: nat)
    requires SameOutside(before, after, from, to) && low <= high <= |before| / 4
    requires 4 * high <= from || to <= 4 * low
    ensures WordsOf(after)[low..high] == WordsOf(before)[low..high]
  {
    forall w | low <= w < high
      ensures WordsOf(after)[w] == WordsOf(before)[w]
    {
      SameWordAt(before, after, from, to, w);
    }
  }
}
