/** Bytes as machine words and as numbers. */
module Bytes {

  type byte = bv8

  function ByteValue(b: byte): (v: nat)
    ensures v < 256
  {
    b as int
  }

  /** The byte of a number, counted up from 0. */
  function ToByte(v: nat): (b: byte)
    requires v < 256
  {
    if v == 0 then 0 else ToByte(v - 1) + 1
  }

  lemma {:induction false} ByteReadsBack(v: nat)
    requires v < 256
    ensures ByteValue(ToByte(v)) == v
  {
    if v > 0 {
      ByteReadsBack(v - 1);
      NextByte(ToByte(v - 1));
    }
  }

  lemma NextByte(b: byte)
    requires ByteValue(b) < 255
    ensures ByteValue(b + 1) == ByteValue(b) + 1
  {
  }
}
