/** The 32-bit machine words of the i386 kernel, and the optional result used by the models. */
module Words {

  datatype Option<+T> = None | Some(value: T)

  /** A value of C's uint32_t. Plain arithmetic on it must be proved not to overflow. */
  type u32 = x: int | 0 <= x < 0x1_0000_0000

  /** C's unsigned arithmetic reduces every result modulo 2^32. */
  function Wrap(x: int): u32 {
    x % 0x1_0000_0000
  }

  /** The int value of a 32-bit pattern (two's complement). */
  function Signed(x: u32): int {
    if x < 0x8000_0000 then x else x - 0x1_0000_0000
  }

  lemma WrapAdd(x: int, y: int)
    ensures Wrap(Wrap(x) + y) == Wrap(x + y)
  {
  }

  lemma WrapBoth(x: int, y: int)
    ensures Wrap(Wrap(x) + Wrap(y)) == Wrap(x + y)
  {
    WrapAdd(x, Wrap(y));
    WrapAdd(y, x);
  }

  lemma WrapSmall(x: u32)
    ensures Wrap(x) == x
  {
  }

  /** Equal residues stay equal when the same amount is added to both. */
  lemma WrapShift(x: int, y: int, d: int)
    requires Wrap(x) == Wrap(y)
    ensures Wrap(x + d) == Wrap(y + d)
  {
    WrapAdd(x, d);
    WrapAdd(y, d);
  }

  lemma MulLe(x: int, y: int, d: nat)
    requires x <= y
    ensures x * d <= y * d
  {
    assert (y - x) * d >= 0;
  }

  function Min(x: int, y: int): int {
    if x <= y then x else y
  }

  function Max(x: int, y: int): int {
    if x >= y then x else y
  }
}
