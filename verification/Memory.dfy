/** libc/string/memmove.c. Source and destination are regions of one memory and may overlap. */
module Memory {

  /** Memory after n cells from src have been copied to dst as if through a temporary. */
  ghost function Moved<T>(mem: seq<T>, dst: nat, src: nat, n: nat): (result: seq<T>)
    requires dst + n <= |mem| && src + n <= |mem|
    ensures |result| == |mem|
  {
    seq(|mem|, a requires 0 <= a < |mem| => if dst <= a < dst + n then mem[src + (a - dst)] else mem[a])
  }

  /** The destination holds what the source held, and nothing else has changed. */
  lemma MovedMeaning<T>(mem: seq<T>, dst: nat, src: nat, n: nat)
    requires dst + n <= |mem| && src + n <= |mem|
    ensures var after := Moved(mem, dst, src, n);
      after[dst..dst + n] == mem[src..src + n] && after[..dst] == mem[..dst] && after[dst + n..] == mem[dst + n..]
  {
  }

  /** Moving forward, one more cell: it has not been overwritten yet. */
  lemma MovedNext<T>(mem: seq<T>, dst: nat, src: nat, i: nat)
    requires dst < src && src + i < |mem|
    ensures Moved(mem, dst, src, i)[src + i] == mem[src + i]
    ensures Moved(mem, dst, src, i)[dst + i := mem[src + i]] == Moved(mem, dst, src, i + 1)
  {
  }

  /** The same backwards. */
  lemma MovedBefore<T>(mem: seq<T>, dst: nat, src: nat, i: nat, n: nat)
    requires src <= dst && i < n && dst + n <= |mem|
    ensures var done := Moved(mem, dst + i + 1, src + i + 1, n - i - 1);
      && done[src + i] == mem[src + i]
      && done[dst + i := mem[src + i]] == Moved(mem, dst + i, src + i, n - i)
  {
  }

  /** Forward when the destination comes first, backward otherwise. */
  method Memmove<T>(mem: array<T>, dst: nat, src: nat, size: nat)
    requires dst + size <= mem.Length && src + size <= mem.Length
    modifies mem
    ensures mem[..] == Moved(old(mem[..]), dst, src, size)
  {
    ghost var before := mem[..];
    if dst < src {
      for i := 0 to size
        invariant mem[..] == Moved(before, dst, src, i)
      {
        MovedNext(before, dst, src, i);
        mem[dst + i] := mem[src + i];
      }
    } else {
      for i := size downto 0
        invariant mem[..] == Moved(before, dst + i, src + i, size - i)
      {
        MovedBefore(before, dst, src, i, size);
        mem[dst + i] := mem[src + i];
      }
    }
  }
}
