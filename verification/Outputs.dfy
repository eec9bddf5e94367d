/** Where formatted text goes: the output functions of libc/stdio/stdio.c, applied to one character after the
    other, and what a whole text leaves behind. */
module Outputs {
  import opened Words

  /** _out_buffer, _out_null and _out_char. */
  datatype OutFunction = OutBuffer | OutNull | OutChar

  /** The caller's buffer, and the characters that the terminal has been given. */
  datatype Sink = Sink(buffer: string, console: string)

  /** One call of an output function: characters at or behind maxlen are dropped, and the terminal is not
      given a '\0'. */
  ghost function Stored(out: OutFunction, maxlen: u32, s: Sink, c: char, idx: u32): (r: Sink)
    ensures |r.buffer| == |s.buffer|
  {
    match out
    case OutBuffer => if idx < maxlen && idx < |s.buffer| then s.(buffer := s.buffer[idx := c]) else s
    case OutNull => s
    case OutChar => if c != '\0' then s.(console := s.console + [c]) else s
  }

  /** The 32-bit index after n steps of idx++. */
  ghost function Index(idx: u32, n: nat): u32 {
    if n == 0 then idx
    else
      var i := Index(idx, n - 1);
      if i == 0xFFFF_FFFF then 0 else i + 1
  }

  lemma {:induction false} IndexWraps(idx: u32, n: nat)
    ensures Index(idx, n) == Wrap(idx + n) <= idx + n
  {
    if n > 0 {
      IndexWraps(idx, n - 1);
      WrapAdd(idx + n - 1, 1);
    }
  }

  lemma {:induction false} IndexAdds(idx: u32, m: nat, n: nat)
    ensures Index(Index(idx, m), n) == Index(idx, m + n)
  {
    if n > 0 {
      IndexAdds(idx, m, n - 1);
    }
  }

  /** A text written from an index on; the index is a 32-bit counter. */
  ghost function Emit(out: OutFunction, maxlen: u32, s: Sink, text: string, idx: u32): (r: Sink)
    ensures |r.buffer| == |s.buffer|
  {
    if text == [] then s
    else
      var last := |text| - 1;
      Stored(out, maxlen, Emit(out, maxlen, s, text[..last], idx), text[last], Index(idx, last))
  }

  /** Writing two texts one after the other writes their concatenation, even where the index wraps. */
  lemma {:induction false} EmitConcat(out: OutFunction, maxlen: u32, s: Sink, a: string, b: string, idx: u32)
    ensures Emit(out, maxlen, s, a + b, idx)
         == Emit(out, maxlen, Emit(out, maxlen, s, a, idx), b, Index(idx, |a|))
  {
    if b == [] {
      assert a + b == a;
    } else {
      var last := |b| - 1;
      EmitConcat(out, maxlen, s, a, b[..last], idx);
      assert (a + b)[..|a + b| - 1] == a + b[..last];
      assert (a + b)[|a + b| - 1] == b[last];
      IndexAdds(idx, |a|, last);
    }
  }

  lemma EmitOne(out: OutFunction, maxlen: u32, s: Sink, c: char, idx: u32)
    ensures Emit(out, maxlen, s, [c], idx) == Stored(out, maxlen, s, c, idx)
  {
    assert [c][..0] == [];
    assert Emit(out, maxlen, s, [], idx) == s;
  }

  /** Below 2^32 characters, each one lands at its own index, if that is below maxlen. */
  lemma {:induction false} EmittedBuffer(maxlen: u32, s: Sink, text: string)
    requires |text| < 0x1_0000_0000
    ensures var r := Emit(OutBuffer, maxlen, s, text, 0);
      && r.console == s.console
      && |r.buffer| == |s.buffer|
      && forall k :: 0 <= k < |s.buffer| ==> r.buffer[k] == if k < |text| && k < maxlen then text[k] else s.buffer[k]
  {
    if text != [] {
      EmittedBuffer(maxlen, s, text[..|text| - 1]);
      IndexWraps(0, |text| - 1);
    }
  }

  /** The characters that the terminal is given. */
  ghost function Visible(text: string): string {
    if text == [] then []
    else Visible(text[..|text| - 1]) + if text[|text| - 1] != '\0' then [text[|text| - 1]] else []
  }

  /** They are those of the text but the '\0's, in order. */
  lemma {:induction false} VisibleMeaning(text: string)
    ensures '\0' !in Visible(text)
    ensures '\0' !in text ==> Visible(text) == text
  {
    if text != [] {
      var last := |text| - 1;
      VisibleMeaning(text[..last]);
      assert text == text[..last] + [text[last]];
    }
  }

  lemma {:induction false} VisibleConcat(a: string, b: string)
    ensures Visible(a + b) == Visible(a) + Visible(b)
  {
    if b == [] {
      assert a + b == a;
    } else {
      var last := |b| - 1;
      VisibleConcat(a, b[..last]);
      assert (a + b)[..|a + b| - 1] == a + b[..last];
    }
  }

  lemma {:induction false} EmittedConsole(maxlen: u32, s: Sink, text: string, idx: u32)
    ensures Emit(OutChar, maxlen, s, text, idx) == Sink(s.buffer, s.console + Visible(text))
  {
    if text == [] {
      assert s.console + [] == s.console;
    } else {
      EmittedConsole(maxlen, s, text[..|text| - 1], idx);
      assert s.console + Visible(text)
          == s.console + Visible(text[..|text| - 1]) + if text[|text| - 1] != '\0' then [text[|text| - 1]] else [];
    }
  }

  lemma {:induction false} EmittedNull(maxlen: u32, s: Sink, text: string, idx: u32)
    ensures Emit(OutNull, maxlen, s, text, idx) == s
  {
    if text != [] {
      EmittedNull(maxlen, s, text[..|text| - 1], idx);
    }
  }

  // ----- The terminating '\0' -----

  /** Where the '\0' goes: behind the text, or into the last place of the buffer. */
  function EndIndex(idx: u32, maxlen: u32): u32 {
    if idx < maxlen then idx else Wrap(maxlen - 1)
  }

  ghost function Terminated(out: OutFunction, maxlen: u32, s: Sink, text: string): Sink {
    Stored(out, maxlen, Emit(out, maxlen, s, text, 0), '\0', EndIndex(Wrap(|text|), maxlen))
  }

  /** Room for what is written: either all of maxlen, or the text itself with its '\0'. */
  predicate HasRoom(maxlen: u32, length: nat, size: nat) {
    maxlen <= size || length < size
  }

  /** What snprintf promises (section 7.21.6.5 of ISO C11): the longest prefix that leaves room for a '\0',
      the '\0', and nothing behind it; nothing at all for a count of zero. */
  ghost function Truncation(before: string, text: string, count: u32): string
    requires HasRoom(count, |text|, |before|)
  {
    if count == 0 then before
    else
      var k := Min(|text|, count - 1);
      text[..k] + ['\0'] + before[k + 1..]
  }

  lemma TerminatedIsTruncation(maxlen: u32, s: Sink, text: string)
    requires |text| < 0x1_0000_0000 && HasRoom(maxlen, |text|, |s.buffer|)
    ensures Terminated(OutBuffer, maxlen, s, text) == Sink(Truncation(s.buffer, text, maxlen), s.console)
  {
    var r := Emit(OutBuffer, maxlen, s, text, 0);
    EmittedBuffer(maxlen, s, text);
    EndIndexIs(|text|, maxlen);
    if maxlen == 0 {
      assert r.buffer == s.buffer;
    } else {
      CutAndEnded(s.buffer, r.buffer, text, maxlen);
    }
  }

  lemma EndIndexIs(length: nat, maxlen: u32)
    requires length < 0x1_0000_0000
    ensures EndIndex(Wrap(length), maxlen) == if maxlen == 0 then 0xFFFF_FFFF else Min(length, maxlen - 1)
  {
  }

  lemma CutAndEnded(before: string, after: string, text: string, count: u32)
    requires count > 0 && HasRoom(count, |text|, |before|) && |after| == |before|
    requires forall k :: 0 <= k < |before| ==> after[k] == if k < |text| && k < count then text[k] else before[k]
    ensures after[Min(|text|, count - 1) := '\0'] == Truncation(before, text, count)
  {
  }
}
