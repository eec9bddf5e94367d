/** The formatted output engine of libc/stdio/stdio.c, as the kernel's library is built: without long long.
    One Printer is one call: its output function, its buffer and the buffer's limit do not change. */
module Printf {
  import opened Words
  import opened Numerals
  import opened IntegerFormat
  import opened FormatSpecs
  import opened FormatParser
  import opened Conversions
  import opened Outputs

  ghost function Reversed(s: string): (r: string)
    ensures |r| == |s| && forall i :: 0 <= i < |s| ==> r[i] == s[|s| - 1 - i]
  {
    seq(|s|, i requires 0 <= i < |s| => s[|s| - 1 - i])
  }

  /** What a buffer of reversed text holds, in printed order. */
  ghost function Text(buf: array<char>, len: nat): (r: string)
    requires len <= buf.Length
    reads buf
    ensures |r| == len
  {
    Reversed(buf[..len])
  }

  lemma ReversedPush(s: string, c: char)
    ensures Reversed(s + [c]) == [c] + Reversed(s)
  {
  }

  /** buf[len++] = c: what is stored behind reversed text comes out in front of it. */
  method Push(buf: array<char>, len: nat, c: char) returns (more: nat)
    requires len < buf.Length
    modifies buf
    ensures more == len + 1 && Text(buf, more) == [c] + old(Text(buf, len))
  {
    ghost var before := buf[..len];
    buf[len] := c;
    assert buf[..len + 1] == before + [c];
    ReversedPush(before, c);
    more := len + 1;
  }

  /** buf[len++] = '0', as long as a limit and the buffer allow. */
  method ZeroFill(buf: array<char>, len: nat, limit: u32) returns (more: nat)
    requires buf.Length == BUFFER_SIZE && len <= BUFFER_SIZE
    modifies buf
    ensures more == Max(len, Min(limit, BUFFER_SIZE))
    ensures Text(buf, more) == Repeat('0', more - len) + old(Text(buf, len))
  {
    ghost var digits := Text(buf, len);
    more := len;
    while more < limit && more < BUFFER_SIZE
      invariant len <= more <= Max(len, Min(limit, BUFFER_SIZE))
      invariant Text(buf, more) == Repeat('0', more - len) + digits
    {
      OneMoreZero(more - len, digits);
      more := Push(buf, more, '0');
    }
  }

  lemma OneMoreZero(n: nat, digits: string)
    ensures ['0'] + (Repeat('0', n) + digits) == Repeat('0', n + 1) + digits
  {
    assert ['0'] + Repeat('0', n) == Repeat('0', n + 1);
  }

  lemma MoreZeros(m: nat, n: nat, digits: string)
    ensures Repeat('0', m) + (Repeat('0', n) + digits) == Repeat('0', m + n) + digits
  {
  }

  /** Fills a numeral with zeros, up to the precision and, under '0', up to the width. */
  method PadZeros(buf: array<char>, len: nat, prec: u32, width: u32, flags: Flags) returns (more: nat)
    requires buf.Length == BUFFER_SIZE && len <= BUFFER_SIZE
    modifies buf
    ensures more <= BUFFER_SIZE && more == FilledLength(len, prec, width, flags)
    ensures Text(buf, more) == Filled(old(Text(buf, len)), prec, width, flags)
  {
    ghost var digits := Text(buf, len);
    more := len;
    if Left !in flags {
      more := ZeroFill(buf, more, prec);
      if ZeroPad in flags {
        ghost var n := more;
        more := ZeroFill(buf, more, width);
        MoreZeros(more - n, n - len, digits);
      }
    }
  }

  /** The '#' code: trims, then writes the mark of the base and a zero. */
  method Prefix(buf: array<char>, len: nat, base: u32, prec: u32, width: u32, flags: Flags) returns (more: nat)
    requires buf.Length == BUFFER_SIZE && len <= BUFFER_SIZE
    modifies buf
    ensures more <= BUFFER_SIZE
    ensures Text(buf, more) == Prefixed(old(Text(buf, len))[Trim(len, base, prec, width, flags)..], base, flags)
  {
    ghost var filled := Text(buf, len);
    more := len;
    if Hash in flags {
      if Precision !in flags && more > 0 && (more == prec || more == width) {
        more := more - 1;
        if more > 0 && base == 16 {
          more := more - 1;
        }
      }
      assert Text(buf, more) == filled[Trim(len, base, prec, width, flags)..];
      ghost var body := Text(buf, more);
      if base == 16 && Uppercase !in flags && more < BUFFER_SIZE {
        more := Push(buf, more, 'x');
      } else if base == 16 && Uppercase in flags && more < BUFFER_SIZE {
        more := Push(buf, more, 'X');
      } else if base == 2 && more < BUFFER_SIZE {
        more := Push(buf, more, 'b');
      }
      assert Text(buf, more) == if |body| < BUFFER_SIZE then Mark(base, flags) + body else body;
      if more < BUFFER_SIZE {
        more := Push(buf, more, '0');
      }
    }
  }

  /** Writes the sign, if there is room for it. */
  method AddSign(buf: array<char>, len: nat, negative: bool, flags: Flags) returns (more: nat)
    requires buf.Length == BUFFER_SIZE && len <= BUFFER_SIZE
    modifies buf
    ensures more <= BUFFER_SIZE && Text(buf, more) == WithSign(old(Text(buf, len)), negative, flags)
  {
    more := len;
    if more < BUFFER_SIZE {
      if negative {
        more := Push(buf, more, '-');
      } else if Plus in flags {
        more := Push(buf, more, '+');
      } else if Space in flags {
        more := Push(buf, more, ' ');
      }
    }
  }

  /** Everything that _ntoa_format writes into the buffer. */
  method BuildBody(buf: array<char>, len: nat, negative: bool, base: u32, prec: u32, width: u32, flags: Flags)
    returns (more: nat)
    requires buf.Length == BUFFER_SIZE && len <= BUFFER_SIZE
    modifies buf
    ensures more <= BUFFER_SIZE
    ensures Text(buf, more)
         == WithSign(Prefixed(Trimmed(old(Text(buf, len)), base, prec, width, flags), base, flags), negative, flags)
  {
    more := PadZeros(buf, len, prec, width, flags);
    more := Prefix(buf, more, base, prec, width, flags);
    more := AddSign(buf, more, negative, flags);
  }

  lemma LastDigit(v: u32, base: u32, upper: bool)
    requires 2 <= base <= 16
    ensures 0 <= v / base <= v && 0 <= v % base < base && (v > 0 ==> v / base < v)
    ensures Digits(v, base, upper)
         == (if v / base > 0 then Digits(v / base, base, upper) else []) + [DigitChar(v % base, upper)]
  {
    Quotient(v, base);
    if v > 0 {
      Smaller(v, base);
    }
    if v < base {
      assert [] + [DigitChar(v, upper)] == [DigitChar(v, upper)];
    }
  }

  lemma Quotient(v: nat, base: nat)
    requires base >= 2
    ensures if v < base then v / base == 0 && v % base == v else v / base > 0
    ensures 0 <= v / base <= v && 0 <= v % base < base
  {
  }

  /** The body of the digit loop. */
  method OneDigit(buf: array<char>, len: nat, v: u32, base: u32, upper: bool) returns (more: nat, rest: u32)
    requires len < buf.Length && 2 <= base <= 16
    modifies buf
    ensures more == len + 1 && (v > 0 ==> rest < v)
    ensures (if rest > 0 then Digits(rest, base, upper) else []) + Text(buf, more)
         == Digits(v, base, upper) + old(Text(buf, len))
  {
    LastDigit(v, base, upper);
    more := Push(buf, len, DigitChar(v % base, upper));
    rest := v / base;
  }

  /** The digit loop of _ntoa_long: least significant digit first. */
  method ReverseDigits(buf: array<char>, value: u32, base: u32, flags: Flags) returns (len: nat)
    requires buf.Length == BUFFER_SIZE && 2 <= base <= 16
    modifies buf
    ensures len <= BUFFER_SIZE && Text(buf, len) == PrintedDigits(value, base, flags)
  {
    len := 0;
    if Precision !in flags || value > 0 {
      var upper := Uppercase in flags;
      var v: u32;
      AtMost32Digits(value, base, upper);
      len, v := OneDigit(buf, len, value, base, upper);
      while v > 0 && len < BUFFER_SIZE
        invariant 0 < len <= BUFFER_SIZE
        invariant (if v > 0 then Digits(v, base, upper) else []) + Text(buf, len) == Digits(value, base, upper)
        decreases v
      {
        len, v := OneDigit(buf, len, v, base, upper);
      }
    }
  }

  lemma NoHashForZero(value: u32, negative: bool, base: u32, prec: u32, width: u32, flags: Flags, f: Flags)
    requires 2 <= base <= 16 && f == if value == 0 then flags - {Hash} else flags
    ensures IntegerText(value, negative, base, prec, width, flags)
         == FormatText(PrintedDigits(value, base, f), negative, base, prec, width, f)
  {
  }

  /** The base, and what the integer conversions make of the flags. */
  method BaseAndFlags(c: char, flags: Flags) returns (base: u32, f: Flags)
    ensures base == Base(c) && f == IntegerFlags(c, flags)
  {
    f := flags;
    if c == 'x' || c == 'X' {
      base := 16;
    } else if c == 'o' {
      base := 8;
    } else if c == 'b' {
      base := 2;
    } else {
      base := 10;
      f := f - {Hash};
    }
    if c == 'X' {
      f := f + {Uppercase};
    }
    if c != 'i' && c != 'd' {
      f := f - {Plus, Space};
    }
    if Precision in f {
      f := f - {ZeroPad};
    }
  }

  /** The flags that cut an argument are none of those that change. */
  lemma SameArgument(c: char, w: u32, flags: Flags)
    ensures SignedArgument(w, IntegerFlags(c, flags)) == SignedArgument(w, flags)
    ensures UnsignedArgument(w, IntegerFlags(c, flags)) == UnsignedArgument(w, flags)
  {
  }

  lemma SignedConversion(c: char, w: u32, precision: u32, width: u32, flags: Flags, value: int, magnitude: u32)
    requires IsSigned(c) && value == SignedArgument(w, IntegerFlags(c, flags))
    requires magnitude == Wrap(if value > 0 then value else 0 - value)
    ensures IntegerConversion(c, w, precision, width, flags)
         == IntegerText(magnitude, value < 0, Base(c), precision, width, IntegerFlags(c, flags))
  {
    SameArgument(c, w, flags);
    assert Argument(c, w, flags) == value && Magnitude(value) == magnitude;
  }

  lemma UnsignedConversion(c: char, w: u32, precision: u32, width: u32, flags: Flags, value: u32)
    requires !IsSigned(c) && value == UnsignedArgument(w, IntegerFlags(c, flags))
    ensures IntegerConversion(c, w, precision, width, flags)
         == IntegerText(value, false, Base(c), precision, width, IntegerFlags(c, flags))
  {
    SameArgument(c, w, flags);
    assert Argument(c, w, flags) == value && Magnitude(value) == value;
  }

  /** _strnlen_s. */
  method Strnlen(str: CString, maxsize: u32) returns (n: u32)
    ensures n == Min(|str|, maxsize)
  {
    n := 0;
    var left := maxsize;
    while At(str, n) != '\0' && left > 0
      invariant n <= |str| && left == maxsize - n
      decreases left
    {
      left := left - 1;
      n := n + 1;
    }
  }

  lemma IndexBehind(idx: u32, done: string, more: string)
    ensures Index(idx, |done + more|) == Index(Index(idx, |done|), |more|)
  {
    IndexAdds(idx, |done|, |more|);
  }

  /** C's idx - start_idx. */
  function Distance(idx: u32, begin: u32): u32 {
    if idx >= begin then idx - begin else 0x1_0000_0000 - (begin - idx)
  }

  /** It counts the steps from start_idx, below 2^32 of them. */
  lemma DistanceCounts(begin: u32, n: nat, k: nat)
    requires n + k < 0x1_0000_0000
    ensures Distance(Index(Index(begin, n), k), begin) == n + k
  {
    IndexAdds(begin, n, k);
    IndexWraps(begin, n + k);
    assert Index(begin, n + k)
        == if begin + n + k < 0x1_0000_0000 then begin + n + k else begin + n + k - 0x1_0000_0000;
  }

  lemma DistanceNow(begin: u32, n: nat, k: nat, idx: u32, next: u32)
    requires n + k < 0x1_0000_0000 && idx == Index(begin, n) && next == Index(idx, k)
    ensures Distance(next, begin) == n + k
  {
    DistanceCounts(begin, n, k);
  }

  lemma StillAll(done: string, piece: string, more: string)
    requires piece <= more
    ensures done + piece + more[|piece|..] == done + more
  {
  }

  /** From an index on, a format prints a text. */
  ghost predicate Prints(fmt: CString, at: nat, args: seq<Arg>, text: string)
    requires at <= |fmt|
  {
    Rendered(fmt, at, args).Some? && Rendered(fmt, at, args).value.0 == text
  }

  /** A turn prints the beginning of what is left. */
  lemma TurnNext(fmt: CString, at: nat, args: seq<Arg>, more: string)
    requires at < |fmt| && Prints(fmt, at, args, more)
    ensures TurnAt(fmt, at, args).Some?
    ensures var t := TurnAt(fmt, at, args).value;
      PieceText(t.piece) <= more && Prints(fmt, t.behind, t.rest, more[|PieceText(t.piece)|..])
  {
    var t := TurnAt(fmt, at, args).value;
    assert more[|PieceText(t.piece)|..] == Rendered(fmt, t.behind, t.rest).value.0;
  }

  class Printer {
    const out: OutFunction
    const buffer: array<char>
    const maxlen: u32
    /** What terminal_putchar has been given. */
    var console: string

    /** Without a buffer, nothing is put out. */
    constructor (out: OutFunction, buffer: array?<char>, maxlen: u32)
      ensures this.out == if buffer == null then OutNull else out
      ensures if buffer == null then fresh(this.buffer) else this.buffer == buffer
      ensures this.maxlen == maxlen && console == []
    {
      this.out := if buffer == null then OutNull else out;
      if buffer == null {
        this.buffer := new char[0];
      } else {
        this.buffer := buffer;
      }
      this.maxlen := maxlen;
      console := [];
    }

    ghost function Written(): Sink
      reads this`console, buffer
    {
      Sink(buffer[..], console)
    }

    ghost function With(s: Sink, text: string, idx: u32): Sink {
      Emit(out, maxlen, s, text, idx)
    }

    /** There is room for n characters from idx on. */
    ghost predicate Room(idx: nat, n: int) {
      out == OutBuffer ==> maxlen <= buffer.Length || idx + n <= buffer.Length
    }

    /** From start, with the index at idx, done has been written, and next is the index now. */
    ghost predicate Reached(start: Sink, idx: u32, done: string, next: u32)
      reads this`console, buffer
    {
      Written() == With(start, done, idx) && next == Index(idx, |done|)
    }

    /** Writing more after what is done is writing all of it. */
    lemma Onward(start: Sink, idx: u32, done: string, more: string)
      ensures With(start, done + more, idx) == With(With(start, done, idx), more, Index(idx, |done|))
      ensures Index(idx, |done + more|) == Index(Index(idx, |done|), |more|)
    {
      EmitConcat(out, maxlen, start, done, more, idx);
      IndexBehind(idx, done, more);
    }

    lemma RoomLeft(idx: u32, n: nat, k: nat)
      requires Room(idx, n) && k <= n
      ensures Room(Index(idx, k), n - k)
    {
      IndexWraps(idx, k);
    }

    /** One call through the output function pointer, out(c, buffer, idx++, maxlen). */
    method Put(c: char, idx: u32) returns (next: u32)
      requires Room(idx, 1)
      modifies this`console, buffer
      ensures Reached(old(Written()), idx, [c], next)
    {
      EmitOne(out, maxlen, Written(), c, idx);
      match out {
        case OutBuffer =>
          if idx < maxlen {
            buffer[idx] := c;
          }
        case OutNull =>
        case OutChar =>
          if c != '\0' {
            console := console + [c];
          }
      }
      next := if idx == 0xFFFF_FFFF then 0 else idx + 1;
    }

    /** One more of m blanks. */
    method PutBlank(next: u32, ghost start: Sink, ghost idx: u32, ghost k: nat, ghost m: nat) returns (behind: u32)
      requires k < m && Room(idx, m) && Reached(start, idx, Repeat(' ', k), next)
      modifies this`console, buffer
      ensures Reached(start, idx, Repeat(' ', k + 1), behind)
    {
      RoomLeft(idx, m, k);
      Onward(start, idx, Repeat(' ', k), " ");
      behind := Put(' ', next);
      assert Repeat(' ', k) + " " == Repeat(' ', k + 1);
    }

    /** The loops that pad with blanks: from a length on, up to the width. */
    method Pad(from: u32, width: u32, idx: u32) returns (next: u32)
      requires Room(idx, Max(0, width - from))
      modifies this`console, buffer
      ensures Reached(old(Written()), idx, Repeat(' ', width - from), next)
    {
      ghost var start := Written();
      var l: u32 := from;
      next := idx;
      while l < width
        invariant from <= l && (l <= width || l == from)
        invariant Reached(start, idx, Repeat(' ', l - from), next)
      {
        next := PutBlank(next, start, idx, l - from, width - from);
        l := l + 1;
      }
    }

    /** The loop that sends reversed text, last character first. */
    method SendReversed(buf: array<char>, len: u32, idx: u32) returns (next: u32)
      requires buf != buffer && len <= buf.Length && Room(idx, len)
      modifies this`console, buffer
      ensures Reached(old(Written()), idx, Text(buf, len), next)
    {
      ghost var start, body := Written(), Text(buf, len);
      var left: nat := len;
      next := idx;
      while left > 0
        invariant left <= len && Text(buf, len) == body
        invariant Reached(start, idx, body[..len - left], next)
      {
        ghost var done := body[..len - left];
        RoomLeft(idx, len, |done|);
        left := left - 1;
        Onward(start, idx, done, [buf[left]]);
        next := Put(buf[left], next);
        assert done + [buf[left]] == body[..len - left];
      }
      assert body[..len] == body;
    }

    /** The loop that pads a left-justified text: it counts from where the text began. */
    method PadBehind(begin: u32, width: u32, idx: u32, ghost n: u32) returns (next: u32)
      requires idx == Index(begin, n) && Room(idx, Max(0, width - n))
      modifies this`console, buffer
      ensures Reached(old(Written()), idx, Repeat(' ', width - n), next)
    {
      ghost var start := Written();
      ghost var k: nat := 0;
      next := idx;
      DistanceNow(begin, n, 0, idx, next);
      while Distance(next, begin) < width
        invariant k == 0 || n + k <= width
        invariant Reached(start, idx, Repeat(' ', k), next) && Distance(next, begin) == n + k
        decreases width - n - k
      {
        next := PutBlank(next, start, idx, k, width - n);
        k := k + 1;
        DistanceNow(begin, n, k, idx, next);
      }
    }

    /** _out_rev: a reversed text and its padding. */
    method OutRev(buf: array<char>, len: u32, width: u32, flags: Flags, idx: u32) returns (next: u32)
      requires buf != buffer && len <= buf.Length
      requires Room(idx, |Justified(Text(buf, len), width, flags)|)
      modifies this`console, buffer
      ensures Reached(old(Written()), idx, Justified(old(Text(buf, len)), width, flags), next)
    {
      ghost var start, body, blanks := Written(), Text(buf, len), Repeat(' ', width - len);
      if Left !in flags && ZeroPad !in flags {
        next := Pad(len, width, idx);
        RoomLeft(idx, |Justified(body, width, flags)|, |blanks|);
        Onward(start, idx, blanks, body);
        next := SendReversed(buf, len, next);
        assert Justified(body, width, flags) == blanks + body;
      } else {
        next := SendReversed(buf, len, idx);
        if Left in flags {
          RoomLeft(idx, |Justified(body, width, flags)|, len);
          Onward(start, idx, body, blanks);
          next := PadBehind(idx, width, next, len);
          assert Justified(body, width, flags) == body + blanks;
        }
      }
    }

    /** _ntoa_format. */
    method NtoaFormat(buf: array<char>, len: nat, negative: bool, base: u32, prec: u32, width: u32, flags: Flags,
                      idx: u32)
      returns (next: u32)
      requires buf != buffer && buf.Length == BUFFER_SIZE && len <= BUFFER_SIZE
      requires Room(idx, |FormatText(Text(buf, len), negative, base, prec, width, flags)|)
      modifies this`console, buffer, buf
      ensures Reached(old(Written()), idx, FormatText(old(Text(buf, len)), negative, base, prec, width, flags), next)
    {
      var narrowed := width;
      if Left !in flags {
        if width > 0 && ZeroPad in flags && (negative || Plus in flags || Space in flags) {
          narrowed := width - 1;
        }
      }
      var n := BuildBody(buf, len, negative, base, prec, narrowed, flags);
      next := OutRev(buf, n, narrowed, flags, idx);
    }

    /** _ntoa_long. */
    method NtoaLong(value: u32, negative: bool, base: u32, prec: u32, width: u32, flags: Flags, idx: u32)
      returns (next: u32)
      requires 2 <= base <= 16 && Room(idx, |IntegerText(value, negative, base, prec, width, flags)|)
      modifies this`console, buffer
      ensures Reached(old(Written()), idx, IntegerText(value, negative, base, prec, width, flags), next)
    {
      var buf := new char[BUFFER_SIZE];
      var f := if value == 0 then flags - {Hash} else flags;
      NoHashForZero(value, negative, base, prec, width, flags, f);
      var len := ReverseDigits(buf, value, base, f);
      next := NtoaFormat(buf, len, negative, base, prec, width, f, idx);
    }

    /** The integer conversions. */
    method ConvertInteger(c: char, w: u32, precision: u32, width: u32, flags: Flags, idx: u32) returns (next: u32)
      requires IsInteger(c) && Room(idx, |IntegerConversion(c, w, precision, width, flags)|)
      modifies this`console, buffer
      ensures Reached(old(Written()), idx, IntegerConversion(c, w, precision, width, flags), next)
    {
      var base, f := BaseAndFlags(c, flags);
      if c == 'i' || c == 'd' {
        var value := SignedArgument(w, f);
        var magnitude := Wrap(if value > 0 then value else 0 - value);
        SignedConversion(c, w, precision, width, flags, value, magnitude);
        next := NtoaLong(magnitude, value < 0, base, precision, width, f, idx);
      } else {
        var value := UnsignedArgument(w, f);
        UnsignedConversion(c, w, precision, width, flags, value);
        next := NtoaLong(value, false, base, precision, width, f, idx);
      }
    }

    /** %c. */
    method ConvertChar(w: u32, width: u32, flags: Flags, idx: u32) returns (next: u32)
      requires Room(idx, |Padded([CharOf(w)], width, flags)|)
      modifies this`console, buffer
      ensures Reached(old(Written()), idx, Padded([CharOf(w)], width, flags), next)
    {
      ghost var start, blanks := Written(), Repeat(' ', width - 1);
      if Left !in flags {
        next := Pad(1, width, idx);
        RoomLeft(idx, |blanks| + 1, |blanks|);
        Onward(start, idx, blanks, [CharOf(w)]);
        next := Put(CharOf(w), next);
      } else {
        next := Put(CharOf(w), idx);
        RoomLeft(idx, |blanks| + 1, 1);
        Onward(start, idx, [CharOf(w)], blanks);
        next := Pad(1, width, next);
      }
    }

    /** The loop that sends a string, as far as the precision allows. */
    method SendString(text: CString, precision: u32, flags: Flags, idx: u32) returns (next: u32)
      requires Room(idx, |Shown(text, precision, flags)|)
      modifies this`console, buffer
      ensures Reached(old(Written()), idx, Shown(text, precision, flags), next)
    {
      ghost var start, shown := Written(), Shown(text, precision, flags);
      var p, left := 0, precision;
      next := idx;
      while At(text, p) != '\0' && (Precision !in flags || left > 0)
        invariant p <= |shown| && (Precision in flags ==> left == precision - p)
        invariant Reached(start, idx, shown[..p], next)
        decreases |text| - p
      {
        RoomLeft(idx, |shown|, p);
        Onward(start, idx, shown[..p], [text[p]]);
        assert shown[..p] + [text[p]] == shown[..p + 1];
        next := Put(text[p], next);
        p := p + 1;
        left := if Precision in flags then left - 1 else left;
      }
      assert shown[..p] == shown;
    }

    /** The two sides of a string and its padding. */
    lemma PaddedShown(text: CString, precision: u32, width: u32, flags: Flags, shown: string, l: u32)
      requires shown == Shown(text, precision, flags) && l == Min(|shown|, 0xFFFF_FFFF)
      ensures Padded(shown, width, flags)
           == if Left in flags then shown + Repeat(' ', width - l) else Repeat(' ', width - l) + shown
    {
      assert Repeat(' ', width - l) == Repeat(' ', width - |shown|);
    }

    /** %s. */
    method ConvertString(text: CString, precision: u32, width: u32, flags: Flags, idx: u32) returns (next: u32)
      requires Precision !in flags ==> precision == 0
      requires Room(idx, |Padded(Shown(text, precision, flags), width, flags)|)
      modifies this`console, buffer
      ensures Reached(old(Written()), idx, Padded(Shown(text, precision, flags), width, flags), next)
    {
      ghost var start, shown := Written(), Shown(text, precision, flags);
      var l := Strnlen(text, if precision > 0 then precision else 0xFFFF_FFFF);
      if Precision in flags {
        l := if l < precision then l else precision;
      }
      PaddedShown(text, precision, width, flags, shown, l);
      ghost var blanks := Repeat(' ', width - l);
      if Left !in flags {
        next := Pad(l, width, idx);
        RoomLeft(idx, |blanks| + |shown|, |blanks|);
        Onward(start, idx, blanks, shown);
        next := SendString(text, precision, flags, next);
      } else {
        next := SendString(text, precision, flags, idx);
        RoomLeft(idx, |blanks| + |shown|, |shown|);
        Onward(start, idx, shown, blanks);
        next := Pad(l, width, next);
      }
    }

    /** One conversion; only those to floating point are left out. */
    method Convert(c: char, f: Fields, idx: u32, ghost piece: Piece) returns (next: u32, rest: seq<Arg>)
      requires Precision !in f.flags ==> f.precision == 0
      requires Conversion(c, f).Some? && Conversion(c, f).value.0 == piece && Room(idx, |PieceText(piece)|)
      modifies this`console, buffer
      ensures Reached(old(Written()), idx, PieceText(piece), next) && rest == Conversion(c, f).value.1
    {
      if IsInteger(c) {
        next, rest := idx, f.args;
        if LongLong !in f.flags {
          rest := f.args[1..];
          next := ConvertInteger(c, f.args[0].word, f.precision, f.width, f.flags, idx);
        }
      } else {
        next, rest := ConvertOther(c, f, idx, piece);
      }
    }

    /** The conversions of other things than integers. */
    method ConvertOther(c: char, f: Fields, idx: u32, ghost piece: Piece) returns (next: u32, rest: seq<Arg>)
      requires !IsInteger(c) && (Precision !in f.flags ==> f.precision == 0)
      requires Conversion(c, f).Some? && Conversion(c, f).value.0 == piece && Room(idx, |PieceText(piece)|)
      modifies this`console, buffer
      ensures Reached(old(Written()), idx, PieceText(piece), next) && rest == Conversion(c, f).value.1
    {
      if c == 'c' {
        rest := f.args[1..];
        next := ConvertChar(f.args[0].word, f.width, f.flags, idx);
      } else if c == 's' {
        rest := f.args[1..];
        next := ConvertString(f.args[0].text, f.precision, f.width, f.flags, idx);
      } else if c == 'p' {
        rest := f.args[1..];
        next := NtoaLong(f.args[0].word, false, 16, f.precision, 8, f.flags + {ZeroPad, Uppercase}, idx);
      } else {
        rest := f.args;
        next := Put(c, idx);
      }
    }

    /** One turn of the main loop. */
    method FormatOne(fmt: CString, at: nat, args: seq<Arg>, idx: u32, ghost t: Turn)
      returns (next: u32, behind: nat, rest: seq<Arg>)
      requires at < |fmt| && TurnAt(fmt, at, args) == Some(t) && Room(idx, |PieceText(t.piece)|)
      modifies this`console, buffer
      ensures Reached(old(Written()), idx, PieceText(t.piece), next) && behind == t.behind && rest == t.rest
    {
      if fmt[at] != '%' {
        behind, rest := at + 1, args;
        next := Put(fmt[at], idx);
      } else {
        NoPrecisionIsZero(fmt, at + 1, args);
        var p := ParseSpec(fmt, at + 1, args);
        behind := p.at + 1;
        next, rest := Convert(fmt[p.at], p, idx, t.piece);
      }
    }

    /** The main loop. */
    method FormatAll(fmt: CString, args: seq<Arg>, ghost text: string) returns (idx: u32)
      requires Prints(fmt, 0, args, text) && Room(0, |text|)
      modifies this`console, buffer
      ensures Reached(old(Written()), 0, text, idx)
    {
      ghost var start, done, more := Written(), "", text;
      var at, rest := 0, args;
      idx := 0;
      while at < |fmt|
        invariant at <= |fmt| && Prints(fmt, at, rest, more) && done + more == text
        invariant Reached(start, 0, done, idx)
        decreases |fmt| - at
      {
        TurnNext(fmt, at, rest, more);
        ghost var t := TurnAt(fmt, at, rest).value;
        RoomLeft(0, |text|, |done|);
        Onward(start, 0, done, PieceText(t.piece));
        StillAll(done, PieceText(t.piece), more);
        idx, at, rest := FormatOne(fmt, at, rest, idx, t);
        done, more := done + PieceText(t.piece), more[|PieceText(t.piece)|..];
      }
      assert done == text;
    }

    /** The terminating '\0', and the result. */
    method Terminate(idx: u32, ghost start: Sink, ghost text: string) returns (r: int)
      requires Reached(start, 0, text, idx)
      requires out == OutBuffer ==> HasRoom(maxlen, |text|, buffer.Length)
      modifies this`console, buffer
      ensures Written() == Terminated(out, maxlen, start, text) && r == Signed(Wrap(|text|))
    {
      var end := EndIndex(idx, maxlen);
      IndexWraps(0, |text|);
      EmitOne(out, maxlen, Written(), '\0', end);
      var _ := Put('\0', end);
      r := Signed(idx);
    }

    /** _vsnprintf. */
    method Vsnprintf(fmt: CString, args: seq<Arg>, ghost text: string) returns (r: int)
      requires Prints(fmt, 0, args, text)
      requires out == OutBuffer ==> HasRoom(maxlen, |text|, buffer.Length)
      modifies this`console, buffer
      ensures Written() == Terminated(out, maxlen, old(Written()), text) && r == Signed(Wrap(|text|))
    {
      ghost var start := Written();
      var idx := FormatAll(fmt, args, text);
      r := Terminate(idx, start, text);
    }
  }

  /** snprintf, as section 7.21.6.5 of ISO C11 describes it: the result does not depend on the count. */
  method Snprintf(buffer: array?<char>, count: u32, fmt: CString, args: seq<Arg>, ghost text: string) returns (r: int)
    requires Prints(fmt, 0, args, text)
    requires buffer != null ==> HasRoom(count, |text|, buffer.Length)
    modifies buffer
    ensures r == Signed(Wrap(|text|))
    ensures buffer != null && |text| < 0x1_0000_0000 ==> buffer[..] == Truncation(old(buffer[..]), text, count)
  {
    var printer := new Printer(OutBuffer, buffer, count);
    ghost var start := printer.Written();
    r := printer.Vsnprintf(fmt, args, text);
    if buffer != null && |text| < 0x1_0000_0000 {
      TerminatedIsTruncation(count, start, text);
    }
  }

  /** printf: the terminal is given the text. */
  method PrintToTerminal(fmt: CString, args: seq<Arg>, ghost text: string) returns (r: int, given: string)
    requires Prints(fmt, 0, args, text)
    ensures r == Signed(Wrap(|text|)) && given == Visible(text)
  {
    var buffer := new char[1];
    var printer := new Printer(OutChar, buffer, 0xFFFF_FFFF);
    ghost var start := printer.Written();
    r := printer.Vsnprintf(fmt, args, text);
    EmittedConsole(0xFFFF_FFFF, start, text, 0);
    given := printer.console;
  }
}
