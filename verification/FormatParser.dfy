/** The loops and branches of _vsnprintf in libc/stdio/stdio.c that read a conversion specification. */
module FormatParser {
  import opened Words
  import opened Numerals
  import opened IntegerFormat
  import opened FormatSpecs

  /** _atoi: reads digits with 32-bit arithmetic and moves the string pointer behind them. */
  method Atoi(str: CString, i: nat) returns (n: u32, end: nat)
    requires i <= |str|
    ensures end == NumberEnd(str, i) && n == Number(str, i)
  {
    n, end := 0, i;
    assert str[i..i] == [];
    while IsDigit(At(str, end))
      invariant i <= end <= |str| && NumberEnd(str, end) == NumberEnd(str, i)
      invariant n == Wrap(Eval(str[i..end], 10))
      decreases |str| - end
    {
      assert str[i..end + 1][..end - i] == str[i..end];
      OneMoreDigit(Eval(str[i..end], 10), DigitValue(str[end]));
      n := Wrap(Wrap(n * 10) + (str[end] as int - '0' as int));
      end := end + 1;
    }
  }

  lemma OneMoreDigit(x: nat, d: nat)
    ensures Wrap(Wrap(Wrap(x) * 10) + d) == Wrap(x * 10 + d)
  {
    WrapAdd(Wrap(x) * 10, d);
    Remainder(x);
    WrapMultiple(Wrap(x) * 10 + d, x / 0x1_0000_0000 * 10);
  }

  lemma Remainder(x: nat)
    ensures x == Wrap(x) + 0x1_0000_0000 * (x / 0x1_0000_0000)
  {
  }

  lemma WrapMultiple(y: int, k: int)
    ensures Wrap(y + 0x1_0000_0000 * k) == Wrap(y)
  {
  }

  /** The do loop over the flags. */
  method ParseFlags(fmt: CString, i: nat) returns (flags: Flags, at: nat)
    requires i <= |fmt|
    ensures (flags, at) == ReadFlags(fmt, i, {})
  {
    flags, at := {}, i;
    var n := true;
    while n
      invariant i <= at <= |fmt| && ReadFlags(fmt, at, flags) == ReadFlags(fmt, i, {})
      invariant n || ReadFlags(fmt, at, flags) == (flags, at)
      decreases |fmt| - at, n
    {
      var c := At(fmt, at);
      if c == '0' {
        flags, at := flags + {ZeroPad}, at + 1;
      } else if c == '-' {
        flags, at := flags + {Left}, at + 1;
      } else if c == '+' {
        flags, at := flags + {Plus}, at + 1;
      } else if c == ' ' {
        flags, at := flags + {Space}, at + 1;
      } else if c == '#' {
        flags, at := flags + {Hash}, at + 1;
      } else {
        n := false;
      }
    }
  }

  /** The width; '*' takes the next argument. */
  method ParseWidth(fmt: CString, flags: Flags, at: nat, args: seq<Arg>)
    returns (f: Flags, width: u32, end: nat, rest: seq<Arg>)
    requires at <= |fmt| && ReadWidth(fmt, Fields(flags, 0, 0, at, args)).Some?
    ensures ReadWidth(fmt, Fields(flags, 0, 0, at, args)) == Some(Fields(f, width, 0, end, rest))
  {
    f, width, end, rest := flags, 0, at, args;
    if IsDigit(At(fmt, at)) {
      width, end := Atoi(fmt, at);
    } else if At(fmt, at) == '*' {
      var w := Signed(args[0].word);
      if w < 0 {
        f := f + {Left};
        width := Wrap(-w);
      } else {
        width := Wrap(w);
      }
      end, rest := at + 1, args[1..];
    }
  }

  /** The precision. */
  method ParsePrecision(fmt: CString, flags: Flags, width: u32, at: nat, args: seq<Arg>)
    returns (f: Flags, precision: u32, end: nat, rest: seq<Arg>)
    requires at <= |fmt| && ReadPrecision(fmt, Fields(flags, width, 0, at, args)).Some?
    ensures ReadPrecision(fmt, Fields(flags, width, 0, at, args)) == Some(Fields(f, width, precision, end, rest))
  {
    f, precision, end, rest := flags, 0, at, args;
    if At(fmt, at) == '.' {
      f := f + {Precision};
      end := at + 1;
      if IsDigit(At(fmt, end)) {
        precision, end := Atoi(fmt, end);
      } else if At(fmt, end) == '*' {
        var prec := Signed(args[0].word);
        precision := if prec > 0 then prec else 0;
        end, rest := end + 1, args[1..];
      }
    }
  }

  /** The length; with 32-bit long, size_t and ptrdiff_t and a 64-bit intmax_t. */
  method ParseLength(fmt: CString, p: Fields) returns (f: Flags, end: nat)
    requires p.at <= |fmt|
    ensures ReadLength(fmt, p) == p.(flags := f, at := end)
  {
    f, end := p.flags, p.at;
    match At(fmt, p.at) {
      case 'l' =>
        f, end := f + {Long}, end + 1;
        if At(fmt, end) == 'l' {
          f, end := f + {LongLong}, end + 1;
          assert f == p.flags + {Long, LongLong};
        }
      case 'h' =>
        f, end := f + {Short}, end + 1;
        if At(fmt, end) == 'h' {
          f, end := f + {Char}, end + 1;
          assert f == p.flags + {Short, Char};
        }
      case 't' => f, end := f + {Long}, end + 1;
      case 'j' => f, end := f + {LongLong}, end + 1;
      case 'z' => f, end := f + {Long}, end + 1;
      case _ =>
    }
  }

  /** A whole specification, from behind the '%'. */
  method ParseSpec(fmt: CString, i: nat, args: seq<Arg>) returns (p: Fields)
    requires i <= |fmt| && ReadFields(fmt, i, args).Some?
    ensures ReadFields(fmt, i, args) == Some(p)
  {
    var flags, at := ParseFlags(fmt, i);
    var f, width, behindWidth, rest := ParseWidth(fmt, flags, at, args);
    var g, precision, behindPrecision, others := ParsePrecision(fmt, f, width, behindWidth, rest);
    p := Fields(g, width, precision, behindPrecision, others);
    var h, end := ParseLength(fmt, p);
    p := p.(flags := h, at := end);
  }
}
