/** The fields of a conversion specification, %[flags][width][.precision][length], as _vsnprintf of
    libc/stdio/stdio.c reads them. */
module FormatSpecs {
  import opened Words
  import opened Numerals
  import opened IntegerFormat

  /** A C string, without its terminator. */
  type CString = s: string | '\0' !in s

  /** An argument of the call: a 32-bit word (an int, an unsigned or a pointer) or a string. */
  datatype Arg = Word(word: u32) | Str(text: CString)

  /** The character at an index; behind the last one stands the terminator. */
  function At(fmt: CString, i: nat): char {
    if i < |fmt| then fmt[i] else '\0'
  }

  predicate IsFlag(c: char) {
    c == '0' || c == '-' || c == '+' || c == ' ' || c == '#'
  }

  /** The flag that a character stands for. */
  function FlagOf(c: char): Flag
    requires IsFlag(c)
  {
    if c == '0' then ZeroPad else if c == '-' then Left else if c == '+' then Plus else if c == ' ' then Space else Hash
  }

  function ReadFlags(fmt: CString, i: nat, f: Flags): (r: (Flags, nat))
    ensures i <= r.1 && (i <= |fmt| ==> r.1 <= |fmt|)
    decreases |fmt| - i
  {
    if IsFlag(At(fmt, i)) then ReadFlags(fmt, i + 1, f + {FlagOf(At(fmt, i))}) else (f, i)
  }

  /** The end of the digits that start at an index. */
  function NumberEnd(fmt: CString, i: nat): (end: nat)
    ensures i <= end && (i <= |fmt| ==> end <= |fmt|)
    decreases |fmt| - i
  {
    if IsDigit(At(fmt, i)) then NumberEnd(fmt, i + 1) else i
  }

  /** The value of the digits that start at an index, as far as it fits 32 bits. */
  function Number(fmt: CString, i: nat): u32
    requires i <= |fmt|
  {
    Wrap(Eval(fmt[i..NumberEnd(fmt, i)], 10))
  }

  /** The next argument, read as an int. */
  function TakeWord(args: seq<Arg>): Option<(u32, seq<Arg>)> {
    if args != [] && args[0].Word? then Some((args[0].word, args[1..])) else None
  }

  datatype Fields = Fields(flags: Flags, width: u32, precision: u32, at: nat, args: seq<Arg>)

  /** The width; a negative '*' argument asks for left justification. */
  function ReadWidth(fmt: CString, p: Fields): (r: Option<Fields>)
    requires p.at <= |fmt|
    ensures r.Some? ==> p.at <= r.value.at <= |fmt|
  {
    if IsDigit(At(fmt, p.at)) then
      Some(p.(width := Number(fmt, p.at), at := NumberEnd(fmt, p.at)))
    else if At(fmt, p.at) == '*' then
      match TakeWord(p.args)
      case None => None
      case Some((w, rest)) =>
        if Signed(w) < 0
        then Some(p.(flags := p.flags + {Left}, width := Wrap(-Signed(w)), at := p.at + 1, args := rest))
        else Some(p.(width := w, at := p.at + 1, args := rest))
    else Some(p)
  }

  /** The precision; a '.' alone means zero, and so does a negative '*' argument. */
  function ReadPrecision(fmt: CString, p: Fields): (r: Option<Fields>)
    requires p.at <= |fmt|
    ensures r.Some? ==> p.at <= r.value.at <= |fmt|
  {
    if At(fmt, p.at) != '.' then Some(p)
    else
      var q := p.(flags := p.flags + {Precision}, at := p.at + 1);
      if IsDigit(At(fmt, q.at)) then
        Some(q.(precision := Number(fmt, q.at), at := NumberEnd(fmt, q.at)))
      else if At(fmt, q.at) == '*' then
        match TakeWord(q.args)
        case None => None
        case Some((w, rest)) => Some(q.(precision := if Signed(w) > 0 then w else 0, at := q.at + 1, args := rest))
      else Some(q)
  }

  /** The length: ptrdiff_t and size_t are as wide as long, intmax_t is as wide as long long. */
  function ReadLength(fmt: CString, p: Fields): (r: Fields)
    requires p.at <= |fmt|
    ensures p.at <= r.at <= |fmt|
  {
    match At(fmt, p.at)
    case 'l' =>
      if At(fmt, p.at + 1) == 'l' then p.(flags := p.flags + {Long, LongLong}, at := p.at + 2)
      else p.(flags := p.flags + {Long}, at := p.at + 1)
    case 'h' =>
      if At(fmt, p.at + 1) == 'h' then p.(flags := p.flags + {Short, Char}, at := p.at + 2)
      else p.(flags := p.flags + {Short}, at := p.at + 1)
    case 't' => p.(flags := p.flags + {Long}, at := p.at + 1)
    case 'j' => p.(flags := p.flags + {LongLong}, at := p.at + 1)
    case 'z' => p.(flags := p.flags + {Long}, at := p.at + 1)
    case _ => p
  }

  /** Width, precision and length. None means that a '*' has no int argument. */
  function ReadRest(fmt: CString, f: Fields): (r: Option<Fields>)
    requires f.at <= |fmt|
    ensures r.Some? ==> f.at <= r.value.at <= |fmt|
  {
    match ReadWidth(fmt, f)
    case None => None
    case Some(p) =>
      match ReadPrecision(fmt, p)
      case None => None
      case Some(q) => Some(ReadLength(fmt, q))
  }

  /** All four fields, from behind the '%'. */
  function ReadFields(fmt: CString, i: nat, args: seq<Arg>): (r: Option<Fields>)
    requires i <= |fmt|
    ensures r.Some? ==> i <= r.value.at <= |fmt|
  {
    var (flags, at) := ReadFlags(fmt, i, {});
    ReadRest(fmt, Fields(flags, 0, 0, at, args))
  }

  lemma {:induction false} OnlyFlagChars(fmt: CString, i: nat, f: Flags)
    requires Precision !in f
    ensures Precision !in ReadFlags(fmt, i, f).0
    decreases |fmt| - i
  {
    if IsFlag(At(fmt, i)) {
      OnlyFlagChars(fmt, i + 1, f + {FlagOf(At(fmt, i))});
    }
  }

  /** The precision is zero where none is given. */
  lemma NoPrecisionIsZero(fmt: CString, i: nat, args: seq<Arg>)
    requires i <= |fmt| && ReadFields(fmt, i, args).Some?
    ensures Precision !in ReadFields(fmt, i, args).value.flags ==> ReadFields(fmt, i, args).value.precision == 0
  {
    OnlyFlagChars(fmt, i, {});
  }

  // ----- Writing a specification -----

  datatype Length = NoLength | L | LL | H | HH | T | J | Z

  function LengthText(length: Length): string {
    match length
    case NoLength => ""
    case L => "l"
    case LL => "ll"
    case H => "h"
    case HH => "hh"
    case T => "t"
    case J => "j"
    case Z => "z"
  }

  ghost predicate FlagChars(s: string) {
    forall i :: 0 <= i < |s| ==> IsFlag(s[i])
  }

  /** A width: a number, where zero is no width at all, or '*' and the word that stands for it. */
  datatype WidthField = WidthNumber(n: u32) | WidthStar(w: u32)

  /** A precision: none, a '.' alone, a number, or '*' and the word that stands for it. */
  datatype PrecisionField = NoPrecision | Dot | DotNumber(n: u32) | DotStar(w: u32)

  ghost function WidthText(width: WidthField): string {
    match width
    case WidthNumber(n) => if n == 0 then "" else Digits(n, 10, false)
    case WidthStar(_) => "*"
  }

  ghost function PrecisionText(precision: PrecisionField): string {
    match precision
    case NoPrecision => ""
    case Dot => "."
    case DotNumber(n) => "." + Digits(n, 10, false)
    case DotStar(_) => ".*"
  }

  /** A negative '*' argument is a '-' flag and a width. */
  function WidthValue(width: WidthField): u32 {
    match width
    case WidthNumber(n) => n
    case WidthStar(w) => if Signed(w) < 0 then -Signed(w) else w
  }

  function WidthFlags(width: WidthField): Flags {
    if width.WidthStar? && Signed(width.w) < 0 then {Left} else {}
  }

  function PrecisionValue(precision: PrecisionField): u32 {
    match precision
    case NoPrecision => 0
    case Dot => 0
    case DotNumber(n) => n
    case DotStar(w) => if Signed(w) > 0 then w else 0
  }

  function PrecisionFlags(precision: PrecisionField): Flags {
    if precision.NoPrecision? then {} else {Precision}
  }

  /** The arguments that the '*'s take. */
  function WidthArgs(width: WidthField): seq<Arg> {
    if width.WidthStar? then [Word(width.w)] else []
  }

  function PrecisionArgs(precision: PrecisionField): seq<Arg> {
    if precision.DotStar? then [Word(precision.w)] else []
  }

  /** A specification as a programmer writes it: any flags in any order, a width, a precision, a length. */
  ghost function SpecText(flags: string, width: WidthField, precision: PrecisionField, length: Length): string {
    flags + WidthText(width) + PrecisionText(precision) + LengthText(length)
  }

  function LengthFlags(length: Length): Flags {
    match length
    case NoLength => {}
    case L => {Long}
    case LL => {Long, LongLong}
    case H => {Short}
    case HH => {Short, Char}
    case T => {Long}
    case J => {LongLong}
    case Z => {Long}
  }

  /** The flags that the characters stand for, in whatever order they come and however often. */
  ghost function CharFlags(s: string): (f: Flags)
    requires FlagChars(s)
  {
    set c | c in s && IsFlag(c) :: FlagOf(c)
  }

  /** fmt continues with s from index i on. */
  ghost predicate Continues(fmt: CString, i: nat, s: string)
    ensures Continues(fmt, i, s) ==> i + |s| <= |fmt|
    decreases |s|
  {
    if s == [] then i <= |fmt| else i < |fmt| && fmt[i] == s[0] && Continues(fmt, i + 1, s[1..])
  }

  lemma {:induction false} ContinuesExactlyWhen(fmt: CString, i: nat, s: string)
    ensures Continues(fmt, i, s) <==> i + |s| <= |fmt| && fmt[i..i + |s|] == s
    decreases |s|
  {
    if s != [] && i < |fmt| {
      ContinuesExactlyWhen(fmt, i + 1, s[1..]);
      assert s == [s[0]] + s[1..];
      if i + |s| <= |fmt| {
        assert fmt[i..i + |s|] == [fmt[i]] + fmt[i + 1..i + 1 + |s[1..]|];
      }
    }
  }

  lemma ContinuesSplit(fmt: CString, i: nat, a: string, b: string)
    requires Continues(fmt, i, a + b)
    ensures Continues(fmt, i, a) && Continues(fmt, i + |a|, b)
    decreases |a|
  {
    if a == [] {
      assert a + b == b;
    } else {
      assert (a + b)[1..] == a[1..] + b;
      ContinuesSplit(fmt, i + 1, a[1..], b);
    }
  }

  lemma CharFlagsSplit(s: string)
    requires s != [] && FlagChars(s)
    ensures CharFlags(s) == {FlagOf(s[0])} + CharFlags(s[1..])
  {
    assert s == [s[0]] + s[1..];
    assert forall c :: c in s <==> c == s[0] || c in s[1..];
  }

  lemma {:induction false} FlagsReadBack(fmt: CString, i: nat, s: string, f: Flags)
    requires Continues(fmt, i, s) && FlagChars(s)
    requires !IsFlag(At(fmt, i + |s|))
    ensures ReadFlags(fmt, i, f) == (f + CharFlags(s), i + |s|)
    decreases |s|
  {
    if s == [] {
      assert f + CharFlags(s) == f;
    } else {
      FlagsReadBack(fmt, i + 1, s[1..], f + {FlagOf(s[0])});
      CharFlagsSplit(s);
      assert f + {FlagOf(s[0])} + CharFlags(s[1..]) == f + CharFlags(s);
    }
  }

  lemma {:induction false} NumberEndFound(fmt: CString, i: nat, s: string)
    requires Continues(fmt, i, s) && (forall k :: 0 <= k < |s| ==> IsDigit(s[k])) && !IsDigit(At(fmt, i + |s|))
    ensures NumberEnd(fmt, i) == i + |s|
    decreases |s|
  {
    if s != [] {
      NumberEndFound(fmt, i + 1, s[1..]);
    }
  }

  /** A decimal numeral that ends at a non-digit is read back. */
  lemma NumberReadBack(fmt: CString, i: nat, n: u32)
    requires Continues(fmt, i, Digits(n, 10, false)) && !IsDigit(At(fmt, i + |Digits(n, 10, false)|))
    ensures IsDigit(At(fmt, i))
    ensures NumberEnd(fmt, i) == i + |Digits(n, 10, false)| && Number(fmt, i) == n
  {
    var s := Digits(n, 10, false);
    AllDigits(n, 10, false);
    DecimalDigits(s);
    NumberEndFound(fmt, i, s);
    EvalDigits(n, 10, false);
    ContinuesExactlyWhen(fmt, i, s);
  }

  lemma DecimalDigits(s: string)
    requires DigitsOnly(s, 10)
    ensures forall k :: 0 <= k < |s| ==> IsDigit(s[k])
  {
  }

  /** What must not follow a width, a precision or a length for them to end there. */
  predicate AfterWidth(c: char) {
    !IsDigit(c) && c != '*' && !IsFlag(c)
  }

  predicate AfterPrecision(c: char) {
    !IsDigit(c) && c != '*' && c != '.' && !IsFlag(c)
  }

  predicate AfterLength(c: char) {
    AfterPrecision(c) && c != 'l' && c != 'h' && c != 't' && c != 'j' && c != 'z'
  }

  /** The characters that end one field are those that the next ones can start with. */
  lemma LengthStart(fmt: CString, i: nat, length: Length)
    requires Continues(fmt, i, LengthText(length)) && AfterLength(At(fmt, i + |LengthText(length)|))
    ensures AfterPrecision(At(fmt, i))
  {
    if length != NoLength {
      assert At(fmt, i) == LengthText(length)[0];
    }
  }

  lemma PrecisionStart(fmt: CString, i: nat, precision: PrecisionField)
    requires Continues(fmt, i, PrecisionText(precision)) && AfterPrecision(At(fmt, i + |PrecisionText(precision)|))
    ensures AfterWidth(At(fmt, i))
  {
    if precision != NoPrecision {
      assert At(fmt, i) == PrecisionText(precision)[0] == '.';
    }
  }

  lemma WidthStart(fmt: CString, i: nat, width: WidthField)
    requires Continues(fmt, i, WidthText(width)) && AfterWidth(At(fmt, i + |WidthText(width)|))
    ensures !IsFlag(At(fmt, i))
  {
    match width
    case WidthNumber(n) =>
      if n != 0 {
        NumberStart(fmt, i, n);
      }
    case WidthStar(_) => assert At(fmt, i) == "*"[0];
  }

  lemma NumberStart(fmt: CString, i: nat, n: u32)
    requires n != 0 && Continues(fmt, i, Digits(n, 10, false))
    ensures !IsFlag(At(fmt, i))
  {
    assert At(fmt, i) == Digits(n, 10, false)[0];
    AllDigits(n, 10, false);
    DecimalDigits(Digits(n, 10, false));
    LeadingDigit(n, 10, false);
  }

  lemma WidthReadBack(fmt: CString, p: Fields, width: WidthField, q: Fields)
    requires p.width == 0 && p.args == WidthArgs(width) + q.args && Continues(fmt, p.at, WidthText(width))
    requires q == Fields(p.flags + WidthFlags(width), WidthValue(width), p.precision, p.at + |WidthText(width)|, q.args)
    requires AfterWidth(At(fmt, q.at))
    ensures ReadWidth(fmt, p) == Some(q)
  {
    match width
    case WidthNumber(n) =>
      assert p.flags + {} == p.flags && [] + q.args == q.args;
      if n != 0 {
        WidthNumberReadBack(fmt, p, n, q);
      }
    case WidthStar(w) => WidthStarReadBack(fmt, p, w, q);
  }

  lemma WidthNumberReadBack(fmt: CString, p: Fields, n: u32, q: Fields)
    requires Continues(fmt, p.at, Digits(n, 10, false)) && !IsDigit(At(fmt, q.at))
    requires q == p.(width := n, at := p.at + |Digits(n, 10, false)|)
    ensures ReadWidth(fmt, p) == Some(q)
  {
    NumberReadBack(fmt, p.at, n);
    WidthRead(fmt, p, q);
  }

  lemma WidthRead(fmt: CString, p: Fields, q: Fields)
    requires p.at <= |fmt| && IsDigit(At(fmt, p.at))
    requires q == p.(width := Number(fmt, p.at), at := NumberEnd(fmt, p.at))
    ensures ReadWidth(fmt, p) == Some(q)
  {
  }

  lemma WidthStarReadBack(fmt: CString, p: Fields, w: u32, q: Fields)
    requires p.args == [Word(w)] + q.args && Continues(fmt, p.at, "*")
    requires q == Fields(p.flags + WidthFlags(WidthStar(w)), WidthValue(WidthStar(w)), p.precision, p.at + 1, q.args)
    ensures ReadWidth(fmt, p) == Some(q)
  {
    assert At(fmt, p.at) == "*"[0];
    assert TakeWord(p.args) == Some((w, q.args)) by {
      assert p.args[1..] == q.args;
    }
    assert p.flags + {} == p.flags;
  }

  lemma PrecisionReadBack(fmt: CString, p: Fields, precision: PrecisionField, q: Fields)
    requires p.precision == 0 && p.args == PrecisionArgs(precision) + q.args
    requires Continues(fmt, p.at, PrecisionText(precision)) && AfterPrecision(At(fmt, q.at))
    requires q == Fields(p.flags + PrecisionFlags(precision), p.width, PrecisionValue(precision),
                         p.at + |PrecisionText(precision)|, q.args)
    ensures ReadPrecision(fmt, p) == Some(q)
  {
    match precision
    case NoPrecision => assert p.flags + {} == p.flags && [] + q.args == q.args;
    case Dot =>
      assert At(fmt, p.at) == "."[0];
      assert [] + q.args == q.args;
    case DotNumber(n) =>
      assert [] + q.args == q.args;
      PrecisionNumberReadBack(fmt, p, n);
    case DotStar(w) => PrecisionStarReadBack(fmt, p, w, q);
  }

  lemma PrecisionStarReadBack(fmt: CString, p: Fields, w: u32, q: Fields)
    requires p.args == [Word(w)] + q.args && Continues(fmt, p.at, ".*")
    requires q == Fields(p.flags + {Precision}, p.width, if Signed(w) > 0 then w else 0, p.at + 2, q.args)
    ensures ReadPrecision(fmt, p) == Some(q)
  {
    assert ".*"[1..] == "*";
    assert At(fmt, p.at) == ".*"[0] && At(fmt, p.at + 1) == "*"[0];
    assert TakeWord(p.args) == Some((w, q.args)) by {
      assert p.args[1..] == q.args;
    }
  }

  lemma PrecisionNumberReadBack(fmt: CString, p: Fields, n: u32)
    requires Continues(fmt, p.at, "." + Digits(n, 10, false))
    requires AfterPrecision(At(fmt, p.at + 1 + |Digits(n, 10, false)|))
    ensures ReadPrecision(fmt, p)
         == Some(p.(flags := p.flags + {Precision}, precision := n, at := p.at + 1 + |Digits(n, 10, false)|))
  {
    ContinuesSplit(fmt, p.at, ".", Digits(n, 10, false));
    assert At(fmt, p.at) == "."[0];
    NumberReadBack(fmt, p.at + 1, n);
  }

  lemma LengthReadBack(fmt: CString, p: Fields, length: Length, q: Fields)
    requires Continues(fmt, p.at, LengthText(length)) && AfterLength(At(fmt, q.at))
    requires q == p.(flags := p.flags + LengthFlags(length), at := p.at + |LengthText(length)|)
    ensures ReadLength(fmt, p) == q
  {
    var t := LengthText(length);
    if t != [] {
      assert At(fmt, p.at) == t[0];
      assert |t| == 2 ==> t[1..][0] == t[1] && At(fmt, p.at + 1) == t[1];
    } else {
      assert p.flags + LengthFlags(length) == p.flags;
    }
  }

  /** The record that a specification is written from. */
  ghost predicate WrittenFrom(p: Fields, flags: string, width: WidthField, precision: PrecisionField, length: Length)
    requires FlagChars(flags)
  {
    && p.flags == CharFlags(flags) + WidthFlags(width) + PrecisionFlags(precision) + LengthFlags(length)
    && p.width == WidthValue(width) && p.precision == PrecisionValue(precision)
  }

  /** The arguments of a specification, and those behind it. */
  function ArgsBefore(width: WidthField, precision: PrecisionField, rest: seq<Arg>): seq<Arg> {
    WidthArgs(width) + (PrecisionArgs(precision) + rest)
  }

  /** Any record of flags, width, precision and length, written in front of a character that does not
      continue it (as no conversion specifier does), is read back, and the reading ends at that character
      and behind the arguments of the '*'s. */
  lemma SpecReadBack(fmt: CString, i: nat, args: seq<Arg>, flags: string, width: WidthField, precision: PrecisionField,
                     length: Length, p: Fields)
    requires FlagChars(flags) && Continues(fmt, i, SpecText(flags, width, precision, length))
    requires WrittenFrom(p, flags, width, precision, length) && args == ArgsBefore(width, precision, p.args)
    requires p.at == i + |SpecText(flags, width, precision, length)| && AfterLength(At(fmt, p.at))
    ensures ReadFields(fmt, i, args) == Some(p)
  {
    var start := Fields(CharFlags(flags), 0, 0, i + |flags|, args);
    SpecFields(fmt, i, flags, width, precision, length, start.at, p.at);
    FlagsFirst(fmt, i, args, start);
    RestReadBack(fmt, start, width, precision, length, p);
  }

  /** The flags end where the other fields start. */
  lemma SpecFields(fmt: CString, i: nat, flags: string, width: WidthField, precision: PrecisionField, length: Length,
                   at: nat, end: nat)
    requires FlagChars(flags) && Continues(fmt, i, SpecText(flags, width, precision, length))
    requires at == i + |flags| && end == i + |SpecText(flags, width, precision, length)| && AfterLength(At(fmt, end))
    ensures at <= |fmt| && ReadFlags(fmt, i, {}) == (CharFlags(flags), at)
    ensures OneBehindAnother(fmt, at, width, precision, length, end)
  {
    SpecPieces(fmt, i, flags, WidthText(width), PrecisionText(precision), LengthText(length));
    SpecLength(flags, width, precision, length);
    FieldStarts(fmt, at, width, precision, length);
    FlagsReadBack(fmt, i, flags, {});
    assert {} + CharFlags(flags) == CharFlags(flags);
  }

  /** Once the flags are read, the rest is. */
  lemma FlagsFirst(fmt: CString, i: nat, args: seq<Arg>, start: Fields)
    requires i <= |fmt| && start.at <= |fmt| && ReadFlags(fmt, i, {}) == (start.flags, start.at)
    requires start.width == start.precision == 0 && start.args == args
    ensures ReadFields(fmt, i, args) == ReadRest(fmt, start)
  {
  }

  lemma SpecLength(flags: string, width: WidthField, precision: PrecisionField, length: Length)
    ensures |SpecText(flags, width, precision, length)|
         == |flags| + |WidthText(width)| + |PrecisionText(precision)| + |LengthText(length)|
  {
  }

  /** A width, a precision and a length stand from index i on, and then a specifier. */
  ghost predicate FieldsAt(fmt: CString, i: nat, w: string, p: string, l: string) {
    && Continues(fmt, i, w) && Continues(fmt, i + |w|, p) && Continues(fmt, i + |w| + |p|, l)
    && AfterLength(At(fmt, i + |w| + |p| + |l|))
  }

  /** They do, up to an index, and each of them ends where the next one starts. */
  ghost predicate OneBehindAnother(fmt: CString, i: nat, width: WidthField, precision: PrecisionField, length: Length,
                                   end: nat)
  {
    && FieldsAt(fmt, i, WidthText(width), PrecisionText(precision), LengthText(length))
    && AfterWidth(At(fmt, i + |WidthText(width)|))
    && AfterPrecision(At(fmt, i + |WidthText(width)| + |PrecisionText(precision)|))
    && end == i + |WidthText(width)| + |PrecisionText(precision)| + |LengthText(length)|
  }

  lemma FieldStarts(fmt: CString, i: nat, width: WidthField, precision: PrecisionField, length: Length)
    requires FieldsAt(fmt, i, WidthText(width), PrecisionText(precision), LengthText(length))
    ensures AfterPrecision(At(fmt, i + |WidthText(width)| + |PrecisionText(precision)|))
    ensures AfterWidth(At(fmt, i + |WidthText(width)|))
    ensures !IsFlag(At(fmt, i))
  {
    LengthStart(fmt, i + |WidthText(width)| + |PrecisionText(precision)|, length);
    PrecisionStart(fmt, i + |WidthText(width)|, precision);
    WidthStart(fmt, i, width);
  }

  /** Width, precision and length, once the flags are known. */
  lemma RestReadBack(fmt: CString, p: Fields, width: WidthField, precision: PrecisionField, length: Length, end: Fields)
    requires p.width == p.precision == 0 && p.args == ArgsBefore(width, precision, end.args)
    requires OneBehindAnother(fmt, p.at, width, precision, length, end.at)
    requires end.flags == p.flags + WidthFlags(width) + PrecisionFlags(precision) + LengthFlags(length)
    requires end.width == WidthValue(width) && end.precision == PrecisionValue(precision)
    ensures p.at <= |fmt| && ReadRest(fmt, p) == Some(end)
  {
    var q := Fields(p.flags + WidthFlags(width), WidthValue(width), 0, p.at + |WidthText(width)|,
                    PrecisionArgs(precision) + end.args);
    var r := Fields(q.flags + PrecisionFlags(precision), q.width, PrecisionValue(precision),
                    q.at + |PrecisionText(precision)|, end.args);
    FieldsInOrder(fmt, p.at, q.at, r.at, end.at, width, precision, length);
    ReadInOrder(fmt, p, q, r, end, width, precision, length);
  }

  lemma FieldsInOrder(fmt: CString, i: nat, j: nat, k: nat, end: nat,
                      width: WidthField, precision: PrecisionField, length: Length)
    requires OneBehindAnother(fmt, i, width, precision, length, end)
    requires j == i + |WidthText(width)| && k == j + |PrecisionText(precision)|
    ensures Continues(fmt, i, WidthText(width)) && AfterWidth(At(fmt, j))
    ensures Continues(fmt, j, PrecisionText(precision)) && AfterPrecision(At(fmt, k))
    ensures Continues(fmt, k, LengthText(length)) && AfterLength(At(fmt, end)) && end == k + |LengthText(length)|
  {
  }

  lemma ReadInOrder(fmt: CString, p: Fields, q: Fields, r: Fields, end: Fields,
                    width: WidthField, precision: PrecisionField, length: Length)
    requires p.width == p.precision == 0 && p.args == WidthArgs(width) + q.args
    requires Continues(fmt, p.at, WidthText(width)) && AfterWidth(At(fmt, q.at))
    requires q == Fields(p.flags + WidthFlags(width), WidthValue(width), 0, p.at + |WidthText(width)|, q.args)
    requires q.args == PrecisionArgs(precision) + r.args
    requires Continues(fmt, q.at, PrecisionText(precision)) && AfterPrecision(At(fmt, r.at))
    requires r == Fields(q.flags + PrecisionFlags(precision), q.width, PrecisionValue(precision),
                         q.at + |PrecisionText(precision)|, r.args)
    requires Continues(fmt, r.at, LengthText(length)) && AfterLength(At(fmt, end.at))
    requires end == r.(flags := r.flags + LengthFlags(length), at := r.at + |LengthText(length)|)
    ensures p.at <= |fmt| && ReadRest(fmt, p) == Some(end)
  {
    WidthReadBack(fmt, p, width, q);
    PrecisionReadBack(fmt, q, precision, r);
    LengthReadBack(fmt, r, length, end);
    OneByOne(fmt, p, q, r, end);
  }

  lemma OneByOne(fmt: CString, p: Fields, q: Fields, r: Fields, end: Fields)
    requires p.at <= |fmt| && q.at <= |fmt| && r.at <= |fmt|
    requires ReadWidth(fmt, p) == Some(q) && ReadPrecision(fmt, q) == Some(r) && ReadLength(fmt, r) == end
    ensures ReadRest(fmt, p) == Some(end)
  {
  }

  lemma SpecPieces(fmt: CString, i: nat, flags: string, w: string, p: string, l: string)
    requires Continues(fmt, i, flags + w + p + l)
    ensures Continues(fmt, i, flags) && Continues(fmt, i + |flags|, w)
    ensures Continues(fmt, i + |flags| + |w|, p) && Continues(fmt, i + |flags| + |w| + |p|, l)
  {
    ContinuesSplit(fmt, i, flags + w + p, l);
    ContinuesSplit(fmt, i, flags + w, p);
    ContinuesSplit(fmt, i, flags, w);
  }
}
