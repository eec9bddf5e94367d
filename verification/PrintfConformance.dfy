/** When printf of libc/stdio/stdio.c prints what section 7.21.6.1 of ISO C11 asks for, with a specification as it
    is written on the one side and the standard's text on the other. */
module PrintfConformance {
  import opened Words
  import opened Numerals
  import opened IntegerFormat
  import opened AlternateForm
  import opened FormatSpecs
  import opened Conversions
  import opened ConversionResults
  import C11 = C11Printf

  // ----- Digits and fields -----

  /** The digits are the standard's symbols. */
  lemma {:induction false} DigitsAreNumeral(value: nat, base: nat, c: char)
    requires 2 <= base <= 16
    ensures Digits(value, base, c == 'X') == C11.Numeral(value, base, C11.Symbols(c))
    decreases value
  {
    if value < base {
      DigitIsSymbol(value, c);
    } else {
      Smaller(value, base);
      DigitsAreNumeral(value / base, base, c);
      DigitIsSymbol(value % base, c);
    }
  }

  lemma DigitIsSymbol(d: nat, c: char)
    requires d < 16
    ensures DigitChar(d, c == 'X') == C11.Symbols(c)[d]
  {
  }

  /** The flags that stand for the characters of a specification. */
  lemma CharsOfFlags(flags: string)
    requires FlagChars(flags)
    ensures ZeroPad in CharFlags(flags) <==> '0' in flags
    ensures Left in CharFlags(flags) <==> '-' in flags
    ensures Plus in CharFlags(flags) <==> '+' in flags
    ensures Space in CharFlags(flags) <==> ' ' in flags
    ensures Hash in CharFlags(flags) <==> '#' in flags
    ensures CharFlags(flags) <= {ZeroPad, Left, Plus, Space, Hash}
  {
    assert '0' in flags ==> FlagOf('0') in CharFlags(flags);
    assert '-' in flags ==> FlagOf('-') in CharFlags(flags);
    assert '+' in flags ==> FlagOf('+') in CharFlags(flags);
    assert ' ' in flags ==> FlagOf(' ') in CharFlags(flags);
    assert '#' in flags ==> FlagOf('#') in CharFlags(flags);
  }

  /** What the flags of a written specification mean to the standard. */
  lemma FlagsAsWritten(p: Fields, flags: string, width: WidthField, precision: PrecisionField, length: Length, c: char,
                       g: Flags)
    requires FlagChars(flags) && WrittenFrom(p, flags, width, precision, length)
    requires g == WantedFlags(c, p.flags, precision)
    ensures Left in g <==> C11.LeftJustified(flags, width)
    ensures ZeroPad in g <==> '0' in flags
    ensures Plus in g <==> IsSigned(c) && '+' in flags
    ensures Space in g <==> IsSigned(c) && ' ' in flags
    ensures Uppercase in g <==> c == 'X'
    ensures Precision in g <==> C11.GivenPrecision(precision).Some?
    ensures Hash in p.flags <==> '#' in flags
  {
    FlagsOfSpec(p, flags, width, precision, length);
    FlagsWanted(c, p.flags, precision);
  }

  lemma FlagsOfSpec(p: Fields, flags: string, width: WidthField, precision: PrecisionField, length: Length)
    requires FlagChars(flags) && WrittenFrom(p, flags, width, precision, length)
    ensures Left in p.flags <==> C11.LeftJustified(flags, width)
    ensures ZeroPad in p.flags <==> '0' in flags
    ensures Plus in p.flags <==> '+' in flags
    ensures Space in p.flags <==> ' ' in flags
    ensures Hash in p.flags <==> '#' in flags
    ensures Uppercase !in p.flags
    ensures Precision in p.flags <==> precision != NoPrecision
  {
    CharsOfFlags(flags);
  }

  lemma FlagsWanted(c: char, f: Flags, precision: PrecisionField)
    requires Uppercase !in f && (Precision in f <==> precision != NoPrecision)
    ensures var g := WantedFlags(c, f, precision);
      && (Left in g <==> Left in f) && (ZeroPad in g <==> ZeroPad in f)
      && (Plus in g <==> IsSigned(c) && Plus in f) && (Space in g <==> IsSigned(c) && Space in f)
      && (Uppercase in g <==> c == 'X') && (Precision in g <==> C11.GivenPrecision(precision).Some?)
  {
  }

  /** And its width and its precision. */
  lemma NumbersAsWritten(p: Fields, flags: string, width: WidthField, precision: PrecisionField, length: Length)
    requires FlagChars(flags) && WrittenFrom(p, flags, width, precision, length)
    ensures p.width == C11.FieldWidth(width)
    ensures p.precision
         == if C11.GivenPrecision(precision).Some? then C11.GivenPrecision(precision).value else 0
  {
  }

  /** The argument, cut to the length. */
  lemma ValueAsWritten(p: Fields, flags: string, width: WidthField, precision: PrecisionField, length: Length,
                       c: char, low: u32, high: u32)
    requires FlagChars(flags) && WrittenFrom(p, flags, width, precision, length)
    ensures WantedValue(c, low, high, p.flags) == C11.ValueOf(c, length, low, high)
  {
    CharsOfFlags(flags);
    LengthAsWritten(p, flags, width, precision, length);
    ArgumentAsWritten(low, length, p.flags);
  }

  lemma LengthAsWritten(p: Fields, flags: string, width: WidthField, precision: PrecisionField, length: Length)
    requires FlagChars(flags) && WrittenFrom(p, flags, width, precision, length)
    ensures LongLong in p.flags <==> C11.IsLongLong(length)
    ensures Long in p.flags <==> length == L || length == LL || length == T || length == Z
    ensures Char in p.flags <==> length == HH
    ensures Short in p.flags <==> length == H || length == HH
  {
    CharsOfFlags(flags);
  }

  lemma ArgumentAsWritten(w: u32, length: Length, f: Flags)
    requires Long in f <==> length == L || length == LL || length == T || length == Z
    requires Char in f <==> length == HH
    requires Short in f <==> length == H || length == HH
    ensures SignedArgument(w, f) == C11.SignedWord(length, w)
    ensures UnsignedArgument(w, f) == C11.UnsignedWord(length, w)
  {
  }

  // ----- The text -----

  /** The wanted text, piece by piece. */
  lemma WantedAround(c: char, low: u32, high: u32, p: Fields, precision: PrecisionField, v: int, g: Flags)
    requires v == WantedValue(c, low, high, p.flags) && g == WantedFlags(c, p.flags, precision)
    ensures WantedText(c, low, high, p, precision)
         == AroundDigits(if InAlternateForm(c, p.flags) then AlternatePrefix(Absolute(v), Base(c), g)
                         else SignText(v < 0, g),
                         if InAlternateForm(c, p.flags) then AlternateDigits(Absolute(v), Base(c), p.precision, g)
                         else C11Digits(Absolute(v), Base(c), p.precision, g),
                         p.width, Left in g, ZeroPad in g && Precision !in g)
  {
    if !InAlternateForm(c, p.flags) {
      TextAroundAny(Absolute(v), v < 0, Base(c), p.precision, p.width, g);
    }
  }

  lemma TextAroundAny(value: nat, negative: bool, base: nat, prec: u32, width: u32, g: Flags)
    requires 2 <= base <= 16
    ensures C11Text(value, negative, base, prec, width, g)
         == AroundDigits(SignText(negative, g), C11Digits(value, base, prec, g), width, Left in g,
                         ZeroPad in g && Precision !in g)
  {
  }

  lemma BaseAsWritten(c: char)
    requires IsInteger(c)
    ensures Base(c) == C11.BaseOf(c)
  {
  }

  /** Sign and prefix. */
  lemma PrefixAsWritten(c: char, flags: string, f: Flags, g: Flags, v: int)
    requires IsInteger(c) && (Hash in f <==> '#' in flags) && (c == 'd' || c == 'i' || v >= 0)
    requires Plus in g <==> IsSigned(c) && '+' in flags
    requires Space in g <==> IsSigned(c) && ' ' in flags
    requires Uppercase in g <==> c == 'X'
    ensures C11.PrefixOf(flags, c, v)
         == if InAlternateForm(c, f) then AlternatePrefix(Absolute(v), Base(c), g) else SignText(v < 0, g)
  {
  }

  /** The digits. */
  lemma DigitsAsWritten(c: char, flags: string, precision: PrecisionField, f: Flags, g: Flags, value: nat, prec: u32)
    requires IsInteger(c) && (Hash in f <==> '#' in flags) && (Uppercase in g <==> c == 'X')
    requires Precision in g <==> C11.GivenPrecision(precision).Some?
    requires C11.GivenPrecision(precision).Some? ==> prec == C11.GivenPrecision(precision).value
    ensures C11.DigitsOf(flags, precision, c, value)
         == if InAlternateForm(c, f) then AlternateDigits(value, Base(c), prec, g)
            else C11Digits(value, Base(c), prec, g)
  {
    BaseAsWritten(c);
    LeastDigits(c, precision, g, value, Base(c), prec);
    if InAlternateForm(c, f) {
      assert Base(c) == 8 <==> c == 'o';
    }
  }

  lemma LeastDigits(c: char, precision: PrecisionField, g: Flags, value: nat, base: nat, prec: u32)
    requires 2 <= base <= 16 && (Uppercase in g <==> c == 'X')
    requires Precision in g <==> C11.GivenPrecision(precision).Some?
    requires C11.GivenPrecision(precision).Some? ==> prec == C11.GivenPrecision(precision).value
    ensures C11Digits(value, base, prec, g) == C11.LeastDigits(precision, value, base, C11.Symbols(c))
  {
    DigitsAreNumeral(value, base, c);
  }

  /** The standard's text, piece by piece. */
  lemma TextAsWritten(flags: string, width: WidthField, precision: PrecisionField, length: Length, c: char,
                      low: u32, high: u32, v: int)
    requires v == C11.ValueOf(c, length, low, high)
    ensures C11.IntegerTextOf(flags, width, precision, length, c, low, high)
         == AroundDigits(C11.PrefixOf(flags, c, v), C11.DigitsOf(flags, precision, c, Absolute(v)),
                         C11.FieldWidth(width), C11.LeftJustified(flags, width),
                         '0' in flags && C11.GivenPrecision(precision).None?)
  {
  }

  /** The pieces are the same. */
  lemma PiecesAsWritten(p: Fields, flags: string, width: WidthField, precision: PrecisionField, length: Length,
                        c: char, v: int, g: Flags)
    requires IsInteger(c) && FlagChars(flags) && WrittenFrom(p, flags, width, precision, length)
    requires g == WantedFlags(c, p.flags, precision) && (c == 'd' || c == 'i' || v >= 0)
    ensures C11.PrefixOf(flags, c, v)
         == if InAlternateForm(c, p.flags) then AlternatePrefix(Absolute(v), Base(c), g) else SignText(v < 0, g)
    ensures C11.DigitsOf(flags, precision, c, Absolute(v))
         == if InAlternateForm(c, p.flags) then AlternateDigits(Absolute(v), Base(c), p.precision, g)
            else C11Digits(Absolute(v), Base(c), p.precision, g)
  {
    FlagsAsWritten(p, flags, width, precision, length, c, g);
    NumbersAsWritten(p, flags, width, precision, length);
    PrefixAsWritten(c, flags, p.flags, g, v);
    DigitsAsWritten(c, flags, precision, p.flags, g, Absolute(v), p.precision);
  }

  /** The text that the conformance theorems speak of is the standard's, of the specification as it is
      written. */
  lemma WantedAsWritten(p: Fields, flags: string, width: WidthField, precision: PrecisionField, length: Length,
                        c: char, low: u32, high: u32)
    requires IsInteger(c) && FlagChars(flags) && WrittenFrom(p, flags, width, precision, length)
    ensures WantedText(c, low, high, p, precision)
         == C11.IntegerTextOf(flags, width, precision, length, c, low, high)
  {
    var v, g := C11.ValueOf(c, length, low, high), WantedFlags(c, p.flags, precision);
    ValueAsWritten(p, flags, width, precision, length, c, low, high);
    WantedAround(c, low, high, p, precision, v, g);
    PiecesAsWritten(p, flags, width, precision, length, c, v, g);
    TextAsWritten(flags, width, precision, length, c, low, high, v);
    FlagsAsWritten(p, flags, width, precision, length, c, g);
    NumbersAsWritten(p, flags, width, precision, length);
  }

  // ----- Integers -----

  /** For every integer specification that the standard knows, as a programmer writes it, with any flags, '*'
      arguments and lengths, and for every argument: printf prints what the standard asks for exactly when the
      condition holds. ('%b' is not in the standard; without '#' it is taken as the others are.) */
  lemma PrintedConformsExactlyWhen(fmt: CString, args: seq<Arg>, flags: string, width: WidthField,
                                   precision: PrecisionField, length: Length, c: char, low: u32, high: u32,
                                   rest: seq<Arg>, p: Fields)
    requires C11.FlagCharacters(flags) && IsAlone(fmt, SpecText(flags, width, precision, length), c)
    requires C11.IsIntegerSpecifier(c) && ('#' in flags ==> c != 'b')
    requires WrittenFrom(p, flags, width, precision, length) && p.at == |fmt| - 1
    requires p.args == [Word(low)] + rest && args == ArgsBefore(width, precision, p.args)
    requires length == LL || length == J ==> rest != [] && rest[0] == Word(high)
    ensures PrintsText(fmt, args, C11.IntegerTextOf(flags, width, precision, length, c, low, high))
        <==> PrintedConforms(c, low, high, p, precision)
  {
    WantedPrintedExactlyWhen(fmt, args, flags, width, precision, length, c, low, high, rest, p);
    WantedAsWritten(p, flags, width, precision, length, c, low, high);
  }

  /** "%lld" of 5: the code prints nothing, the standard asks for some text. */
  lemma LongLongLost(fmt: CString, p: Fields)
    requires IsAlone(fmt, SpecText("", WidthNumber(0), NoPrecision, LL), 'd')
    requires WrittenFrom(p, "", WidthNumber(0), NoPrecision, LL) && p.at == |fmt| - 1
    requires p.args == [Word(5)] + [Word(0)]
    ensures PrintsText(fmt, ArgsBefore(WidthNumber(0), NoPrecision, p.args), "")
    ensures C11.IntegerTextOf("", WidthNumber(0), NoPrecision, LL, 'd', 5, 0) != ""
  {
    IntegerSpecRendered(fmt, ArgsBefore(WidthNumber(0), NoPrecision, p.args), "", WidthNumber(0), NoPrecision, LL, 'd',
                        5, [Word(0)], p);
    FlagsWritten(p, "", WidthNumber(0), NoPrecision, LL);
    LongLongConforms('d', 5, 0, p, NoPrecision);
    WantedAsWritten(p, "", WidthNumber(0), NoPrecision, LL, 'd', 5, 0);
  }

  /** Reading back what an integer specification without '#' prints gives the argument: always if it is unsigned,
      and with its sign exactly when it is not negative or the zeros leave room for the sign. */
  lemma PrintedDecodesExactlyWhen(fmt: CString, args: seq<Arg>, flags: string, width: WidthField,
                                  precision: PrecisionField, length: Length, c: char, w: u32, rest: seq<Arg>, p: Fields)
    requires C11.FlagCharacters(flags) && IsAlone(fmt, SpecText(flags, width, precision, length), c)
    requires C11.IsIntegerSpecifier(c) && '#' !in flags && !C11.IsLongLong(length)
    requires WrittenFrom(p, flags, width, precision, length) && p.at == |fmt| - 1
    requires p.args == [Word(w)] + rest && args == ArgsBefore(width, precision, p.args)
    ensures Rendered(fmt, 0, args).Some? && Rendered(fmt, 0, args).value.1 == rest
    ensures var text := Rendered(fmt, 0, args).value.0;
      var v := C11.ValueOf(c, length, w, 0);
      var digits := C11.GivenPrecision(precision);
      (if c == 'd' || c == 'i' then SignedValue(text) else Decode(text, C11.BaseOf(c))) == v
      <==> || v >= 0 || C11.LeftJustified(flags, width)
           || ((digits.Some? ==> digits.value < 32)
               && ('0' in flags && precision == NoPrecision ==> C11.FieldWidth(width) <= 32))
  {
    IntegerSpecRendered(fmt, args, flags, width, precision, length, c, w, rest, p);
    DecodedAsWritten(p, flags, width, precision, length, c, w);
  }

  lemma DecodedAsWritten(p: Fields, flags: string, width: WidthField, precision: PrecisionField, length: Length,
                         c: char, w: u32)
    requires FlagChars(flags) && IsInteger(c) && '#' !in flags && !C11.IsLongLong(length)
    requires WrittenFrom(p, flags, width, precision, length)
    ensures var text := IntegerConversion(c, w, p.precision, p.width, p.flags);
      var v := C11.ValueOf(c, length, w, 0);
      var digits := C11.GivenPrecision(precision);
      (if c == 'd' || c == 'i' then SignedValue(text) else Decode(text, C11.BaseOf(c))) == v
      <==> || v >= 0 || C11.LeftJustified(flags, width)
           || ((digits.Some? ==> digits.value < 32)
               && ('0' in flags && precision == NoPrecision ==> C11.FieldWidth(width) <= 32))
  {
    LengthAsWritten(p, flags, width, precision, length);
    ArgumentAsWritten(w, length, p.flags);
    FlagsOfSpec(p, flags, width, precision, length);
    NumbersAsWritten(p, flags, width, precision, length);
    if IsSigned(c) {
      SignedDecodesExactlyWhen(c, w, p.precision, p.width, p.flags);
    } else {
      UnsignedDecodes(c, w, p.precision, p.width, p.flags);
    }
  }

  /** '%#b', an extension without a text in the standard, prints 0b in front of the digits, of a value that is not
      zero, as long as that fits the buffer and the digits are not as long as the width. */
  lemma BinarySpecRendered(fmt: CString, args: seq<Arg>, flags: string, width: WidthField, length: Length, w: u32,
                           digits: string, rest: seq<Arg>, p: Fields)
    requires C11.FlagCharacters(flags) && IsAlone(fmt, SpecText(flags, width, NoPrecision, length), 'b')
    requires WrittenFrom(p, flags, width, NoPrecision, length) && p.at == |fmt| - 1
    requires p.args == [Word(w)] + rest && args == ArgsBefore(width, NoPrecision, p.args)
    requires '#' in flags && '0' !in flags && !C11.IsLongLong(length) && C11.UnsignedWord(length, w) != 0
    requires digits == C11.Numeral(C11.UnsignedWord(length, w), 2, "0123456789abcdef")
    requires |digits| <= 30 && |digits| != C11.FieldWidth(width)
    ensures Rendered(fmt, 0, args) == Some((C11.BlankPadded(flags, width, "0b" + digits), rest))
  {
    IntegerSpecRendered(fmt, args, flags, width, NoPrecision, length, 'b', w, rest, p);
    BinaryShown(p, flags, width, length, w, C11.UnsignedWord(length, w), digits);
  }

  lemma BinaryShown(p: Fields, flags: string, width: WidthField, length: Length, w: u32, value: nat, digits: string)
    requires FlagChars(flags) && WrittenFrom(p, flags, width, NoPrecision, length)
    requires '#' in flags && '0' !in flags && value == C11.UnsignedWord(length, w) != 0
    requires digits == C11.Numeral(value, 2, "0123456789abcdef")
    requires |digits| <= 30 && |digits| != C11.FieldWidth(width)
    ensures p.precision == 0
    ensures IntegerConversion('b', w, 0, p.width, p.flags) == C11.BlankPadded(flags, width, "0b" + digits)
  {
    LengthAsWritten(p, flags, width, NoPrecision, length);
    ArgumentAsWritten(w, length, p.flags);
    LowerCaseNumeral(value, digits);
    FlagsOfSpec(p, flags, width, NoPrecision, length);
    NumbersAsWritten(p, flags, width, NoPrecision, length);
    BinaryConversion(w, p.width, p.flags, digits);
    BinaryPadded(flags, width, digits);
  }

  lemma BinaryConversion(w: u32, width: u32, f: Flags, digits: string)
    requires UnsignedArgument(w, f) != 0 && digits == Digits(UnsignedArgument(w, f), 2, false)
    requires |digits| <= 30 && |digits| != width
    requires Hash in f && ZeroPad !in f && Precision !in f && Uppercase !in f
    ensures IntegerConversion('b', w, 0, width, f)
         == if Left in f then "0b" + digits + Repeat(' ', width - |digits| - 2)
            else Repeat(' ', width - |digits| - 2) + ("0b" + digits)
  {
    BinaryFlags(f);
    BinaryText(UnsignedArgument(w, f), width, IntegerFlags('b', f), digits);
  }

  lemma BinaryPadded(flags: string, width: WidthField, digits: string)
    ensures C11.BlankPadded(flags, width, "0b" + digits)
         == if C11.LeftJustified(flags, width)
            then "0b" + digits + Repeat(' ', C11.FieldWidth(width) - |digits| - 2)
            else Repeat(' ', C11.FieldWidth(width) - |digits| - 2) + ("0b" + digits)
  {
  }

  lemma LowerCaseNumeral(value: u32, digits: string)
    requires digits == C11.Numeral(value, 2, "0123456789abcdef")
    ensures digits == Digits(value, 2, false)
  {
    DigitsAreNumeral(value, 2, 'b');
  }

  lemma BinaryFlags(f: Flags)
    ensures var g := IntegerFlags('b', f);
      && (Left in g <==> Left in f) && (Hash in g <==> Hash in f) && (Uppercase in g <==> Uppercase in f)
      && (Precision in g <==> Precision in f) && (ZeroPad in g <==> ZeroPad in f && Precision !in f)
      && Plus !in g && Space !in g
  {
  }

  lemma BinaryText(value: u32, width: u32, f: Flags, digits: string)
    requires value != 0 && digits == Digits(value, 2, false) && |digits| <= 30 && |digits| != width
    requires Hash in f && Plus !in f && Space !in f && ZeroPad !in f && Precision !in f && Uppercase !in f
    ensures IntegerText(value, false, 2, 0, width, f)
         == if Left in f then "0b" + digits + Repeat(' ', width - |digits| - 2)
            else Repeat(' ', width - |digits| - 2) + ("0b" + digits)
  {
    assert digits != [] && f - {Hash} != f;
    assert PrintedDigits(value, 2, f) == digits && NarrowedWidth(width, false, f) == width;
    BinaryMarked(digits, width, f);
  }

  lemma BinaryMarked(digits: string, width: u32, f: Flags)
    requires digits != [] && |digits| <= 30 && |digits| != width
    requires Hash in f && Plus !in f && Space !in f && ZeroPad !in f && Precision !in f && Uppercase !in f
    ensures Prefixed(Trimmed(digits, 2, 0, width, f), 2, f) == "0b" + digits
    ensures WithSign("0b" + digits, false, f) == "0b" + digits
  {
    assert FilledLength(|digits|, 0, width, f) == |digits|;
    assert Repeat('0', 0) + digits == digits;
    assert digits[0..] == digits;
    assert "0" + ("b" + digits) == "0b" + digits;
  }

  // ----- The other conversions -----

  /** A format of one specification prints its conversion. */
  lemma AloneRendered(fmt: CString, args: seq<Arg>, flags: string, width: WidthField, precision: PrecisionField,
                      length: Length, c: char, p: Fields, piece: Piece, text: string, rest: seq<Arg>)
    requires FlagChars(flags) && IsAlone(fmt, SpecText(flags, width, precision, length), c) && AfterLength(c)
    requires WrittenFrom(p, flags, width, precision, length) && p.at == |fmt| - 1
    requires args == ArgsBefore(width, precision, p.args) && Conversion(c, p) == Some((piece, rest))
    requires PieceText(piece) == text
    ensures Rendered(fmt, 0, args) == Some((text, rest))
  {
    AloneContinues(fmt, SpecText(flags, width, precision, length), c);
    SpecConverted(fmt, 0, args, flags, width, precision, length, p);
    LastTurn(fmt, 0, args, Turn(piece, |fmt|, rest));
  }

  lemma PaddedAsWritten(body: string, p: Fields, flags: string, width: WidthField, precision: PrecisionField,
                        length: Length)
    requires FlagChars(flags) && WrittenFrom(p, flags, width, precision, length)
    ensures Padded(body, p.width, p.flags) == C11.BlankPadded(flags, width, body)
  {
    CharsOfFlags(flags);
    NumbersAsWritten(p, flags, width, precision, length);
  }

  /** %c prints the character that the low byte of its argument is, in blanks up to the width. */
  lemma CharSpecRendered(fmt: CString, args: seq<Arg>, flags: string, width: WidthField, precision: PrecisionField,
                         length: Length, w: u32, ch: char, rest: seq<Arg>, p: Fields)
    requires C11.FlagCharacters(flags) && IsAlone(fmt, SpecText(flags, width, precision, length), 'c')
    requires WrittenFrom(p, flags, width, precision, length) && p.at == |fmt| - 1
    requires p.args == [Word(w)] + rest && args == ArgsBefore(width, precision, p.args)
    requires ch as int == w % 256
    ensures Rendered(fmt, 0, args) == Some((C11.BlankPadded(flags, width, [ch]), rest))
  {
    assert p.args[1..] == rest;
    PaddedAsWritten([ch], p, flags, width, precision, length);
    AloneRendered(fmt, args, flags, width, precision, length, 'c', p, Character(w, p.width, p.flags),
                  C11.BlankPadded(flags, width, [ch]), rest);
  }

  /** %s prints what the standard asks for exactly when its precision is not a negative '*' argument, or the
      string is all blanks and no longer than the width: the code takes a negative precision for 0. */
  lemma StringSpecConformsExactlyWhen(fmt: CString, args: seq<Arg>, flags: string, width: WidthField,
                                      precision: PrecisionField, length: Length, text: CString, rest: seq<Arg>,
                                      p: Fields)
    requires C11.FlagCharacters(flags) && IsAlone(fmt, SpecText(flags, width, precision, length), 's')
    requires WrittenFrom(p, flags, width, precision, length) && p.at == |fmt| - 1
    requires p.args == [Str(text)] + rest && args == ArgsBefore(width, precision, p.args)
    ensures Rendered(fmt, 0, args).Some? && Rendered(fmt, 0, args).value.1 == rest
    ensures Rendered(fmt, 0, args).value.0 == C11.StringTextOf(flags, width, precision, text)
        <==> || !precision.DotStar? || precision.w < 0x8000_0000
             || (|text| <= C11.FieldWidth(width) && forall i :: 0 <= i < |text| ==> text[i] == ' ')
  {
    StringConversion(p, text, rest);
    AloneRendered(fmt, args, flags, width, precision, length, 's', p, Chars(text, p.precision, p.width, p.flags),
                  Padded(Shown(text, p.precision, p.flags), p.width, p.flags), rest);
    StringTextExactlyWhen(p, flags, width, precision, length, text);
  }

  lemma StringConversion(p: Fields, text: CString, rest: seq<Arg>)
    requires p.args == [Str(text)] + rest
    ensures Conversion('s', p) == Some((Chars(text, p.precision, p.width, p.flags), rest))
  {
    assert p.args[1..] == rest;
  }

  lemma StringTextExactlyWhen(p: Fields, flags: string, width: WidthField, precision: PrecisionField, length: Length,
                              text: CString)
    requires FlagChars(flags) && WrittenFrom(p, flags, width, precision, length)
    ensures Padded(Shown(text, p.precision, p.flags), p.width, p.flags)
            == C11.StringTextOf(flags, width, precision, text)
        <==> || !precision.DotStar? || precision.w < 0x8000_0000
             || (|text| <= C11.FieldWidth(width) && forall i :: 0 <= i < |text| ==> text[i] == ' ')
  {
    PaddedAsWritten(Shown(text, p.precision, p.flags), p, flags, width, precision, length);
    ShownAsWritten(text, p, flags, width, precision, length);
    if precision.DotStar? && precision.w >= 0x8000_0000 {
      BlankPaddedEmpty(flags, width, text);
    }
  }

  lemma ShownAsWritten(text: CString, p: Fields, flags: string, width: WidthField, precision: PrecisionField,
                       length: Length)
    requires FlagChars(flags) && WrittenFrom(p, flags, width, precision, length)
    ensures Shown(text, p.precision, p.flags)
         == if precision.DotStar? && precision.w >= 0x8000_0000 then ""
            else text[..if C11.GivenPrecision(precision).Some? then Min(|text|, C11.GivenPrecision(precision).value)
                        else |text|]
  {
    FlagsWritten(p, flags, width, precision, length);
    assert text[..|text|] == text;
  }

  /** Blanks alone stand for a text exactly when it is blank and fits. */
  lemma BlankPaddedEmpty(flags: string, width: WidthField, text: string)
    ensures C11.BlankPadded(flags, width, "") == C11.BlankPadded(flags, width, text[..|text|])
        <==> |text| <= C11.FieldWidth(width) && forall i :: 0 <= i < |text| ==> text[i] == ' '
  {
    var wide := C11.FieldWidth(width) as int;
    var blanks := C11.BlankPadded(flags, width, "");
    var padded := C11.BlankPadded(flags, width, text);
    assert text[..|text|] == text;
    assert |blanks| == wide && (forall i :: 0 <= i < wide ==> blanks[i] == ' ');
    var start := if C11.LeftJustified(flags, width) then 0 else |padded| - |text|;
    assert forall i :: 0 <= i < |text| ==> padded[start + i] == text[i];
  }

  /** %p prints the eight upper-case hexadecimal digits of its argument, whatever the width. */
  lemma PointerSpecRendered(fmt: CString, args: seq<Arg>, flags: string, width: WidthField, precision: PrecisionField,
                            length: Length, w: u32, digits: string, rest: seq<Arg>, p: Fields)
    requires C11.FlagCharacters(flags) && IsAlone(fmt, SpecText(flags, width, precision, length), 'p')
    requires WrittenFrom(p, flags, width, precision, length) && p.at == |fmt| - 1
    requires p.args == [Word(w)] + rest && args == ArgsBefore(width, precision, p.args)
    requires '#' !in flags && '+' !in flags && ' ' !in flags && !C11.LeftJustified(flags, width)
    requires C11.GivenPrecision(precision).Some? ==> C11.GivenPrecision(precision).value <= 8
    requires digits == C11.Numeral(w, 16, "0123456789ABCDEF")
    ensures Rendered(fmt, 0, args) == Some((Repeat('0', 8 - |digits|) + digits, rest))
  {
    PointerConversion(p, w, rest);
    PointerFlags(p, flags, width, precision, length, p.flags + {ZeroPad, Uppercase});
    PointerPiece(w, p.precision, p.flags, p.flags + {ZeroPad, Uppercase});
    UpperCaseNumeral(w, digits);
    PointerDigits(w, p.precision, p.flags + {ZeroPad, Uppercase}, digits);
    AloneRendered(fmt, args, flags, width, precision, length, 'p', p, Pointer(w, p.precision, p.flags),
                  Repeat('0', 8 - |digits|) + digits, rest);
  }

  lemma PointerConversion(p: Fields, w: u32, rest: seq<Arg>)
    requires p.args == [Word(w)] + rest
    ensures Conversion('p', p) == Some((Pointer(w, p.precision, p.flags), rest))
  {
    assert p.args[1..] == rest;
  }

  lemma UpperCaseNumeral(w: u32, digits: string)
    requires digits == C11.Numeral(w, 16, "0123456789ABCDEF")
    ensures digits == Digits(w, 16, true)
  {
    DigitsAreNumeral(w, 16, 'X');
  }

  lemma PointerPiece(w: u32, prec: u32, f: Flags, g: Flags)
    requires g == f + {ZeroPad, Uppercase}
    ensures PieceText(Pointer(w, prec, f)) == IntegerText(w, false, 16, prec, 8, g)
  {
  }

  lemma PointerFlags(p: Fields, flags: string, width: WidthField, precision: PrecisionField, length: Length, f: Flags)
    requires FlagChars(flags) && WrittenFrom(p, flags, width, precision, length) && f == p.flags + {ZeroPad, Uppercase}
    requires '#' !in flags && '+' !in flags && ' ' !in flags && !C11.LeftJustified(flags, width)
    requires C11.GivenPrecision(precision).Some? ==> C11.GivenPrecision(precision).value <= 8
    ensures p.precision <= 8 && Hash !in f && Plus !in f && Space !in f && Left !in f
  {
    CharsOfFlags(flags);
    NumbersAsWritten(p, flags, width, precision, length);
  }

  lemma PointerDigits(w: u32, prec: u32, f: Flags, digits: string)
    requires prec <= 8 && ZeroPad in f && Uppercase in f && Hash !in f && Plus !in f && Space !in f && Left !in f
    requires digits == Digits(w, 16, true)
    ensures IntegerText(w, false, 16, prec, 8, f) == Repeat('0', 8 - |digits|) + digits
  {
    var d := PrintedDigits(w, 16, f);
    NoHashText(w, false, 16, prec, 8, f);
    PointerBody(w, f, digits, d);
    PointerZeros(d, prec, f);
    EightWide(Repeat('0', 8 - |d|) + d, f);
  }

  /** A zero without digits is filled up to the same eight zeros. */
  lemma PointerBody(w: u32, f: Flags, digits: string, d: string)
    requires Uppercase in f && digits == Digits(w, 16, true) && d == PrintedDigits(w, 16, f)
    ensures |d| <= 8 && Repeat('0', 8 - |d|) + d == Repeat('0', 8 - |digits|) + digits
  {
    AtMostEightDigits(w, digits);
    if d == [] {
      EightZeros(d, digits);
    }
  }

  lemma EightZeros(d: string, digits: string)
    requires d == [] && digits == "0"
    ensures Repeat('0', 8 - |d|) + d == Repeat('0', 8 - |digits|) + digits
  {
  }

  lemma AtMostEightDigits(w: u32, digits: string)
    requires digits == Digits(w, 16, true)
    ensures |digits| <= 8
  {
    assert Power(16, 4) == 65536;
    PowerAdds(16, 4, 4);
    FewDigits(w, 16, true, 8);
  }

  lemma PointerZeros(d: string, prec: u32, f: Flags)
    requires prec <= 8 && |d| <= 8 && ZeroPad in f && Left !in f
    ensures Filled(d, prec, 8, f) == Repeat('0', 8 - |d|) + d
  {
    PointerLength(|d|, prec, f);
  }

  lemma PointerLength(length: nat, prec: u32, f: Flags)
    requires prec <= 8 && length <= 8 && ZeroPad in f && Left !in f
    ensures FilledLength(length, prec, 8, f) == 8
  {
  }

  lemma EightWide(body: string, f: Flags)
    requires |body| == 8 && ZeroPad in f && Plus !in f && Space !in f && Left !in f
    ensures Justified(WithSign(body, false, f), 8, f) == body
  {
    assert "" + body == body;
  }

  /** '%' behind any fields, as any other character that is no conversion, stands for itself and takes no
      argument. */
  lemma OtherSpecRendered(fmt: CString, args: seq<Arg>, flags: string, width: WidthField, precision: PrecisionField,
                          length: Length, c: char, p: Fields)
    requires C11.FlagCharacters(flags) && IsAlone(fmt, SpecText(flags, width, precision, length), c)
    requires c !in "0123456789.*-+ #lhjztdiuxXobfFeEgGcsp"
    requires WrittenFrom(p, flags, width, precision, length) && p.at == |fmt| - 1
    requires args == ArgsBefore(width, precision, p.args)
    ensures Rendered(fmt, 0, args) == Some(([c], p.args))
  {
    NoConversion(c);
    AloneRendered(fmt, args, flags, width, precision, length, c, p, Literal(c), [c], p.args);
  }

  lemma NoConversion(c: char)
    requires c !in "0123456789.*-+ #lhjztdiuxXobfFeEgGcsp"
    ensures AfterLength(c) && !IsInteger(c) && !IsFloat(c) && c != 'c' && c != 's' && c != 'p'
  {
  }

  /** From an index on, a format without '%' stands for itself and takes no argument. */
  lemma {:induction false} PlainRendered(fmt: CString, i: nat, args: seq<Arg>)
    requires i <= |fmt| && '%' !in fmt[i..]
    ensures Rendered(fmt, i, args) == Some((fmt[i..], args))
    decreases |fmt| - i
  {
    if i == |fmt| {
      assert fmt[i..] == [];
    } else {
      assert fmt[i..] == [fmt[i]] + fmt[i + 1..];
      assert fmt[i..][0] == fmt[i];
      PlainRendered(fmt, i + 1, args);
      RenderedTurn(fmt, i, args, Turn(Literal(fmt[i]), i + 1, args));
    }
  }
}
