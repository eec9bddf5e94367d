/** What the conversions of _vsnprintf in libc/stdio/stdio.c achieve for a caller: standard conformance, round
    trips and lengths. */
module ConversionResults {
  import opened Words
  import opened Numerals
  import opened IntegerFormat
  import opened IntegerDecoding
  import opened AlternateForm
  import opened FormatSpecs
  import opened Conversions
  import opened C11Printf

  /** The flags as section 7.21.6.1 of ISO C11 reads them for an integer conversion: '+' and ' ' belong to
      signed conversions, 'X' asks for upper case. */
  function C11Flags(c: char, flags: Flags): Flags {
    (if IsSigned(c) then flags else flags - {Plus, Space}) + if c == 'X' then {Uppercase} else {}
  }

  predicate WithoutHash(c: char, flags: Flags) {
    Hash !in flags || Base(c) == 10
  }

  lemma FlagsKept(c: char, flags: Flags)
    ensures var f := IntegerFlags(c, flags);
      && (Left in f <==> Left in C11Flags(c, flags))
      && (Plus in f <==> Plus in C11Flags(c, flags))
      && (Space in f <==> Space in C11Flags(c, flags))
      && (Uppercase in f <==> Uppercase in C11Flags(c, flags))
      && (Precision in f <==> Precision in C11Flags(c, flags))
      && (ZeroPad in f <==> ZeroPad in C11Flags(c, flags) && Precision !in C11Flags(c, flags))
      && (WithoutHash(c, flags) ==> Hash !in f)
  {
  }

  lemma TextAround(value: u32, negative: bool, base: nat, prec: u32, width: u32, f: Flags, sign: string, body: string)
    requires 2 <= base <= 16 && sign == SignText(negative, f) && body == C11Digits(value, base, prec, f)
    ensures C11Text(value, negative, base, prec, width, f)
         == AroundDigits(sign, body, width, Left in f, ZeroPad in f && Precision !in f)
  {
  }

  /** The standard's text depends on no more than these flags. */
  lemma SameText(value: u32, negative: bool, base: nat, prec: u32, width: u32, f: Flags, g: Flags)
    requires 2 <= base <= 16
    requires (Left in f <==> Left in g) && (Plus in f <==> Plus in g) && (Space in f <==> Space in g)
    requires (Uppercase in f <==> Uppercase in g) && (Precision in f <==> Precision in g)
    requires ZeroPad in f <==> ZeroPad in g && Precision !in g
    ensures C11Text(value, negative, base, prec, width, f) == C11Text(value, negative, base, prec, width, g)
  {
    var sign, body := SignText(negative, f), C11Digits(value, base, prec, f);
    assert SignText(negative, g) == sign;
    assert C11Digits(value, base, prec, g) == body;
    TextAround(value, negative, base, prec, width, f, sign, body);
    TextAround(value, negative, base, prec, width, g, sign, body);
  }

  /** A whole integer conversion prints what the standard asks for exactly when Conforms holds of its digits,
      sign and fields. */
  lemma ConversionConformsExactlyWhen(c: char, w: u32, prec: u32, width: u32, flags: Flags)
    requires IsInteger(c) && WithoutHash(c, flags) && (Precision !in flags ==> prec == 0)
    ensures var v := Argument(c, w, flags);
      var f := IntegerFlags(c, flags);
      IntegerConversion(c, w, prec, width, flags)
      == C11Text(Magnitude(v), v < 0, Base(c), prec, width, C11Flags(c, flags))
      <==> Conforms(|PrintedDigits(Magnitude(v), Base(c), f)|, SignText(v < 0, f), prec, width, f)
  {
    var v := Argument(c, w, flags);
    var f := IntegerFlags(c, flags);
    FlagsKept(c, flags);
    SameText(Magnitude(v), v < 0, Base(c), prec, width, f, C11Flags(c, flags));
    ConformsExactlyWhen(Magnitude(v), v < 0, Base(c), prec, width, f);
  }

  /** A decimal argument is read back from the digits and the sign exactly when it is not negative, or the
      zeros leave room for the sign. */
  lemma SignedDecodesExactlyWhen(c: char, w: u32, prec: u32, width: u32, flags: Flags)
    requires IsSigned(c)
    ensures SignedValue(IntegerConversion(c, w, prec, width, flags)) == SignedArgument(w, flags)
        <==> || SignedArgument(w, flags) >= 0 || Left in flags
             || (prec < BUFFER_SIZE && (ZeroPad in flags && Precision !in flags ==> width <= BUFFER_SIZE))
  {
    var v := SignedArgument(w, flags);
    var f := IntegerFlags(c, flags);
    SignedText(c, w, prec, width, flags, v, f);
    SignedTextDecodes(Magnitude(v), v < 0, prec, width, f);
  }

  lemma SignedText(c: char, w: u32, prec: u32, width: u32, flags: Flags, v: int, f: Flags)
    requires IsSigned(c) && v == SignedArgument(w, flags) && f == IntegerFlags(c, flags)
    ensures IntegerConversion(c, w, prec, width, flags) == IntegerText(Magnitude(v), v < 0, 10, prec, width, f)
    ensures Hash !in f && (Left in f <==> Left in flags) && (ZeroPad in f <==> ZeroPad in flags && Precision !in flags)
  {
  }

  lemma SignedTextDecodes(value: u32, negative: bool, prec: u32, width: u32, flags: Flags)
    requires Hash !in flags && (negative ==> value > 0)
    ensures SignedValue(IntegerText(value, negative, 10, prec, width, flags))
         == (if negative then 0 - (value as int) else value)
        <==> !negative || Left in flags || (prec < BUFFER_SIZE && (ZeroPad in flags ==> width <= BUFFER_SIZE))
  {
    IntegerDecodes(value, negative, 10, prec, width, flags);
    MinusShownExactlyWhen(value, negative, 10, prec, width, flags);
    FewDecimalDigits(value, flags);
    SignFits(|PrintedDigits(value, 10, flags)|, prec, width, flags);
  }

  /** %.32d of -5: the zeros fill the buffer, and the minus sign is dropped. */
  lemma MinusDropped()
    ensures SignedArgument(0xFFFF_FFFB, {Precision}) == -5
    ensures SignedValue(IntegerConversion('d', 0xFFFF_FFFB, 32, 0, {Precision})) != -5
  {
    MinusNeedsRoom(0xFFFF_FFFB, -5, {Precision});
  }

  /** A precision of 32 leaves no number below zero its sign, unless it is left-justified. */
  lemma MinusNeedsRoom(w: u32, v: int, flags: Flags)
    requires v == SignedArgument(w, flags) && v < 0 && Left !in flags
    ensures SignedValue(IntegerConversion('d', w, 32, 0, flags)) != v
  {
    SignedDecodesExactlyWhen('d', w, 32, 0, flags);
  }

  /** The digits of a decimal text, with its minus sign if it has one. */
  ghost function SignedValue(text: string): int {
    if '-' in text then 0 - (Decode(text, 10) as int) else Decode(text, 10)
  }

  /** An unsigned argument is always read back. */
  lemma UnsignedDecodes(c: char, w: u32, prec: u32, width: u32, flags: Flags)
    requires IsInteger(c) && !IsSigned(c) && WithoutHash(c, flags)
    ensures Decode(IntegerConversion(c, w, prec, width, flags), BaseOf(c)) == UnsignedArgument(w, flags)
  {
    FlagsKept(c, flags);
    IntegerDecodes(UnsignedArgument(w, flags), false, Base(c), prec, width, IntegerFlags(c, flags));
  }

  lemma FewDecimalDigits(value: u32, flags: Flags)
    ensures |PrintedDigits(value, 10, flags)| <= 10
  {
    assert Power(10, 5) == 100000;
    PowerAdds(10, 5, 5);
    FewDigits(value, 10, Uppercase in flags, 10);
  }

  lemma SignFits(length: nat, prec: u32, width: u32, flags: Flags)
    requires length <= 10
    ensures FilledLength(length, prec, NarrowedWidth(width, true, flags), flags) < BUFFER_SIZE
        <==> Left in flags || (prec < BUFFER_SIZE && (ZeroPad in flags ==> width <= BUFFER_SIZE))
  {
  }

  // ----- '#' -----

  /** The integer conversions with an alternative form in the standard. */
  predicate HasAlternateForm(c: char) {
    c == 'x' || c == 'X' || c == 'o'
  }

  lemma SameAlternateText(value: nat, base: nat, prec: u32, width: u32, f: Flags, g: Flags)
    requires 2 <= base <= 16
    requires (Left in f <==> Left in g) && (Uppercase in f <==> Uppercase in g) && (Precision in f <==> Precision in g)
    requires ZeroPad in f <==> ZeroPad in g && Precision !in g
    ensures C11AlternateText(value, base, prec, width, f) == C11AlternateText(value, base, prec, width, g)
  {
    assert C11Digits(value, base, prec, f) == C11Digits(value, base, prec, g);
  }

  lemma AlternateFlags(c: char, w: u32, prec: u32, width: u32, flags: Flags)
    requires HasAlternateForm(c) && Hash in flags && (Precision !in flags ==> prec == 0)
    ensures Alternate(Base(c), prec, IntegerFlags(c, flags))
    ensures IntegerConversion(c, w, prec, width, flags)
         == IntegerText(UnsignedArgument(w, flags), false, Base(c), prec, width, IntegerFlags(c, flags))
  {
  }

  /** With '#', %x, %X and %o print the standard's alternative form exactly when the condition holds. */
  lemma AlternateConversionConformsExactlyWhen(c: char, w: u32, prec: u32, width: u32, flags: Flags)
    requires HasAlternateForm(c) && Hash in flags && (Precision !in flags ==> prec == 0)
    ensures var v := UnsignedArgument(w, flags);
      IntegerConversion(c, w, prec, width, flags) == C11AlternateText(v, Base(c), prec, width, C11Flags(c, flags))
      <==> HashConforms(v, Base(c), prec, width, IntegerFlags(c, flags))
  {
    var v := UnsignedArgument(w, flags);
    FlagsKept(c, flags);
    AlternateFlags(c, w, prec, width, flags);
    SameAlternateText(v, Base(c), prec, width, IntegerFlags(c, flags), C11Flags(c, flags));
    HashConformsExactlyWhen(v, Base(c), prec, width, IntegerFlags(c, flags));
  }

  /** With '#', %x, %X, %o and %b are read back exactly when a precision is given, or the digits are not
      mistaken for padding. */
  lemma HashConversionDecodesExactlyWhen(c: char, w: u32, prec: u32, width: u32, flags: Flags)
    requires IsInteger(c) && Base(c) != 10 && Hash in flags && (Precision !in flags ==> prec == 0)
    ensures var v := UnsignedArgument(w, flags);
      var length := |Digits(v, BaseOf(c), c == 'X' || Uppercase in flags)|;
      Decode(IntegerConversion(c, w, prec, width, flags), BaseOf(c)) == v
      <==> || v == 0 || Precision in flags
           || (if ZeroPad in flags && Left !in flags
               then length > width || length + (if c == 'x' || c == 'X' then 2 else 1) <= width
               else length != width)
  {
    var v, f := UnsignedArgument(w, flags), IntegerFlags(c, flags);
    HashFlags(c, w, prec, width, flags, v, f);
    if v == 0 {
      NoHashOfZero(Base(c), prec, width, f, f - {Hash});
      IntegerDecodes(0, false, Base(c), prec, width, f - {Hash});
    } else {
      HashDecodesExactlyWhen(v, false, Base(c), prec, width, f);
    }
  }

  lemma HashFlags(c: char, w: u32, prec: u32, width: u32, flags: Flags, v: u32, f: Flags)
    requires IsInteger(c) && Base(c) != 10 && Hash in flags
    requires v == UnsignedArgument(w, flags) && f == IntegerFlags(c, flags)
    ensures IntegerConversion(c, w, prec, width, flags) == IntegerText(v, false, Base(c), prec, width, f)
    ensures Hash in f && (Left in f <==> Left in flags) && (Precision in f <==> Precision in flags)
    ensures ZeroPad in f <==> ZeroPad in flags && Precision !in flags
    ensures Uppercase in f <==> c == 'X' || Uppercase in flags
    ensures NarrowedWidth(width, false, f) == width
  {
  }

  // ----- A precision that the standard takes for none -----

  /** A precision of 0 prints what no precision does: of zero it leaves nothing, and it takes '0' away. */
  ghost predicate ZeroPrecisionConforms(c: char, w: u32, width: u32, flags: Flags) {
    var v := Argument(c, w, flags);
    var g := C11Flags(c, flags - {Precision});
    && v != 0
    && (ZeroPad in g && Left !in g ==>
      width <= |SignText(v < 0, g)| + |Digits(Magnitude(v), Base(c), Uppercase in g)|)
  }

  /** The code keeps the precision flag of a negative '*' precision and makes the precision 0. That conforms
      exactly when the argument is not zero, and no zeros were to fill the width. */
  lemma NegativePrecisionConformsExactlyWhen(c: char, w: u32, width: u32, flags: Flags)
    requires IsInteger(c) && WithoutHash(c, flags) && Precision in flags
    ensures var v := Argument(c, w, flags);
      IntegerConversion(c, w, 0, width, flags)
      == C11Text(Magnitude(v), v < 0, Base(c), 0, width, C11Flags(c, flags - {Precision}))
      <==> ZeroPrecisionConforms(c, w, width, flags)
  {
    var v := Argument(c, w, flags);
    ZeroPrecisionText(c, w, v, width, flags, C11Flags(c, flags - {Precision}));
    NoPrecisionExactlyWhen(Magnitude(v), v < 0, Base(c), width, C11Flags(c, flags - {Precision}));
  }

  /** %.*d of 0 with the argument -1: the code prints nothing, the standard asks for "0". */
  lemma ZeroLost()
    ensures IntegerConversion('d', 0, 0, 0, {Precision}) != C11Text(0, false, 10, 0, 0, {})
  {
    assert C11Flags('d', {Precision} - {Precision}) == {};
    NegativePrecisionConformsExactlyWhen('d', 0, 0, {Precision});
  }

  /** The same with '#'. */
  ghost predicate ZeroHashPrecisionConforms(c: char, w: u32, width: u32, flags: Flags)
    requires HasAlternateForm(c)
  {
    var v := UnsignedArgument(w, flags);
    var g := C11Flags(c, flags - {Precision});
    && v != 0
    && (ZeroPad in g && Left !in g ==>
      width <= |Digits(v, Base(c), Uppercase in g)| + PrefixLength(Base(c)))
  }

  lemma NegativeHashPrecisionConformsExactlyWhen(c: char, w: u32, width: u32, flags: Flags)
    requires HasAlternateForm(c) && Hash in flags && Precision in flags
    ensures IntegerConversion(c, w, 0, width, flags)
            == C11AlternateText(UnsignedArgument(w, flags), Base(c), 0, width, C11Flags(c, flags - {Precision}))
        <==> ZeroHashPrecisionConforms(c, w, width, flags)
  {
    var v, g := UnsignedArgument(w, flags), C11Flags(c, flags - {Precision});
    if v == 0 {
      ZeroHashText(c, w, width, flags, IntegerFlags(c, flags), g);
    } else {
      NonzeroHashText(c, w, v, width, flags, g);
      NoHashPrecisionExactlyWhen(v, Base(c), width, g);
    }
  }

  lemma ZeroHashText(c: char, w: u32, width: u32, flags: Flags, f: Flags, g: Flags)
    requires HasAlternateForm(c) && Hash in flags && Precision in flags && UnsignedArgument(w, flags) == 0
    requires f == IntegerFlags(c, flags) && g == C11Flags(c, flags - {Precision})
    ensures IntegerConversion(c, w, 0, width, flags) != C11AlternateText(0, Base(c), 0, width, g)
  {
    AlternateFlags(c, w, 0, width, flags);
    ZeroHashLost(Base(c), width, f, g);
  }

  lemma NonzeroHashText(c: char, w: u32, v: u32, width: u32, flags: Flags, g: Flags)
    requires HasAlternateForm(c) && Hash in flags && Precision in flags
    requires v == UnsignedArgument(w, flags) > 0 && g == C11Flags(c, flags - {Precision})
    ensures IntegerConversion(c, w, 0, width, flags) == C11AlternateText(v, Base(c), 0, width, g + {Precision})
  {
    assert C11Flags(c, flags) == g + {Precision};
    AlternateConversionConformsExactlyWhen(c, w, 0, width, flags);
    HashNumeral(v, Base(c), Uppercase in IntegerFlags(c, flags), IntegerFlags(c, flags));
  }

  lemma ZeroPrecisionText(c: char, w: u32, v: int, width: u32, flags: Flags, g: Flags)
    requires IsInteger(c) && WithoutHash(c, flags) && Precision in flags
    requires v == Argument(c, w, flags) && g == C11Flags(c, flags - {Precision})
    ensures IntegerConversion(c, w, 0, width, flags) == C11Text(Magnitude(v), v < 0, Base(c), 0, width, g + {Precision})
  {
    assert C11Flags(c, flags) == g + {Precision};
    ZeroPrecisionFits(c, w, width, flags);
    ConversionConformsExactlyWhen(c, w, 0, width, flags);
  }

  lemma ZeroPrecisionFits(c: char, w: u32, width: u32, flags: Flags)
    requires IsInteger(c) && Precision in flags
    ensures var v := Argument(c, w, flags);
      var f := IntegerFlags(c, flags);
      Conforms(|PrintedDigits(Magnitude(v), Base(c), f)|, SignText(v < 0, f), 0, width, f)
  {
    var v := Argument(c, w, flags);
    AtMost32Digits(Magnitude(v), Base(c), Uppercase in IntegerFlags(c, flags));
    if IsSigned(c) {
      FewDecimalDigits(Magnitude(v), IntegerFlags(c, flags));
    }
  }

  // ----- Lengths -----

  /** The number of characters of an integer without '#'. */
  lemma IntegerLength(value: u32, negative: bool, base: nat, prec: u32, width: u32, flags: Flags)
    requires 2 <= base <= 16 && Hash !in flags
    ensures var narrowed := NarrowedWidth(width, negative, flags);
      var n := FilledLength(|PrintedDigits(value, base, flags)|, prec, narrowed, flags);
      var shown := if n < BUFFER_SIZE then n + |SignText(negative, flags)| else n;
      |IntegerText(value, negative, base, prec, width, flags)|
      == if ZeroPad in flags && Left !in flags then shown else Max(shown, narrowed)
  {
    NoHashText(value, negative, base, prec, width, flags);
  }

  /** It is the larger of the width and of sign, digits and precision zeros, exactly when these fit the
      buffer, or when blanks make up for what does not. */
  lemma LengthExactlyWhen(value: u32, negative: bool, base: nat, prec: u32, width: u32, flags: Flags)
    requires 2 <= base <= 16 && Normalised(prec, flags)
    ensures var sign, d := |SignText(negative, flags)|, |PrintedDigits(value, base, flags)|;
      var n := sign + if Left in flags then d else Max(d, prec);
      |IntegerText(value, negative, base, prec, width, flags)| == Max(width, n)
      <==> if ZeroPad in flags && Left !in flags then Max(width, n) <= BUFFER_SIZE else n <= Max(width, BUFFER_SIZE)
  {
    var d := |PrintedDigits(value, base, flags)|;
    IntegerLength(value, negative, base, prec, width, flags);
    AtMost32Digits(value, base, Uppercase in flags);
    LengthsAgree(d, |SignText(negative, flags)|, negative, prec, width, flags);
  }

  lemma LengthsAgree(d: nat, sign: nat, negative: bool, prec: u32, width: u32, flags: Flags)
    requires Normalised(prec, flags) && d <= BUFFER_SIZE && sign == |SignText(negative, flags)|
    ensures var narrowed := NarrowedWidth(width, negative, flags);
      var n := FilledLength(d, prec, narrowed, flags);
      var shown := if n < BUFFER_SIZE then n + sign else n;
      var wanted := sign + if Left in flags then d else Max(d, prec);
      (if ZeroPad in flags && Left !in flags then shown else Max(shown, narrowed)) == Max(width, wanted)
      <==> if ZeroPad in flags && Left !in flags then Max(width, wanted) <= BUFFER_SIZE
           else wanted <= Max(width, BUFFER_SIZE)
  {
  }

  /** %s takes the larger of the width and of what the precision leaves of the string, and shows that. */
  lemma StringLength(text: CString, prec: u32, width: u32, flags: Flags)
    ensures var shown := if Precision in flags then Min(|text|, prec) else |text|;
      var printed := Padded(Shown(text, prec, flags), width, flags);
      && |printed| == Max(width, shown)
      && text[..shown] == if Left in flags then printed[..shown] else printed[|printed| - shown..]
  {
  }

  // ----- Whole specifications -----

  /** A specification in a format is converted with the very fields that it was written with. */
  lemma SpecConverted(fmt: CString, i: nat, args: seq<Arg>, flags: string, width: WidthField,
                      precision: PrecisionField, length: Length, p: Fields)
    requires FlagChars(flags) && i < |fmt| && fmt[i] == '%'
    requires Continues(fmt, i + 1, SpecText(flags, width, precision, length))
    requires WrittenFrom(p, flags, width, precision, length) && args == ArgsBefore(width, precision, p.args)
    requires p.at == i + 1 + |SpecText(flags, width, precision, length)|
    requires p.at < |fmt| && AfterLength(fmt[p.at])
    ensures TurnAt(fmt, i, args) == TurnFrom(Conversion(fmt[p.at], p), p.at + 1)
  {
    SpecReadBack(fmt, i + 1, args, flags, width, precision, length, p);
    TurnOfFields(fmt, i, args, p);
  }

  /** A format that is one specification and nothing else. */
  ghost predicate IsAlone(fmt: CString, spec: string, c: char) {
    fmt == ['%'] + spec + [c]
  }

  lemma AloneContinues(fmt: CString, spec: string, c: char)
    requires IsAlone(fmt, spec, c)
    ensures |fmt| == |spec| + 2 && fmt[0] == '%' && fmt[|spec| + 1] == c && Continues(fmt, 1, spec)
  {
    assert fmt[1..1 + |spec|] == spec;
    ContinuesExactlyWhen(fmt, 1, spec);
  }

  /** A last turn is all that is printed. */
  lemma LastTurn(fmt: CString, i: nat, args: seq<Arg>, t: Turn)
    requires i < |fmt| && t.behind == |fmt| && TurnAt(fmt, i, args) == Some(t)
    ensures Rendered(fmt, i, args) == Some((PieceText(t.piece), t.rest))
  {
    RenderedTurn(fmt, i, args, t);
    assert Rendered(fmt, t.behind, t.rest) == Some(([], t.rest));
    assert PieceText(t.piece) + [] == PieceText(t.piece);
  }

  /** printf with one integer specification prints its conversion, with the fields as written; with a length
      of long long, which the library is built without, it prints nothing and takes no argument. */
  lemma IntegerSpecRendered(fmt: CString, args: seq<Arg>, flags: string, width: WidthField, precision: PrecisionField,
                            length: Length, c: char, w: u32, rest: seq<Arg>, p: Fields)
    requires FlagChars(flags) && IsAlone(fmt, SpecText(flags, width, precision, length), c) && IsInteger(c)
    requires WrittenFrom(p, flags, width, precision, length) && p.at == |fmt| - 1
    requires p.args == [Word(w)] + rest && args == ArgsBefore(width, precision, p.args)
    ensures Rendered(fmt, 0, args)
         == Some(if length == LL || length == J then ([], p.args)
                 else (IntegerConversion(c, w, p.precision, p.width, p.flags), rest))
  {
    AloneContinues(fmt, SpecText(flags, width, precision, length), c);
    IntegerEndsSpec(c);
    SpecConverted(fmt, 0, args, flags, width, precision, length, p);
    FlagsWritten(p, flags, width, precision, length);
    var t := IntegerTurn(c, w, rest, p);
    LastTurn(fmt, 0, args, t);
  }

  /** The turn of an integer conversion. */
  ghost function IntegerTurn(c: char, w: u32, rest: seq<Arg>, p: Fields): (t: Turn)
    requires IsInteger(c) && p.args == [Word(w)] + rest
    ensures TurnFrom(Conversion(c, p), p.at + 1) == Some(t)
    ensures t.behind == p.at + 1
    ensures (PieceText(t.piece), t.rest)
         == if LongLong in p.flags then ([], p.args)
            else (IntegerConversion(c, w, p.precision, p.width, p.flags), rest)
  {
    assert p.args[1..] == rest;
    if LongLong in p.flags then Turn(Nothing, p.at + 1, p.args)
    else Turn(Integer(c, w, p.precision, p.width, p.flags), p.at + 1, rest)
  }

  lemma IntegerEndsSpec(c: char)
    requires IsInteger(c)
    ensures AfterLength(c)
  {
  }

  lemma FlagsWritten(p: Fields, flags: string, width: WidthField, precision: PrecisionField, length: Length)
    requires FlagChars(flags) && WrittenFrom(p, flags, width, precision, length)
    ensures LongLong in p.flags <==> length == LL || length == J
    ensures Precision in p.flags <==> precision != NoPrecision
    ensures Hash in p.flags <==> '#' in flags
  {
    assert '#' in flags ==> FlagOf('#') in CharFlags(flags);
  }

  /** A negative '*' argument, which the standard takes for a precision that was omitted. */
  predicate Omitted(precision: PrecisionField) {
    precision.DotStar? && Signed(precision.w) < 0
  }

  /** The flags as the standard reads a specification. */
  function WantedFlags(c: char, flags: Flags, precision: PrecisionField): Flags {
    C11Flags(c, if Omitted(precision) then flags - {Precision} else flags)
  }

  /** A long long argument, of two words. */
  function LongLongArgument(c: char, low: u32, high: u32): int {
    low + 0x1_0000_0000 * if IsSigned(c) then Signed(high) else high
  }

  /** The argument as the standard reads it. */
  function WantedValue(c: char, low: u32, high: u32, flags: Flags): int {
    if LongLong in flags then LongLongArgument(c, low, high) else Argument(c, low, flags)
  }

  predicate InAlternateForm(c: char, flags: Flags) {
    Hash in flags && HasAlternateForm(c)
  }

  /** What printf must print for one integer specification. */
  ghost function WantedText(c: char, low: u32, high: u32, p: Fields, precision: PrecisionField): string {
    var v := WantedValue(c, low, high, p.flags);
    var g := WantedFlags(c, p.flags, precision);
    if InAlternateForm(c, p.flags) then C11AlternateText(Absolute(v), Base(c), p.precision, p.width, g)
    else C11Text(Absolute(v), v < 0, Base(c), p.precision, p.width, g)
  }

  function Absolute(v: int): nat {
    if v < 0 then -v else v
  }

  /** When it does. */
  ghost predicate PrintedConforms(c: char, low: u32, high: u32, p: Fields, precision: PrecisionField) {
    var f := IntegerFlags(c, p.flags);
    if LongLong in p.flags then
      NothingWanted(c, LongLongArgument(c, low, high), p.precision, p.width, p.flags,
                    WantedFlags(c, p.flags, precision))
    else if InAlternateForm(c, p.flags) then
      if Omitted(precision) then ZeroHashPrecisionConforms(c, low, p.width, p.flags)
      else HashConforms(UnsignedArgument(low, p.flags), Base(c), p.precision, p.width, f)
    else
      var v := Argument(c, low, p.flags);
      if Omitted(precision) then ZeroPrecisionConforms(c, low, p.width, p.flags)
      else Conforms(|PrintedDigits(Magnitude(v), Base(c), f)|, SignText(v < 0, f), p.precision, p.width, f)
  }

  /** Nothing is asked for only of a zero with precision 0, no width and no sign; in base 8, '#' asks for a
      digit even then. */
  ghost predicate NothingWanted(c: char, v: int, prec: u32, width: u32, flags: Flags, g: Flags) {
    && v == 0 && Precision in g && prec == 0 && width == 0 && SignText(false, g) == []
    && !(InAlternateForm(c, flags) && Base(c) == 8)
  }

  lemma NothingWantedExactlyWhen(c: char, v: int, prec: u32, width: u32, flags: Flags, g: Flags)
    requires IsInteger(c) && (Precision !in g ==> prec == 0)
    requires InAlternateForm(c, flags) ==> SignText(false, g) == []
    ensures [] == (if InAlternateForm(c, flags) then C11AlternateText(Absolute(v), Base(c), prec, width, g)
                   else C11Text(Absolute(v), v < 0, Base(c), prec, width, g))
        <==> NothingWanted(c, v, prec, width, flags, g)
  {
    if InAlternateForm(c, flags) {
      EmptyAlternate(Absolute(v), Base(c), prec, width, g);
    } else {
      EmptyText(Absolute(v), v < 0, Base(c), prec, width, g);
    }
  }

  lemma EmptyText(value: nat, negative: bool, base: nat, prec: u32, width: u32, g: Flags)
    requires 2 <= base <= 16 && (negative ==> value > 0)
    ensures C11Text(value, negative, base, prec, width, g) == []
        <==> value == 0 && Precision in g && prec == 0 && width == 0 && SignText(false, g) == []
  {
    var sign, body := SignText(negative, g), C11Digits(value, base, prec, g);
    TextLength(value, negative, base, prec, width, g);
    assert body == [] <==> value == 0 && Precision in g && prec == 0;
  }

  lemma TextLength(value: nat, negative: bool, base: nat, prec: u32, width: u32, g: Flags)
    requires 2 <= base <= 16
    ensures |C11Text(value, negative, base, prec, width, g)|
         == Max(width, |SignText(negative, g)| + |C11Digits(value, base, prec, g)|)
  {
  }

  lemma EmptyAlternate(value: nat, base: nat, prec: u32, width: u32, g: Flags)
    requires (base == 8 || base == 16) && (Precision !in g ==> prec == 0)
    ensures C11AlternateText(value, base, prec, width, g) == []
        <==> base == 16 && value == 0 && Precision in g && prec == 0 && width == 0
  {
    var body := AlternateDigits(value, base, prec, g);
    AroundLength(AlternatePrefix(value, base, g), body, width, Left in g, ZeroPad in g && Precision !in g);
    assert C11Digits(value, base, prec, g) == [] <==> value == 0 && Precision in g && prec == 0;
  }

  lemma AroundLength(sign: string, body: string, width: u32, left: bool, zeros: bool)
    ensures |AroundDigits(sign, body, width, left, zeros)| == Max(width, |sign| + |body|)
  {
  }

  /** A format prints a text. */
  ghost predicate PrintsText(fmt: CString, args: seq<Arg>, text: string) {
    Rendered(fmt, 0, args).Some? && Rendered(fmt, 0, args).value.0 == text
  }

  /** For every integer specification that the standard knows, printf prints the wanted text exactly when the
      condition holds. */
  lemma WantedPrintedExactlyWhen(fmt: CString, args: seq<Arg>, flags: string, width: WidthField,
                                   precision: PrecisionField, length: Length, c: char, low: u32, high: u32,
                                   rest: seq<Arg>, p: Fields)
    requires FlagChars(flags) && IsAlone(fmt, SpecText(flags, width, precision, length), c)
    requires IsInteger(c) && ('#' in flags ==> c != 'b')
    requires WrittenFrom(p, flags, width, precision, length) && p.at == |fmt| - 1
    requires p.args == [Word(low)] + rest && args == ArgsBefore(width, precision, p.args)
    requires length == LL || length == J ==> rest != [] && rest[0] == Word(high)
    ensures PrintsText(fmt, args, WantedText(c, low, high, p, precision))
        <==> PrintedConforms(c, low, high, p, precision)
  {
    IntegerSpecRendered(fmt, args, flags, width, precision, length, c, low, rest, p);
    FlagsWritten(p, flags, width, precision, length);
    if LongLong in p.flags {
      LongLongConforms(c, low, high, p, precision);
    } else if InAlternateForm(c, p.flags) {
      AlternateConforming(c, low, high, p, precision);
    } else {
      PlainConforming(c, low, high, p, precision);
    }
  }

  lemma LongLongConforms(c: char, low: u32, high: u32, p: Fields, precision: PrecisionField)
    requires IsInteger(c) && LongLong in p.flags && (Precision !in p.flags ==> p.precision == 0)
    requires Omitted(precision) ==> p.precision == 0
    ensures WantedText(c, low, high, p, precision) == [] <==> PrintedConforms(c, low, high, p, precision)
  {
    var g := WantedFlags(c, p.flags, precision);
    NothingWantedExactlyWhen(c, LongLongArgument(c, low, high), p.precision, p.width, p.flags, g);
  }

  lemma AlternateConforming(c: char, low: u32, high: u32, p: Fields, precision: PrecisionField)
    requires InAlternateForm(c, p.flags) && LongLong !in p.flags && (Precision !in p.flags ==> p.precision == 0)
    requires Omitted(precision) ==> Precision in p.flags && p.precision == 0
    ensures IntegerConversion(c, low, p.precision, p.width, p.flags) == WantedText(c, low, high, p, precision)
        <==> PrintedConforms(c, low, high, p, precision)
  {
    if Omitted(precision) {
      NegativeHashPrecisionConformsExactlyWhen(c, low, p.width, p.flags);
    } else {
      AlternateConversionConformsExactlyWhen(c, low, p.precision, p.width, p.flags);
    }
  }

  lemma PlainConforming(c: char, low: u32, high: u32, p: Fields, precision: PrecisionField)
    requires IsInteger(c) && !InAlternateForm(c, p.flags) && (Hash in p.flags ==> c != 'b') && LongLong !in p.flags
    requires Precision !in p.flags ==> p.precision == 0
    requires Omitted(precision) ==> Precision in p.flags && p.precision == 0
    ensures IntegerConversion(c, low, p.precision, p.width, p.flags) == WantedText(c, low, high, p, precision)
        <==> PrintedConforms(c, low, high, p, precision)
  {
    PlainWanted(c, low, high, p, precision, Argument(c, low, p.flags));
    WithoutHashHere(c, p.flags);
    if Omitted(precision) {
      NegativePrecisionConformsExactlyWhen(c, low, p.width, p.flags);
    } else {
      ConversionConformsExactlyWhen(c, low, p.precision, p.width, p.flags);
    }
  }

  lemma PlainWanted(c: char, low: u32, high: u32, p: Fields, precision: PrecisionField, v: int)
    requires !InAlternateForm(c, p.flags) && LongLong !in p.flags && v == Argument(c, low, p.flags)
    ensures WantedText(c, low, high, p, precision)
         == C11Text(Magnitude(v), v < 0, Base(c), p.precision, p.width, WantedFlags(c, p.flags, precision))
  {
    assert WantedValue(c, low, high, p.flags) == v && Absolute(v) == Magnitude(v);
  }

  lemma WithoutHashHere(c: char, flags: Flags)
    requires IsInteger(c) && !InAlternateForm(c, flags) && (Hash in flags ==> c != 'b')
    ensures WithoutHash(c, flags)
  {
  }

  /** What %u prints, _atoi reads back. */
  lemma UnsignedReadBack(w: u32, text: CString)
    requires text == IntegerConversion('u', w, 0, 0, {})
    ensures NumberEnd(text, 0) == |text| && Number(text, 0) == w
  {
    PlainUnsigned(w);
    NumeralReadBack(w, text);
  }

  lemma NumeralReadBack(w: u32, text: CString)
    requires text == Digits(w, 10, false)
    ensures NumberEnd(text, 0) == |text| && Number(text, 0) == w
  {
    ContinuesExactlyWhen(text, 0, text);
    NumberReadBack(text, 0, w);
  }

  lemma PlainUnsigned(w: u32)
    ensures IntegerConversion('u', w, 0, 0, {}) == Digits(w, 10, false)
  {
    assert IntegerFlags('u', {}) == {};
    NoHashText(w, false, 10, 0, 0, {});
    assert Filled(Digits(w, 10, false), 0, 0, {}) == Digits(w, 10, false);
  }
}
