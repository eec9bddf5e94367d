/** Reading back what the integer conversions of libc/stdio/stdio.c print. */
module IntegerDecoding {
  import opened Words
  import opened Numerals
  import opened IntegerFormat

  /** Characters that are no digits do not matter, in front of a text or behind it. */
  lemma JunkVanishes(junk: string, body: string, base: nat)
    requires forall i :: 0 <= i < |junk| ==> DigitValue(junk[i]) >= base
    ensures OnlyDigits(junk + body, base) == OnlyDigits(body, base) == OnlyDigits(body + junk, base)
  {
    var digits := OnlyDigits(body, base);
    OnlyDigitsNone(junk, base);
    OnlyDigitsConcat(junk, body, base);
    OnlyDigitsConcat(body, junk, base);
    assert [] + digits == digits == digits + [];
  }

  lemma BlanksVanish(body: string, width: u32, flags: Flags, base: nat)
    requires base <= 16
    ensures OnlyDigits(Justified(body, width, flags), base) == OnlyDigits(body, base)
  {
    JunkVanishes(Repeat(' ', width - |body|), body, base);
  }

  lemma SignVanishes(body: string, negative: bool, flags: Flags, base: nat)
    requires base <= 16
    ensures OnlyDigits(WithSign(body, negative, flags), base) == OnlyDigits(body, base)
  {
    JunkVanishes(SignText(negative, flags), body, base);
  }

  lemma MarkVanishes(body: string, base: nat, flags: Flags)
    requires 2 <= base <= 16
    ensures OnlyDigits(Mark(base, flags) + body, base) == OnlyDigits(body, base)
  {
    JunkVanishes(Mark(base, flags), body, base);
  }

  lemma ZerosVanish(zeros: string, s: string, base: nat)
    requires base >= 1 && AllZeros(zeros)
    ensures Decode(zeros + s, base) == Decode(s, base)
  {
    OnlyDigitsAll(zeros, base);
    OnlyDigitsConcat(zeros, s, base);
    EvalConcat(zeros, OnlyDigits(s, base), base);
    EvalZeros(zeros, base);
  }

  lemma PrefixVanishes(body: string, base: nat, flags: Flags)
    requires 2 <= base <= 16
    ensures Decode(Prefixed(body, base, flags), base) == Decode(body, base)
  {
    MarkVanishes(body, base, flags);
    var marked := if |body| < BUFFER_SIZE then Mark(base, flags) + body else body;
    ZerosVanish("0", marked, base);
  }

  /** Padding, sign and prefix never change the value; what the '#' code trims may. */
  lemma TextDecodesAsTrimmed(digits: string, negative: bool, base: nat, prec: u32, width: u32, flags: Flags)
    requires 2 <= base <= 16
    ensures Decode(FormatText(digits, negative, base, prec, width, flags), base)
         == Decode(Trimmed(digits, base, prec, NarrowedWidth(width, negative, flags), flags), base)
  {
    var narrowed := NarrowedWidth(width, negative, flags);
    var body := Prefixed(Trimmed(digits, base, prec, narrowed, flags), base, flags);
    BlanksVanish(WithSign(body, negative, flags), narrowed, flags, base);
    SignVanishes(body, negative, flags, base);
    PrefixVanishes(Trimmed(digits, base, prec, narrowed, flags), base, flags);
  }

  /** Without '#', the digits of the text are those of the value, for every value, base, width and
      precision. */
  lemma IntegerDecodes(value: u32, negative: bool, base: nat, prec: u32, width: u32, flags: Flags)
    requires 2 <= base <= 16 && Hash !in flags
    ensures Decode(IntegerText(value, negative, base, prec, width, flags), base) == value
  {
    var d := PrintedDigits(value, base, flags);
    var narrowed := NarrowedWidth(width, negative, flags);
    NonzeroText(value, negative, base, prec, width, flags);
    TextDecodesAsTrimmed(d, negative, base, prec, width, flags);
    FilledDecodes(d, prec, narrowed, flags, base);
    assert Trimmed(d, base, prec, narrowed, flags) == Filled(d, prec, narrowed, flags);
    DigitsDecode(value, base, flags);
  }

  lemma FilledDecodes(digits: string, prec: u32, width: u32, flags: Flags, base: nat)
    requires base >= 1
    ensures Decode(Filled(digits, prec, width, flags), base) == Decode(digits, base)
  {
    ZerosVanish(Repeat('0', FilledLength(|digits|, prec, width, flags) - |digits|), digits, base);
  }

  lemma DigitsDecode(value: u32, base: nat, flags: Flags)
    requires 2 <= base <= 16
    ensures Decode(PrintedDigits(value, base, flags), base) == value
  {
    if PrintedDigits(value, base, flags) != [] {
      NumeralDecodes(value, base, Uppercase in flags);
    }
  }

  lemma NumeralDecodes(value: u32, base: nat, upper: bool)
    requires 2 <= base <= 16
    ensures Decode(Digits(value, base, upper), base) == value
  {
    AllDigits(value, base, upper);
    OnlyDigitsAll(Digits(value, base, upper), base);
    EvalDigits(value, base, upper);
  }

  /** The minus sign is printed exactly when the number is negative and the buffer has room left. */
  lemma MinusShownExactlyWhen(value: u32, negative: bool, base: nat, prec: u32, width: u32, flags: Flags)
    requires 2 <= base <= 16 && Hash !in flags
    ensures '-' in IntegerText(value, negative, base, prec, width, flags)
        <==> && negative
             && FilledLength(|PrintedDigits(value, base, flags)|, prec, NarrowedWidth(width, negative, flags), flags)
                < BUFFER_SIZE
  {
    var d := PrintedDigits(value, base, flags);
    var narrowed := NarrowedWidth(width, negative, flags);
    NoHashText(value, negative, base, prec, width, flags);
    NoMinusInDigits(value, base, flags);
    MinusInText(Filled(d, prec, narrowed, flags), negative, narrowed, flags);
  }

  lemma NoMinusInDigits(value: u32, base: nat, flags: Flags)
    requires 2 <= base <= 16
    ensures '-' !in PrintedDigits(value, base, flags)
  {
    AllDigits(value, base, Uppercase in flags);
    assert DigitValue('-') == 16;
  }

  lemma MinusInText(body: string, negative: bool, width: u32, flags: Flags)
    requires '-' !in body
    ensures '-' in Justified(WithSign(body, negative, flags), width, flags) <==> negative && |body| < BUFFER_SIZE
  {
    var signed := WithSign(body, negative, flags);
    assert '-' in signed <==> negative && |body| < BUFFER_SIZE;
    assert '-' !in Repeat(' ', width - |signed|);
  }

  /** Dropping leading zeros of a filled numeral keeps its value. */
  lemma ZerosTrimmed(zeros: string, d: string, base: nat, n: nat)
    requires base >= 1 && AllZeros(zeros) && n <= |zeros|
    ensures Decode((zeros + d)[n..], base) == Decode(d, base)
  {
    assert (zeros + d)[n..] == zeros[n..] + d;
    ZerosVanish(zeros[n..], d, base);
  }

  /** Dropping the first digit of a nonzero numeral loses some of its value. */
  lemma DigitsTrimmed(value: u32, base: nat, upper: bool, k: nat)
    requires 2 <= base <= 16 && value > 0 && 0 < k <= |Digits(value, base, upper)|
    ensures Decode(Digits(value, base, upper)[k..], base) < value
  {
    var d := Digits(value, base, upper);
    AllDigits(value, base, upper);
    EvalDigits(value, base, upper);
    LeadingDigit(value, base, upper);
    OnlyDigitsAll(d[k..], base);
    assert d == d[..k] + d[k..];
    EvalConcat(d[..k], d[k..], base);
    PositiveStart(d[..k], base);
    PowerPositive(base, |d[k..]|);
    MulLe(1, Eval(d[..k], base), Power(base, |d[k..]|));
  }

  lemma TrimmedDecodesExactlyWhen(value: u32, base: nat, upper: bool, zeros: string, n: nat)
    requires 2 <= base <= 16 && value > 0
    requires AllZeros(zeros) && n <= |zeros| + |Digits(value, base, upper)|
    ensures Decode((zeros + Digits(value, base, upper))[n..], base) == value <==> n <= |zeros|
  {
    var d := Digits(value, base, upper);
    if n <= |zeros| {
      ZerosTrimmed(zeros, d, base, n);
      NumeralDecodes(value, base, upper);
    } else {
      assert (zeros + d)[n..] == d[n - |zeros|..];
      DigitsTrimmed(value, base, upper, n - |zeros|);
    }
  }

  lemma {:induction false} PositiveStart(s: string, base: nat)
    requires s != [] && base >= 1 && DigitValue(s[0]) > 0
    ensures Eval(s, base) > 0
  {
    if |s| > 1 {
      PositiveStart(s[..|s| - 1], base);
      assert Eval(s[..|s| - 1], base) * base > 0;
    }
  }

  lemma {:induction false} PowerPositive(base: nat, n: nat)
    requires base >= 1
    ensures Power(base, n) > 0
  {
    if n > 0 {
      PowerPositive(base, n - 1);
    }
  }

  /** With '#', a nonzero number can be read back exactly when a precision is given, or its digits are not
      mistaken for padding: without zero padding it must not be exactly as long as the width; with it, it
      must be longer, or leave room for the characters that are trimmed. */
  lemma HashDecodesExactlyWhen(value: u32, negative: bool, base: nat, prec: u32, width: u32, flags: Flags)
    requires base == 2 || base == 8 || base == 16
    requires value > 0 && Hash in flags && (Precision !in flags ==> prec == 0)
    ensures var length := |Digits(value, base, Uppercase in flags)|;
      var narrowed := NarrowedWidth(width, negative, flags);
      Decode(IntegerText(value, negative, base, prec, width, flags), base) == value
      <==> || Precision in flags
           || (if ZeroPad in flags && Left !in flags
               then length > narrowed || length + (if base == 16 then 2 else 1) <= narrowed
               else length != narrowed)
  {
    HashDecodesByTrim(value, negative, base, prec, width, flags);
    NumeralLength(value, base, Uppercase in flags);
    OnlyPaddingTrimmed(|Digits(value, base, Uppercase in flags)|, base, prec,
                       NarrowedWidth(width, negative, flags), flags);
  }

  /** %#2x of 0xff: both digits are taken for padding. */
  lemma HashLosesDigits()
    ensures Decode(IntegerText(0xff, false, 16, 0, 2, {Hash}), 16) != 0xff
  {
    assert |Digits(0xff, 16, false)| == 2;
    HashDecodesExactlyWhen(0xff, false, 16, 0, 2, {Hash});
  }

  lemma HashDecodesByTrim(value: u32, negative: bool, base: nat, prec: u32, width: u32, flags: Flags)
    requires 2 <= base <= 16 && value > 0
    ensures var length := |Digits(value, base, Uppercase in flags)|;
      var narrowed := NarrowedWidth(width, negative, flags);
      var n := FilledLength(length, prec, narrowed, flags);
      Decode(IntegerText(value, negative, base, prec, width, flags), base) == value
      <==> Trim(n, base, prec, narrowed, flags) <= n - length
  {
    var d := Digits(value, base, Uppercase in flags);
    var narrowed := NarrowedWidth(width, negative, flags);
    var n := FilledLength(|d|, prec, narrowed, flags);
    NonzeroText(value, negative, base, prec, width, flags);
    TextDecodesAsTrimmed(d, negative, base, prec, width, flags);
    NumeralTrimmed(value, base, prec, narrowed, flags);
  }

  lemma NumeralTrimmed(value: u32, base: nat, prec: u32, width: u32, flags: Flags)
    requires 2 <= base <= 16 && value > 0
    ensures var d := Digits(value, base, Uppercase in flags);
      var n := FilledLength(|d|, prec, width, flags);
      Decode(Trimmed(d, base, prec, width, flags), base) == value <==> Trim(n, base, prec, width, flags) <= n - |d|
  {
    var d := Digits(value, base, Uppercase in flags);
    var n := FilledLength(|d|, prec, width, flags);
    var trim := Trim(n, base, prec, width, flags);
    assert Trimmed(d, base, prec, width, flags) == (Repeat('0', n - |d|) + d)[trim..];
    TrimmedDecodesExactlyWhen(value, base, Uppercase in flags, Repeat('0', n - |d|), trim);
  }

  lemma NonzeroText(value: u32, negative: bool, base: nat, prec: u32, width: u32, flags: Flags)
    requires 2 <= base <= 16 && (value > 0 || Hash !in flags)
    ensures IntegerText(value, negative, base, prec, width, flags)
         == FormatText(PrintedDigits(value, base, flags), negative, base, prec, width, flags)
    ensures value > 0 ==> PrintedDigits(value, base, flags) == Digits(value, base, Uppercase in flags)
  {
    assert Hash !in flags ==> flags - {Hash} == flags;
  }

  lemma NumeralLength(value: u32, base: nat, upper: bool)
    requires 2 <= base <= 16
    ensures 1 <= |Digits(value, base, upper)| <= BUFFER_SIZE && (base == 16 ==> |Digits(value, base, upper)| <= 8)
  {
    AtMost32Digits(value, base, upper);
    AtMost8HexDigits(value, upper);
  }

  /** When what is trimmed is padding, in lengths. */
  lemma OnlyPaddingTrimmed(length: nat, base: nat, prec: u32, width: u32, flags: Flags)
    requires 1 <= length <= BUFFER_SIZE && (base == 2 || base == 8 || base == 16)
    requires Hash in flags && (Precision !in flags ==> prec == 0) && (base == 16 ==> length <= 8)
    ensures var n := FilledLength(length, prec, width, flags);
      Trim(n, base, prec, width, flags) <= n - length
      <==> || Precision in flags
           || (if ZeroPad in flags && Left !in flags
               then length > width || length + (if base == 16 then 2 else 1) <= width
               else length != width)
  {
  }
}
