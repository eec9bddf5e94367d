/** What _ntoa_long, _ntoa_format and _out_rev of libc/stdio/stdio.c print for an integer, and when that is
    what section 7.21.6.1 of ISO C11 asks for. Texts are in printed order here; the code builds them
    backwards in a 32-byte buffer. */
module IntegerFormat {
  import opened Words
  import opened Numerals

  /** PRINTF_NTOA_BUFFER_SIZE. */
  const BUFFER_SIZE := 32

  datatype Flag = ZeroPad | Left | Plus | Space | Hash | Uppercase | Char | Short | Long | LongLong | Precision

  /** The flags word: a set of FLAGS_ bits. */
  type Flags = set<Flag>

  /** The sign that the flags ask for. */
  function SignText(negative: bool, flags: Flags): string {
    if negative then "-" else if Plus in flags then "+" else if Space in flags then " " else ""
  }

  /** Zero padding leaves room for a sign. */
  function NarrowedWidth(width: u32, negative: bool, flags: Flags): u32 {
    if Left !in flags && width > 0 && ZeroPad in flags && (negative || Plus in flags || Space in flags) then width - 1
    else width
  }

  ghost function PrintedDigits(value: u32, base: nat, flags: Flags): string
    requires 2 <= base <= 16
  {
    if Precision !in flags || value != 0 then Digits(value, base, Uppercase in flags) else []
  }

  /** The length that zeros fill a numeral up to. */
  function FilledLength(length: nat, prec: u32, width: u32, flags: Flags): (n: nat)
    ensures n >= length
  {
    if Left in flags then length
    else
      var n := Max(length, Min(prec, BUFFER_SIZE));
      if ZeroPad in flags then Max(n, Min(width, BUFFER_SIZE)) else n
  }

  ghost function Filled(digits: string, prec: u32, width: u32, flags: Flags): string {
    Repeat('0', FilledLength(|digits|, prec, width, flags) - |digits|) + digits
  }

  /** How many leading characters the '#' code drops: it takes a numeral as long as the precision or the
      width for one that zeros have filled. */
  function Trim(length: nat, base: nat, prec: u32, width: u32, flags: Flags): (n: nat)
    ensures n <= length
  {
    if Hash in flags && Precision !in flags && length > 0 && (length == prec || length == width)
    then if length > 1 && base == 16 then 2 else 1
    else 0
  }

  ghost function Trimmed(digits: string, base: nat, prec: u32, width: u32, flags: Flags): string {
    var n := FilledLength(|digits|, prec, width, flags);
    Filled(digits, prec, width, flags)[Trim(n, base, prec, width, flags)..]
  }

  function Mark(base: nat, flags: Flags): string {
    if base == 16 then if Uppercase in flags then "X" else "x" else if base == 2 then "b" else ""
  }

  /** The '#' prefix, as far as the buffer has room. */
  ghost function Prefixed(body: string, base: nat, flags: Flags): string {
    if Hash !in flags then body
    else
      var marked := if |body| < BUFFER_SIZE then Mark(base, flags) + body else body;
      if |marked| < BUFFER_SIZE then "0" + marked else marked
  }

  ghost function WithSign(body: string, negative: bool, flags: Flags): string {
    if |body| < BUFFER_SIZE then SignText(negative, flags) + body else body
  }

  /** _out_rev: blanks on the side that the flags ask for. */
  ghost function Justified(body: string, width: u32, flags: Flags): string {
    if Left in flags then body + Repeat(' ', width - |body|)
    else if ZeroPad in flags then body
    else Repeat(' ', width - |body|) + body
  }

  /** _ntoa_format, given the digits in printed order. */
  ghost function FormatText(digits: string, negative: bool, base: nat, prec: u32, width: u32, flags: Flags): string {
    var narrowed := NarrowedWidth(width, negative, flags);
    var body := Trimmed(digits, base, prec, narrowed, flags);
    Justified(WithSign(Prefixed(body, base, flags), negative, flags), narrowed, flags)
  }

  /** _ntoa_long. */
  ghost function IntegerText(value: u32, negative: bool, base: nat, prec: u32, width: u32, flags: Flags): string
    requires 2 <= base <= 16
  {
    var f := if value == 0 then flags - {Hash} else flags;
    FormatText(PrintedDigits(value, base, flags), negative, base, prec, width, f)
  }

  // ----- What the standard asks for -----

  ghost function C11Digits(value: nat, base: nat, prec: u32, flags: Flags): string
    requires 2 <= base <= 16
  {
    var minimum := if Precision in flags then prec else 1;
    var digits := if value == 0 && minimum == 0 then [] else Digits(value, base, Uppercase in flags);
    Repeat('0', minimum - |digits|) + digits
  }

  /** An integer conversion without '#': at least prec digits (one by default, none for a zero with
      precision 0), the sign, and blanks or zeros up to the width. '0' is ignored beside a precision or '-'. */
  ghost function C11Text(value: nat, negative: bool, base: nat, prec: u32, width: u32, flags: Flags): string
    requires 2 <= base <= 16
  {
    var sign := SignText(negative, flags);
    var body := C11Digits(value, base, prec, flags);
    var pad := width - |sign| - |body|;
    if Left in flags then sign + body + Repeat(' ', pad)
    else if ZeroPad in flags && Precision !in flags then sign + Repeat('0', pad) + body
    else Repeat(' ', pad) + sign + body
  }

  /** What the caller guarantees of a conversion without '#'. */
  ghost predicate Normalised(prec: u32, flags: Flags) {
    && Hash !in flags
    && (Precision in flags ==> ZeroPad !in flags)
    && (Precision !in flags ==> prec == 0)
  }

  /** The exact condition: a left-justified number has no need of precision zeros, and everything with its
      sign fits the buffer. (A blank sign that is dropped for want of room can be made up by a pad blank.) */
  predicate Conforms(digits: nat, sign: string, prec: u32, width: u32, flags: Flags) {
    var n := Max(digits, prec);
    if Left in flags then prec <= digits && digits + |sign| <= BUFFER_SIZE
    else if ZeroPad in flags then Max(digits + |sign|, width) <= BUFFER_SIZE
    else n + |sign| <= BUFFER_SIZE || (sign == " " && n == BUFFER_SIZE && width > BUFFER_SIZE)
  }

  lemma C11Body(value: u32, base: nat, prec: u32, flags: Flags)
    requires 2 <= base <= 16 && Normalised(prec, flags)
    ensures var d := PrintedDigits(value, base, flags);
      C11Digits(value, base, prec, flags) == Repeat('0', prec - |d|) + d
  {
    if value == 0 && Precision in flags && prec > 0 {
      assert Digits(0, base, Uppercase in flags) == ['0'];
      assert Repeat('0', prec - 1) + ['0'] == Repeat('0', prec);
    }
  }

  // The printed and the wanted text, for blanks on the right, zeros on the left, and blanks on the left

  ghost function LeftPrinted(d: string, sign: string, width: u32): string {
    var shown := if |d| < BUFFER_SIZE then sign + d else d;
    shown + Repeat(' ', width - |shown|)
  }

  ghost function LeftWanted(d: string, sign: string, prec: u32, width: u32): string {
    var body := Repeat('0', prec - |d|) + d;
    sign + body + Repeat(' ', width - |sign| - |body|)
  }

  ghost function ZeroPadPrinted(d: string, sign: string, width: u32): string {
    var narrowed := if width > 0 && sign != [] then width - 1 else width;
    var n := Max(|d|, Min(narrowed, BUFFER_SIZE));
    var filled := Repeat('0', n - |d|) + d;
    if n < BUFFER_SIZE then sign + filled else filled
  }

  ghost function ZeroPadWanted(d: string, sign: string, width: u32): string {
    sign + Repeat('0', width - |sign| - |d|) + d
  }

  ghost function PlainPrinted(d: string, sign: string, prec: u32, width: u32): string {
    var n := Max(|d|, Min(prec, BUFFER_SIZE));
    var filled := Repeat('0', n - |d|) + d;
    var shown := if n < BUFFER_SIZE then sign + filled else filled;
    Repeat(' ', width - |shown|) + shown
  }

  ghost function PlainWanted(d: string, sign: string, prec: u32, width: u32): string {
    var body := Repeat('0', prec - |d|) + d;
    Repeat(' ', width - |sign| - |body|) + sign + body
  }

  lemma LeftConforms(d: string, sign: string, prec: u32, width: u32)
    requires |d| <= BUFFER_SIZE && |sign| <= 1 && (sign != [] ==> DigitValue(sign[0]) == 16)
    requires d != [] ==> DigitValue(d[0]) < 16 && (prec > |d| ==> d[0] != '0')
    ensures LeftPrinted(d, sign, width) == LeftWanted(d, sign, prec, width)
        <==> prec <= |d| && |d| + |sign| <= BUFFER_SIZE
  {
    var printed, wanted := LeftPrinted(d, sign, width), LeftWanted(d, sign, prec, width);
    if |d| + |sign| > BUFFER_SIZE {
      assert printed[0] == d[0] && wanted[0] == sign[0];
    } else if prec > |d| {
      assert wanted[|sign|] == '0';
      if |printed| > |sign| {
        assert printed[|sign|] == if d != [] then d[0] else ' ';
      }
    } else {
      assert printed == wanted;
    }
  }

  lemma ZeroPadConforms(d: string, sign: string, width: u32)
    requires |d| <= BUFFER_SIZE && |sign| <= 1
    ensures ZeroPadPrinted(d, sign, width) == ZeroPadWanted(d, sign, width) <==> Max(|d| + |sign|, width) <= BUFFER_SIZE
  {
    if Max(|d| + |sign|, width) > BUFFER_SIZE {
      assert |ZeroPadPrinted(d, sign, width)| <= BUFFER_SIZE < |ZeroPadWanted(d, sign, width)|;
    } else {
      var narrowed := if width > 0 && sign != [] then width - 1 else width;
      var n := Max(|d|, Min(narrowed, BUFFER_SIZE));
      assert Repeat('0', width - |sign| - |d|) == Repeat('0', n - |d|);
      assert sign + (Repeat('0', n - |d|) + d) == sign + Repeat('0', n - |d|) + d;
    }
  }

  lemma PlainTooLong(d: string, sign: string, prec: u32, width: u32)
    requires |d| <= BUFFER_SIZE < prec && |sign| <= 1
    ensures PlainPrinted(d, sign, prec, width) != PlainWanted(d, sign, prec, width)
  {
    var body := Repeat('0', prec - |d|) + d;
    var printed, wanted := PlainPrinted(d, sign, prec, width), PlainWanted(d, sign, prec, width);
    assert wanted[|wanted| - 33] == body[|body| - 33] == '0';
    if |printed| == |wanted| {
      assert printed[|printed| - 33] == ' ';
    }
  }

  lemma PlainNoRoomForSign(d: string, sign: string, prec: u32, width: u32)
    requires |d| <= BUFFER_SIZE && |sign| == 1 && Max(|d|, prec) == BUFFER_SIZE
    ensures PlainPrinted(d, sign, prec, width) == PlainWanted(d, sign, prec, width)
        <==> sign == " " && width > BUFFER_SIZE
  {
    var body := Repeat('0', prec - |d|) + d;
    var printed, wanted := PlainPrinted(d, sign, prec, width), PlainWanted(d, sign, prec, width);
    assert printed == Repeat(' ', width - BUFFER_SIZE) + body;
    assert wanted[|wanted| - 33] == sign[0];
    if width > BUFFER_SIZE {
      assert printed[|printed| - 33] == ' ';
      if sign == " " {
        assert Repeat(' ', width - 33) + " " == Repeat(' ', width - 32);
      }
    }
  }

  lemma PlainFits(d: string, sign: string, prec: u32, width: u32)
    requires Max(|d|, prec) + |sign| <= BUFFER_SIZE && |sign| <= 1
    ensures PlainPrinted(d, sign, prec, width) == PlainWanted(d, sign, prec, width)
  {
  }

  lemma PlainConforms(d: string, sign: string, prec: u32, width: u32)
    requires |d| <= BUFFER_SIZE && |sign| <= 1
    ensures PlainPrinted(d, sign, prec, width) == PlainWanted(d, sign, prec, width)
      <==> || Max(|d|, prec) + |sign| <= BUFFER_SIZE
           || (sign == " " && Max(|d|, prec) == BUFFER_SIZE && width > BUFFER_SIZE)
  {
    if Max(|d|, prec) > BUFFER_SIZE {
      PlainTooLong(d, sign, prec, width);
    } else if Max(|d|, prec) + |sign| > BUFFER_SIZE {
      PlainNoRoomForSign(d, sign, prec, width);
    } else {
      PlainFits(d, sign, prec, width);
    }
  }

  /** Without '#', the printed text in terms of the digits alone. */
  lemma NoHashText(value: u32, negative: bool, base: nat, prec: u32, width: u32, flags: Flags)
    requires 2 <= base <= 16 && Hash !in flags
    ensures var narrowed := NarrowedWidth(width, negative, flags);
      IntegerText(value, negative, base, prec, width, flags)
      == Justified(WithSign(Filled(PrintedDigits(value, base, flags), prec, narrowed, flags), negative, flags),
                   narrowed, flags)
  {
    assert flags - {Hash} == flags;
  }

  lemma PrintedShape(value: u32, negative: bool, base: nat, prec: u32, width: u32, flags: Flags)
    requires 2 <= base <= 16 && Normalised(prec, flags)
    ensures var d, sign := PrintedDigits(value, base, flags), SignText(negative, flags);
      IntegerText(value, negative, base, prec, width, flags)
      == if Left in flags then LeftPrinted(d, sign, width)
         else if ZeroPad in flags then ZeroPadPrinted(d, sign, width)
         else PlainPrinted(d, sign, prec, width)
  {
    var d := PrintedDigits(value, base, flags);
    NoHashText(value, negative, base, prec, width, flags);
    if Left in flags {
      assert Filled(d, prec, width, flags) == d;
    } else if ZeroPad in flags {
      ZeroPadShape(d, negative, width, flags);
    } else {
      PlainShape(d, negative, prec, width, flags);
    }
  }

  lemma ZeroPadShape(d: string, negative: bool, width: u32, flags: Flags)
    requires Left !in flags && ZeroPad in flags
    ensures var narrowed := NarrowedWidth(width, negative, flags);
      WithSign(Filled(d, 0, narrowed, flags), negative, flags) == ZeroPadPrinted(d, SignText(negative, flags), width)
  {
    var narrowed := NarrowedWidth(width, negative, flags);
    assert FilledLength(|d|, 0, narrowed, flags) == Max(|d|, Min(narrowed, BUFFER_SIZE));
  }

  lemma PlainShape(d: string, negative: bool, prec: u32, width: u32, flags: Flags)
    requires Left !in flags && ZeroPad !in flags
    ensures Justified(WithSign(Filled(d, prec, width, flags), negative, flags), width, flags)
         == PlainPrinted(d, SignText(negative, flags), prec, width)
  {
  }

  lemma WantedShape(value: u32, negative: bool, base: nat, prec: u32, width: u32, flags: Flags)
    requires 2 <= base <= 16 && Normalised(prec, flags)
    ensures var d, sign := PrintedDigits(value, base, flags), SignText(negative, flags);
      C11Text(value, negative, base, prec, width, flags)
      == if Left in flags then LeftWanted(d, sign, prec, width)
         else if ZeroPad in flags then ZeroPadWanted(d, sign, width)
         else PlainWanted(d, sign, prec, width)
  {
    var d := PrintedDigits(value, base, flags);
    var body := C11Digits(value, base, prec, flags);
    C11Body(value, base, prec, flags);
    if Left in flags {
    } else if ZeroPad in flags {
      assert body == d;
    } else {
    }
  }

  /** Without '#', the code prints what the standard asks for exactly when the condition holds. */
  lemma ConformsExactlyWhen(value: u32, negative: bool, base: nat, prec: u32, width: u32, flags: Flags)
    requires 2 <= base <= 16 && Normalised(prec, flags)
    ensures IntegerText(value, negative, base, prec, width, flags) == C11Text(value, negative, base, prec, width, flags)
        <==> Conforms(|PrintedDigits(value, base, flags)|, SignText(negative, flags), prec, width, flags)
  {
    PrintedShape(value, negative, base, prec, width, flags);
    WantedShape(value, negative, base, prec, width, flags);
    ShapesAgree(value, negative, base, prec, width, flags);
  }

  /** %-.3d of 7: the code prints "7", the standard asks for "007". */
  lemma PrecisionLostWhenLeft()
    ensures IntegerText(7, false, 10, 3, 0, {Left, Precision}) != C11Text(7, false, 10, 3, 0, {Left, Precision})
  {
    ConformsExactlyWhen(7, false, 10, 3, 0, {Left, Precision});
    assert |PrintedDigits(7, 10, {Left, Precision})| == 1;
  }

  lemma ShapesAgree(value: u32, negative: bool, base: nat, prec: u32, width: u32, flags: Flags)
    requires 2 <= base <= 16 && Normalised(prec, flags)
    ensures var d, sign := PrintedDigits(value, base, flags), SignText(negative, flags);
      (if Left in flags then LeftPrinted(d, sign, width) == LeftWanted(d, sign, prec, width)
       else if ZeroPad in flags then ZeroPadPrinted(d, sign, width) == ZeroPadWanted(d, sign, width)
       else PlainPrinted(d, sign, prec, width) == PlainWanted(d, sign, prec, width))
      <==> Conforms(|d|, sign, prec, width, flags)
  {
    var d, sign := PrintedDigits(value, base, flags), SignText(negative, flags);
    AtMost32Digits(value, base, Uppercase in flags);
    if Left in flags {
      DigitsForLeft(value, base, prec, flags);
      LeftConforms(d, sign, prec, width);
    } else if ZeroPad in flags {
      ZeroPadConforms(d, sign, width);
    } else {
      PlainConforms(d, sign, prec, width);
    }
  }

  lemma DigitsForLeft(value: u32, base: nat, prec: u32, flags: Flags)
    requires 2 <= base <= 16 && Normalised(prec, flags)
    ensures var d := PrintedDigits(value, base, flags);
      d != [] ==> DigitValue(d[0]) < 16 && (prec > |d| ==> d[0] != '0')
  {
    AllDigits(value, base, Uppercase in flags);
    if value > 0 {
      LeadingDigit(value, base, Uppercase in flags);
    }
  }

  // Precision 0 against no precision at all

  /** The wanted text around given digits. */
  ghost function AroundDigits(sign: string, body: string, width: u32, left: bool, zeros: bool): string {
    var pad := width - |sign| - |body|;
    if left then sign + body + Repeat(' ', pad)
    else if zeros then sign + Repeat('0', pad) + body
    else Repeat(' ', pad) + sign + body
  }

  lemma PrecisionDigits(value: u32, base: nat, flags: Flags)
    requires 2 <= base <= 16 && Precision !in flags
    ensures C11Digits(value, base, 0, flags) == Digits(value, base, Uppercase in flags)
    ensures C11Digits(value, base, 0, flags + {Precision})
         == if value == 0 then [] else Digits(value, base, Uppercase in flags)
  {
    var d := Digits(value, base, Uppercase in flags);
    assert Repeat('0', 0) + d == d;
  }

  lemma TextOfDigits(value: u32, negative: bool, base: nat, width: u32, flags: Flags, body: string)
    requires 2 <= base <= 16 && C11Digits(value, base, 0, flags) == body
    ensures C11Text(value, negative, base, 0, width, flags)
         == AroundDigits(SignText(negative, flags), body, width, Left in flags, ZeroPad in flags && Precision !in flags)
  {
  }

  lemma PrecisionTexts(value: u32, negative: bool, base: nat, width: u32, flags: Flags, sign: string, d: string)
    requires 2 <= base <= 16 && Precision !in flags
    requires sign == SignText(negative, flags) && d == Digits(value, base, Uppercase in flags)
    ensures C11Text(value, negative, base, 0, width, flags)
         == AroundDigits(sign, d, width, Left in flags, ZeroPad in flags)
    ensures C11Text(value, negative, base, 0, width, flags + {Precision})
         == AroundDigits(sign, if value == 0 then [] else d, width, Left in flags, false)
  {
    PrecisionDigits(value, base, flags);
    TextOfDigits(value, negative, base, width, flags, d);
    TextOfDigits(value, negative, base, width, flags + {Precision}, if value == 0 then [] else d);
  }

  /** Without digits there is no '0' to see. */
  lemma ZeroShown(sign: string, width: u32, left: bool, zeros: bool)
    requires '0' !in sign
    ensures AroundDigits(sign, [], width, left, false) != AroundDigits(sign, "0", width, left, zeros)
  {
    assert '0' !in AroundDigits(sign, [], width, left, false);
    var wanted := AroundDigits(sign, "0", width, left, zeros);
    assert wanted[if left then |sign| else |wanted| - 1] == '0';
  }

  lemma ZerosShown(sign: string, d: string, width: u32)
    requires |sign| <= 1 && '0' !in sign
    ensures AroundDigits(sign, d, width, false, false) == AroundDigits(sign, d, width, false, true)
        <==> width <= |sign| + |d|
  {
    if width > |sign| + |d| {
      assert AroundDigits(sign, d, width, false, true)[|sign|] == '0';
      assert AroundDigits(sign, d, width, false, false)[|sign|] != '0';
    }
  }

  /** Precision 0 asks for what no precision does exactly when the value is not zero, and no zeros were to
      fill the width. */
  lemma NoPrecisionExactlyWhen(value: u32, negative: bool, base: nat, width: u32, flags: Flags)
    requires 2 <= base <= 16 && Precision !in flags
    ensures C11Text(value, negative, base, 0, width, flags + {Precision})
         == C11Text(value, negative, base, 0, width, flags)
        <==> && value != 0
             && (ZeroPad in flags && Left !in flags ==>
               width <= |SignText(negative, flags)| + |Digits(value, base, Uppercase in flags)|)
  {
    var sign, d := SignText(negative, flags), Digits(value, base, Uppercase in flags);
    PrecisionTexts(value, negative, base, width, flags, sign, d);
    if value == 0 {
      ZeroShown(sign, width, Left in flags, ZeroPad in flags);
    } else if ZeroPad in flags && Left !in flags {
      ZerosShown(sign, d, width);
    }
  }
}
