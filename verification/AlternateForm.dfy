/** '#' on an integer conversion (libc/stdio/stdio.c, _ntoa_format), against the alternative form of section
    7.21.6.1 of ISO C11. */
module AlternateForm {
  import opened Words
  import opened Numerals
  import opened IntegerFormat

  // ----- What the standard asks for -----

  /** In base 16, a value other than zero is prefixed. */
  function AlternatePrefix(value: nat, base: nat, flags: Flags): string {
    if base == 16 && value != 0 then if Uppercase in flags then "0X" else "0x" else ""
  }

  /** In base 8, the precision is raised, if need be, so that the first digit is a zero. */
  ghost function AlternateDigits(value: nat, base: nat, prec: u32, flags: Flags): string
    requires 2 <= base <= 16
  {
    var digits := C11Digits(value, base, prec, flags);
    if base == 8 && (digits == [] || digits[0] != '0') then "0" + digits else digits
  }

  ghost function C11AlternateText(value: nat, base: nat, prec: u32, width: u32, flags: Flags): string
    requires 2 <= base <= 16
  {
    AroundDigits(AlternatePrefix(value, base, flags), AlternateDigits(value, base, prec, flags), width,
                 Left in flags, ZeroPad in flags && Precision !in flags)
  }

  /** What the caller guarantees of such a conversion. */
  ghost predicate Alternate(base: nat, prec: u32, flags: Flags) {
    && (base == 8 || base == 16)
    && Hash in flags && Plus !in flags && Space !in flags
    && (Precision in flags ==> ZeroPad !in flags)
    && (Precision !in flags ==> prec == 0)
  }

  /** How many characters the prefix takes, the zero of base 8 included. */
  function PrefixLength(base: nat): nat {
    if base == 16 then 2 else 1
  }

  /** The exact condition, for a value other than zero with the given number of digits. */
  predicate AlternateConforms(digits: nat, base: nat, prec: u32, width: u32, flags: Flags) {
    if Precision in flags then
      if Left in flags then prec <= (if base == 16 then digits else digits + 1)
      else if base == 16 then Max(digits, prec) + 2 <= BUFFER_SIZE
      else prec <= digits || prec == BUFFER_SIZE
    else if ZeroPad in flags && Left !in flags then
      width < digits || digits + PrefixLength(base) <= width <= BUFFER_SIZE
    else width != digits
  }

  /** And for every value. */
  ghost predicate HashConforms(value: u32, base: nat, prec: u32, width: u32, flags: Flags)
    requires 2 <= base <= 16
  {
    if value == 0 then
      && !(base == 8 && Precision in flags && prec == 0)
      && Conforms(|PrintedDigits(0, base, flags)|, "", prec, width, flags)
    else AlternateConforms(|Digits(value, base, Uppercase in flags)|, base, prec, width, flags)
  }

  // ----- The printed text -----

  /** The prefix that the code puts in front of a body, as far as the buffer has room. */
  function Marked(body: string, base: nat, mark: string): string {
    var marked := if |body| < BUFFER_SIZE then mark + body else body;
    if |marked| < BUFFER_SIZE then "0" + marked else marked
  }

  /** The mark of base 16; base 8 has none. */
  function MarkOf(base: nat, flags: Flags): string {
    if base == 16 then if Uppercase in flags then "X" else "x" else ""
  }

  /** What _ntoa_format prints of the digits of a value other than zero. */
  ghost function HashPrinted(d: string, base: nat, prec: u32, width: u32, flags: Flags): string {
    Justified(Marked(Trimmed(d, base, prec, width, flags), base, MarkOf(base, flags)), width, flags)
  }

  lemma HashShape(value: u32, base: nat, prec: u32, width: u32, flags: Flags)
    requires value > 0 && Alternate(base, prec, flags)
    ensures IntegerText(value, false, base, prec, width, flags)
         == HashPrinted(Digits(value, base, Uppercase in flags), base, prec, width, flags)
  {
    var d := Digits(value, base, Uppercase in flags);
    assert PrintedDigits(value, base, flags) == d;
    MarkedIsPrefixed(Trimmed(d, base, prec, width, flags), base, flags);
    NoSign(Marked(Trimmed(d, base, prec, width, flags), base, MarkOf(base, flags)), width, flags);
  }

  lemma MarkedIsPrefixed(body: string, base: nat, flags: Flags)
    requires (base == 8 || base == 16) && Hash in flags
    ensures Prefixed(body, base, flags) == Marked(body, base, MarkOf(base, flags))
  {
  }

  lemma NoSign(body: string, width: u32, flags: Flags)
    requires Plus !in flags && Space !in flags
    ensures NarrowedWidth(width, false, flags) == width && WithSign(body, false, flags) == body
  {
    assert "" + body == body;
  }

  /** What is wanted, in terms of the digits. */
  ghost function HashWanted(d: string, base: nat, prec: u32, width: u32, flags: Flags): string {
    AroundDigits(if base == 16 then "0" + MarkOf(16, flags) else "", WantedBody(d, base, prec), width,
                 Left in flags, ZeroPad in flags && Precision !in flags)
  }

  ghost function WantedBody(d: string, base: nat, prec: u32): string {
    if base == 8 && prec <= |d| then "0" + d else Repeat('0', prec - |d|) + d
  }

  lemma WantedHashShape(value: u32, base: nat, prec: u32, width: u32, flags: Flags)
    requires value > 0 && Alternate(base, prec, flags)
    ensures C11AlternateText(value, base, prec, width, flags)
         == HashWanted(Digits(value, base, Uppercase in flags), base, prec, width, flags)
  {
    var d := Digits(value, base, Uppercase in flags);
    LeadingDigit(value, base, Uppercase in flags);
    WantedDigits(value, base, prec, flags, d);
    assert AlternatePrefix(value, base, flags) == if base == 16 then "0" + MarkOf(16, flags) else "";
  }

  lemma WantedDigits(value: u32, base: nat, prec: u32, flags: Flags, d: string)
    requires value > 0 && Alternate(base, prec, flags) && d == Digits(value, base, Uppercase in flags) && d[0] != '0'
    ensures AlternateDigits(value, base, prec, flags) == WantedBody(d, base, prec)
  {
    var minimum := if Precision in flags then prec else 1;
    assert C11Digits(value, base, prec, flags) == Repeat('0', minimum - |d|) + d;
    assert Repeat('0', minimum - |d|) == Repeat('0', prec - |d|);
    if prec <= |d| {
      assert [] + d == d;
    }
  }

  // The two texts side by side, for the digits d of a value other than zero

  ghost predicate Numeral(d: string, base: nat, mark: string) {
    && (base == 8 || base == 16) && |mark| == (if base == 16 then 1 else 0)
    && (mark != [] ==> mark[0] != ' ') && 0 < |d| <= 11 && d[0] != '0' && d[0] != ' '
  }

  /** What stands in front of the wanted digits. */
  function WantedPrefix(base: nat, mark: string): string {
    if base == 16 then "0" + mark else ""
  }

  lemma MarkedFits(body: string, base: nat, mark: string)
    requires |body| + |mark| + 1 <= BUFFER_SIZE
    ensures Marked(body, base, mark) == "0" + mark + body
  {
  }

  /** Blanks on the right: precision zeros are left out. */
  lemma HashLeft(d: string, base: nat, prec: u32, width: u32, mark: string)
    requires Numeral(d, base, mark)
    ensures "0" + mark + d + Repeat(' ', width - 1 - |mark| - |d|)
            == AroundDigits(WantedPrefix(base, mark), WantedBody(d, base, prec), width, true, false)
        <==> prec <= (if base == 16 then |d| else |d| + 1)
  {
    var printed := "0" + mark + d + Repeat(' ', width - 1 - |mark| - |d|);
    var wanted := AroundDigits(WantedPrefix(base, mark), WantedBody(d, base, prec), width, true, false);
    if prec > (if base == 16 then |d| else |d| + 1) {
      assert printed[1 + |mark|] == d[0] && wanted[1 + |mark|] == '0';
    } else if base == 8 && prec == |d| + 1 {
      assert Repeat('0', 1) == "0";
    }
  }

  ghost function PlainHash(filled: string, base: nat, width: u32, mark: string): string {
    var shown := Marked(filled, base, mark);
    Repeat(' ', width - |shown|) + shown
  }

  ghost function PlainHashWanted(d: string, base: nat, prec: u32, width: u32, mark: string): string {
    AroundDigits(WantedPrefix(base, mark), WantedBody(d, base, prec), width, false, false)
  }

  /** Where there is room, the prefix stands in front of the digits. */
  lemma ShortHash(body: string, base: nat, width: u32, mark: string)
    requires |body| + |mark| + 1 <= BUFFER_SIZE
    ensures PlainHash(body, base, width, mark) == AroundDigits("0" + mark, body, width, false, false)
  {
    MarkedFits(body, base, mark);
    var blanks := Repeat(' ', width - |"0" + mark + body|);
    assert blanks + ("0" + mark + body) == blanks + ("0" + mark) + body;
  }

  /** Where the text without its blanks has 32 characters, a blank is the 33rd from the right. */
  lemma BlankAhead(shown: string, width: u32, printed: string)
    requires printed == Repeat(' ', width - |shown|) + shown && |shown| == 32 && |printed| >= 33
    ensures printed[|printed| - 33] == ' '
  {
  }

  lemma PrefixAndBodyAhead(sign: string, body: string, width: u32, wanted: string)
    requires wanted == AroundDigits(sign, body, width, false, false) && |sign| + |body| >= 33
    ensures |wanted| >= 33 && wanted[|wanted| - 33] == (sign + body)[|sign| + |body| - 33]
  {
  }

  /** More than 32 characters are wanted. */
  lemma TooLong(shown: string, sign: string, body: string, width: u32)
    requires |shown| == 32 && |sign| + |body| >= 33 && (sign + body)[|sign| + |body| - 33] != ' '
    ensures Repeat(' ', width - |shown|) + shown != AroundDigits(sign, body, width, false, false)
  {
    var printed, wanted := Repeat(' ', width - |shown|) + shown, AroundDigits(sign, body, width, false, false);
    PrefixAndBodyAhead(sign, body, width, wanted);
    if |printed| == |wanted| {
      BlankAhead(shown, width, printed);
    }
  }

  /** Blanks on the left, and a precision: in base 16 everything must fit the buffer. */
  lemma HashPrecision16(d: string, prec: u32, width: u32, mark: string, filled: string)
    requires Numeral(d, 16, mark) && filled == Repeat('0', Max(|d|, Min(prec, BUFFER_SIZE)) - |d|) + d
    ensures PlainHash(filled, 16, width, mark) == PlainHashWanted(d, 16, prec, width, mark)
        <==> Max(|d|, prec) + 2 <= BUFFER_SIZE
  {
    if Max(|d|, prec) + 2 <= BUFFER_SIZE {
      RoomForHash(filled, d, prec, width, mark);
    } else {
      NoRoomForHash(filled, d, prec, width, mark);
    }
  }

  lemma RoomForHash(filled: string, d: string, prec: u32, width: u32, mark: string)
    requires Numeral(d, 16, mark) && prec + 2 <= BUFFER_SIZE
    requires filled == Repeat('0', Max(|d|, Min(prec, BUFFER_SIZE)) - |d|) + d
    ensures PlainHash(filled, 16, width, mark) == PlainHashWanted(d, 16, prec, width, mark)
  {
    SameZeros(Max(|d|, Min(prec, BUFFER_SIZE)) - |d|, prec - |d|);
    ShortHash(filled, 16, width, mark);
  }

  lemma NoRoomForHash(filled: string, d: string, prec: u32, width: u32, mark: string)
    requires Numeral(d, 16, mark) && prec + 2 > BUFFER_SIZE
    requires filled == Repeat('0', Max(|d|, Min(prec, BUFFER_SIZE)) - |d|) + d
    ensures PlainHash(filled, 16, width, mark) != PlainHashWanted(d, 16, prec, width, mark)
  {
    PiecesTooLong(filled, d, prec, mark);
    TooLong(Marked(filled, 16, mark), WantedPrefix(16, mark), WantedBody(d, 16, prec), width);
  }

  lemma PiecesTooLong(filled: string, d: string, prec: u32, mark: string)
    requires Numeral(d, 16, mark) && prec + 2 > BUFFER_SIZE
    requires filled == Repeat('0', Max(|d|, Min(prec, BUFFER_SIZE)) - |d|) + d
    ensures |Marked(filled, 16, mark)| == 32
    ensures var sign, body := WantedPrefix(16, mark), WantedBody(d, 16, prec);
      |sign| + |body| >= 33 && (sign + body)[|sign| + |body| - 33] != ' '
  {
    FilledTo(d, prec, filled);
    MarkedFull(filled, mark);
    PrefixedZeros(WantedPrefix(16, mark), prec - |d|, d, WantedBody(d, 16, prec));
  }

  lemma FilledTo(d: string, prec: u32, filled: string)
    requires |d| <= 11 && prec > 30 && filled == Repeat('0', Max(|d|, Min(prec, BUFFER_SIZE)) - |d|) + d
    ensures |filled| == Min(prec, BUFFER_SIZE)
  {
  }

  lemma MarkedFull(filled: string, mark: string)
    requires |mark| == 1 && (|filled| == 31 || |filled| == 32)
    ensures |Marked(filled, 16, mark)| == BUFFER_SIZE
  {
  }

  lemma SameZeros(m: int, n: int)
    requires m == n || (m <= 0 && n <= 0)
    ensures Repeat('0', m) == Repeat('0', n)
  {
  }

  /** No blank among the first characters of prefix and zeros. */
  lemma PrefixedZeros(sign: string, n: nat, d: string, body: string)
    requires |d| <= 11 && |sign| == 2 && sign[0] != ' ' && sign[1] != ' '
    requires body == Repeat('0', n) + d && |sign| + |body| >= 33
    ensures (sign + body)[|sign| + |body| - 33] != ' '
  {
    var i := |sign| + |body| - 33;
    if i >= 2 {
      assert (sign + body)[i] == body[i - 2] == '0';
    }
  }

  /** In base 8, the code adds a zero to those of the precision, unless there is no room for it. */
  lemma HashPrecision8(d: string, prec: u32, width: u32, filled: string)
    requires Numeral(d, 8, "") && filled == Repeat('0', Max(|d|, Min(prec, BUFFER_SIZE)) - |d|) + d
    ensures PlainHash(filled, 8, width, "") == PlainHashWanted(d, 8, prec, width, "")
        <==> prec <= |d| || prec == BUFFER_SIZE
  {
    if prec <= |d| {
      OnlyTheZero(d, prec, width, filled);
    } else if prec < BUFFER_SIZE {
      SameZeros(Max(|d|, Min(prec, BUFFER_SIZE)) - |d|, prec - |d|);
      ZeroTooMany(filled, d, prec, width);
    } else {
      ZeroBeyond(d, prec, width, filled);
    }
  }

  lemma ZeroBeyond(d: string, prec: u32, width: u32, filled: string)
    requires Numeral(d, 8, "") && filled == Repeat('0', Max(|d|, Min(prec, BUFFER_SIZE)) - |d|) + d
    requires prec >= BUFFER_SIZE
    ensures PlainHash(filled, 8, width, "") == PlainHashWanted(d, 8, prec, width, "") <==> prec == BUFFER_SIZE
  {
    assert Max(|d|, Min(prec, BUFFER_SIZE)) == BUFFER_SIZE;
    NoRoomForZero(filled, d, prec, width);
  }

  lemma OnlyTheZero(d: string, prec: u32, width: u32, filled: string)
    requires Numeral(d, 8, "") && filled == Repeat('0', Max(|d|, Min(prec, BUFFER_SIZE)) - |d|) + d && prec <= |d|
    ensures PlainHash(filled, 8, width, "") == PlainHashWanted(d, 8, prec, width, "")
  {
    NoneOfZeros(d);
    ShortHash(d, 8, width, "");
    OneZero(d, width);
  }

  lemma NoneOfZeros(d: string)
    ensures Repeat('0', 0) + d == d
  {
  }

  /** The zero of base 8 is a digit. */
  lemma OneZero(d: string, width: u32)
    ensures AroundDigits("0" + "", d, width, false, false) == AroundDigits("", "0" + d, width, false, false)
  {
    var blanks := Repeat(' ', width - 1 - |d|);
    assert "0" + "" == "0" && |"0" + d| == 1 + |d|;
    assert blanks + "0" + d == blanks + "" + ("0" + d);
  }

  lemma ZeroTooMany(filled: string, d: string, prec: u32, width: u32)
    requires Numeral(d, 8, "") && |d| < prec < BUFFER_SIZE && filled == Repeat('0', prec - |d|) + d
    ensures PlainHash(filled, 8, width, "") != PlainHashWanted(d, 8, prec, width, "")
  {
    var printed, wanted := PlainHash(filled, 8, width, ""), PlainHashWanted(d, 8, prec, width, "");
    assert Marked(filled, 8, "") == "0" + filled;
    assert |wanted| == Max(width, prec) && |printed| == Max(width, prec + 1);
    if width > prec {
      assert printed[width - prec - 1] == '0' && wanted[width - prec - 1] == ' ';
    }
  }

  lemma NoRoomForZero(filled: string, d: string, prec: u32, width: u32)
    requires Numeral(d, 8, "") && prec >= BUFFER_SIZE && filled == Repeat('0', BUFFER_SIZE - |d|) + d
    ensures PlainHash(filled, 8, width, "") == PlainHashWanted(d, 8, prec, width, "") <==> prec == BUFFER_SIZE
  {
    assert |filled| == BUFFER_SIZE;
    assert Marked(filled, 8, "") == filled;
    var body := Repeat('0', prec - |d|) + d;
    assert WantedBody(d, 8, prec) == body;
    if prec == BUFFER_SIZE {
      WithoutPrefix(filled, width);
    } else {
      assert "" + body == body;
      TooLong(filled, "", body, width);
    }
  }

  lemma WithoutPrefix(body: string, width: u32)
    ensures AroundDigits("", body, width, false, false) == Repeat(' ', width - |body|) + body
  {
    assert Repeat(' ', width - |body|) + "" == Repeat(' ', width - |body|);
  }

  /** No precision and no zeros: digits that are as many as the width are taken for padding. */
  lemma HashPlain(d: string, base: nat, width: u32, mark: string, left: bool, trim: nat)
    requires Numeral(d, base, mark)
    requires trim == if |d| != width then 0 else if |d| > 1 && base == 16 then 2 else 1
    ensures (if left then "0" + mark + d[trim..] + Repeat(' ', width - 1 - |mark| - |d[trim..]|)
             else PlainHash(d[trim..], base, width, mark))
            == AroundDigits(WantedPrefix(base, mark), WantedBody(d, base, 0), width, left, false)
        <==> width != |d|
  {
    MarkedFits(d[trim..], base, mark);
    if base == 16 {
      Unfilled(d);
    }
  }

  /** Zeros up to the width: those that are trimmed must be zeros, and the width must fit the buffer. */
  lemma HashZeros(d: string, base: nat, width: u32, mark: string, n: nat, trim: nat)
    requires Numeral(d, base, mark) && n == Max(|d|, Min(width, BUFFER_SIZE))
    requires trim == if n != width then 0 else if n > 1 && base == 16 then 2 else 1
    ensures Marked((Repeat('0', n - |d|) + d)[trim..], base, mark)
            == AroundDigits(WantedPrefix(base, mark), WantedBody(d, base, 0), width, false, true)
        <==> width < |d| || |d| + PrefixLength(base) <= width <= BUFFER_SIZE
  {
    var body := (Repeat('0', n - |d|) + d)[trim..];
    ZerosWanted(d, base, width, mark);
    if width < |d| {
      assert body == d;
      NoZeros(d, base, width, mark);
    } else if |d| + PrefixLength(base) <= width <= BUFFER_SIZE {
      ZerosTrimmedAway(body, d, base, width, mark, trim);
    } else if width <= BUFFER_SIZE {
      MarkedFits(body, base, mark);
    } else {
      assert |Marked(body, base, mark)| == BUFFER_SIZE;
    }
  }

  lemma NoZeros(d: string, base: nat, width: u32, mark: string)
    requires Numeral(d, base, mark) && width < |d|
    ensures Marked(d, base, mark) == "0" + mark + Repeat('0', width - |d| - PrefixLength(base)) + d
  {
    MarkedFits(d, base, mark);
    assert "0" + mark + Repeat('0', width - |d| - PrefixLength(base)) == "0" + mark;
  }

  lemma ZerosTrimmedAway(body: string, d: string, base: nat, width: u32, mark: string, trim: nat)
    requires Numeral(d, base, mark) && |d| + PrefixLength(base) <= width <= BUFFER_SIZE && trim == PrefixLength(base)
    requires body == (Repeat('0', width - |d|) + d)[trim..]
    ensures Marked(body, base, mark) == "0" + mark + Repeat('0', width - |d| - PrefixLength(base)) + d
  {
    ZerosMoved(d, width, trim);
    MarkedFits(body, base, mark);
    Regroup("0" + mark, Repeat('0', width - |d| - trim), d);
  }

  lemma Regroup(a: string, b: string, c: string)
    ensures a + (b + c) == a + b + c
  {
  }

  /** The wanted text, as the prefix, the zeros and the digits. */
  lemma ZerosWanted(d: string, base: nat, width: u32, mark: string)
    requires Numeral(d, base, mark)
    ensures AroundDigits(WantedPrefix(base, mark), WantedBody(d, base, 0), width, false, true)
         == "0" + mark + Repeat('0', width - |d| - PrefixLength(base)) + d
  {
    if base == 16 {
      Unfilled(d);
    } else {
      ZerosOfOctal(Repeat('0', width - |d| - 1), d, mark);
    }
  }

  lemma Unfilled(d: string)
    ensures Repeat('0', 0 - |d|) + d == d
  {
  }

  lemma ZerosOfOctal(zeros: string, d: string, mark: string)
    requires AllZeros(zeros) && mark == ""
    ensures "" + zeros + ("0" + d) == "0" + mark + zeros + d
  {
    assert zeros + "0" == "0" + zeros;
    Regroup(zeros, "0", d);
    assert "" + zeros == zeros && "0" + mark == "0";
  }

  lemma ZerosMoved(d: string, width: nat, trim: nat)
    requires |d| + trim <= width
    ensures (Repeat('0', width - |d|) + d)[trim..] == Repeat('0', width - |d| - trim) + d
  {
  }

  // ----- The theorem -----

  // The printed text, case by case

  lemma TrimmedIs(d: string, base: nat, prec: u32, width: u32, flags: Flags, n: nat, body: string)
    requires n == FilledLength(|d|, prec, width, flags)
    requires body == (Repeat('0', n - |d|) + d)[Trim(n, base, prec, width, flags)..]
    ensures Trimmed(d, base, prec, width, flags) == body
  {
  }

  lemma HashPrintedPlain(d: string, base: nat, prec: u32, width: u32, flags: Flags, mark: string, n: nat, body: string)
    requires mark == MarkOf(base, flags) && Left !in flags && ZeroPad !in flags
    requires n == Max(|d|, Min(prec, BUFFER_SIZE))
    requires body == (Repeat('0', n - |d|) + d)[Trim(n, base, prec, width, flags)..]
    ensures HashPrinted(d, base, prec, width, flags) == PlainHash(body, base, width, mark)
  {
    TrimmedIs(d, base, prec, width, flags, n, body);
    OnTheRight(Marked(body, base, mark), width, flags);
  }

  lemma OnTheRight(body: string, width: u32, flags: Flags)
    requires Left !in flags && ZeroPad !in flags
    ensures Justified(body, width, flags) == Repeat(' ', width - |body|) + body
  {
  }

  lemma HashPrintedZeros(d: string, base: nat, width: u32, flags: Flags, mark: string, n: nat, body: string)
    requires mark == MarkOf(base, flags) && Left !in flags && ZeroPad in flags
    requires n == Max(|d|, Min(width, BUFFER_SIZE))
    requires body == (Repeat('0', n - |d|) + d)[Trim(n, base, 0, width, flags)..]
    ensures HashPrinted(d, base, 0, width, flags) == Marked(body, base, mark)
  {
    TrimmedIs(d, base, 0, width, flags, n, body);
  }

  lemma HashPrintedLeft(d: string, base: nat, prec: u32, width: u32, flags: Flags, mark: string, body: string)
    requires mark == MarkOf(base, flags) && Left in flags && body == d[Trim(|d|, base, prec, width, flags)..]
    requires |body| + |mark| + 1 <= BUFFER_SIZE
    ensures HashPrinted(d, base, prec, width, flags)
         == "0" + mark + body + Repeat(' ', width - 1 - |mark| - |body|)
  {
    assert Repeat('0', 0) + d == d;
    TrimmedIs(d, base, prec, width, flags, |d|, body);
    MarkedFits(body, base, mark);
  }

  lemma HashTextsAgree(d: string, base: nat, prec: u32, width: u32, flags: Flags, mark: string)
    requires Numeral(d, base, mark) && mark == MarkOf(base, flags) && Alternate(base, prec, flags)
    ensures HashPrinted(d, base, prec, width, flags) == HashWanted(d, base, prec, width, flags)
        <==> AlternateConforms(|d|, base, prec, width, flags)
  {
    if Left in flags {
      LeftTextsAgree(d, base, prec, width, flags, mark);
    } else if ZeroPad in flags {
      ZeroTextsAgree(d, base, width, flags, mark);
    } else if Precision in flags {
      PrecisionTextsAgree(d, base, prec, width, flags, mark);
    } else {
      PlainTextsAgree(d, base, width, flags, mark);
    }
  }

  lemma LeftTextsAgree(d: string, base: nat, prec: u32, width: u32, flags: Flags, mark: string)
    requires Numeral(d, base, mark) && mark == MarkOf(base, flags) && Alternate(base, prec, flags) && Left in flags
    ensures HashPrinted(d, base, prec, width, flags) == HashWanted(d, base, prec, width, flags)
        <==> AlternateConforms(|d|, base, prec, width, flags)
  {
    var trim := Trim(|d|, base, prec, width, flags);
    HashPrintedLeft(d, base, prec, width, flags, mark, d[trim..]);
    AroundLeft(WantedPrefix(base, mark), WantedBody(d, base, prec), width);
    if Precision in flags {
      HashLeft(d, base, prec, width, mark);
    } else {
      HashPlain(d, base, width, mark, true, trim);
    }
  }

  lemma AroundLeft(sign: string, body: string, width: u32)
    ensures AroundDigits(sign, body, width, true, true) == AroundDigits(sign, body, width, true, false)
  {
  }

  lemma ZeroTextsAgree(d: string, base: nat, width: u32, flags: Flags, mark: string)
    requires Numeral(d, base, mark) && mark == MarkOf(base, flags) && Alternate(base, 0, flags)
    requires Left !in flags && ZeroPad in flags
    ensures HashPrinted(d, base, 0, width, flags) == HashWanted(d, base, 0, width, flags)
        <==> AlternateConforms(|d|, base, 0, width, flags)
  {
    var n := Max(|d|, Min(width, BUFFER_SIZE));
    var trim := Trim(n, base, 0, width, flags);
    HashPrintedZeros(d, base, width, flags, mark, n, (Repeat('0', n - |d|) + d)[trim..]);
    HashZeros(d, base, width, mark, n, trim);
  }

  lemma PrintedWithPrecision(d: string, base: nat, prec: u32, width: u32, flags: Flags, mark: string, filled: string)
    requires mark == MarkOf(base, flags) && Left !in flags && ZeroPad !in flags && Precision in flags
    requires filled == Repeat('0', Max(|d|, Min(prec, BUFFER_SIZE)) - |d|) + d
    ensures HashPrinted(d, base, prec, width, flags) == PlainHash(filled, base, width, mark)
  {
    var n := Max(|d|, Min(prec, BUFFER_SIZE));
    var trim := Trim(n, base, prec, width, flags);
    assert trim == 0 && filled[trim..] == filled;
    HashPrintedPlain(d, base, prec, width, flags, mark, n, filled);
  }

  lemma WantedIsPlain(d: string, base: nat, prec: u32, width: u32, flags: Flags, mark: string)
    requires Numeral(d, base, mark) && mark == MarkOf(base, flags)
    requires Left !in flags && (ZeroPad !in flags || Precision in flags)
    ensures HashWanted(d, base, prec, width, flags) == PlainHashWanted(d, base, prec, width, mark)
  {
  }

  lemma PrecisionTextsAgree(d: string, base: nat, prec: u32, width: u32, flags: Flags, mark: string)
    requires Numeral(d, base, mark) && mark == MarkOf(base, flags) && Alternate(base, prec, flags)
    requires Left !in flags && Precision in flags
    ensures HashPrinted(d, base, prec, width, flags) == HashWanted(d, base, prec, width, flags)
        <==> AlternateConforms(|d|, base, prec, width, flags)
  {
    var filled := Repeat('0', Max(|d|, Min(prec, BUFFER_SIZE)) - |d|) + d;
    PrintedWithPrecision(d, base, prec, width, flags, mark, filled);
    WantedIsPlain(d, base, prec, width, flags, mark);
    if base == 16 {
      HashPrecision16(d, prec, width, mark, filled);
    } else {
      assert mark == "";
      HashPrecision8(d, prec, width, filled);
    }
  }

  lemma PlainTextsAgree(d: string, base: nat, width: u32, flags: Flags, mark: string)
    requires Numeral(d, base, mark) && mark == MarkOf(base, flags) && Alternate(base, 0, flags)
    requires Left !in flags && ZeroPad !in flags && Precision !in flags
    ensures HashPrinted(d, base, 0, width, flags) == HashWanted(d, base, 0, width, flags)
        <==> AlternateConforms(|d|, base, 0, width, flags)
  {
    var trim := Trim(|d|, base, 0, width, flags);
    assert Repeat('0', 0) + d == d;
    HashPrintedPlain(d, base, 0, width, flags, mark, |d|, d[trim..]);
    HashPlain(d, base, width, mark, false, trim);
  }

  lemma HashNumeral(value: u32, base: nat, upper: bool, flags: Flags)
    requires value > 0 && (base == 8 || base == 16)
    ensures Numeral(Digits(value, base, upper), base, MarkOf(base, flags))
  {
    LeadingDigit(value, base, upper);
    AllDigits(value, base, upper);
    if base == 16 {
      AtMost8HexDigits(value, upper);
    } else {
      AtMost11OctalDigits(value, upper);
    }
  }

  lemma AtMost11OctalDigits(value: u32, upper: bool)
    ensures |Digits(value, 8, upper)| <= 11
  {
    assert Power(8, 5) == 0x8000;
    PowerAdds(8, 5, 5);
    assert Power(8, 11) == 8 * Power(8, 10);
    FewDigits(value, 8, upper, 11);
  }

  /** Zero has no prefix; in base 8, the standard asks for one digit at least. */
  lemma ZeroHashConforms(base: nat, prec: u32, width: u32, flags: Flags)
    requires Alternate(base, prec, flags)
    ensures IntegerText(0, false, base, prec, width, flags) == C11AlternateText(0, base, prec, width, flags)
        <==> HashConforms(0, base, prec, width, flags)
  {
    ZeroText(base, prec, width, flags);
    if base == 8 && Precision in flags && prec == 0 {
      assert C11Digits(0, base, prec, flags) == [] && "0" + [] == "0";
      ZeroShown("", width, Left in flags, false);
    } else {
      ZeroStarts(base, prec, flags);
    }
  }

  lemma ZeroText(base: nat, prec: u32, width: u32, flags: Flags)
    requires Alternate(base, prec, flags)
    ensures IntegerText(0, false, base, prec, width, flags)
            == AroundDigits("", C11Digits(0, base, prec, flags), width,
                            Left in flags, ZeroPad in flags && Precision !in flags)
        <==> Conforms(|PrintedDigits(0, base, flags)|, "", prec, width, flags)
  {
    var f := flags - {Hash};
    assert C11Digits(0, base, prec, f) == C11Digits(0, base, prec, flags);
    AroundNothing(C11Digits(0, base, prec, flags), base, prec, width, f);
    NoHashOfZero(base, prec, width, flags, f);
    ConformsExactlyWhen(0, false, base, prec, width, f);
  }

  lemma NoHashOfZero(base: nat, prec: u32, width: u32, flags: Flags, f: Flags)
    requires 2 <= base <= 16 && f == flags - {Hash}
    ensures IntegerText(0, false, base, prec, width, flags) == IntegerText(0, false, base, prec, width, f)
    ensures PrintedDigits(0, base, f) == PrintedDigits(0, base, flags)
  {
    assert f - {Hash} == f;
  }

  lemma AroundNothing(body: string, base: nat, prec: u32, width: u32, flags: Flags)
    requires 2 <= base <= 16 && body == C11Digits(0, base, prec, flags) && Plus !in flags && Space !in flags
    ensures C11Text(0, false, base, prec, width, flags)
         == AroundDigits("", body, width, Left in flags, ZeroPad in flags && Precision !in flags)
  {
  }

  lemma ZeroStarts(base: nat, prec: u32, flags: Flags)
    requires Alternate(base, prec, flags) && !(base == 8 && Precision in flags && prec == 0)
    ensures AlternateDigits(0, base, prec, flags) == C11Digits(0, base, prec, flags)
  {
    assert Digits(0, base, Uppercase in flags) == ['0'];
  }

  /** With '#', in the bases 8 and 16, the code prints what the standard asks for exactly when the condition
      holds. */
  lemma HashConformsExactlyWhen(value: u32, base: nat, prec: u32, width: u32, flags: Flags)
    requires Alternate(base, prec, flags)
    ensures IntegerText(value, false, base, prec, width, flags) == C11AlternateText(value, base, prec, width, flags)
        <==> HashConforms(value, base, prec, width, flags)
  {
    if value == 0 {
      ZeroHashConforms(base, prec, width, flags);
    } else {
      HashShape(value, base, prec, width, flags);
      WantedHashShape(value, base, prec, width, flags);
      HashNumeral(value, base, Uppercase in flags, flags);
      HashTextsAgree(Digits(value, base, Uppercase in flags), base, prec, width, flags, MarkOf(base, flags));
    }
  }

  /** %#.3o of 8: the code prints "0010", the standard asks for "010". */
  lemma ZeroAdded()
    ensures IntegerText(8, false, 8, 3, 0, {Hash, Precision}) != C11AlternateText(8, 8, 3, 0, {Hash, Precision})
  {
    assert |Digits(8, 8, false)| == 2;
    HashConformsExactlyWhen(8, 8, 3, 0, {Hash, Precision});
  }

  // ----- A precision that the standard takes for none -----

  /** Precision 0 asks for what no precision does exactly when the value is not zero, and no zeros were to
      fill the width. */
  lemma NoHashPrecisionExactlyWhen(value: u32, base: nat, width: u32, flags: Flags)
    requires (base == 8 || base == 16) && value > 0 && Precision !in flags
    ensures C11AlternateText(value, base, 0, width, flags + {Precision})
            == C11AlternateText(value, base, 0, width, flags)
        <==> (ZeroPad in flags && Left !in flags ==>
               width <= |Digits(value, base, Uppercase in flags)| + PrefixLength(base))
  {
    var d := Digits(value, base, Uppercase in flags);
    LeadingDigit(value, base, Uppercase in flags);
    PrecisionDigits(value, base, flags);
    var sign, body := AlternatePrefix(value, base, flags), AlternateDigits(value, base, 0, flags);
    assert AlternatePrefix(value, base, flags + {Precision}) == sign;
    assert AlternateDigits(value, base, 0, flags + {Precision}) == body;
    if ZeroPad in flags && Left !in flags {
      PadShown(sign, body, width);
    }
  }

  lemma PadShown(sign: string, d: string, width: u32)
    requires sign == [] || sign[0] == '0'
    ensures AroundDigits(sign, d, width, false, false) == AroundDigits(sign, d, width, false, true)
        <==> width <= |sign| + |d|
  {
    if width > |sign| + |d| {
      assert AroundDigits(sign, d, width, false, true)[0] == '0';
      assert AroundDigits(sign, d, width, false, false)[0] == ' ';
    }
  }

  /** Of a zero, no digits and some digits are not the same. */
  lemma ZeroHashLost(base: nat, width: u32, flags: Flags, g: Flags)
    requires Alternate(base, 0, flags) && Precision in flags && Precision !in g && (Left in g <==> Left in flags)
    ensures IntegerText(0, false, base, 0, width, flags) != C11AlternateText(0, base, 0, width, g)
  {
    var f := flags - {Hash};
    NoHashOfZero(base, 0, width, flags, f);
    ConformsExactlyWhen(0, false, base, 0, width, f);
    AroundNothing([], base, 0, width, f);
    assert Digits(0, base, Uppercase in g) == ['0'];
    assert C11Digits(0, base, 0, g) == "0";
    ZeroShown("", width, Left in flags, ZeroPad in g);
  }
}
