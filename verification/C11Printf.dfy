/** What section 7.21.6.1 of ISO C11 asks of the conversions d, i, u, o, x and X, in terms of the specification as it
    is written. Nothing here refers to how libc/stdio/stdio.c represents a specification or an argument. */
module C11Printf {
  import opened Words
  import opened Numerals
  import opened FormatSpecs

  // ----- The specification -----

  predicate IsFlagCharacter(c: char) {
    c == '-' || c == '+' || c == ' ' || c == '#' || c == '0'
  }

  ghost predicate FlagCharacters(flags: string) {
    forall i :: 0 <= i < |flags| ==> IsFlagCharacter(flags[i])
  }

  /** b is an extension. */
  predicate IsIntegerSpecifier(c: char) {
    c == 'd' || c == 'i' || c == 'u' || c == 'o' || c == 'x' || c == 'X' || c == 'b'
  }

  /** A '-', or a negative '*' width, which is a '-' and a positive width. */
  predicate LeftJustified(flags: string, width: WidthField) {
    '-' in flags || (width.WidthStar? && width.w >= 0x8000_0000)
  }

  function FieldWidth(width: WidthField): u32 {
    match width
    case WidthNumber(n) => n
    case WidthStar(w) => if w < 0x8000_0000 then w else 0x1_0000_0000 - w
  }

  /** A '.' alone is precision 0; a negative '*' precision is none. */
  function GivenPrecision(precision: PrecisionField): Option<u32> {
    match precision
    case NoPrecision => None
    case Dot => Some(0)
    case DotNumber(n) => Some(n)
    case DotStar(w) => if w < 0x8000_0000 then Some(w) else None
  }

  // ----- The argument -----

  predicate IsLongLong(length: Length) {
    length == LL || length == J
  }

  /** A word, cut to the length and read as a number of that many bits with a sign. */
  function SignedWord(length: Length, w: u32): int {
    match length
    case HH => if w % 256 < 128 then w % 256 else w % 256 - 256
    case H => if w % 65536 < 32768 then w % 65536 else w % 65536 - 65536
    case _ => if w < 0x8000_0000 then w else w - 0x1_0000_0000
  }

  function UnsignedWord(length: Length, w: u32): nat {
    match length
    case HH => w % 256
    case H => w % 65536
    case _ => w
  }

  /** The argument; of a long long, low and high are the two words. long is as wide as int. */
  function ValueOf(c: char, length: Length, low: u32, high: u32): int {
    if c == 'd' || c == 'i' then
      if IsLongLong(length) then low + 0x1_0000_0000 * (if high < 0x8000_0000 then high else high - 0x1_0000_0000)
      else SignedWord(length, low)
    else if IsLongLong(length) then low + 0x1_0000_0000 * high
    else UnsignedWord(length, low)
  }

  // ----- The text -----

  /** The base of a conversion. */
  function BaseOf(c: char): (base: nat)
    ensures 2 <= base <= 16
  {
    match c
    case 'x' => 16
    case 'X' => 16
    case 'o' => 8
    case 'b' => 2
    case _ => 10
  }

  function Symbols(c: char): (s: string)
    ensures |s| == 16
  {
    if c == 'X' then "0123456789ABCDEF" else "0123456789abcdef"
  }

  ghost function Numeral(value: nat, base: nat, symbols: string): string
    requires 2 <= base <= |symbols|
    decreases value
  {
    if value < base then [symbols[value]]
    else
      Smaller(value, base);
      Numeral(value / base, base, symbols) + [symbols[value % base]]
  }

  /** At least as many digits as the precision asks for, and one where none is given. */
  ghost function LeastDigits(precision: PrecisionField, value: nat, base: nat, symbols: string): string
    requires 2 <= base <= |symbols|
  {
    var minimum := if GivenPrecision(precision).Some? then GivenPrecision(precision).value else 1;
    var numeral := if value == 0 && minimum == 0 then "" else Numeral(value, base, symbols);
    Repeat('0', minimum - |numeral|) + numeral
  }

  /** '#' asks for a zero in front of an octal number that does not start with one. */
  ghost function DigitsOf(flags: string, precision: PrecisionField, c: char, value: nat): string {
    var digits := LeastDigits(precision, value, BaseOf(c), Symbols(c));
    if '#' in flags && c == 'o' && (digits == "" || digits[0] != '0') then "0" + digits else digits
  }

  /** The sign, or the prefix that '#' asks for. */
  function PrefixOf(flags: string, c: char, value: int): string {
    if c == 'd' || c == 'i' then
      if value < 0 then "-" else if '+' in flags then "+" else if ' ' in flags then " " else ""
    else if '#' in flags && value != 0 then if c == 'x' then "0x" else if c == 'X' then "0X" else ""
    else ""
  }

  /** The whole text: '0' is ignored beside a '-' or a precision. */
  ghost function IntegerTextOf(flags: string, width: WidthField, precision: PrecisionField, length: Length, c: char,
                               low: u32, high: u32): string
  {
    var value := ValueOf(c, length, low, high);
    var prefix := PrefixOf(flags, c, value);
    var digits := DigitsOf(flags, precision, c, if value < 0 then -value else value);
    var pad := FieldWidth(width) - |prefix| - |digits|;
    if LeftJustified(flags, width) then prefix + digits + Repeat(' ', pad)
    else if '0' in flags && GivenPrecision(precision).None? then prefix + Repeat('0', pad) + digits
    else Repeat(' ', pad) + prefix + digits
  }

  // ----- Characters and strings -----

  /** Blanks up to the width, on the side that the specification asks for. */
  ghost function BlankPadded(flags: string, width: WidthField, body: string): string {
    var blanks := Repeat(' ', FieldWidth(width) - |body|);
    if LeftJustified(flags, width) then body + blanks else blanks + body
  }

  /** The characters of a string up to the precision. */
  ghost function StringTextOf(flags: string, width: WidthField, precision: PrecisionField, text: string): string {
    var n := if GivenPrecision(precision).Some? then Min(|text|, GivenPrecision(precision).value) else |text|;
    BlankPadded(flags, width, text[..n])
  }
}
