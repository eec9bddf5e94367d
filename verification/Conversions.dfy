/** The text of every conversion of _vsnprintf in libc/stdio/stdio.c, and of a whole format. */
module Conversions {
  import opened Words
  import opened IntegerFormat
  import opened FormatSpecs

  predicate IsInteger(c: char) {
    c == 'd' || c == 'i' || c == 'u' || c == 'x' || c == 'X' || c == 'o' || c == 'b'
  }

  predicate IsSigned(c: char) {
    c == 'd' || c == 'i'
  }

  predicate IsFloat(c: char) {
    c == 'f' || c == 'F' || c == 'e' || c == 'E' || c == 'g' || c == 'G'
  }

  function Base(c: char): (base: u32)
    ensures base == 2 || base == 8 || base == 10 || base == 16
  {
    if c == 'x' || c == 'X' then 16 else if c == 'o' then 8 else if c == 'b' then 2 else 10
  }

  /** The flags that an integer conversion goes by. */
  function IntegerFlags(c: char, flags: Flags): Flags {
    flags - (if Base(c) == 10 then {Hash} else {})
          + (if c == 'X' then {Uppercase} else {})
          - (if IsSigned(c) then {} else {Plus, Space})
          - (if Precision in flags then {ZeroPad} else {})
  }

  /** The value of an int argument, cut to the length that the flags ask for. */
  function SignedArgument(w: u32, flags: Flags): int {
    if Long in flags then Signed(w)
    else if Char in flags then (if w % 256 < 128 then w % 256 else w % 256 - 256)
    else if Short in flags then (if w % 65536 < 32768 then w % 65536 else w % 65536 - 65536)
    else Signed(w)
  }

  function UnsignedArgument(w: u32, flags: Flags): u32 {
    if Long in flags then w else if Char in flags then w % 256 else if Short in flags then w % 65536 else w
  }

  /** The argument as the conversion reads it. */
  function Argument(c: char, w: u32, flags: Flags): (v: int)
    ensures -0x8000_0000 <= v < 0x1_0000_0000
  {
    if IsSigned(c) then SignedArgument(w, flags) else UnsignedArgument(w, flags)
  }

  function Magnitude(v: int): u32
    requires -0x8000_0000 <= v < 0x1_0000_0000
  {
    if v < 0 then -v else v
  }

  ghost function IntegerConversion(c: char, w: u32, precision: u32, width: u32, flags: Flags): string {
    var v := Argument(c, w, flags);
    IntegerText(Magnitude(v), v < 0, Base(c), precision, width, IntegerFlags(c, flags))
  }

  /** '0' means nothing to %c and %s. */
  ghost function Padded(body: string, width: u32, flags: Flags): string {
    Justified(body, width, flags - {ZeroPad})
  }

  function CharOf(w: u32): char {
    (w % 256) as char
  }

  /** What %s shows: all of the string, or as much of it as the precision allows. */
  function Shown(text: CString, precision: u32, flags: Flags): string {
    if Precision in flags then text[..Min(|text|, precision)] else text
  }

  /** What one turn of the main loop prints. */
  datatype Piece =
    | Nothing
    | Literal(c: char)
    | Integer(c: char, w: u32, precision: u32, width: u32, flags: Flags)
    | Pointer(w: u32, precision: u32, flags: Flags)
    | Character(w: u32, width: u32, flags: Flags)
    | Chars(text: CString, precision: u32, width: u32, flags: Flags)

  ghost function PieceText(piece: Piece): string {
    match piece
    case Nothing => []
    case Literal(c) => [c]
    case Integer(c, w, precision, width, flags) => IntegerConversion(c, w, precision, width, flags)
    case Pointer(w, precision, flags) => IntegerText(w, false, 16, precision, 8, flags + {ZeroPad, Uppercase})
    case Character(w, width, flags) => Padded([CharOf(w)], width, flags)
    case Chars(text, precision, width, flags) => Padded(Shown(text, precision, flags), width, flags)
  }

  /** One conversion, and the arguments it leaves. None means an argument of the wrong kind, or a conversion
      to floating point. The library is built without long long: these conversions print nothing and take no
      argument. */
  function Conversion(c: char, f: Fields): Option<(Piece, seq<Arg>)> {
    if IsInteger(c) then
      if LongLong in f.flags then Some((Nothing, f.args))
      else
        match TakeWord(f.args)
        case None => None
        case Some((w, rest)) => Some((Integer(c, w, f.precision, f.width, f.flags), rest))
    else if IsFloat(c) then None
    else if c == 'c' then
      match TakeWord(f.args)
      case None => None
      case Some((w, rest)) => Some((Character(w, f.width, f.flags), rest))
    else if c == 's' then
      if f.args == [] || !f.args[0].Str? then None
      else Some((Chars(f.args[0].text, f.precision, f.width, f.flags), f.args[1..]))
    else if c == 'p' then
      match TakeWord(f.args)
      case None => None
      case Some((w, rest)) => Some((Pointer(w, f.precision, f.flags), rest))
    else Some((Literal(c), f.args))
  }

  /** One turn of the main loop, and where it leaves the format and the arguments. */
  datatype Turn = Turn(piece: Piece, behind: nat, rest: seq<Arg>)

  /** One turn: a character that stands for itself, or a conversion. None means a format or a list of
      arguments that the standard leaves undefined, such as a specification that the format does not
      finish, or one to floating point. */
  function TurnAt(fmt: CString, i: nat, args: seq<Arg>): (r: Option<Turn>)
    requires i < |fmt|
    ensures r.Some? ==> i < r.value.behind <= |fmt|
  {
    if fmt[i] != '%' then Some(Turn(Literal(fmt[i]), i + 1, args))
    else
      match ReadFields(fmt, i + 1, args)
      case None => None
      case Some(f) =>
        if f.at == |fmt| then None else TurnFrom(Conversion(fmt[f.at], f), f.at + 1)
  }

  function TurnFrom(r: Option<(Piece, seq<Arg>)>, behind: nat): Option<Turn> {
    match r
    case None => None
    case Some((piece, rest)) => Some(Turn(piece, behind, rest))
  }

  /** The turn of a specification whose fields are known. */
  lemma TurnOfFields(fmt: CString, i: nat, args: seq<Arg>, p: Fields)
    requires i < |fmt| && fmt[i] == '%' && ReadFields(fmt, i + 1, args) == Some(p) && p.at < |fmt|
    ensures TurnAt(fmt, i, args) == TurnFrom(Conversion(fmt[p.at], p), p.at + 1)
  {
  }

  /** The text of a format is that of a turn and of what is left. */
  lemma RenderedTurn(fmt: CString, i: nat, args: seq<Arg>, t: Turn)
    requires i < |fmt| && t.behind <= |fmt| && TurnAt(fmt, i, args) == Some(t)
    ensures Rendered(fmt, i, args) == Before(PieceText(t.piece), Rendered(fmt, t.behind, t.rest))
  {
  }

  /** The text of a format from an index on, and the arguments it leaves. */
  ghost function Rendered(fmt: CString, i: nat, args: seq<Arg>): Option<(string, seq<Arg>)>
    requires i <= |fmt|
    decreases |fmt| - i
  {
    if i == |fmt| then Some(([], args))
    else
      match TurnAt(fmt, i, args)
      case None => None
      case Some(t) => Before(PieceText(t.piece), Rendered(fmt, t.behind, t.rest))
  }

  ghost function Before(text: string, r: Option<(string, seq<Arg>)>): Option<(string, seq<Arg>)> {
    match r
    case None => None
    case Some((more, rest)) => Some((text + more, rest))
  }
}
