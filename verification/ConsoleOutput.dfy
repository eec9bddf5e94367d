/** printf on the terminal: libc/stdio/stdio.c hands each character to kernel/arch/i386/tty.c. */
module ConsoleOutput {
  import opened Words
  import opened Bytes
  import opened FormatSpecs
  import opened Outputs
  import Printf
  import opened TerminalPaper
  import opened Terminals

  /** A char of C is a byte. */
  function ByteOf(c: char): byte {
    ToByte(c as int % 256)
  }

  lemma ByteOfMeaning(c: char)
    requires c as int < 256
    ensures ByteOf(c) as int == c as int
  {
    ByteReadsBack(c as int);
  }

  function BytesOf(text: string): (bytes: seq<bv8>)
    ensures |bytes| == |text|
  {
    seq(|text|, i requires 0 <= i < |text| => ByteOf(text[i]))
  }

  lemma {:induction false} AfterConcat(s: Screen, a: seq<Event>, b: seq<Event>)
    ensures After(s, a + b) == After(After(s, a), b)
  {
    if b == [] {
      assert a + b == a;
    } else {
      var last := |b| - 1;
      assert (a + b)[..|a + b| - 1] == a + b[..last];
      AfterConcat(s, a, b[..last]);
    }
  }

  /** It shows what writing the text on a cleared screen leaves, and nothing else shows it. */
  lemma WrittenShows(text: seq<bv8>, color: bv8)
    requires Plain(text)
    ensures Shows(After(BlankScreen(color), Chars(text)), text, color)
  {
    PlainTextIsLaidOut(text, color);
  }

  lemma ShownIsWritten(s: Screen, text: seq<bv8>, color: bv8)
    requires Plain(text) && Shows(s, text, color)
    ensures s == After(BlankScreen(color), Chars(text))
  {
    PlainTextIsLaidOut(text, color);
  }

  lemma CharsConcat(s: Screen, a: seq<bv8>, b: seq<bv8>)
    ensures After(s, Chars(a + b)) == After(After(s, Chars(a)), Chars(b))
  {
    AfterConcat(s, Chars(a), Chars(b));
    assert Chars(a) + Chars(b) == Chars(a + b);
  }

  lemma PlainIsSafe(s: Screen, text: seq<bv8>)
    requires Plain(text)
    ensures SafeRun(s, Chars(text))
  {
  }

  lemma PlainStores(text: seq<bv8>, more: seq<bv8>, color: bv8)
    requires Plain(text) && Plain(more)
    ensures StoresInBuffer(After(BlankScreen(color), Chars(text)), Chars(more))
  {
    var s := After(BlankScreen(color), Chars(text));
    PlainIsSafe(BlankScreen(color), text);
    SafeRunStores(BlankScreen(color), Chars(text));
    PlainIsSafe(s, more);
    SafeRunStores(s, Chars(more));
  }

  /** Plain text written behind plain text stores in the buffer and continues it. */
  lemma ShowsMore(s: Screen, text: seq<bv8>, more: seq<bv8>, color: bv8)
    requires Plain(text) && Plain(more) && Shows(s, text, color)
    ensures StoresInBuffer(s, Chars(more)) && Shows(After(s, Chars(more)), text + more, color)
  {
    ShownIsWritten(s, text, color);
    PlainStores(text, more, color);
    CharsConcat(BlankScreen(color), text, more);
    assert Plain(text + more);
    WrittenShows(text + more, color);
  }

  /** printf_, with the characters in the order in which the terminal is given them. Where the screen
      showed plain text and plain text is printed, it shows the one behind the other. */
  method Print(terminal: Terminal, fmt: CString, args: seq<Arg>, ghost text: string, ghost shown: seq<bv8>)
    returns (r: int)
    requires Printf.Prints(fmt, 0, args, text)
    requires terminal.Valid() && StoresInBuffer(terminal.State(), Chars(BytesOf(Visible(text))))
    modifies terminal`row, terminal`column, terminal.buffer
    ensures r == Signed(Wrap(|text|))
    ensures terminal.State() == After(old(terminal.State()), Chars(BytesOf(Visible(text))))
    ensures Plain(shown) && Plain(BytesOf(Visible(text))) && Shows(old(terminal.State()), shown, terminal.color) ==>
              Shows(terminal.State(), shown + BytesOf(Visible(text)), terminal.color)
  {
    ghost var start := terminal.State();
    var given: string;
    r, given := Printf.PrintToTerminal(fmt, args, text);
    terminal.Write(BytesOf(given));
    if Plain(shown) && Plain(BytesOf(given)) && Shows(start, shown, terminal.color) {
      ShowsMore(start, shown, BytesOf(given), terminal.color);
    }
  }
}
