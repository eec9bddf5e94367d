/** kernel/arch/i386/tty.c. */
module Terminals {
  import opened Words
  import opened Memory
  import opened TerminalPaper

  class Terminal {
    const buffer: array<bv16>
    var row: u32
    var column: u32
    var color: bv8

    ghost predicate Valid() {
      buffer.Length == HEIGHT * WIDTH
    }

    ghost function State(): Screen
      reads this, buffer
    {
      Screen(buffer[..], row, column, color)
    }

    /** terminal_initialize on the given video memory: colour 0 asks for the default. */
    constructor (buffer: array<bv16>, termColor: bv8)
      requires buffer.Length == HEIGHT * WIDTH
      modifies buffer
      ensures this.buffer == buffer && Valid()
      ensures State() == BlankScreen(if termColor == 0 then 0x07 else termColor)
      ensures Shows(State(), [], color)
    {
      this.buffer := buffer;
      row := 0;
      column := 0;
      color := if termColor == 0 then VgaEntryColor(LIGHT_GREY, BLACK) else termColor;
      VgaEntryColorHalves(LIGHT_GREY, BLACK);
      new;
      Clear();
      assert this.buffer[..] == BlankScreen(color).cells;
      BlankShowsNothing(color);
    }

    method Clear()
      requires Valid()
      modifies buffer
      ensures forall i :: 0 <= i < HEIGHT * WIDTH ==> buffer[i] == Blank(color)
    {
      for y := 0 to HEIGHT
        invariant forall i :: 0 <= i < y * WIDTH ==> buffer[i] == Blank(color)
      {
        for x := 0 to WIDTH
          invariant forall i :: 0 <= i < y * WIDTH + x ==> buffer[i] == Blank(color)
        {
          var index := y * WIDTH + x;
          buffer[index] := VgaEntry(SPACE, color);
        }
      }
    }

    method SetColor(color: bv8)
      modifies this`color
      ensures State() == Apply(old(State()), Color(color))
    {
      this.color := color;
    }

    method PutEntryAt(c: bv8, color: bv8, x: u32, y: u32)
      requires Valid() && Wrap(y * WIDTH + x) < HEIGHT * WIDTH
      modifies buffer
      ensures buffer[..] == old(buffer[..])[Wrap(y * WIDTH + x) := VgaEntry(c, color)]
    {
      var index := Wrap(Wrap(y * WIDTH) + x);
      WrapAdd(y * WIDTH, x);
      buffer[index] := VgaEntry(c, color);
    }

    method Scroll()
      requires Valid()
      modifies buffer
      ensures buffer[..] == Scrolled(old(buffer[..]), color)
    {
      Memmove(buffer, 0, WIDTH, WIDTH * (HEIGHT - 1));
      ghost var moved := buffer[..];
      var index := (HEIGHT - 1) * WIDTH;
      for x := 0 to WIDTH
        invariant forall i :: 0 <= i < HEIGHT * WIDTH ==>
                    buffer[i] == if index <= i < index + x then Blank(color) else moved[i]
      {
        buffer[index + x] := VgaEntry(SPACE, color);
      }
    }

    /** terminal_putchar, for every character; the cell it stores must lie in the buffer. */
    method PutChar(c: bv8)
      requires Valid() && InBuffer(State(), c)
      modifies this`row, this`column, buffer
      ensures State() == Put(old(State()), c)
    {
      Store(c);
      if column == WIDTH {
        column := 0;
        row := Wrap(row + 1);
      }
      if row == HEIGHT {
        Scroll();
        row := HEIGHT - 1;
      }
    }

    /** The part of terminal_putchar before the two end-of-line tests. */
    method Store(c: bv8)
      requires Valid() && InBuffer(State(), c)
      modifies this`row, this`column, buffer
      ensures buffer[..] == Stored(old(State()), c) && (row, column) == Step(old(row), old(column), c)
    {
      if c == NEWLINE {
        row := Wrap(row + 1);
        column := 0;
      } else if c == TAB {
        column := Wrap(column + (4 - row % 4));
      } else if c == BACKSPACE {
        if column == 0 {
          column := WIDTH - 1;
          row := Wrap(row - 1);
        } else {
          column := column - 1;
        }
        PutEntryAt(0, color, column, row);
      } else {
        PutEntryAt(c, color, column, row);
        column := Wrap(column + 1);
      }
    }

    /** terminal_write, for every text whose characters are stored in the buffer, as those of a safe run
        from the screen are. */
    method Write(data: seq<bv8>)
      requires Valid() && StoresInBuffer(State(), Chars(data))
      modifies this`row, this`column, buffer
      ensures State() == After(old(State()), Chars(data))
      ensures old(OnScreen(row, column) && SafeRun(State(), Chars(data))) ==> OnScreen(row, column)
    {
      ghost var start, events := State(), Chars(data);
      for i := 0 to |data|
        invariant State() == After(start, events[..i])
      {
        assert events[i] == Char(data[i]) && events[..i + 1][..i] == events[..i];
        PutChar(data[i]);
      }
      assert events[..|data|] == events;
      if OnScreen(start.row, start.column) && SafeRun(start, events) {
        SafeRunStores(start, events);
      }
    }
  }
}
