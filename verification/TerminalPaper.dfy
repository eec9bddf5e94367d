/** What kernel/arch/i386/tty.c shows, as functions on values: a 25x80 screen that scrolls, the unbounded
    paper it is a window on, and the layout of plain text on that paper. */
module TerminalPaper {
  import opened Words

  const WIDTH := 80
  const HEIGHT := 25
  const NEWLINE: bv8 := 10
  const TAB: bv8 := 9
  const BACKSPACE: bv8 := 8
  const SPACE: bv8 := 32
  const LIGHT_GREY: bv8 := 7
  const BLACK: bv8 := 0

  function VgaEntryColor(fg: bv8, bg: bv8): bv8 {
    fg | (bg << 4)
  }

  function VgaEntry(uc: bv8, color: bv8): bv16 {
    (uc as bv16) | ((color as bv16) << 8)
  }

  /** The character is the low byte of a screen cell, the colour the high byte. */
  lemma VgaEntryBytes(uc: bv8, color: bv8)
    ensures VgaEntry(uc, color) & 0xFF == uc as bv16 && VgaEntry(uc, color) >> 8 == color as bv16
  {
  }

  /** The foreground is the low half of a colour, the background the high half. */
  lemma VgaEntryColorHalves(fg: bv8, bg: bv8)
    ensures fg < 16 ==> VgaEntryColor(fg, bg) & 0x0F == fg && VgaEntryColor(fg, bg) >> 4 == bg & 0x0F
    ensures VgaEntryColor(LIGHT_GREY, BLACK) == 0x07
  {
  }

  /** A screen cell keeps character and colour apart. */
  lemma VgaEntryInjective(uc: bv8, color: bv8, uc': bv8, color': bv8)
    ensures VgaEntry(uc, color) == VgaEntry(uc', color') ==> uc == uc' && color == color'
  {
  }

  function Blank(color: bv8): bv16 {
    VgaEntry(SPACE, color)
  }

  // ----- The screen -----

  datatype Screen = Screen(cells: seq<bv16>, row: u32, column: u32, color: bv8)

  /** Where the character is stored, and the cursor before the two end-of-line tests. */
  function Step(row: u32, column: u32, c: bv8): (u32, u32) {
    if c == NEWLINE then (Wrap(row + 1), 0)
    else if c == TAB then (row, Wrap(column + 4 - row % 4))
    else if c == BACKSPACE then if column == 0 then (Wrap(row - 1), WIDTH - 1) else (row, column - 1)
    else (row, Wrap(column + 1))
  }

  /** The cursor after the test for the end of the line. */
  function Cursor(row: u32, column: u32, c: bv8): (u32, u32) {
    var (r, k) := Step(row, column, c);
    if k == WIDTH then (Wrap(r + 1), 0) else (r, k)
  }

  predicate Stores(c: bv8) {
    c != NEWLINE && c != TAB
  }

  /** The cell that a character is stored in: the cursor's, or for a backspace the one it moves back to. */
  function Target(row: u32, column: u32, c: bv8): u32 {
    var (r, k) := if c == BACKSPACE then Step(row, column, c) else (row, column);
    Wrap(r * WIDTH + k)
  }

  function Shown(c: bv8): bv8 {
    if c == BACKSPACE then 0 else c
  }

  ghost predicate InBuffer(s: Screen, c: bv8) {
    |s.cells| == HEIGHT * WIDTH && (Stores(c) ==> Target(s.row, s.column, c) < HEIGHT * WIDTH)
  }

  ghost function BlankRow(color: bv8): (row: seq<bv16>)
    ensures |row| == WIDTH
  {
    seq(WIDTH, _ => Blank(color))
  }

  /** terminal_scroll. */
  ghost function Scrolled(cells: seq<bv16>, color: bv8): (result: seq<bv16>)
    requires |cells| == HEIGHT * WIDTH
    ensures |result| == HEIGHT * WIDTH
  {
    cells[WIDTH..] + BlankRow(color)
  }

  ghost function Stored(s: Screen, c: bv8): (cells: seq<bv16>)
    requires InBuffer(s, c)
    ensures |cells| == HEIGHT * WIDTH
  {
    if Stores(c) then s.cells[Target(s.row, s.column, c) := VgaEntry(Shown(c), s.color)] else s.cells
  }

  /** terminal_putchar. */
  ghost function Put(s: Screen, c: bv8): (t: Screen)
    requires InBuffer(s, c)
    ensures |t.cells| == HEIGHT * WIDTH
  {
    var cells := Stored(s, c);
    var (row, column) := Cursor(s.row, s.column, c);
    if row == HEIGHT then Screen(Scrolled(cells, s.color), HEIGHT - 1, column, s.color)
    else Screen(cells, row, column, s.color)
  }

  ghost predicate OnScreen(row: u32, column: u32) {
    row < HEIGHT && column < WIDTH
  }

  /** A tab must not cross the end of the line, and a backspace must not leave the window. */
  predicate Safe(row: u32, column: u32, c: bv8) {
    && (c == TAB ==> column + 4 - row % 4 <= WIDTH)
    && (c == BACKSPACE ==> row > 0 || column > 0)
  }

  /** From a cursor on the screen, the next one is on the screen exactly when the character is safe. */
  lemma CursorStaysExactlyWhen(row: u32, column: u32, c: bv8)
    requires OnScreen(row, column)
    ensures var (r, k) := Cursor(row, column, c);
      OnScreen(if r == HEIGHT then HEIGHT - 1 else r, k) <==> Safe(row, column, c)
  {
  }

  /** A tab near the end of the first line leaves the screen. */
  lemma TabLeavesScreen()
    ensures Cursor(0, 78, TAB) == (0, 82)
  {
  }

  /** A backspace at the origin wraps the row around. */
  lemma BackspaceLeavesScreen()
    ensures Cursor(0, 0, BACKSPACE) == (0xFFFF_FFFF, 79)
  {
  }

  lemma SafeTarget(row: u32, column: u32, c: bv8)
    requires OnScreen(row, column) && Safe(row, column, c) && Stores(c)
    ensures Target(row, column, c) < HEIGHT * WIDTH
  {
  }

  /** A safe character on the screen stores inside the buffer and leaves the cursor on the screen. */
  lemma SafeStores(s: Screen, c: bv8)
    requires |s.cells| == HEIGHT * WIDTH && OnScreen(s.row, s.column) && Safe(s.row, s.column, c)
    ensures InBuffer(s, c) && OnScreen(Put(s, c).row, Put(s, c).column)
  {
    if Stores(c) {
      SafeTarget(s.row, s.column, c);
    }
    CursorStaysExactlyWhen(s.row, s.column, c);
  }

  /** A newline starts the next row; on the last one, the rows move up and a blank row is added. */
  lemma NewlineMoves(s: Screen)
    requires |s.cells| == 2000 && s.row < 25 && s.column < 80
    ensures InBuffer(s, 10)
    ensures var t := Put(s, 10);
      && t.color == s.color && t.column == 0
      && (s.row < 24 ==> t.row == s.row + 1 && t.cells == s.cells)
      && (s.row == 24 ==> t.row == 24 && forall i :: 0 <= i < 2000 ==>
            t.cells[i] == if i < 1920 then s.cells[i + 80] else VgaEntry(32, s.color))
  {
  }

  /** A tab moves 4 columns in rows 0, 4, 8 and so on, 3, 2 and 1 in those after them; the end of the line is
      a newline. */
  lemma TabMoves(s: Screen)
    requires |s.cells| == 2000 && s.row < 25 && s.column + 4 - s.row % 4 <= 80
    ensures InBuffer(s, 9) && InBuffer(s, 10)
    ensures Put(s, 9) == if s.column + 4 - s.row % 4 < 80 then s.(column := s.column + 4 - s.row % 4) else Put(s, 10)
  {
  }

  /** A backspace moves to the cell before, on the row above if need be, and puts character 0 there. */
  lemma BackspaceMoves(s: Screen)
    requires |s.cells| == 2000 && s.row < 25 && s.column < 80 && (s.row > 0 || s.column > 0)
    ensures InBuffer(s, 8)
    ensures var t := Put(s, 8);
      && t.row < 25 && t.column < 80 && t.color == s.color && 80 * t.row + t.column == 80 * s.row + s.column - 1
      && t.cells == s.cells[80 * t.row + t.column := VgaEntry(0, s.color)]
  {
    BackTarget(s.row, s.column);
  }

  lemma BackTarget(row: u32, column: u32)
    requires row < 25 && column < 80 && (row > 0 || column > 0)
    ensures Target(row, column, 8) == 80 * row + column - 1
    ensures Cursor(row, column, 8) == if column == 0 then (row - 1, 79) else (row, column - 1)
  {
  }

  /** Any other character is put where the cursor is, which moves one column on, or to the next row as a
      newline moves it. */
  lemma CharacterMoves(s: Screen, c: bv8)
    requires |s.cells| == 2000 && s.row < 25 && s.column < 80 && c != 8 && c != 9 && c != 10
    ensures InBuffer(s, c)
    ensures var t := s.(cells := s.cells[80 * s.row + s.column := VgaEntry(c, s.color)]);
      InBuffer(t, 10) && Put(s, c) == if s.column < 79 then t.(column := s.column + 1) else Put(t, 10)
  {
    assert Target(s.row, s.column, c) == 80 * s.row + s.column;
  }

  // ----- The paper -----

  ghost predicate Wide(rows: seq<seq<bv16>>) {
    forall i :: 0 <= i < |rows| ==> |rows[i]| == WIDTH
  }

  /** Rows of 80 cells, growing downwards; the cursor's row is counted from the top of the paper. */
  datatype Paper = Paper(rows: seq<seq<bv16>>, row: nat, column: nat, color: bv8) {
    ghost predicate Valid() {
      && |rows| >= HEIGHT && |rows| - HEIGHT <= row < |rows| && column < WIDTH
      && Wide(rows)
    }

    /** The number of rows that have scrolled out of the window. */
    ghost function Top(): nat
      requires Valid()
    {
      |rows| - HEIGHT
    }
  }

  /** The last 25 rows of the paper. */
  ghost function Window(p: Paper): Screen
    requires p.Valid()
  {
    Screen(LastRows(p.rows), p.row - p.Top(), p.column, p.color)
  }

  ghost function LastRows(rows: seq<seq<bv16>>): (cells: seq<bv16>)
    requires |rows| >= HEIGHT && Wide(rows)
    ensures |cells| == HEIGHT * WIDTH
  {
    seq(HEIGHT * WIDTH, i requires 0 <= i < HEIGHT * WIDTH => rows[|rows| - HEIGHT + i / WIDTH][i % WIDTH])
  }

  /** Where a character sends the cursor on paper, before a new row is added. Only a tab needs to know
      where the window is. */
  function PaperCursor(row: nat, column: nat, top: nat, c: bv8): (int, int)
    requires top <= row
  {
    var (r, k) :=
      if c == NEWLINE then (row + 1, 0)
      else if c == TAB then (row, column + 4 - (row - top) % 4)
      else if c == BACKSPACE then if column == 0 then (row - 1, WIDTH - 1) else (row, column - 1)
      else (row, column + 1);
    if k == WIDTH then (r + 1, 0) else (r, k)
  }

  /** The cell a character is stored in: a backspace blanks the one it moves back to. */
  function PaperTarget(row: nat, column: nat, c: bv8): (int, int) {
    if c != BACKSPACE then (row, column)
    else if column == 0 then (row - 1, WIDTH - 1)
    else (row, column - 1)
  }

  ghost function StoreOnPaper(p: Paper, c: bv8): seq<seq<bv16>>
    requires p.Valid() && Safe(p.row - p.Top(), p.column, c)
  {
    if !Stores(c) then p.rows
    else
      var (r, k) := PaperTarget(p.row, p.column, c);
      p.rows[r := p.rows[r][k := VgaEntry(Shown(c), p.color)]]
  }

  /** A character on paper: the cursor moves as on the screen, but at the end a row is added instead of
      one being lost. */
  ghost function PutOnPaper(p: Paper, c: bv8): Paper
    requires p.Valid() && Safe(p.row - p.Top(), p.column, c)
  {
    var rows := StoreOnPaper(p, c);
    var (row, column) := PaperCursor(p.row, p.column, p.Top(), c);
    CursorOnPaper(p, c);
    Paper(if row == |rows| then rows + [BlankRow(p.color)] else rows, row, column, p.color)
  }

  /** A safe character moves the screen's cursor without wrap-around, to at most one row below. */
  lemma SafeCursor(row: u32, column: u32, c: bv8)
    requires OnScreen(row, column) && Safe(row, column, c)
    ensures var (r, k) := PaperCursor(row, column, 0, c);
      0 <= r <= HEIGHT && 0 <= k < WIDTH && Cursor(row, column, c) == (r, k)
  {
  }

  /** On paper, only the position relative to the window matters. */
  lemma CursorShifts(row: nat, column: nat, top: nat, c: bv8)
    requires top <= row
    ensures var (r, k) := PaperCursor(row - top, column, 0, c);
      PaperCursor(row, column, top, c) == (r + top, k)
  {
  }

  /** The two cursors agree, and a safe character leaves the paper's one in the window or one row below. */
  lemma CursorOnPaper(p: Paper, c: bv8)
    requires p.Valid() && Safe(p.row - p.Top(), p.column, c)
    ensures var (row, column) := PaperCursor(p.row, p.column, p.Top(), c);
      p.Top() <= row <= |p.rows| && 0 <= column < WIDTH
      && Cursor(p.row - p.Top(), p.column, c) == (row - p.Top(), column)
  {
    SafeCursor(p.row - p.Top(), p.column, c);
    CursorShifts(p.row, p.column, p.Top(), c);
  }

  lemma TargetOnPaper(p: Paper, c: bv8)
    requires p.Valid() && Safe(p.row - p.Top(), p.column, c) && Stores(c)
    ensures var (r, k) := PaperTarget(p.row, p.column, c);
      p.Top() <= r < |p.rows| && 0 <= k < WIDTH
      && Target(p.row - p.Top(), p.column, c) == (r - p.Top()) * WIDTH + k
  {
  }

  lemma WindowAfterStore(rows: seq<seq<bv16>>, r: nat, k: nat, cell: bv16)
    requires |rows| >= HEIGHT && Wide(rows)
    requires |rows| - HEIGHT <= r < |rows| && k < WIDTH
    ensures Wide(rows[r := rows[r][k := cell]])
    ensures LastRows(rows[r := rows[r][k := cell]])
         == LastRows(rows)[(r - (|rows| - HEIGHT)) * WIDTH + k := cell]
  {
  }

  lemma WindowAfterRow(rows: seq<seq<bv16>>, color: bv8)
    requires |rows| >= HEIGHT && Wide(rows)
    ensures Wide(rows + [BlankRow(color)])
    ensures LastRows(rows + [BlankRow(color)]) == Scrolled(LastRows(rows), color)
  {
  }

  /** A stored character lands on the same cell of the screen and of the paper. */
  lemma StoreAgrees(p: Paper, c: bv8)
    requires p.Valid() && Safe(p.row - p.Top(), p.column, c)
    ensures InBuffer(Window(p), c)
    ensures Wide(StoreOnPaper(p, c))
    ensures |StoreOnPaper(p, c)| == |p.rows| && LastRows(StoreOnPaper(p, c)) == Stored(Window(p), c)
  {
    if Stores(c) {
      TargetOnPaper(p, c);
      var (r, k) := PaperTarget(p.row, p.column, c);
      var cell := VgaEntry(Shown(c), p.color);
      WindowAfterStore(p.rows, r, k, cell);
      StoredInWindow(Window(p), c, (r - p.Top()) * WIDTH + k);
    }
  }

  lemma StoredInWindow(s: Screen, c: bv8, target: nat)
    requires |s.cells| == HEIGHT * WIDTH && Stores(c) && Target(s.row, s.column, c) == target < HEIGHT * WIDTH
    ensures InBuffer(s, c) && Stored(s, c) == s.cells[target := VgaEntry(Shown(c), s.color)]
  {
  }

  /** The screen is the window on the paper, step by step. */
  lemma PutIsPutOnPaper(p: Paper, c: bv8)
    requires p.Valid() && Safe(p.row - p.Top(), p.column, c)
    ensures InBuffer(Window(p), c)
    ensures PutOnPaper(p, c).Valid() && Window(PutOnPaper(p, c)) == Put(Window(p), c)
  {
    var rows := StoreOnPaper(p, c);
    StoreAgrees(p, c);
    CursorOnPaper(p, c);
    var (row, column) := PaperCursor(p.row, p.column, p.Top(), c);
    if row == |rows| {
      WindowAfterRow(rows, p.color);
      assert Window(PutOnPaper(p, c)).cells == Put(Window(p), c).cells;
    } else {
      assert Window(PutOnPaper(p, c)).cells == Put(Window(p), c).cells;
    }
  }

  // ----- Whole runs -----

  datatype Event = Char(c: bv8) | Color(color: bv8)

  ghost function Apply(s: Screen, e: Event): Screen {
    match e
    case Char(c) => if InBuffer(s, c) then Put(s, c) else s
    case Color(color) => s.(color := color)
  }

  ghost function After(s: Screen, events: seq<Event>): Screen {
    if events == [] then s else Apply(After(s, events[..|events| - 1]), events[|events| - 1])
  }

  /** Every character of the run is safe where the cursor then is. */
  ghost predicate SafeRun(s: Screen, events: seq<Event>) {
    forall i :: 0 <= i < |events| && events[i].Char? ==>
      Safe(After(s, events[..i]).row, After(s, events[..i]).column, events[i].c)
  }

  /** Every character of the run is stored in the buffer. */
  ghost predicate StoresInBuffer(s: Screen, events: seq<Event>) {
    forall i :: 0 <= i < |events| && events[i].Char? ==> InBuffer(After(s, events[..i]), events[i].c)
  }

  /** A safe run that starts on the screen stores in the buffer and stays on the screen. */
  lemma {:induction false} SafeRunStores(s: Screen, events: seq<Event>)
    requires |s.cells| == HEIGHT * WIDTH && OnScreen(s.row, s.column) && SafeRun(s, events)
    ensures StoresInBuffer(s, events) && |After(s, events).cells| == HEIGHT * WIDTH
    ensures OnScreen(After(s, events).row, After(s, events).column)
  {
    if events != [] {
      var last := |events| - 1;
      SafePrefix(s, events, last);
      SafeRunStores(s, events[..last]);
      if events[last].Char? {
        SafeStores(After(s, events[..last]), events[last].c);
      }
      StoresExtends(s, events, last);
    }
  }

  lemma StoresExtends(s: Screen, events: seq<Event>, last: nat)
    requires last == |events| - 1 && StoresInBuffer(s, events[..last])
    requires events[last].Char? ==> InBuffer(After(s, events[..last]), events[last].c)
    ensures StoresInBuffer(s, events)
  {
    forall i | 0 <= i < |events| && events[i].Char?
      ensures InBuffer(After(s, events[..i]), events[i].c)
    {
      if i < last {
        assert events[..last][..i] == events[..i] && events[..last][i] == events[i];
      }
    }
  }

  ghost function ApplyOnPaper(p: Paper, e: Event): Paper {
    match e
    case Char(c) => if p.Valid() && Safe(p.row - p.Top(), p.column, c) then PutOnPaper(p, c) else p
    case Color(color) => p.(color := color)
  }

  ghost function PaperAfter(p: Paper, events: seq<Event>): Paper {
    if events == [] then p else ApplyOnPaper(PaperAfter(p, events[..|events| - 1]), events[|events| - 1])
  }

  /** Over every safe run, with any mix of colours, tabs and backspaces, the screen is the last 25 rows of
      the paper, and its cursor is always on it. */
  lemma {:induction false} ScreenIsWindowOnPaper(p: Paper, events: seq<Event>)
    requires p.Valid() && SafeRun(Window(p), events)
    ensures PaperAfter(p, events).Valid() && After(Window(p), events) == Window(PaperAfter(p, events))
    ensures OnScreen(After(Window(p), events).row, After(Window(p), events).column)
  {
    if events != [] {
      var last := |events| - 1;
      SafePrefix(Window(p), events, last);
      ScreenIsWindowOnPaper(p, events[..last]);
      WindowStep(PaperAfter(p, events[..last]), events[last]);
    }
  }

  lemma WindowStep(p: Paper, e: Event)
    requires p.Valid() && (e.Char? ==> Safe(p.row - p.Top(), p.column, e.c))
    ensures ApplyOnPaper(p, e).Valid() && Apply(Window(p), e) == Window(ApplyOnPaper(p, e))
    ensures OnScreen(Apply(Window(p), e).row, Apply(Window(p), e).column)
  {
    if e.Char? {
      PutIsPutOnPaper(p, e.c);
    }
  }

  lemma SafePrefix(s: Screen, events: seq<Event>, n: nat)
    requires n <= |events| && SafeRun(s, events)
    ensures SafeRun(s, events[..n])
  {
    forall i | 0 <= i < n && events[i].Char?
      ensures Safe(After(s, events[..n][..i]).row, After(s, events[..n][..i]).column, events[..n][i].c)
    {
      assert events[..n][..i] == events[..i];
    }
  }

  // ----- The layout of plain text -----

  ghost function Chars(text: seq<bv8>): (events: seq<Event>)
    ensures |events| == |text|
  {
    seq(|text|, i requires 0 <= i < |text| => Char(text[i]))
  }

  ghost predicate Plain(text: seq<bv8>) {
    TAB !in text && BACKSPACE !in text
  }

  /** The lines of a text: what stands between newlines. */
  ghost function Split(text: seq<bv8>): (lines: seq<seq<bv8>>)
    ensures lines != []
  {
    if text == [] then [[]]
    else AddFront(text[0], Split(text[1..]))
  }

  ghost function AddFront(c: bv8, lines: seq<seq<bv8>>): (more: seq<seq<bv8>>)
    requires lines != []
    ensures more != []
  {
    if c == NEWLINE then [[]] + lines else [[c] + lines[0]] + lines[1..]
  }

  ghost function AddBack(lines: seq<seq<bv8>>, c: bv8): (more: seq<seq<bv8>>)
    requires lines != []
    ensures more != []
  {
    var last := |lines| - 1;
    if c == NEWLINE then lines + [[]] else lines[..last] + [lines[last] + [c]]
  }

  /** A line cut every 80 characters; a full last piece is followed by an empty one. */
  ghost function Fold(line: seq<bv8>): (rows: seq<seq<bv8>>)
    ensures rows != []
  {
    if |line| < WIDTH then [line] else [line[..WIDTH]] + Fold(line[WIDTH..])
  }

  ghost function FoldAll(lines: seq<seq<bv8>>): (rows: seq<seq<bv8>>)
    ensures lines != [] ==> rows != []
  {
    if lines == [] then [] else Fold(lines[0]) + FoldAll(lines[1..])
  }

  ghost function Layout(text: seq<bv8>): (rows: seq<seq<bv8>>)
    ensures rows != []
  {
    FoldAll(Split(text))
  }

  ghost predicate Fits(rows: seq<seq<bv8>>) {
    && rows != [] && |rows[|rows| - 1]| < WIDTH
    && forall r :: r in rows ==> |r| <= WIDTH
  }

  /** What one more character does to a layout. */
  ghost function Append(rows: seq<seq<bv8>>, c: bv8): seq<seq<bv8>>
    requires rows != []
  {
    var last := |rows| - 1;
    if c == NEWLINE then rows + [[]]
    else if |rows[last]| == WIDTH - 1 then rows[..last] + [rows[last] + [c], []]
    else rows[..last] + [rows[last] + [c]]
  }

  lemma {:induction false} SplitAppend(text: seq<bv8>, c: bv8)
    ensures var lines := Split(text);
      Split(text + [c]) == AddBack(lines, c)
  {
    if text == [] {
      assert (text + [c])[1..] == [] && Split([]) == [[]];
      assert [c] + [] == [] + [c];
    } else {
      assert (text + [c])[1..] == text[1..] + [c];
      SplitAppend(text[1..], c);
      SplitTail(text[0], Split(text[1..]), c);
    }
  }

  /** Putting a character in front of the first line and one behind the last can be done in any order. */
  lemma SplitTail(first: bv8, rest: seq<seq<bv8>>, c: bv8)
    requires rest != []
    ensures AddFront(first, AddBack(rest, c)) == AddBack(AddFront(first, rest), c)
  {
    if first == NEWLINE {
      AddBackBehind([[]], rest, c);
    } else if |rest| == 1 {
      assert [first] + (rest[0] + [c]) == ([first] + rest[0]) + [c];
    } else {
      AddBackBehind([[first] + rest[0]], rest[1..], c);
      AddBackBehind([rest[0]], rest[1..], c);
      assert rest == [rest[0]] + rest[1..];
    }
  }

  lemma AddBackBehind(a: seq<seq<bv8>>, b: seq<seq<bv8>>, c: bv8)
    requires b != []
    ensures AddBack(a + b, c) == a + AddBack(b, c)
  {
    assert (a + b)[..|a + b| - 1] == a + b[..|b| - 1];
  }

  lemma {:induction false} FoldAppend(line: seq<bv8>, c: bv8)
    requires c != NEWLINE
    ensures Fits(Fold(line)) && Fold(line + [c]) == Append(Fold(line), c)
    decreases |line|
  {
    if |line| < WIDTH {
      if |line| == WIDTH - 1 {
        assert (line + [c])[..WIDTH] == line + [c] && (line + [c])[WIDTH..] == [];
      }
    } else {
      var rest := Fold(line[WIDTH..]);
      assert (line + [c])[..WIDTH] == line[..WIDTH] && (line + [c])[WIDTH..] == line[WIDTH..] + [c];
      FoldAppend(line[WIDTH..], c);
      AppendBehind([line[..WIDTH]], rest, c);
    }
  }

  lemma AppendBehind(a: seq<seq<bv8>>, b: seq<seq<bv8>>, c: bv8)
    requires b != []
    ensures Append(a + b, c) == a + Append(b, c)
  {
    assert (a + b)[..|a + b| - 1] == a + b[..|b| - 1];
  }

  lemma {:induction false} FoldAllConcat(a: seq<seq<bv8>>, b: seq<seq<bv8>>)
    ensures FoldAll(a + b) == FoldAll(a) + FoldAll(b)
  {
    if a == [] {
      assert a + b == b;
    } else {
      assert (a + b)[1..] == a[1..] + b;
      FoldAllConcat(a[1..], b);
    }
  }

  lemma FitsConcat(a: seq<seq<bv8>>, b: seq<seq<bv8>>)
    requires Fits(a) && Fits(b)
    ensures Fits(a + b)
  {
  }

  lemma {:induction false} FoldAllFits(lines: seq<seq<bv8>>)
    requires lines != []
    ensures Fits(FoldAll(lines))
  {
    FoldAppend(lines[0], SPACE);
    if |lines| > 1 {
      FoldAllFits(lines[1..]);
      FitsConcat(Fold(lines[0]), FoldAll(lines[1..]));
    } else {
      FoldOne(lines[0]);
      assert lines == [lines[0]];
    }
  }

  lemma LayoutAppend(text: seq<bv8>, c: bv8)
    ensures Fits(Layout(text)) && Layout(text + [c]) == Append(Layout(text), c)
  {
    var lines := Split(text);
    var last := |lines| - 1;
    SplitAppend(text, c);
    FoldAllFits(lines);
    if c == NEWLINE {
      FoldAllConcat(lines, [[]]);
      FoldOne([]);
    } else {
      LastLineAppend(lines[..last], lines[last], c);
      assert lines == lines[..last] + [lines[last]];
    }
  }

  lemma LastLineAppend(lines: seq<seq<bv8>>, line: seq<bv8>, c: bv8)
    requires c != NEWLINE
    ensures FoldAll(lines + [line]) != [] && FoldAll(lines + [line + [c]]) == Append(FoldAll(lines + [line]), c)
  {
    FoldAllConcat(lines, [line]);
    FoldAllConcat(lines, [line + [c]]);
    FoldOne(line);
    FoldOne(line + [c]);
    FoldAppend(line, c);
    AppendBehind(FoldAll(lines), Fold(line), c);
  }

  lemma FoldOne(line: seq<bv8>)
    ensures FoldAll([line]) == Fold(line)
  {
    assert [line][1..] == [] && FoldAll([]) == [];
  }

  /** A row of text on the screen, blank to its right. */
  ghost function Format(row: seq<bv8>, color: bv8): (cells: seq<bv16>)
    ensures |cells| == WIDTH
  {
    seq(WIDTH, i requires 0 <= i < WIDTH => if i < |row| then VgaEntry(row[i], color) else Blank(color))
  }

  ghost function PageRows(rows: seq<seq<bv8>>, color: bv8): (cells: seq<seq<bv16>>)
    ensures |cells| == Max(HEIGHT, |rows|) && Wide(cells)
    ensures forall i :: 0 <= i < |cells| ==> cells[i] == Format(if i < |rows| then rows[i] else [], color)
  {
    seq(Max(HEIGHT, |rows|),
        i requires 0 <= i < Max(HEIGHT, |rows|) => Format(if i < |rows| then rows[i] else [], color))
  }

  /** Paper that shows rows of text from its top, with the cursor behind the last character. */
  ghost function Page(rows: seq<seq<bv8>>, color: bv8): (p: Paper)
    requires Fits(rows)
    ensures p.Valid()
  {
    Paper(PageRows(rows, color), |rows| - 1, |rows[|rows| - 1]|, color)
  }

  lemma AppendFits(rows: seq<seq<bv8>>, c: bv8)
    requires Fits(rows)
    ensures Fits(Append(rows, c))
  {
    var more := Append(rows, c);
    forall r | r in more
      ensures |r| <= WIDTH
    {
      assert r in rows || r == [] || r == rows[|rows| - 1] + [c];
    }
  }

  lemma FormatAppend(row: seq<bv8>, c: bv8, color: bv8)
    requires |row| < WIDTH
    ensures Format(row + [c], color) == Format(row, color)[|row| := VgaEntry(c, color)]
    ensures Format([], color) == BlankRow(color)
  {
  }

  /** A new empty row is there already, or is added at the end of the paper. */
  lemma PageGrows(rows: seq<seq<bv8>>, color: bv8)
    requires rows != []
    ensures PageRows(rows + [[]], color)
         == if |rows| < HEIGHT then PageRows(rows, color) else PageRows(rows, color) + [BlankRow(color)]
  {
    FormatAppend([], 0, color);
  }

  lemma PageRewritten(rows: seq<seq<bv8>>, c: bv8, color: bv8)
    requires Fits(rows)
    ensures var last := |rows| - 1;
      PageRows(rows[..last] + [rows[last] + [c]], color)
      == PageRows(rows, color)[last := Format(rows[last], color)[|rows[last]| := VgaEntry(c, color)]]
  {
    FormatAppend(rows[|rows| - 1], c, color);
  }

  lemma PageNewline(rows: seq<seq<bv8>>, color: bv8)
    requires Fits(rows)
    ensures Fits(Append(rows, NEWLINE))
    ensures PutOnPaper(Page(rows, color), NEWLINE) == Page(Append(rows, NEWLINE), color)
  {
    AppendFits(rows, NEWLINE);
    PageGrows(rows, color);
  }

  lemma PageStored(rows: seq<seq<bv8>>, c: bv8, color: bv8)
    requires Fits(rows) && c != NEWLINE && c != TAB && c != BACKSPACE
    ensures StoreOnPaper(Page(rows, color), c) == PageRows(rows[..|rows| - 1] + [rows[|rows| - 1] + [c]], color)
  {
    PageRewritten(rows, c, color);
  }

  /** The row that the cursor reaches after the 80th character is added when the paper ends. */
  lemma PageCharacter(rows: seq<seq<bv8>>, c: bv8, color: bv8)
    requires Fits(rows) && c != NEWLINE && c != TAB && c != BACKSPACE
    ensures Fits(Append(rows, c))
    ensures PutOnPaper(Page(rows, color), c).rows == PageRows(Append(rows, c), color)
  {
    var last := |rows| - 1;
    var written := rows[..last] + [rows[last] + [c]];
    AppendFits(rows, c);
    PageStored(rows, c, color);
    CursorOnPaper(Page(rows, color), c);
    PageGrows(written, color);
    AppendIsWritten(rows, c);
  }

  lemma AppendIsWritten(rows: seq<seq<bv8>>, c: bv8)
    requires rows != [] && c != NEWLINE
    ensures var last := |rows| - 1;
      var written := rows[..last] + [rows[last] + [c]];
      Append(rows, c) == if |rows[last]| == WIDTH - 1 then written + [[]] else written
  {
  }

  /** Writing a plain character on a page of text gives the page of the longer layout. */
  lemma PageAppend(rows: seq<seq<bv8>>, c: bv8, color: bv8)
    requires Fits(rows) && c != TAB && c != BACKSPACE
    ensures Fits(Append(rows, c)) && PutOnPaper(Page(rows, color), c) == Page(Append(rows, c), color)
  {
    if c == NEWLINE {
      PageNewline(rows, color);
    } else {
      PageCharacter(rows, c, color);
    }
  }

  lemma PageAppendOnScreen(rows: seq<seq<bv8>>, c: bv8, color: bv8)
    requires Fits(rows) && c != TAB && c != BACKSPACE
    ensures Fits(Append(rows, c))
    ensures Apply(Window(Page(rows, color)), Char(c)) == Window(Page(Append(rows, c), color))
  {
    PageAppend(rows, c, color);
    PutIsPutOnPaper(Page(rows, color), c);
  }

  /** What terminal_initialize leaves. */
  ghost function BlankScreen(color: bv8): Screen {
    Screen(seq(HEIGHT * WIDTH, _ => Blank(color)), 0, 0, color)
  }

  /** Text written at a fixed colour from the given screen leaves the last 25 rows of its layout on the
      screen, with the cursor behind its last character. */
  ghost predicate LaidOut(start: Screen, text: seq<bv8>, color: bv8) {
    && Fits(Layout(text))
    && SafeRun(start, Chars(text))
    && After(start, Chars(text)) == Window(Page(Layout(text), color))
  }

  /** Any text without tabs and backspaces is laid out so on a blank screen. */
  lemma PlainTextIsLaidOut(text: seq<bv8>, color: bv8)
    requires Plain(text)
    ensures LaidOut(BlankScreen(color), text, color)
  {
    EmptyTextIsLaidOut(color);
    MoreTextIsLaidOut(BlankScreen(color), text, color);
  }

  lemma EmptyTextIsLaidOut(color: bv8)
    ensures LaidOut(BlankScreen(color), [], color)
  {
    FoldOne([]);
    assert Layout([]) == [[]];
    assert LastRows(PageRows([[]], color)) == BlankScreen(color).cells;
  }

  lemma {:induction false} MoreTextIsLaidOut(start: Screen, text: seq<bv8>, color: bv8)
    requires Plain(text) && LaidOut(start, [], color)
    ensures LaidOut(start, text, color)
  {
    if text != [] {
      var last := |text| - 1;
      MoreTextIsLaidOut(start, text[..last], color);
      OneMoreCharacter(start, text[..last], text, color);
    }
  }

  lemma OneMoreCharacter(start: Screen, text: seq<bv8>, more: seq<bv8>, color: bv8)
    requires |more| == |text| + 1 && text == more[..|text|] && Plain(more) && LaidOut(start, text, color)
    ensures LaidOut(start, more, color)
  {
    LayoutGrows(text, more, color);
    RunGrows(start, text, more, Window(Page(Layout(text), color)));
  }

  lemma LayoutGrows(text: seq<bv8>, more: seq<bv8>, color: bv8)
    requires |more| == |text| + 1 && text == more[..|text|] && Plain(more) && Fits(Layout(text))
    ensures Fits(Layout(more))
    ensures Apply(Window(Page(Layout(text), color)), Char(more[|text|])) == Window(Page(Layout(more), color))
  {
    var c := more[|text|];
    assert more == text + [c];
    LayoutAppend(text, c);
    PageAppendOnScreen(Layout(text), c, color);
  }

  lemma RunGrows(start: Screen, text: seq<bv8>, more: seq<bv8>, end: Screen)
    requires |more| == |text| + 1 && text == more[..|text|] && Plain(more)
    requires SafeRun(start, Chars(text)) && After(start, Chars(text)) == end
    ensures SafeRun(start, Chars(more)) && After(start, Chars(more)) == Apply(end, Char(more[|text|]))
  {
    var events := Chars(more);
    assert events[..|text|] == Chars(text) && events[|text|] == Char(more[|text|]);
    SafeExtends(start, events, |text|);
  }

  /** Plain characters are safe everywhere. */
  lemma SafeExtends(s: Screen, events: seq<Event>, last: nat)
    requires last == |events| - 1 && SafeRun(s, events[..last])
    requires events[last].Char? ==>
               Safe(After(s, events[..last]).row, After(s, events[..last]).column, events[last].c)
    ensures SafeRun(s, events)
  {
    forall i | 0 <= i < |events| && events[i].Char?
      ensures Safe(After(s, events[..i]).row, After(s, events[..i]).column, events[i].c)
    {
      if i < last {
        assert events[..last][..i] == events[..i] && events[..last][i] == events[i];
      }
    }
  }

  /** Lines, with a newline between them. */
  ghost function Joined(lines: seq<seq<bv8>>): seq<bv8>
    requires lines != []
  {
    if |lines| == 1 then lines[0] else lines[0] + [10] + Joined(lines[1..])
  }

  /** The lines of a text hold no newline, and joined they are the text. */
  lemma {:induction false} SplitMeaning(text: seq<bv8>)
    ensures Joined(Split(text)) == text && forall line :: line in Split(text) ==> (10 as bv8) !in line
  {
    if text != [] {
      SplitMeaning(text[1..]);
      var lines := Split(text[1..]);
      assert text == [text[0]] + text[1..];
      if text[0] == 10 {
        assert ([[]] + lines)[1..] == lines;
        assert [] + [10] + Joined(lines) == [10] + Joined(lines);
      } else {
        JoinedFront(text[0], lines);
        NoNewlineInFront(text[0], lines);
      }
    }
  }

  lemma NoNewlineInFront(c: bv8, lines: seq<seq<bv8>>)
    requires lines != [] && c != 10 && forall line :: line in lines ==> (10 as bv8) !in line
    ensures forall line :: line in [[c] + lines[0]] + lines[1..] ==> (10 as bv8) !in line
  {
    forall line | line in [[c] + lines[0]] + lines[1..]
      ensures (10 as bv8) !in line
    {
      assert lines[0] in lines && (line == [c] + lines[0] || line in lines);
    }
  }

  lemma JoinedFront(c: bv8, lines: seq<seq<bv8>>)
    requires lines != []
    ensures Joined([[c] + lines[0]] + lines[1..]) == [c] + Joined(lines)
  {
    var more := [[c] + lines[0]] + lines[1..];
    assert more[1..] == lines[1..];
    if |lines| > 1 {
      assert ([c] + lines[0]) + [10] + Joined(lines[1..]) == [c] + (lines[0] + [10] + Joined(lines[1..]));
    }
  }

  ghost function Flat(rows: seq<seq<bv8>>): seq<bv8> {
    if rows == [] then [] else rows[0] + Flat(rows[1..])
  }

  /** The rows of a line are the line, cut behind every 80 characters. */
  lemma {:induction false} FoldMeaning(line: seq<bv8>)
    ensures Flat(Fold(line)) == line
    ensures var rows := Fold(line);
      |rows[|rows| - 1]| < 80 && forall i :: 0 <= i < |rows| - 1 ==> |rows[i]| == 80
    decreases |line|
  {
    if |line| < 80 {
      assert Flat([line]) == line + Flat([]) == line;
    } else {
      FoldMeaning(line[80..]);
      var rows := Fold(line);
      assert rows[0] == line[..80] && rows[1..] == Fold(line[80..]);
      assert line[..80] + line[80..] == line;
    }
  }

  /** The screen shows the last 25 rows of a text's layout, with the cursor behind its last character. */
  ghost predicate Shows(s: Screen, text: seq<bv8>, color: bv8) {
    Fits(Layout(text)) && s == Window(Page(Layout(text), color))
  }

  /** What the display is sent: in cell k of row r the character uc of the layout, or a blank, as the low byte, and
      the colour as the high byte. The cursor is behind the last character. */
  lemma ShownCell(s: Screen, text: seq<bv8>, color: bv8, rows: seq<seq<bv8>>, top: nat, r: nat, k: nat, uc: bv8)
    requires Shows(s, text, color) && rows == Layout(text) && top == Max(0, |rows| - 25) && r < 25 && k < 80
    requires uc == if top + r < |rows| && k < |rows[top + r]| then rows[top + r][k] else 32
    ensures |s.cells| == 2000 && s.row == |rows| - 1 - top && s.column == |rows[|rows| - 1]|
    ensures s.cells[80 * r + k] & 0xFF == uc as bv16 && s.cells[80 * r + k] >> 8 == color as bv16
  {
    WindowOfPage(rows, color, top, s);
    CellOfWindow(rows, color, top, r, k, uc);
    VgaEntryBytes(uc, color);
  }

  lemma WindowOfPage(rows: seq<seq<bv8>>, color: bv8, top: nat, s: Screen)
    requires Fits(rows) && top == Max(0, |rows| - 25) && s == Window(Page(rows, color))
    ensures s.cells == LastRows(PageRows(rows, color)) && s.row == |rows| - 1 - top && s.column == |rows[|rows| - 1]|
  {
  }

  lemma CellOfWindow(rows: seq<seq<bv8>>, color: bv8, top: nat, r: nat, k: nat, uc: bv8)
    requires Fits(rows) && r < 25 && k < 80 && top == Max(0, |rows| - 25)
    requires uc == if top + r < |rows| && k < |rows[top + r]| then rows[top + r][k] else 32
    ensures LastRows(PageRows(rows, color))[80 * r + k] == VgaEntry(uc, color)
  {
    var pages := PageRows(rows, color);
    assert |pages| - 25 == top;
    LastRowsAt(pages, r, k);
    FormatAt(if top + r < |rows| then rows[top + r] else [], color, k);
  }

  lemma LastRowsAt(rows: seq<seq<bv16>>, r: nat, k: nat)
    requires |rows| >= 25 && Wide(rows) && r < 25 && k < 80
    ensures LastRows(rows)[80 * r + k] == rows[|rows| - 25 + r][k]
  {
    RowAndColumn(r, k);
  }

  lemma FormatAt(row: seq<bv8>, color: bv8, k: nat)
    requires k < 80
    ensures Format(row, color)[k] == VgaEntry(if k < |row| then row[k] else 32, color)
  {
  }

  lemma RowAndColumn(r: nat, k: nat)
    requires k < 80
    ensures (80 * r + k) / 80 == r && (80 * r + k) % 80 == k
  {
  }

  /** A cleared screen shows the empty text, with the cursor at the origin. */
  lemma BlankShowsNothing(color: bv8)
    ensures Shows(BlankScreen(color), [], color)
  {
    EmptyTextIsLaidOut(color);
  }
}
