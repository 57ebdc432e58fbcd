/** The CGA text console: 25 rows of 80 cells that scroll, against a canvas that
    never ends. */
module Cga {

  const COLUMNS := 80
  const CGA_LINES := 24              // number of the last row
  const CELLS := 2000
  const CR := 0x0D
  const LF := 0x0A

  /** What `cga_putc` works on; the cursor is the CRT controller's register pair. */
  datatype Term = Term(screen: seq<int>, cursor: int)

  /** The word stored for a character: colour in the high byte. */
  function Glyph(ch: int, color: int): int {
    color * 256 + ch
  }

  ghost predicate OnScreen(t: Term) {
    |t.screen| == CELLS && 0 <= t.cursor < CELLS
  }

  /** The screen moved up a row, the last row blank. */
  function Scrolled(screen: seq<int>): (s: seq<int>)
    requires |screen| == CELLS
    ensures |s| == CELLS
  {
    screen[COLUMNS..] + seq(COLUMNS, _ => 0)
  }

  /** The cursor position before the bottom of the screen is looked at. */
  function Advance(cursor: int, ch: int): int {
    if ch == CR then cursor
    else if ch == LF then cursor + (COLUMNS - cursor % COLUMNS)
    else cursor + 1
  }

  function Printed(screen: seq<int>, cursor: int, ch: int, color: int): seq<int>
    requires 0 <= cursor < |screen|
  {
    if ch == CR || ch == LF then screen else screen[cursor := Glyph(ch, color)]
  }

  function Put(t: Term, ch: int, color: int): Term
    requires OnScreen(t)
  {
    var screen, next := Printed(t.screen, t.cursor, ch, color), Advance(t.cursor, ch);
    if next / COLUMNS <= CGA_LINES then Term(screen, next)
    else Term(Scrolled(screen), COLUMNS * CGA_LINES)
  }

  /** An endless canvas; a cell never written is blank. */
  datatype Canvas = Canvas(cells: map<int, int>, cursor: int)

  function Cell(c: Canvas, i: int): int {
    if i in c.cells then c.cells[i] else 0
  }

  function Draw(c: Canvas, ch: int, color: int): Canvas {
    Canvas(if ch == CR || ch == LF then c.cells else c.cells[c.cursor := Glyph(ch, color)],
           Advance(c.cursor, ch))
  }

  /** The screen is the canvas from row `top` on, and the canvas below is blank. */
  ghost predicate Shows(t: Term, c: Canvas, top: nat) {
    && OnScreen(t) && t.cursor == c.cursor - COLUMNS * top
    && (forall i :: 0 <= i < CELLS ==> t.screen[i] == Cell(c, COLUMNS * top + i))
    && (forall i :: i in c.cells ==> i < COLUMNS * top + CELLS)
  }

  /** A scroll fires only at position 2000, the first cell below the screen, so
      putting the cursor at 1920 after moving the rows loses nothing. */
  lemma ScrollPosition(cursor: int, ch: int)
    requires 0 <= cursor < CELLS
    ensures cursor <= Advance(cursor, ch) <= CELLS
    ensures Advance(cursor, ch) / COLUMNS > CGA_LINES <==> Advance(cursor, ch) == CELLS
  {
  }

  /** One character: screen and canvas stay in step, and the window moves down a
      row exactly when the cursor leaves it. */
  lemma PutShows(t: Term, c: Canvas, top: nat, ch: int, color: int)
    requires Shows(t, c, top)
    ensures var c' := Draw(c, ch, color);
            Shows(Put(t, ch, color), c', if c'.cursor == COLUMNS * top + CELLS then top + 1 else top)
  {
    ScrollPosition(t.cursor, ch);
    var c' := Draw(c, ch, color);
    assert (c.cursor - COLUMNS * top) % COLUMNS == c.cursor % COLUMNS;
    assert c'.cursor == Advance(t.cursor, ch) + COLUMNS * top;
    var screen := Printed(t.screen, t.cursor, ch, color);
    assert forall i :: 0 <= i < CELLS ==> screen[i] == Cell(c', COLUMNS * top + i);
    if c'.cursor == COLUMNS * top + CELLS {
      var next := Scrolled(screen);
      forall i | 0 <= i < CELLS
        ensures next[i] == Cell(c', COLUMNS * (top + 1) + i)
      {
        if i + COLUMNS < CELLS {
          assert screen[i + COLUMNS] == Cell(c', COLUMNS * top + (i + COLUMNS));
        }
      }
    }
  }

  datatype Char = Char(ch: int, color: int)

  function PutAll(t: Term, s: seq<Char>): (r: Term)
    requires OnScreen(t)
    ensures OnScreen(r)
    decreases |s|
  {
    if s == [] then t
    else
      ScrollPosition(t.cursor, s[0].ch);
      PutAll(Put(t, s[0].ch, s[0].color), s[1..])
  }

  function DrawAll(c: Canvas, s: seq<Char>): Canvas
    decreases |s|
  {
    if s == [] then c else DrawAll(Draw(c, s[0].ch, s[0].color), s[1..])
  }

  /** The first row shown once the cursor is at `cursor`. */
  function TopFor(top: nat, cursor: int): nat {
    if cursor < COLUMNS * top + CELLS then top else cursor / COLUMNS - CGA_LINES
  }

  /** For any characters whatever, the screen is a 25-row window of the canvas
      they would draw: the rows down to the cursor's, or the first 25. */
  lemma {:induction false} PutAllShows(t: Term, c: Canvas, top: nat, s: seq<Char>)
    requires Shows(t, c, top)
    ensures Shows(PutAll(t, s), DrawAll(c, s), TopFor(top, DrawAll(c, s).cursor))
    ensures DrawAll(c, s).cursor >= c.cursor
    decreases |s|
  {
    if s != [] {
      var ch, color := s[0].ch, s[0].color;
      PutShows(t, c, top, ch, color);
      ScrollPosition(t.cursor, ch);
      var c' := Draw(c, ch, color);
      PutAllShows(Put(t, ch, color), c', if c'.cursor == COLUMNS * top + CELLS then top + 1 else top, s[1..]);
    }
  }

  /** Any screen is the top of some canvas, so the refinement starts anywhere. */
  lemma AnyScreenShows(t: Term)
    requires OnScreen(t)
    ensures Shows(t, Canvas(map i | 0 <= i < CELLS :: t.screen[i], t.cursor), 0)
  {
  }

  // ----- what is drawn -----

  /** A line feed goes to the start of the next row of 80, a carriage return does
      nothing, and any other byte is put at the cursor, colour in the high byte, and
      the cursor moves on by one. */
  lemma DrawOne(c: Canvas, ch: int, color: int)
    requires 0 <= c.cursor
    ensures Draw(c, 0x0A, color) == Canvas(c.cells, 80 * (c.cursor / 80 + 1))
    ensures Draw(c, 0x0D, color) == c
    ensures ch != 0x0A && ch != 0x0D ==>
              Draw(c, ch, color) == Canvas(c.cells[c.cursor := color * 256 + ch], c.cursor + 1)
  {
  }

  /** A line of text with its line feed. */
  function Line(s: seq<int>, color: int): seq<Char> {
    Colored(s, color) + [Char(0x0A, color)]
  }

  predicate IsLine(s: seq<int>) {
    |s| < 80 && forall i :: 0 <= i < |s| ==> s[i] != 0x0A && s[i] != 0x0D
  }

  /** The cells the first k characters of a line leave, drawn from the start of a row. */
  lemma {:induction false} DrawCharacters(c: Canvas, s: seq<int>, color: int, row: nat, k: nat)
    requires IsLine(s) && k <= |s| && c.cursor == 80 * row + k
    ensures var c' := DrawAll(c, Colored(s[k..], color));
            && c'.cursor == 80 * row + |s|
            && (forall j :: k <= j < |s| ==> Cell(c', 80 * row + j) == color * 256 + s[j])
            && (forall i :: !(80 * row + k <= i < 80 * row + |s|) ==> Cell(c', i) == Cell(c, i))
    decreases |s| - k
  {
    if k < |s| {
      var rest := Colored(s[k..], color);
      assert rest[0] == Char(s[k], color) && rest[1..] == Colored(s[k + 1..], color);
      DrawCharacters(Draw(c, s[k], color), s, color, row, k + 1);
    }
  }

  lemma {:induction false} DrawConcat(c: Canvas, a: seq<Char>, b: seq<Char>)
    ensures DrawAll(c, a + b) == DrawAll(DrawAll(c, a), b)
    decreases |a|
  {
    if a == [] {
      assert a + b == b;
    } else {
      assert (a + b)[1..] == a[1..] + b;
      DrawConcat(Draw(c, a[0].ch, a[0].color), a[1..], b);
    }
  }

  /** A line drawn from the start of a row fills that row from the left, changes no other
      cell, and leaves the cursor at the start of the next row. */
  lemma DrawLine(c: Canvas, s: seq<int>, color: int, row: nat)
    requires IsLine(s) && c.cursor == 80 * row
    ensures var c' := DrawAll(c, Line(s, color));
            && c'.cursor == 80 * (row + 1)
            && (forall j :: 0 <= j < |s| ==> Cell(c', 80 * row + j) == color * 256 + s[j])
            && (forall i :: !(80 * row <= i < 80 * row + |s|) ==> Cell(c', i) == Cell(c, i))
  {
    assert s[0..] == s;
    DrawCharacters(c, s, color, row, 0);
    DrawConcat(c, Colored(s, color), [Char(0x0A, color)]);
    var c1 := DrawAll(c, Colored(s, color));
    DrawOne(c1, 0, color);
    assert [Char(0x0A, color)][1..] == [];
    assert DrawAll(c1, [Char(0x0A, color)]) == Draw(c1, 0x0A, color);
  }

  function Text(lines: seq<seq<int>>, color: int): seq<Char> {
    if lines == [] then [] else Line(lines[0], color) + Text(lines[1..], color)
  }

  /** Lines of text drawn from the start of a row stand one below the other: line k is
      row + k, from the left. */
  lemma {:induction false} DrawText(c: Canvas, lines: seq<seq<int>>, color: int, row: nat)
    requires c.cursor == 80 * row && forall k :: 0 <= k < |lines| ==> IsLine(lines[k])
    ensures var c' := DrawAll(c, Text(lines, color));
            && c'.cursor == 80 * (row + |lines|)
            && (forall k, j :: 0 <= k < |lines| && 0 <= j < |lines[k]| ==>
                  Cell(c', 80 * (row + k) + j) == color * 256 + lines[k][j])
            && (forall i :: i < 80 * row ==> Cell(c', i) == Cell(c, i))
    decreases |lines|
  {
    if lines != [] {
      var c1 := DrawAll(c, Line(lines[0], color));
      DrawLine(c, lines[0], color, row);
      DrawConcat(c, Line(lines[0], color), Text(lines[1..], color));
      DrawText(c1, lines[1..], color, row + 1);
      var c' := DrawAll(c, Text(lines, color));
      forall k, j | 0 <= k < |lines| && 0 <= j < |lines[k]|
        ensures Cell(c', 80 * (row + k) + j) == color * 256 + lines[k][j]
      {
        if k > 0 { assert lines[k] == lines[1..][k - 1]; }
      }
    }
  }

  class Console {
    const memory: array<int>
    var cursor: int
    var color: int

    ghost function Now(): Term
      reads this, memory
    {
      Term(memory[..], cursor)
    }

    constructor (memory: array<int>, cursor: int)
      ensures this.memory == memory && this.cursor == cursor && color == 7
    {
      this.memory, this.cursor, color := memory, cursor, 7;
    }

    /** `rep movsw` upwards by a row, then `rep stosw` over the last one. */
    method ScrollUp()
      requires memory.Length == CELLS
      modifies memory
      ensures memory[..] == Scrolled(old(memory[..]))
    {
      var i := 0;
      while i < COLUMNS * CGA_LINES
        invariant 0 <= i <= COLUMNS * CGA_LINES
        invariant forall k :: 0 <= k < i ==> memory[k] == old(memory[k + COLUMNS])
        invariant forall k :: i <= k < CELLS ==> memory[k] == old(memory[k])
      {
        memory[i] := memory[i + COLUMNS];
        i := i + 1;
      }
      while i < CELLS
        invariant COLUMNS * CGA_LINES <= i <= CELLS
        invariant forall k :: 0 <= k < COLUMNS * CGA_LINES ==> memory[k] == old(memory[k + COLUMNS])
        invariant forall k :: COLUMNS * CGA_LINES <= k < i ==> memory[k] == 0
      {
        memory[i] := 0;
        i := i + 1;
      }
      assert forall k :: 0 <= k < CELLS ==> memory[..][k] == Scrolled(old(memory[..]))[k];
    }

    /** `cga_putc` */
    method Putc(al: int)
      requires memory.Length == CELLS && OnScreen(Now())
      modifies this`cursor, memory
      ensures Now() == Put(old(Now()), al, color) && OnScreen(Now())
    {
      ScrollPosition(cursor, al);
      if al == CR { return; }
      var cx: int;
      if al == LF {
        cx := cursor + (COLUMNS - cursor % COLUMNS);
      } else {
        memory[cursor] := Glyph(al, color);
        cx := cursor + 1;
      }
      assert memory[..] == Printed(old(memory[..]), cursor, al, color);
      if !(cx / COLUMNS <= CGA_LINES) {
        ScrollUp();
        cx := COLUMNS * CGA_LINES;
      }
      cursor := cx;
    }

    /** A string printed character by character. */
    method Print(s: seq<int>)
      requires memory.Length == CELLS && OnScreen(Now())
      modifies this`cursor, memory
      ensures Now() == PutAll(old(Now()), Colored(s, color))
    {
      var i := 0;
      while i < |s|
        invariant i <= |s| && OnScreen(Now())
        invariant PutAll(old(Now()), Colored(s, color)) == PutAll(Now(), Colored(s, color)[i..])
      {
        assert Colored(s, color)[i..][1..] == Colored(s, color)[i + 1..];
        Putc(s[i]);
        i := i + 1;
      }
    }
  }

  function Colored(s: seq<int>, color: int): (r: seq<Char>)
    ensures |r| == |s|
    ensures forall i :: 0 <= i < |s| ==> r[i] == Char(s[i], color)
  {
    seq(|s|, i requires 0 <= i < |s| => Char(s[i], color))
  }
}
