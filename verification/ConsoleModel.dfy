// The text console as values: an 80 by 25 screen that scrolls, and a canvas that never ends.
module ConsoleModel {

  const WIDTH := 80
  const HEIGHT := 25
  const LINE := 160                 // bytes of a line: a character and its attribute per cell
  const SIZE := 4000
  const SPACE: bv8 := 0x20
  const GREY: bv8 := 0x07
  const NEWLINE: bv8 := 0x0a
  const TAB: bv8 := 0x09

  // ------------------------------------------------------------------ canvas

  /** Everything written so far: complete rows, the last one holding the cursor at column x. */
  datatype Canvas = Canvas(rows: seq<seq<bv8>>, x: int)

  function BlankRow(): (r: seq<bv8>)
    ensures |r| == WIDTH
  {
    seq(WIDTH, _ => SPACE)
  }

  predicate CanvasOk(c: Canvas) {
    |c.rows| > 0 && 0 <= c.x < WIDTH && forall r | 0 <= r < |c.rows| :: |c.rows[r]| == WIDTH
  }

  const BLANK := Canvas([BlankRow()], 0)

  /** Move the cursor right; past the edge it goes on in a new row. */
  function Forward(c: Canvas, n: int): Canvas {
    if c.x + n < WIDTH then c.(x := c.x + n) else Canvas(c.rows + [BlankRow()], c.x + n - WIDTH)
  }

  function Write(c: Canvas, ch: bv8): (d: Canvas)
    requires CanvasOk(c)
    ensures CanvasOk(d)
  {
    if ch == NEWLINE then Canvas(c.rows + [BlankRow()], 0)
    else if ch == TAB then Forward(c, 4)
    else
      var last := |c.rows| - 1;
      Forward(c.(rows := c.rows[last := c.rows[last][c.x := ch]]), 1)
  }

  function WriteAll(c: Canvas, text: seq<bv8>): (d: Canvas)
    requires CanvasOk(c)
    ensures CanvasOk(d)
  {
    if text == [] then c else Write(WriteAll(c, text[..|text| - 1]), text[|text| - 1])
  }

  // ------------------------------------------------------------------ screen

  /** The video memory and the cursor. */
  datatype Screen = Screen(bytes: seq<bv8>, x: int, y: int)

  predicate ScreenOk(s: Screen) { |s.bytes| == SIZE && 0 <= s.x < WIDTH && 0 <= s.y < HEIGHT }

  function BlankCell(i: int): bv8 { if i % 2 == 0 then SPACE else GREY }

  /** scroll_screen */
  function Scroll(b: seq<bv8>, times: nat): (r: seq<bv8>)
    requires |b| == SIZE
    ensures |r| == SIZE
  {
    seq(SIZE, i requires 0 <= i < SIZE => if i + times * LINE < SIZE then b[i + times * LINE] else BlankCell(i))
  }

  function AdvanceLine(s: Screen): Screen
    requires ScreenOk(s)
  {
    if s.y >= HEIGHT - 1 then Screen(Scroll(s.bytes, 1), 0, s.y) else Screen(s.bytes, 0, s.y + 1)
  }

  function AdvanceChars(s: Screen, n: nat): Screen
    requires ScreenOk(s)
  {
    var x := s.x + n;
    if x >= WIDTH then
      var y := s.y + x / WIDTH;
      if y > HEIGHT - 1 then Screen(Scroll(s.bytes, y - (HEIGHT - 1)), x % WIDTH, HEIGHT - 1)
      else Screen(s.bytes, x % WIDTH, y)
    else s.(x := x)
  }

  function PutChar(s: Screen, ch: bv8): Screen
    requires ScreenOk(s)
  {
    if ch == NEWLINE then AdvanceLine(s)
    else if ch == TAB then AdvanceChars(s, 4)
    else AdvanceChars(s.(bytes := s.bytes[LINE * s.y + 2 * s.x := ch]), 1)
  }

  // ------------------------------------------------------------------ window

  /** Byte j of row r of the canvas as the screen shows it; rows not begun are blank. */
  function CellByte(c: Canvas, r: int, j: int): bv8
    requires CanvasOk(c) && 0 <= r && 0 <= j < LINE
  {
    if j % 2 == 1 then GREY else if r < |c.rows| then c.rows[r][j / 2] else SPACE
  }

  /** The first of the last 25 rows. */
  function Top(c: Canvas): int { if |c.rows| > HEIGHT then |c.rows| - HEIGHT else 0 }

  /** The last 25 rows of the canvas. */
  function Window(c: Canvas): (s: Screen)
    requires CanvasOk(c)
    ensures ScreenOk(s)
  {
    Screen(seq(SIZE, i requires 0 <= i < SIZE => CellByte(c, Top(c) + i / LINE, i % LINE)), c.x, |c.rows| - 1 - Top(c))
  }

  /** The screen with the cursor one line further down. */
  function Lower(s: Screen, x: int): Screen
    requires ScreenOk(s)
  {
    if s.y == HEIGHT - 1 then Screen(Scroll(s.bytes, 1), x, s.y) else Screen(s.bytes, x, s.y + 1)
  }

  /** A new row below: the screen scrolls exactly when the cursor was on its last line. */
  lemma NewRow(c: Canvas, x: int)
    requires CanvasOk(c) && 0 <= x < WIDTH
    ensures CanvasOk(Canvas(c.rows + [BlankRow()], x))
    ensures Window(Canvas(c.rows + [BlankRow()], x)) == Lower(Window(c), x)
  {
    var d, s := Canvas(c.rows + [BlankRow()], x), Window(c);
    forall i | 0 <= i < SIZE
      ensures Window(d).bytes[i] == if s.y == HEIGHT - 1 then Scroll(s.bytes, 1)[i] else s.bytes[i]
    {
      NextLine(i);
      if s.y == HEIGHT - 1 && i + LINE >= SIZE { assert Top(d) + i / LINE == |c.rows|; }
    }
  }

  lemma NextLine(i: int)
    ensures (i + LINE) / LINE == i / LINE + 1 && (i + LINE) % LINE == i % LINE
    ensures i % LINE % 2 == i % 2
  {}

  lemma SetCell(c: Canvas, ch: bv8)
    requires CanvasOk(c)
    ensures var last, s := |c.rows| - 1, Window(c); var d := c.(rows := c.rows[last := c.rows[last][c.x := ch]]);
      CanvasOk(d) && Window(d) == s.(bytes := s.bytes[LINE * s.y + 2 * s.x := ch])
  {
    var last, s := |c.rows| - 1, Window(c);
    var d := c.(rows := c.rows[last := c.rows[last][c.x := ch]]);
    var at := LINE * s.y + 2 * s.x;
    forall i | 0 <= i < SIZE ensures Window(d).bytes[i] == s.bytes[at := ch][i] {
      CellIndex(i, s.y, s.x);
    }
  }

  lemma CellIndex(i: int, y: int, x: int)
    requires 0 <= x < WIDTH
    ensures i == LINE * y + 2 * x <==> i / LINE == y && i % LINE == 2 * x
    ensures i % LINE / 2 == x && i % LINE % 2 == 0 <==> i % LINE == 2 * x
  {}

  lemma AdvanceShape(s: Screen, n: nat)
    requires ScreenOk(s) && n <= WIDTH
    ensures AdvanceChars(s, n) == if s.x + n < WIDTH then s.(x := s.x + n) else Lower(s, s.x + n - WIDTH)
  {}

  lemma ForwardShows(c: Canvas, n: nat)
    requires CanvasOk(c) && n <= WIDTH
    ensures CanvasOk(Forward(c, n)) && Window(Forward(c, n)) == AdvanceChars(Window(c), n)
  {
    AdvanceShape(Window(c), n);
    if c.x + n >= WIDTH { NewRow(c, c.x + n - WIDTH); }
  }

  /** One character: the screen after it is the window on the canvas after it. */
  lemma PutCharShowsCanvas(c: Canvas, ch: bv8)
    requires CanvasOk(c)
    ensures PutChar(Window(c), ch) == Window(Write(c, ch))
  {
    if ch == NEWLINE { NewRow(c, 0); }
    else if ch == TAB { ForwardShows(c, 4); }
    else {
      var last := |c.rows| - 1;
      SetCell(c, ch);
      ForwardShows(c.(rows := c.rows[last := c.rows[last][c.x := ch]]), 1);
    }
  }

  function PutAll(s: Screen, text: seq<bv8>): (t: Screen)
    requires ScreenOk(s)
    ensures ScreenOk(t)
  {
    if text == [] then s else PutChar(PutAll(s, text[..|text| - 1]), text[|text| - 1])
  }

  /** Every stream: the buffer started blank shows the last 25 rows of the blank canvas the
      same stream is written to. */
  lemma {:induction false} ScreenShowsCanvas(text: seq<bv8>)
    ensures CanvasOk(BLANK) && PutAll(Window(BLANK), text) == Window(WriteAll(BLANK, text))
    ensures |Window(WriteAll(BLANK, text)).bytes| == 2 * 80 * 25
  {
    if text != [] {
      ScreenShowsCanvas(text[..|text| - 1]);
      PutCharShowsCanvas(WriteAll(BLANK, text[..|text| - 1]), text[|text| - 1]);
    }
  }

  /** Rows above the cursor's are never changed by what is written later. */
  lemma {:induction false} FinishedRowsStay(c: Canvas, text: seq<bv8>)
    requires CanvasOk(c)
    ensures var d := WriteAll(c, text); var n := |c.rows| - 1; n < |d.rows| && d.rows[..n] == c.rows[..n]
  {
    if text != [] { FinishedRowsStay(c, text[..|text| - 1]); }
  }
}
