// The console code: video memory updated and scrolled in place.
module Console {
  import opened M = ConsoleModel

  class Terminal {
    const video: array<bv8>
    var x: int
    var y: int

    ghost predicate Valid()
      reads this
    {
      video.Length == SIZE && 0 <= x < WIDTH && 0 <= y < HEIGHT
    }

    ghost function View(): (s: Screen)
      requires Valid()
      reads this, video
      ensures ScreenOk(s)
    {
      Screen(video[..], x, y)
    }

    /** printk_setup and clear_screen */
    constructor ()
      ensures Valid() && fresh(video) && View() == Window(BLANK)
    {
      video := new bv8[SIZE];
      x, y := 0, 0;
      new;
      ClearScreen();
      assert View().bytes == Window(BLANK).bytes;
    }

    method ClearLine(row: nat)
      requires video.Length == SIZE && row < HEIGHT
      modifies video
      ensures forall i | 0 <= i < SIZE ::
                video[i] == if row * LINE <= i < row * LINE + LINE then BlankCell(i) else old(video[i])
    {
      for j := 0 to WIDTH
        invariant forall i | 0 <= i < SIZE ::
                    video[i] == if row * LINE <= i < row * LINE + 2 * j then BlankCell(i) else old(video[i])
      {
        video[LINE * row + 2 * j] := SPACE;
        video[LINE * row + 2 * j + 1] := GREY;
      }
    }

    method ClearScreen()
      requires video.Length == SIZE
      modifies video
      ensures forall i | 0 <= i < SIZE :: video[i] == BlankCell(i)
    {
      for row := 0 to HEIGHT
        invariant forall i | 0 <= i < row * LINE :: video[i] == BlankCell(i)
      {
        ClearLine(row);
      }
    }

    /** memcpy of one line. */
    method CopyLine(from: nat, to: nat)
      requires video.Length == SIZE && from + LINE <= SIZE && (to + LINE <= from || to == from)
      modifies video
      ensures forall i | 0 <= i < SIZE ::
                video[i] == if to <= i < to + LINE then old(video[i - to + from]) else old(video[i])
    {
      for j := 0 to LINE
        invariant forall i | 0 <= i < SIZE ::
                    video[i] == if to <= i < to + j then old(video[i - to + from]) else old(video[i])
      {
        video[to + j] := video[from + j];
      }
    }

    method ScrollScreen(times: nat)
      requires video.Length == SIZE
      modifies video
      ensures video[..] == Scroll(old(video[..]), times)
    {
      if times >= HEIGHT {
        ClearScreen();
      } else {
        for i := 0 to HEIGHT - times
          invariant forall k | 0 <= k < SIZE ::
                      video[k] == if k < i * LINE then old(video[k + times * LINE]) else old(video[k])
        {
          CopyLine(times * LINE + i * LINE, i * LINE);
        }
        for i := HEIGHT - times to HEIGHT
          invariant forall k | 0 <= k < SIZE && (k < (HEIGHT - times) * LINE || k < i * LINE) ::
                      video[k] == if k < (HEIGHT - times) * LINE then old(video[k + times * LINE]) else BlankCell(k)
        {
          ClearLine(i);
        }
      }
    }

    method AdvanceLine()
      requires Valid()
      modifies this, video
      ensures Valid() && View() == M.AdvanceLine(old(View()))
    {
      if y >= HEIGHT - 1 {
        ScrollScreen(1);
        y := y - 1;
      }
      y := y + 1;
      x := 0;
    }

    method AdvanceCharN(n: nat)
      requires Valid() && n <= WIDTH
      modifies this, video
      ensures Valid() && View() == M.AdvanceChars(old(View()), n)
    {
      AdvanceShape(View(), n);
      x := x + n;
      if x >= WIDTH {
        OneLineAtMost(x);
        MoveDown(x / WIDTH);
        x := x % WIDTH;
      }
    }

    /** The lines gained, scrolled up when they leave the screen. */
    method MoveDown(lines: int)
      requires video.Length == SIZE && 0 <= y < HEIGHT && lines == 1
      modifies this`y, video
      ensures if old(y) == HEIGHT - 1 then y == old(y) && video[..] == Scroll(old(video[..]), 1)
              else y == old(y) + 1 && video[..] == old(video[..])
    {
      y := y + lines;
      if y > HEIGHT - 1 {
        ScrollScreen(y - (HEIGHT - 1));
        y := HEIGHT - 1;
      }
    }

    /** put_char */
    method PutChar(ch: bv8)
      requires Valid()
      modifies this, video
      ensures Valid() && View() == M.PutChar(old(View()), ch)
    {
      PutCharAt(ch);
      if ch != NEWLINE && ch != TAB {
        AdvanceCharN(1);
      }
    }

    /** put_char_at the cursor */
    method PutCharAt(ch: bv8)
      requires Valid()
      modifies this, video
      ensures Valid()
      ensures View() == var s := old(View());
        if ch == NEWLINE then M.AdvanceLine(s) else if ch == TAB then M.AdvanceChars(s, 4)
        else s.(bytes := s.bytes[LINE * s.y + 2 * s.x := ch])
    {
      if ch == NEWLINE {
        AdvanceLine();
      } else if ch == TAB {
        AdvanceCharN(4);
      } else {
        video[LINE * y + 2 * x] := ch;
      }
    }

    /** print_str */
    method PrintStr(text: seq<bv8>)
      requires Valid()
      modifies this, video
      ensures Valid() && View() == PutAll(old(View()), text)
    {
      for i := 0 to |text|
        invariant Valid() && View() == PutAll(old(View()), text[..i])
      {
        assert text[..i + 1][..i] == text[..i];
        PutChar(text[i]);
      }
      assert text[..|text|] == text;
    }
  }

  lemma OneLineAtMost(x: int)
    requires 0 <= x < 2 * WIDTH
    ensures x / WIDTH == (if x < WIDTH then 0 else 1) && x % WIDTH == if x < WIDTH then x else x - WIDTH
  {}
}
