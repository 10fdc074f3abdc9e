/** A terminal row of unbounded width: its cells, the prompt included, and the
    cursor. */
module Terminal {

  datatype Screen = Screen(cells: string, cursor: nat)

  /** The cells in front of the cursor, blank ones included. */
  function Left(s: Screen): (r: string)
    ensures |r| == s.cursor
  {
    if s.cursor <= |s.cells| then s.cells[..s.cursor] else s.cells + seq(s.cursor - |s.cells|, _ => ' ')
  }

  function From(cells: string, i: nat): string {
    if i < |cells| then cells[i..] else ""
  }

  function Printed(s: Screen, text: string): Screen {
    if text == "" then s else Screen(Left(s) + text + From(s.cells, s.cursor + |text|), s.cursor + |text|)
  }

  function Erased(s: Screen, n: nat): Screen {
    if s.cursor <= |s.cells| then Screen(Left(s) + From(s.cells, s.cursor + n), s.cursor) else s
  }

  function Back(s: Screen, n: nat): Screen {
    Screen(s.cells, if n <= s.cursor then s.cursor - n else 0)
  }

  /** The cursor moved as far as from one place in the line to another. */
  function Moved(s: Screen, from: nat, target: nat): Screen {
    if from > target then Back(s, from - target) else Screen(s.cells, s.cursor + (target - from))
  }

  /** Text takes the place of what was under it, and the rest stays; a cursor behind
      the end leaves blanks. */
  lemma PrintedCells(s: Screen, text: string)
    requires text != ""
    ensures var r, end := Printed(s, text), s.cursor + |text|;
            && r.cursor == end && |r.cells| == (if |s.cells| < end then end else |s.cells|)
            && forall k :: 0 <= k < |r.cells| ==>
                 r.cells[k] == if s.cursor <= k < end then text[k - s.cursor]
                               else if k < |s.cells| then s.cells[k] else ' '
  {}

  /** Erasing takes cells out; what stood behind them moves up. */
  lemma ErasedCells(s: Screen, n: nat)
    ensures var r := Erased(s, n);
            && r.cursor == s.cursor
            && |r.cells| == (if |s.cells| <= s.cursor then |s.cells|
                             else if |s.cells| < s.cursor + n then s.cursor else |s.cells| - n)
            && forall k :: 0 <= k < |r.cells| ==> r.cells[k] == if k < s.cursor then s.cells[k] else s.cells[k + n]
  {}

  /** A row that begins with a prompt. */
  function Behind(prompt: string, s: Screen): Screen {
    Screen(prompt + s.cells, |prompt| + s.cursor)
  }

  lemma BehindSame(prompt: string, a: Screen, b: Screen)
    ensures Behind(prompt, a) == Behind(prompt, b) <==> a == b
  {
    assert (prompt + a.cells)[|prompt|..] == a.cells && (prompt + b.cells)[|prompt|..] == b.cells;
  }

  lemma BehindFrom(prompt: string, s: Screen, i: nat)
    ensures From(prompt + s.cells, |prompt| + i) == From(s.cells, i)
  {}

  lemma BehindLeft(prompt: string, s: Screen)
    ensures Left(Behind(prompt, s)) == prompt + Left(s)
  {}

  /** What is done behind the prompt leaves it alone. */
  lemma BehindPrinted(prompt: string, s: Screen, text: string)
    ensures Printed(Behind(prompt, s), text) == Behind(prompt, Printed(s, text))
  {
    hide From, Left;
    BehindFrom(prompt, s, s.cursor + |text|);
    BehindLeft(prompt, s);
  }

  lemma BehindErased(prompt: string, s: Screen, n: nat)
    ensures Erased(Behind(prompt, s), n) == Behind(prompt, Erased(s, n))
  {
    hide From, Left;
    BehindFrom(prompt, s, s.cursor + n);
    BehindLeft(prompt, s);
    assert prompt + (Left(s) + From(s.cells, s.cursor + n)) == prompt + Left(s) + From(s.cells, s.cursor + n);
  }

  /** A prompt and a text in an empty row. */
  lemma PrintedBoth(prompt: string, text: string)
    ensures Printed(Printed(Screen("", 0), prompt), text) == Behind(prompt, Screen(text, |text|))
  {
    assert Printed(Screen("", 0), prompt) == Behind(prompt, Screen("", 0));
    BehindPrinted(prompt, Screen("", 0), text);
    assert Printed(Screen("", 0), text) == Screen(text, |text|);
  }

  class Vt100 {
    var cells: string
    var cursor: nat
    ghost var frames: seq<Screen>   // what was shown whenever a key was waited for

    constructor ()
      ensures Shows() == Screen("", 0) && frames == []
    {
      cells, cursor, frames := "", 0, [];
    }

    function Shows(): Screen
      reads this`cells, this`cursor
    {
      Screen(cells, cursor)
    }

    /** A new row, or the cleared screen with the cursor at home. */
    method NewRow()
      modifies this`cells, this`cursor
      ensures Shows() == Screen("", 0)
    {
      cells, cursor := "", 0;
    }

    /** Overwrites the cells at the cursor. */
    method Print(text: string)
      modifies this`cells, this`cursor
      ensures Shows() == Printed(old(Shows()), text)
    {
      if text != "" { cells, cursor := Left(Shows()) + text + From(cells, cursor + |text|), cursor + |text|; }
    }

    method CursorBack(n: nat)
      modifies this`cells, this`cursor
      ensures Shows() == Back(old(Shows()), n)
    {
      cursor := if n <= cursor then cursor - n else 0;
    }

    method CursorForward(n: nat)
      modifies this`cells, this`cursor
      ensures cells == old(cells) && cursor == old(cursor) + n
    {
      cursor := cursor + n;
    }

    /** Deletes `n` cells at the cursor; the rest moves left. */
    method Erase(n: nat)
      modifies this`cells, this`cursor
      ensures Shows() == Erased(old(Shows()), n)
    {
      if cursor < |cells| { cells := cells[..cursor] + From(cells, cursor + n); }
    }

    /** A key is waited for. */
    ghost method Await()
      modifies this`frames
      ensures frames == old(frames) + [Shows()]
    {
      frames := frames + [Shows()];
    }
  }
}
