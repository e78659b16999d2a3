/**
 * `stable_display` (the same text in src/main.rs and clockit/src/main.rs):
 * draws a frame of text rows at a position, repainting every row the first
 * time or when the row count changes, and otherwise only the rows that differ
 * from the frame it drew last. Terminal output is recorded as a list of row
 * writes; a cell-level terminal model gives the writes their meaning.
 */
module Screen {
  import opened Wrappers
  import opened Config

  /** A frame: rows of text, top to bottom. */
  type Frame = seq<string>

  /**
   * One row drawn: the cursor moved to column x of line y, the line cleared
   * first when `clearLine` holds, then `text` printed in `color`.
   */
  datatype Write = Write(x: nat, y: nat, text: string, color: Color, clearLine: bool)

  /** `stable_display` repaints every row when nothing was drawn yet or the row count changed. */
  predicate RepaintsAll(last: Option<Frame>, frame: Frame) {
    last.None? || |last.value| != |frame|
  }

  /** The full repaint: row i at (x, y + i), top to bottom, without clearing. */
  function FullPaint(frame: Frame, x: nat, y: nat, color: Color): (ws: seq<Write>)
    ensures |ws| == |frame|
  {
    if |frame| == 0 then []
    else FullPaint(frame[..|frame| - 1], x, y, color) + [Write(x, y + |frame| - 1, frame[|frame| - 1], color, false)]
  }

  /** The full repaint writes row i of the frame, uncleared, at column x of line y + i. */
  lemma {:induction false} FullPaintRows(frame: Frame, x: nat, y: nat, color: Color)
    ensures forall i | 0 <= i < |frame| :: FullPaint(frame, x, y, color)[i] == Write(x, y + i, frame[i], color, false)
  {
    if |frame| > 0 {
      var n := |frame| - 1;
      FullPaintRows(frame[..n], x, y, color);
      var ws := FullPaint(frame, x, y, color);
      forall i | 0 <= i < n
        ensures ws[i] == Write(x, y + i, frame[i], color, false)
      {
        assert ws[i] == FullPaint(frame[..n], x, y, color)[i];
        assert frame[..n][i] == frame[i];
      }
    }
  }

  /**
   * The partial repaint: the rows whose text differs from the previous frame,
   * top to bottom, each line cleared before it is printed.
   */
  function DiffPaint(prev: Frame, frame: Frame, x: nat, y: nat, color: Color): seq<Write>
    requires |prev| == |frame|
  {
    if |frame| == 0 then []
    else
      var n := |frame| - 1;
      DiffPaint(prev[..n], frame[..n], x, y, color)
      + (if frame[n] != prev[n] then [Write(x, y + n, frame[n], color, true)] else [])
  }

  /** Every write is a cleared line at a row that changed, carrying that row's new text. */
  predicate OnlyChangedRows(ws: seq<Write>, prev: Frame, frame: Frame, x: nat, y: nat, color: Color)
    requires |prev| == |frame|
  {
    forall k | 0 <= k < |ws| ::
      && ws[k].x == x && ws[k].color == color && ws[k].clearLine
      && y <= ws[k].y < y + |frame|
      && ws[k].text == frame[ws[k].y - y] != prev[ws[k].y - y]
  }

  /** Row i differs from the previous frame. */
  predicate RowChanged(prev: Frame, frame: Frame, i: nat)
    requires |prev| == |frame|
  {
    i < |frame| && frame[i] != prev[i]
  }

  /** Every row that changed is written. */
  predicate AllChangedRows(ws: seq<Write>, prev: Frame, frame: Frame, y: nat)
    requires |prev| == |frame|
  {
    forall i: nat | i < |frame| && RowChanged(prev, frame, i) :: exists k | 0 <= k < |ws| :: ws[k].y == y + i
  }

  /** Rows are written top to bottom, none twice. */
  predicate TopToBottom(ws: seq<Write>) {
    forall k, l | 0 <= k < l < |ws| :: ws[k].y < ws[l].y
  }

  /** The partial repaint writes only rows that changed, with their new text. */
  lemma {:induction false} DiffPaintWritesChanged(prev: Frame, frame: Frame, x: nat, y: nat, color: Color)
    requires |prev| == |frame|
    ensures OnlyChangedRows(DiffPaint(prev, frame, x, y, color), prev, frame, x, y, color)
  {
    if |frame| > 0 {
      var n := |frame| - 1;
      DiffPaintWritesChanged(prev[..n], frame[..n], x, y, color);
      var init := DiffPaint(prev[..n], frame[..n], x, y, color);
      var ws := DiffPaint(prev, frame, x, y, color);
      assert ws[..|init|] == init;
      forall k | 0 <= k < |ws|
        ensures && ws[k].x == x && ws[k].color == color && ws[k].clearLine
                && y <= ws[k].y < y + |frame|
                && ws[k].text == frame[ws[k].y - y] != prev[ws[k].y - y]
      {
        if k < |init| {
          assert ws[k] == init[k];
          var j := init[k].y - y;
          assert frame[..n][j] == frame[j] && prev[..n][j] == prev[j];
        }
      }
    }
  }

  /** The partial repaint writes every row that changed. */
  lemma {:induction false} DiffPaintCoversChanged(prev: Frame, frame: Frame, x: nat, y: nat, color: Color)
    requires |prev| == |frame|
    ensures AllChangedRows(DiffPaint(prev, frame, x, y, color), prev, frame, y)
  {
    if |frame| > 0 {
      var n := |frame| - 1;
      DiffPaintCoversChanged(prev[..n], frame[..n], x, y, color);
      var init := DiffPaint(prev[..n], frame[..n], x, y, color);
      var ws := DiffPaint(prev, frame, x, y, color);
      assert ws[..|init|] == init;
      forall i: nat | i < |frame| && RowChanged(prev, frame, i)
        ensures exists k | 0 <= k < |ws| :: ws[k].y == y + i
      {
        if i < n {
          assert RowChanged(prev[..n], frame[..n], i);
          var k :| 0 <= k < |init| && init[k].y == y + i;
          assert ws[k] == init[k];
        } else {
          assert ws[|init|].y == y + i;
        }
      }
    }
  }

  /** The partial repaint goes top to bottom and writes no row twice. */
  lemma {:induction false} DiffPaintTopToBottom(prev: Frame, frame: Frame, x: nat, y: nat, color: Color)
    requires |prev| == |frame|
    ensures TopToBottom(DiffPaint(prev, frame, x, y, color))
  {
    if |frame| > 0 {
      var n := |frame| - 1;
      DiffPaintTopToBottom(prev[..n], frame[..n], x, y, color);
      DiffPaintWritesChanged(prev[..n], frame[..n], x, y, color);
      var init := DiffPaint(prev[..n], frame[..n], x, y, color);
      var ws := DiffPaint(prev, frame, x, y, color);
      assert ws[..|init|] == init;
      forall k, l | 0 <= k < l < |ws|
        ensures ws[k].y < ws[l].y
      {
        assert ws[k] == init[k];
        if l < |init| {
          assert ws[l] == init[l];
        }
      }
    }
  }

  /** The writes `stable_display` makes for a frame, given the frame it drew last. */
  function Paint(last: Option<Frame>, frame: Frame, x: nat, y: nat, color: Color): seq<Write> {
    if RepaintsAll(last, frame) then FullPaint(frame, x, y, color)
    else DiffPaint(last.value, frame, x, y, color)
  }

  /** One more row of the full repaint. */
  lemma FullPaintStep(frame: Frame, i: nat, x: nat, y: nat, color: Color)
    requires i < |frame|
    ensures FullPaint(frame[..i + 1], x, y, color) == FullPaint(frame[..i], x, y, color) + [Write(x, y + i, frame[i], color, false)]
  {
    assert frame[..i + 1][..i] == frame[..i];
  }

  /** One more row of the partial repaint. */
  lemma DiffPaintStep(prev: Frame, frame: Frame, i: nat, x: nat, y: nat, color: Color)
    requires |prev| == |frame| && i < |frame|
    ensures DiffPaint(prev[..i + 1], frame[..i + 1], x, y, color) ==
      DiffPaint(prev[..i], frame[..i], x, y, color) + (if frame[i] != prev[i] then [Write(x, y + i, frame[i], color, true)] else [])
  {
    assert frame[..i + 1][..i] == frame[..i];
    assert prev[..i + 1][..i] == prev[..i];
  }

  /**
   * `stable_display`'s state, the `last_display` it keeps between calls, and
   * the terminal output it has produced.
   */
  class Display {
    var last: Option<Frame>
    var output: seq<Write>

    /** A run loop starts with `last_display = None` and nothing drawn. */
    constructor ()
      ensures last == None && output == []
    {
      last := None;
      output := [];
    }

    /**
     * `stable_display`: the full repaint or the partial one, then the frame is
     * kept as the one drawn last.
     */
    method Show(asciiTime: Frame, xPos: nat, yPos: nat, color: Color)
      modifies this
      ensures last == Some(asciiTime)
      ensures output == old(output) + Paint(old(last), asciiTime, xPos, yPos, color)
    {
      if last.None? || |last.value| != |asciiTime| {
        var i := 0;
        while i < |asciiTime|
          invariant 0 <= i <= |asciiTime|
          invariant output == old(output) + FullPaint(asciiTime[..i], xPos, yPos, color)
        {
          FullPaintStep(asciiTime, i, xPos, yPos, color);
          output := output + [Write(xPos, yPos + i, asciiTime[i], color, false)];
          i := i + 1;
        }
        assert asciiTime[..i] == asciiTime;
        last := Some(asciiTime);
        return;
      }
      var prevDisplay := last.value;
      var i := 0;
      while i < |asciiTime|
        invariant 0 <= i <= |asciiTime|
        invariant last == old(last)
        invariant output == old(output) + DiffPaint(prevDisplay[..i], asciiTime[..i], xPos, yPos, color)
      {
        DiffPaintStep(prevDisplay, asciiTime, i, xPos, yPos, color);
        if asciiTime[i] != prevDisplay[i] {
          output := output + [Write(xPos, yPos + i, asciiTime[i], color, true)];
        }
        i := i + 1;
      }
      assert asciiTime[..i] == asciiTime && prevDisplay[..i] == prevDisplay;
      last := Some(asciiTime);
    }
  }

  /** Drawing the frame drawn last writes nothing. */
  lemma {:induction false} RepeatWritesNothing(frame: Frame, x: nat, y: nat, color: Color)
    ensures Paint(Some(frame), frame, x, y, color) == []
  {
    DiffPaintSame(frame, x, y, color);
  }

  lemma {:induction false} DiffPaintSame(frame: Frame, x: nat, y: nat, color: Color)
    ensures DiffPaint(frame, frame, x, y, color) == []
  {
    if |frame| > 0 {
      DiffPaintSame(frame[..|frame| - 1], x, y, color);
    }
  }

  /** The terminal before the writes: the character shown in each cell, by column and line. */
  type Cells = (nat, nat) -> char

  /**
   * Cell (c, r) after one write, given what it showed before: the write's text
   * from column x of its line, a blank elsewhere on a line it clears, and
   * otherwise unchanged.
   */
  function WriteCell(before: char, w: Write, c: nat, r: nat): char {
    if r == w.y && w.x <= c < w.x + |w.text| then w.text[c - w.x]
    else if r == w.y && w.clearLine then ' '
    else before
  }

  /** Cell (c, r) after a list of writes, in order, given that it showed `start` before them. */
  function CellAfter(start: char, ws: seq<Write>, c: nat, r: nat): char {
    if |ws| == 0 then start else WriteCell(CellAfter(start, ws[..|ws| - 1], c, r), ws[|ws| - 1], c, r)
  }

  /** A cell on a line no write touches keeps what it showed. */
  lemma {:induction false} CellAfterUntouched(start: char, ws: seq<Write>, c: nat, r: nat)
    requires forall k | 0 <= k < |ws| :: ws[k].y != r
    ensures CellAfter(start, ws, c, r) == start
  {
    if |ws| > 0 {
      CellAfterUntouched(start, ws[..|ws| - 1], c, r);
    }
  }

  /** A cell on a line exactly one write touches shows what that write makes of it. */
  lemma {:induction false} CellAfterOnly(start: char, ws: seq<Write>, k: nat, c: nat, r: nat)
    requires k < |ws| && ws[k].y == r
    requires forall j | 0 <= j < |ws| && j != k :: ws[j].y != r
    ensures CellAfter(start, ws, c, r) == WriteCell(start, ws[k], c, r)
  {
    var n := |ws| - 1;
    if k == n {
      CellAfterUntouched(start, ws[..n], c, r);
    } else {
      CellAfterOnly(start, ws[..n], k, c, r);
    }
  }

  /** The frame's rows are on the terminal from column x, line y on. */
  ghost predicate Shows(t: Cells, frame: Frame, x: nat, y: nat) {
    forall c: nat, r: nat | y <= r < y + |frame| && x <= c < x + |frame[r - y]| :: t(c, r) == frame[r - y][c - x]
  }

  /** One cell after writes that put row i of the frame on line y + i: see `FullPaintEffect`. */
  lemma RowsCell(start: char, ws: seq<Write>, frame: Frame, x: nat, y: nat, color: Color, c: nat, r: nat)
    requires |ws| == |frame|
    requires forall i | 0 <= i < |ws| :: ws[i] == Write(x, y + i, frame[i], color, false)
    ensures CellAfter(start, ws, c, r) ==
      if y <= r < y + |frame| && x <= c < x + |frame[r - y]| then frame[r - y][c - x] else start
  {
    if y <= r < y + |frame| {
      CellAfterOnly(start, ws, r - y, c, r);
    } else {
      CellAfterUntouched(start, ws, c, r);
    }
  }

  /**
   * The full repaint puts each row of the frame on its line from column x and
   * changes no other cell: the rest of those lines and every other line keep
   * what they showed.
   */
  lemma FullPaintEffect(t: Cells, frame: Frame, x: nat, y: nat, color: Color)
    ensures forall c: nat, r: nat ::
      CellAfter(t(c, r), FullPaint(frame, x, y, color), c, r) ==
      (if y <= r < y + |frame| && x <= c < x + |frame[r - y]| then frame[r - y][c - x] else t(c, r))
  {
    FullPaintRows(frame, x, y, color);
    forall c: nat, r: nat {
      RowsCell(t(c, r), FullPaint(frame, x, y, color), frame, x, y, color, c, r);
    }
  }

  /** What cell (c, r), showing `start` before, shows after the partial repaint from `prev` to `frame`. */
  function DiffCell(start: char, prev: Frame, frame: Frame, x: nat, y: nat, c: nat, r: nat): char
    requires |prev| == |frame|
  {
    if y <= r < y + |frame| && frame[r - y] != prev[r - y] then
      (if x <= c < x + |frame[r - y]| then frame[r - y][c - x] else ' ')
    else start
  }

  /**
   * One cell after writes that clear and rewrite exactly the changed rows, top
   * to bottom: see `DiffPaintEffect`.
   */
  lemma ChangedRowsCell(start: char, ws: seq<Write>, prev: Frame, frame: Frame, x: nat, y: nat, color: Color, c: nat, r: nat)
    requires |prev| == |frame|
    requires OnlyChangedRows(ws, prev, frame, x, y, color)
    requires AllChangedRows(ws, prev, frame, y)
    requires TopToBottom(ws)
    ensures CellAfter(start, ws, c, r) == DiffCell(start, prev, frame, x, y, c, r)
  {
    if y <= r < y + |frame| && frame[r - y] != prev[r - y] {
      assert RowChanged(prev, frame, r - y);
      var k :| 0 <= k < |ws| && ws[k].y == y + (r - y);
      forall j | 0 <= j < |ws| && j != k
        ensures ws[j].y != r
      {
        if j < k {
          assert ws[j].y < ws[k].y;
        } else {
          assert ws[k].y < ws[j].y;
        }
      }
      CellAfterOnly(start, ws, k, c, r);
    } else {
      forall j | 0 <= j < |ws|
        ensures ws[j].y != r
      {
        assert y <= ws[j].y < y + |frame| && frame[ws[j].y - y] != prev[ws[j].y - y];
      }
      CellAfterUntouched(start, ws, c, r);
    }
  }

  /**
   * The partial repaint leaves the lines of unchanged rows and all lines
   * outside the frame as they were; a changed row's line is blank except for
   * the new text from column x.
   */
  lemma DiffPaintEffect(t: Cells, prev: Frame, frame: Frame, x: nat, y: nat, color: Color)
    requires |prev| == |frame|
    ensures forall c: nat, r: nat ::
      CellAfter(t(c, r), DiffPaint(prev, frame, x, y, color), c, r) ==
      (if y <= r < y + |frame| && frame[r - y] != prev[r - y] then
         (if x <= c < x + |frame[r - y]| then frame[r - y][c - x] else ' ')
       else t(c, r))
  {
    var ws := DiffPaint(prev, frame, x, y, color);
    DiffPaintWritesChanged(prev, frame, x, y, color);
    DiffPaintCoversChanged(prev, frame, x, y, color);
    DiffPaintTopToBottom(prev, frame, x, y, color);
    forall c: nat, r: nat
      ensures CellAfter(t(c, r), ws, c, r) == DiffCell(t(c, r), prev, frame, x, y, c, r)
    {
      ChangedRowsCell(t(c, r), ws, prev, frame, x, y, color, c, r);
    }
  }

  /**
   * After `stable_display` the terminal shows the new frame at (x, y),
   * provided that on the partial path it still showed the previous frame there;
   * lines outside the frame are untouched.
   */
  lemma PaintShowsFrame(t: Cells, last: Option<Frame>, frame: Frame, x: nat, y: nat, color: Color)
    requires !RepaintsAll(last, frame) ==> Shows(t, last.value, x, y)
    ensures forall c: nat, r: nat | y <= r < y + |frame| && x <= c < x + |frame[r - y]| ::
      CellAfter(t(c, r), Paint(last, frame, x, y, color), c, r) == frame[r - y][c - x]
    ensures forall c: nat, r: nat | !(y <= r < y + |frame|) :: CellAfter(t(c, r), Paint(last, frame, x, y, color), c, r) == t(c, r)
  {
    if RepaintsAll(last, frame) {
      FullPaintEffect(t, frame, x, y, color);
    } else {
      DiffPaintEffect(t, last.value, frame, x, y, color);
    }
  }
}
