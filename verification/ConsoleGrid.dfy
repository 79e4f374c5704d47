/**
  The console as a grid of character cells with a cursor: what a reader of the screen sees.
  A full line is left only when the next visible character arrives; running past the last
  line clears the screen.
 */
module ConsoleGrid {
  import Align

  const FONT_HEIGHT: nat := 16
  const FONT_WIDTH: nat := 8

  /** A signed 8-bit character. */
  type Char = c: int | -128 <= c < 128

  const SPACE: Char := 32
  const NEWLINE: Char := 10

  predicate Visible(ch: Char) {
    0x19 < ch < 0x7f
  }

  datatype Cell = Blank | Glyph(ch: Char)

  datatype Screen = Screen(rows: nat, cols: nat, cells: seq<seq<Cell>>, row: nat, col: nat)

  predicate Sized(s: Screen) {
    && s.rows >= 1 && s.cols >= 1
    && |s.cells| == s.rows && (forall r :: 0 <= r < s.rows ==> |s.cells[r]| == s.cols)
    && (forall r, c :: 0 <= r < s.rows && 0 <= c < s.cols && s.cells[r][c].Glyph? ==> Visible(s.cells[r][c].ch))
    && s.row <= s.rows && s.col <= s.cols
  }

  function Cleared(rows: nat, cols: nat): (s: Screen)
    ensures rows >= 1 && cols >= 1 ==> Sized(s)
  {
    Screen(rows, cols, seq(rows, _ => seq(cols, _ => Blank)), 0, 0)
  }

  /** At rest the cursor is on the screen, possibly just behind the last cell of its line. */
  ghost predicate Resting(s: Screen) {
    Sized(s) && s.row < s.rows
  }

  function Wrap(s: Screen): Screen {
    if s.col == s.cols then s.(row := s.row + 1, col := 0) else s
  }

  function Overflow(s: Screen): Screen {
    if s.row == s.rows then Cleared(s.rows, s.cols) else s
  }

  function Draw(s: Screen, ch: Char): Screen
    requires Resting(s) && s.col < s.cols
  {
    var cells := if ch == SPACE then s.cells else s.cells[s.row := s.cells[s.row][s.col := Glyph(ch)]];
    s.(cells := cells, col := s.col + 1)
  }

  function Put(s: Screen, ch: Char): (s': Screen)
    requires Resting(s)
    ensures Resting(s') && s'.rows == s.rows && s'.cols == s.cols
  {
    if Visible(ch) then Draw(Overflow(Wrap(s)), ch)
    else if ch == NEWLINE then Overflow(s.(row := s.row + 1, col := 0))
    else s
  }

  // ---------------------------------------------------------- by character code

  /** The same cells, except that the one at (row, col) holds what a character code leaves there. */
  ghost predicate OneCell(before: seq<seq<Cell>>, after: seq<seq<Cell>>, row: nat, col: nat, ch: Char) {
    && |after| == |before|
    && (forall r :: 0 <= r < |before| ==> |after[r]| == |before[r]|)
    && forall r, c :: 0 <= r < |before| && 0 <= c < |before[r]| ==>
         after[r][c] == if r == row && c == col && ch != 32 then Glyph(ch) else before[r][c]
  }

  ghost predicate AllBlank(s: Screen) {
    |s.cells| == s.rows && (forall r :: 0 <= r < s.rows ==> |s.cells[r]| == s.cols)
    && forall r, c :: 0 <= r < s.rows && 0 <= c < s.cols ==> s.cells[r][c] == Blank
  }

  /** A printable character: next cell of the line, first cell of the next line, or first cell of a clear screen. */
  ghost predicate Advances(s: Screen, ch: Char, s': Screen) {
    if s.col < s.cols then
      s'.row == s.row && s'.col == s.col + 1 && OneCell(s.cells, s'.cells, s.row, s.col, ch)
    else if s.row + 1 < s.rows then
      s'.row == s.row + 1 && s'.col == 1 && OneCell(s.cells, s'.cells, s.row + 1, 0, ch)
    else
      && s'.row == 0 && s'.col == 1
      && exists blank: Screen :: blank.rows == s.rows && blank.cols == s.cols && AllBlank(blank)
           && OneCell(blank.cells, s'.cells, 0, 0, ch)
  }

  /** A line break: start of the next line, or of a clear screen. */
  ghost predicate EndsLine(s: Screen, s': Screen) {
    && s'.col == 0
    && (if s.row + 1 < s.rows then s'.row == s.row + 1 && s'.cells == s.cells else s'.row == 0 && AllBlank(s'))
  }

  /** What each of the 256 character codes does to the screen. */
  ghost predicate PutsByCode(s: Screen, ch: Char, s': Screen) {
    && s'.rows == s.rows && s'.cols == s.cols
    && (0x1A <= ch <= 0x7E ==> Advances(s, ch, s'))
    && (ch == 10 ==> EndsLine(s, s'))
    && (!(0x1A <= ch <= 0x7E) && ch != 10 ==> s' == s)
  }

  lemma {:induction false} DrawOneCell(s: Screen, ch: Char)
    requires Resting(s) && s.col < s.cols
    ensures OneCell(s.cells, Draw(s, ch).cells, s.row, s.col, ch)
  {
  }

  lemma {:induction false} ClearedBlank(rows: nat, cols: nat)
    ensures AllBlank(Cleared(rows, cols))
  {
  }

  lemma {:induction false} PutByCode(s: Screen, ch: Char)
    requires Resting(s)
    ensures PutsByCode(s, ch, Put(s, ch))
  {
    ClearedBlank(s.rows, s.cols);
    if 0x1A <= ch <= 0x7E {
      var m := Overflow(Wrap(s));
      DrawOneCell(m, ch);
      if s.col == s.cols && s.row + 1 == s.rows {
        var blank := Cleared(s.rows, s.cols);
        assert OneCell(blank.cells, Put(s, ch).cells, 0, 0, ch);
      }
    }
  }

  function PutAll(s: Screen, text: seq<Char>): (s': Screen)
    requires Resting(s)
    ensures Resting(s') && s'.rows == s.rows && s'.cols == s.cols
  {
    if text == [] then s else Put(PutAll(s, text[..|text| - 1]), text[|text| - 1])
  }

  /** Putting one text after another is putting their concatenation. */
  lemma {:induction false} PutAllConcat(s: Screen, a: seq<Char>, b: seq<Char>)
    requires Resting(s)
    ensures PutAll(PutAll(s, a), b) == PutAll(s, a + b)
    decreases |b|
  {
    if b == [] {
      assert a + b == a;
    } else {
      PutAllConcat(s, a, b[..|b| - 1]);
      assert (a + b)[..|a + b| - 1] == a + b[..|b| - 1];
    }
  }

  // ------------------------------------------------------ blank ahead of the cursor

  /** No cell at or behind the cursor holds a glyph. */
  ghost predicate BlankAhead(s: Screen)
    requires Sized(s)
  {
    forall r, c :: 0 <= r < s.rows && 0 <= c < s.cols && (r > s.row || (r == s.row && c >= s.col)) ==> s.cells[r][c] == Blank
  }

  lemma PutBlankAhead(s: Screen, ch: Char)
    requires Resting(s) && BlankAhead(s)
    ensures BlankAhead(Put(s, ch))
  {
    if Visible(ch) {
      var m := Overflow(Wrap(s));
      assert BlankAhead(m);
    }
  }

  /** After any text from a clear screen the cell under the cursor is blank, so skipping a space is as good as drawing it. */
  lemma {:induction false} AlwaysBlankAhead(rows: nat, cols: nat, text: seq<Char>)
    requires rows >= 1 && cols >= 1
    ensures BlankAhead(PutAll(Cleared(rows, cols), text))
    decreases |text|
  {
    if text != [] {
      AlwaysBlankAhead(rows, cols, text[..|text| - 1]);
      PutBlankAhead(PutAll(Cleared(rows, cols), text[..|text| - 1]), text[|text| - 1]);
    }
  }

  // ------------------------------------------------------------ plain text layout

  ghost predicate AllVisible(text: seq<Char>) {
    forall i :: 0 <= i < |text| ==> 0x1A <= text[i] <= 0x7E
  }

  /** The part of a text without line breaks that is on a screen of `size` cells. */
  function OnScreen(text: seq<Char>, size: nat): (shown: seq<Char>)
    requires size >= 1
    ensures |shown| <= size && (text != [] ==> |shown| >= 1)
  {
    if text == [] then []
    else
      var before := OnScreen(text[..|text| - 1], size);
      if |before| == size then [text[|text| - 1]] else before + [text[|text| - 1]]
  }

  function CellOf(shown: seq<Char>, i: nat): Cell {
    if i < |shown| && shown[i] != 32 then Glyph(shown[i]) else Blank
  }

  /** The screen shows exactly these characters, line by line, and the cursor is behind the last one. */
  ghost predicate Shows(s: Screen, shown: seq<Char>) {
    && Resting(s)
    && s.row * s.cols + s.col == |shown|
    && (shown != [] ==> s.col >= 1)
    && forall r, c :: 0 <= r < s.rows && 0 <= c < s.cols ==> s.cells[r][c] == CellOf(shown, r * s.cols + c)
  }

  lemma LinearUnique(cols: nat, r: nat, c: nat, r': nat, c': nat)
    requires c < cols && c' < cols && r * cols + c == r' * cols + c'
    ensures r == r' && c == c'
  {
    Align.QuotientUnique(r, c, cols);
    Align.QuotientUnique(r', c', cols);
  }

  lemma LinearBelow(rows: nat, cols: nat, r: nat, c: nat)
    requires r < rows && c <= cols
    ensures r * cols + c <= rows * cols
    ensures cols >= 1 ==> (r * cols + c == rows * cols <==> r + 1 == rows && c == cols)
    ensures (r + 1) * cols == r * cols + cols
  {
    var d := rows - 1 - r;
    assert rows * cols == r * cols + cols + d * cols;
    assert d >= 1 ==> d * cols >= cols;
  }

  /** Drawing at the cursor appends the character to what is shown. */
  lemma DrawShows(s: Screen, shown: seq<Char>, ch: Char)
    requires Resting(s) && s.col < s.cols && Visible(ch)
    requires s.row * s.cols + s.col == |shown|
    requires forall r, c :: 0 <= r < s.rows && 0 <= c < s.cols ==> s.cells[r][c] == CellOf(shown, r * s.cols + c)
    ensures Shows(Draw(s, ch), shown + [ch])
  {
    var s' := Draw(s, ch);
    forall r, c | 0 <= r < s.rows && 0 <= c < s.cols
      ensures s'.cells[r][c] == CellOf(shown + [ch], r * s.cols + c)
    {
      if r * s.cols + c == |shown| {
        LinearUnique(s.cols, r, c, s.row, s.col);
      }
    }
  }

  /** One visible character: appended, or alone on a cleared screen when the last cell was taken. */
  lemma PutShows(s: Screen, shown: seq<Char>, ch: Char)
    requires Shows(s, shown) && Visible(ch)
    ensures Shows(Put(s, ch), if |shown| == s.rows * s.cols then [ch] else shown + [ch])
  {
    LinearBelow(s.rows, s.cols, s.row, s.col);
    var m := Overflow(Wrap(s));
    if |shown| == s.rows * s.cols {
      DrawShows(m, [], ch);
      assert [] + [ch] == [ch];
    } else {
      DrawShows(m, shown, ch);
    }
  }

  lemma ClearedShows(rows: nat, cols: nat)
    requires rows >= 1 && cols >= 1
    ensures Shows(Cleared(rows, cols), [])
  {
  }

  lemma SizePositive(rows: nat, cols: nat)
    requires rows >= 1 && cols >= 1
    ensures rows * cols >= 1
  {
  }

  /** After any text without line breaks, the screen shows its last page, line by line. */
  lemma {:induction false} TextLayout(rows: nat, cols: nat, text: seq<Char>)
    requires rows >= 1 && cols >= 1 && AllVisible(text)
    ensures rows * cols >= 1
    ensures Shows(PutAll(Cleared(rows, cols), text), OnScreen(text, rows * cols))
    decreases |text|
  {
    SizePositive(rows, cols);
    if text == [] {
      ClearedShows(rows, cols);
    } else {
      var before, ch := text[..|text| - 1], text[|text| - 1];
      TextLayout(rows, cols, before);
      PutShows(PutAll(Cleared(rows, cols), before), OnScreen(before, rows * cols), ch);
    }
  }

  /** The last page starts at a multiple of the screen size. */
  lemma {:induction false} LastPage(text: seq<Char>, size: nat) returns (pages: nat)
    requires size >= 1
    ensures pages * size <= |text| && OnScreen(text, size) == text[pages * size..]
    decreases |text|
  {
    if text == [] {
      pages := 0;
    } else {
      var before := text[..|text| - 1];
      var p := LastPage(before, size);
      if |OnScreen(before, size)| == size {
        pages := p + 1;
        assert pages * size == p * size + size == |text| - 1;
      } else {
        pages := p;
      }
    }
  }
}
