/**
  The frame-buffer console: a cursor in pixels and a pixel array written in place.  The array
  always equals the rendering of the character grid.
 */
module KernelConsoles {
  import opened ConsoleGrid
  import opened Machine
  import Align
  import Bits

  datatype Color = Color(c1: bv8, c2: bv8, c3: bv8, c4: bv8)

  const BACKGROUND := Color(0, 0, 0, 0)
  const FOREGROUND := Color(255, 255, 255, 0)

  datatype GraphicInfo = GraphicInfo(PixelsPerScanLine: nat, HorizontalResolution: nat, VerticalResolution: nat)

  /** At least one cell fits, and the buffer covers all scan lines within 32-bit pixel numbers. */
  predicate Fits(info: GraphicInfo, pixels: nat) {
    && info.HorizontalResolution >= FONT_WIDTH && info.VerticalResolution >= FONT_HEIGHT
    && info.HorizontalResolution <= info.PixelsPerScanLine
    && info.VerticalResolution * info.PixelsPerScanLine <= pixels
    && info.VerticalResolution * info.PixelsPerScanLine < U32_LIMIT
  }

  type Font = seq<seq<bv8>>

  predicate FontComplete(font: Font) {
    |font| == 127 && forall ch :: 0 <= ch < 127 ==> |font[ch]| == FONT_HEIGHT
  }

  /** Whether the glyph has ink at column k of line i. */
  predicate Ink(font: Font, ch: Char, i: nat, k: nat)
    requires FontComplete(font) && Visible(ch) && i < FONT_HEIGHT && k < FONT_WIDTH
  {
    font[ch][i] & (1 << (7 - k)) != 0
  }

  function GlyphColor(font: Font, ch: Char, i: nat, k: nat): Color
    requires FontComplete(font) && Visible(ch) && i < FONT_HEIGHT && k < FONT_WIDTH
  {
    if Ink(font, ch, i, k) then FOREGROUND else BACKGROUND
  }

  /** The colour the grid gives to the pixel at (x, y). */
  function PixelColor(font: Font, s: Screen, x: nat, y: nat): Color
    requires FontComplete(font) && Sized(s)
  {
    var r, c := y / FONT_HEIGHT, x / FONT_WIDTH;
    if r < s.rows && c < s.cols && s.cells[r][c].Glyph?
    then GlyphColor(font, s.cells[r][c].ch, y % FONT_HEIGHT, x % FONT_WIDTH)
    else BACKGROUND
  }

  lemma {:induction false} MaskIsBit(value: bv8, bit: nat)
    requires bit < 8
    ensures value & (1 << bit) != 0 <==> Bits.Bit(value, bit)
  {
    Bits.BitByMask(value, bit);
  }

  /**
    In numbers: the pixel at (x, y) of a cell with a glyph is white exactly when the binary
    digit of the glyph's line, highest digit leftmost, is 1, and black otherwise; every other
    pixel is black.
   */
  lemma {:induction false} PixelByValue(font: Font, s: Screen, x: nat, y: nat)
    requires FontComplete(font) && Sized(s)
    ensures
      var r, c := y / 16, x / 8;
      var white := r < s.rows && c < s.cols && s.cells[r][c].Glyph?
                   && Bits.Digit(font[s.cells[r][c].ch][y % 16] as nat, 7 - x % 8) == 1;
      PixelColor(font, s, x, y) == if white then Color(255, 255, 255, 0) else Color(0, 0, 0, 0)
  {
    var r, c := y / 16, x / 8;
    if r < s.rows && c < s.cols && s.cells[r][c].Glyph? {
      var line := font[s.cells[r][c].ch][y % 16];
      MaskIsBit(line, 7 - x % 8);
      Bits.BitIsDigit(line, 7 - x % 8);
    }
  }

  /** The whole pixel array for a grid. */
  ghost predicate Renders(pixels: seq<Color>, width: nat, font: Font, s: Screen)
    requires width > 0 && FontComplete(font) && Sized(s)
  {
    forall k :: 0 <= k < |pixels| ==> pixels[k] == PixelColor(font, s, k % width, k / width)
  }

  lemma PixelNumber(x: nat, y: nat, width: nat)
    requires x < width
    ensures (y * width + x) % width == x && (y * width + x) / width == y
  {
    Align.QuotientUnique(y, x, width);
  }

  lemma PixelInBuffer(info: GraphicInfo, pixels: nat, x: nat, y: nat)
    requires Fits(info, pixels) && x < info.HorizontalResolution && y < info.VerticalResolution
    ensures y * info.PixelsPerScanLine + x < info.VerticalResolution * info.PixelsPerScanLine
  {
    var p, v := info.PixelsPerScanLine, info.VerticalResolution;
    assert v * p == y * p + p + (v - 1 - y) * p;
    assert (v - 1 - y) * p >= 0;
  }

  /** Whether pixel number k lies in the cell at (row, col), above line i or on it and left of column j. */
  predicate Drawn(k: nat, width: nat, row: nat, col: nat, i: nat, j: nat)
    requires width > 0
  {
    var x, y := k % width, k / width;
    && y / FONT_HEIGHT == row && x / FONT_WIDTH == col
    && (y % FONT_HEIGHT < i || (y % FONT_HEIGHT == i && x % FONT_WIDTH < j))
  }

  /** The buffer with part of a glyph drawn over it. */
  ghost predicate PartlyDrawn(pixels: seq<Color>, was: seq<Color>, width: nat, font: Font, ch: Char,
                              row: nat, col: nat, i: nat, j: nat)
    requires width > 0 && FontComplete(font) && Visible(ch)
  {
    && |pixels| == |was|
    && forall k :: 0 <= k < |pixels| ==>
         pixels[k] == if Drawn(k, width, row, col, i, j)
                      then GlyphColor(font, ch, (k / width) % FONT_HEIGHT, (k % width) % FONT_WIDTH)
                      else was[k]
  }

  /** One more pixel of the glyph. */
  lemma DrawOne(pixels: seq<Color>, was: seq<Color>, width: nat, font: Font, ch: Char,
                row: nat, col: nat, i: nat, j: nat, at: nat)
    requires width > 0 && FontComplete(font) && Visible(ch) && i < FONT_HEIGHT && j < FONT_WIDTH
    requires PartlyDrawn(pixels, was, width, font, ch, row, col, i, j)
    requires at < |pixels| && at % width == col * FONT_WIDTH + j && at / width == row * FONT_HEIGHT + i
    ensures PartlyDrawn(pixels[at := GlyphColor(font, ch, i, j)], was, width, font, ch, row, col, i, j + 1)
  {
    forall k | 0 <= k < |pixels| && k != at
      ensures Drawn(k, width, row, col, i, j + 1) == Drawn(k, width, row, col, i, j)
    {
      if Drawn(k, width, row, col, i, j + 1) != Drawn(k, width, row, col, i, j) {
        SamePixel(k, at, width, row, col, i, j);
      }
    }
  }

  lemma SamePixel(k: nat, at: nat, width: nat, row: nat, col: nat, i: nat, j: nat)
    requires width > 0 && i < FONT_HEIGHT && j < FONT_WIDTH
    requires at % width == col * FONT_WIDTH + j && at / width == row * FONT_HEIGHT + i
    requires Drawn(k, width, row, col, i, j + 1) != Drawn(k, width, row, col, i, j)
    ensures k == at
  {
    assert k % width == col * FONT_WIDTH + j;
    assert k / width == row * FONT_HEIGHT + i;
    assert k == (k / width) * width + k % width;
    assert at == (at / width) * width + at % width;
  }

  lemma LineDone(pixels: seq<Color>, was: seq<Color>, width: nat, font: Font, ch: Char, row: nat, col: nat, i: nat)
    requires width > 0 && FontComplete(font) && Visible(ch)
    requires PartlyDrawn(pixels, was, width, font, ch, row, col, i, FONT_WIDTH)
    ensures PartlyDrawn(pixels, was, width, font, ch, row, col, i + 1, 0)
  {
    forall k | 0 <= k < |pixels|
      ensures Drawn(k, width, row, col, i + 1, 0) == Drawn(k, width, row, col, i, FONT_WIDTH)
    {
    }
  }

  lemma DrawSized(s: Screen, ch: Char)
    requires Resting(s) && s.col < s.cols && Visible(ch)
    ensures Resting(Draw(s, ch))
  {
  }

  /** Drawing into the grid recolours the pixels of one cell and no other. */
  lemma DrawColor(font: Font, s: Screen, ch: Char, x: nat, y: nat)
    requires FontComplete(font) && Visible(ch) && ch != SPACE
    requires Resting(s) && s.col < s.cols && Sized(Draw(s, ch))
    ensures PixelColor(font, Draw(s, ch), x, y) ==
            if y / FONT_HEIGHT == s.row && x / FONT_WIDTH == s.col
            then GlyphColor(font, ch, y % FONT_HEIGHT, x % FONT_WIDTH)
            else PixelColor(font, s, x, y)
  {
  }

  /** A buffer that renders the grid renders the new grid once the whole glyph is drawn. */
  lemma GlyphRenders(pixels: seq<Color>, was: seq<Color>, width: nat, font: Font, s: Screen, ch: Char)
    requires width > 0 && FontComplete(font) && Visible(ch) && ch != SPACE
    requires Resting(s) && s.col < s.cols && Renders(was, width, font, s)
    requires PartlyDrawn(pixels, was, width, font, ch, s.row, s.col, FONT_HEIGHT, 0)
    ensures Renders(pixels, width, font, Draw(s, ch))
  {
    DrawSized(s, ch);
    forall k | 0 <= k < |pixels|
      ensures pixels[k] == PixelColor(font, Draw(s, ch), k % width, k / width)
    {
      DrawColor(font, s, ch, k % width, k / width);
    }
  }

  lemma BlankColor(font: Font, rows: nat, cols: nat, x: nat, y: nat)
    requires FontComplete(font) && rows >= 1 && cols >= 1
    ensures PixelColor(font, Cleared(rows, cols), x, y) == BACKGROUND
  {
  }

  lemma BlankRenders(pixels: seq<Color>, width: nat, font: Font, rows: nat, cols: nat)
    requires width > 0 && FontComplete(font) && rows >= 1 && cols >= 1
    requires forall k :: 0 <= k < |pixels| ==> pixels[k] == BACKGROUND
    ensures Renders(pixels, width, font, Cleared(rows, cols))
  {
    forall k | 0 <= k < |pixels|
      ensures pixels[k] == PixelColor(font, Cleared(rows, cols), k % width, k / width)
    {
      BlankColor(font, rows, cols, k % width, k / width);
    }
  }

  class KernelConsole {
    const Info: GraphicInfo
    const Glyphs: Font
    const FrameBuffer: array<Color>
    var X: nat
    var Y: nat
    ghost var Grid: Screen

    ghost predicate Setup() {
      Fits(Info, FrameBuffer.Length) && FontComplete(Glyphs)
    }

    /** The grid has as many whole cells as fit, and the cursor is at the grid's cursor. */
    ghost predicate Placed()
      reads this
    {
      && Setup() && Sized(Grid)
      && Grid.rows == Info.VerticalResolution / FONT_HEIGHT && Grid.cols == Info.HorizontalResolution / FONT_WIDTH
      && X == Grid.col * FONT_WIDTH && Y == Grid.row * FONT_HEIGHT
    }

    ghost predicate Shown()
      requires Placed()
      reads this, FrameBuffer
    {
      Renders(FrameBuffer[..], Info.PixelsPerScanLine, Glyphs, Grid)
    }

    ghost predicate Valid()
      reads this, FrameBuffer
    {
      Placed() && Resting(Grid) && Shown()
    }

    constructor (info: GraphicInfo, font: Font, frameBuffer: array<Color>)
      requires Fits(info, frameBuffer.Length) && FontComplete(font)
      modifies frameBuffer
      ensures Valid() && FrameBuffer == frameBuffer && Info == info && Glyphs == font
      ensures Grid == Cleared(info.VerticalResolution / FONT_HEIGHT, info.HorizontalResolution / FONT_WIDTH)
    {
      Info, Glyphs, FrameBuffer := info, font, frameBuffer;
      X, Y := 0, 0;
      Grid := Cleared(info.VerticalResolution / FONT_HEIGHT, info.HorizontalResolution / FONT_WIDTH);
      new;
      Fill();
      BlankRenders(FrameBuffer[..], Info.PixelsPerScanLine, Glyphs, Grid.rows, Grid.cols);
    }

    /** FillMemory over the whole buffer. */
    method Fill()
      modifies FrameBuffer
      ensures forall k :: 0 <= k < FrameBuffer.Length ==> FrameBuffer[k] == BACKGROUND
    {
      for i := 0 to FrameBuffer.Length
        invariant forall k :: 0 <= k < i ==> FrameBuffer[k] == BACKGROUND
      {
        FrameBuffer[i] := Color(0, 0, 0, 0);
      }
    }

    method Reset()
      requires Placed()
      modifies this`X, this`Y, this`Grid, FrameBuffer
      ensures Valid() && Grid == Cleared(old(Grid).rows, old(Grid).cols)
    {
      Fill();
      X, Y := 0, 0;
      Grid := Cleared(Grid.rows, Grid.cols);
      BlankRenders(FrameBuffer[..], Info.PixelsPerScanLine, Glyphs, Grid.rows, Grid.cols);
    }

    method IsNewLineRequired() returns (b: bool)
      requires Placed()
      ensures b <==> Grid.col == Grid.cols
    {
      return X > Info.HorizontalResolution - FONT_WIDTH;
    }

    method IsEndOfScreen() returns (b: bool)
      requires Placed()
      ensures b <==> Grid.row == Grid.rows
    {
      return Y > Info.VerticalResolution - FONT_HEIGHT;
    }

    /** One pixel; points outside the resolution are dropped and the pixel number is 32-bit. */
    method DrawPixel(x: nat, y: nat, color: Color)
      requires Setup()
      modifies FrameBuffer
      ensures x < Info.HorizontalResolution && y < Info.VerticalResolution ==>
                && y * Info.PixelsPerScanLine + x < FrameBuffer.Length
                && FrameBuffer[..] == old(FrameBuffer[..])[y * Info.PixelsPerScanLine + x := color]
      ensures !(x < Info.HorizontalResolution && y < Info.VerticalResolution) ==> FrameBuffer[..] == old(FrameBuffer[..])
    {
      if x >= Info.HorizontalResolution || y >= Info.VerticalResolution {
        return;
      }
      PixelInBuffer(Info, FrameBuffer.Length, x, y);
      var number := (y * Info.PixelsPerScanLine + x) % U32_LIMIT;
      FrameBuffer[number] := color;
    }

    /** The glyph box lies wholly on the screen. */
    lemma BoxOnScreen(i: nat, j: nat)
      requires Placed() && Resting(Grid) && Grid.col < Grid.cols && i < FONT_HEIGHT && j < FONT_WIDTH
      ensures X + j < Info.HorizontalResolution && Y + i < Info.VerticalResolution
      ensures (Y + i) * Info.PixelsPerScanLine + (X + j) < FrameBuffer.Length
    {
      PixelInBuffer(Info, FrameBuffer.Length, X + j, Y + i);
    }

    /** The two loops of PutChar: all 16 by 8 pixels of a glyph, at the cursor. */
    method DrawGlyph(ch: Char)
      requires Valid() && Grid.col < Grid.cols && Visible(ch) && ch != SPACE
      modifies FrameBuffer
      ensures Resting(Draw(Grid, ch))
      ensures Renders(FrameBuffer[..], Info.PixelsPerScanLine, Glyphs, Draw(Grid, ch))
    {
      ghost var was, width := FrameBuffer[..], Info.PixelsPerScanLine;
      for i := 0 to FONT_HEIGHT
        invariant PartlyDrawn(FrameBuffer[..], was, width, Glyphs, ch, Grid.row, Grid.col, i, 0)
      {
        DrawLine(ch, i, was);
        LineDone(FrameBuffer[..], was, width, Glyphs, ch, Grid.row, Grid.col, i);
      }
      DrawSized(Grid, ch);
      GlyphRenders(FrameBuffer[..], was, width, Glyphs, Grid, ch);
    }

    method DrawLine(ch: Char, i: nat, ghost was: seq<Color>)
      requires Placed() && Resting(Grid) && Grid.col < Grid.cols && Visible(ch) && i < FONT_HEIGHT
      requires PartlyDrawn(FrameBuffer[..], was, Info.PixelsPerScanLine, Glyphs, ch, Grid.row, Grid.col, i, 0)
      modifies FrameBuffer
      ensures PartlyDrawn(FrameBuffer[..], was, Info.PixelsPerScanLine, Glyphs, ch, Grid.row, Grid.col, i, FONT_WIDTH)
    {
      for k := 0 to FONT_WIDTH
        invariant PartlyDrawn(FrameBuffer[..], was, Info.PixelsPerScanLine, Glyphs, ch, Grid.row, Grid.col, i, k)
      {
        DrawDot(ch, i, k, was);
      }
    }

    /** One turn of the inner loop. */
    method DrawDot(ch: Char, i: nat, k: nat, ghost was: seq<Color>)
      requires Placed() && Resting(Grid) && Grid.col < Grid.cols && Visible(ch) && i < FONT_HEIGHT && k < FONT_WIDTH
      requires PartlyDrawn(FrameBuffer[..], was, Info.PixelsPerScanLine, Glyphs, ch, Grid.row, Grid.col, i, k)
      modifies FrameBuffer
      ensures PartlyDrawn(FrameBuffer[..], was, Info.PixelsPerScanLine, Glyphs, ch, Grid.row, Grid.col, i, k + 1)
    {
      BoxOnScreen(i, k);
      PixelNumber(X + k, Y + i, Info.PixelsPerScanLine);
      DrawOne(FrameBuffer[..], was, Info.PixelsPerScanLine, Glyphs, ch, Grid.row, Grid.col, i, k,
              (Y + i) * Info.PixelsPerScanLine + (X + k));
      var line := Glyphs[ch][i];
      if line & (1 << (7 - k)) != 0 {
        DrawPixel(X + k, Y + i, FOREGROUND);
      } else {
        DrawPixel(X + k, Y + i, BACKGROUND);
      }
    }

    method ResetAtEnd()
      requires Placed() && Shown()
      modifies this`X, this`Y, this`Grid, FrameBuffer
      ensures Valid() && Grid == Overflow(old(Grid))
    {
      var end := IsEndOfScreen();
      if end {
        Reset();
      }
    }

    /** Before a visible character: a full line is left, and a full screen cleared. */
    method MakeRoom()
      requires Valid()
      modifies this`X, this`Y, this`Grid, FrameBuffer
      ensures Valid() && Grid == Overflow(Wrap(old(Grid))) && Grid.col < Grid.cols
    {
      var newLine := IsNewLineRequired();
      if newLine {
        X := 0;
        Y := Y + FONT_HEIGHT;
        Grid := Wrap(Grid);
      }
      ResetAtEnd();
    }

    method PutVisible(ch: Char)
      requires Valid() && Visible(ch)
      modifies this`X, this`Y, this`Grid, FrameBuffer
      ensures Valid() && Grid == Draw(Overflow(Wrap(old(Grid))), ch)
    {
      MakeRoom();
      if ch == SPACE {
        X := X + FONT_WIDTH;
        Grid := Draw(Grid, ch);
        return;
      }
      DrawGlyph(ch);
      X := X + FONT_WIDTH;
      Grid := Draw(Grid, ch);
    }

    method PutLineBreak()
      requires Valid()
      modifies this`X, this`Y, this`Grid, FrameBuffer
      ensures Valid() && Grid == Overflow(old(Grid).(row := old(Grid).row + 1, col := 0))
    {
      Y := Y + FONT_HEIGHT;
      X := 0;
      Grid := Grid.(row := Grid.row + 1, col := 0);
      ResetAtEnd();
    }

    method PutChar(ch: Char)
      requires Valid()
      modifies this`X, this`Y, this`Grid, FrameBuffer
      ensures Valid() && Grid == Put(old(Grid), ch)
      ensures PutsByCode(old(Grid), ch, Grid)
    {
      PutByCode(Grid, ch);
      if Visible(ch) {
        PutVisible(ch);
      } else if ch == NEWLINE {
        PutLineBreak();
      }
    }

    /** Everything up to the terminating zero. */
    method PutString(str: seq<Char>) returns (length: nat)
      requires Valid() && 0 in str
      modifies this`X, this`Y, this`Grid, FrameBuffer
      ensures length < |str| && str[length] == 0 && 0 !in str[..length]
      ensures Valid() && Grid == PutAll(old(Grid), str[..length])
    {
      length := 0;
      while str[length] != 0
        invariant length < |str| && 0 !in str[..length]
        decreases |str| - length
        invariant Valid() && Grid == PutAll(old(Grid), str[..length])
      {
        assert str[..length + 1][..length] == str[..length];
        PutChar(str[length]);
        length := length + 1;
      }
    }

    method Flush()
      requires Valid()
      modifies this`X, this`Y, this`Grid, FrameBuffer
      ensures Valid() && Grid == Put(old(Grid), NEWLINE) && EndsLine(old(Grid), Grid)
    {
      PutChar(NEWLINE);
    }
  }
}
