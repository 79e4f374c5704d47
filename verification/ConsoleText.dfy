/**
  What the screen shows after arbitrary text, line breaks and other control characters included:
  a line break is as good as filling the rest of its line with spaces, and every other control
  character is as good as absent.
 */
module ConsoleText {
  import opened ConsoleGrid

  function Spaces(n: nat): (s: seq<Char>)
    ensures |s| == n && forall i :: 0 <= i < n ==> s[i] == 32
  {
    if n == 0 then [] else Spaces(n - 1) + [SPACE]
  }

  /** The column behind the text on lines of `cols` cells; a full line is left late. */
  function Column(text: seq<Char>, cols: nat): (col: nat)
    requires cols >= 1
    ensures col <= cols
  {
    if text == [] then 0
    else
      var before, ch := Column(text[..|text| - 1], cols), text[|text| - 1];
      if 0x1A <= ch <= 0x7E then (if before == cols then 1 else before + 1)
      else if ch == 10 then 0
      else before
  }

  /** The text with every line break replaced by the spaces that fill its line. */
  function Expand(text: seq<Char>, cols: nat): (plain: seq<Char>)
    requires cols >= 1
    ensures AllVisible(plain)
  {
    if text == [] then []
    else
      var before, ch := text[..|text| - 1], text[|text| - 1];
      if 0x1A <= ch <= 0x7E then Expand(before, cols) + [ch]
      else if ch == 10 then Expand(before, cols) + Spaces(cols - Column(before, cols))
      else Expand(before, cols)
  }

  /** The same screen, except that one may already have left the full line the other still stands on. */
  ghost predicate Alike(s: Screen, plain: Screen) {
    Resting(s) && Resting(plain) && (s == plain || (plain.col == plain.cols && s == Overflow(Wrap(plain))))
  }

  /** The difference is gone with the next visible character. */
  lemma VisibleMeets(s: Screen, plain: Screen, ch: Char)
    requires Alike(s, plain) && Visible(ch)
    ensures Put(s, ch) == Put(plain, ch)
  {
  }

  lemma {:induction false} SpacesAdvance(s: Screen, n: nat)
    requires Resting(s) && n >= 1 && Overflow(Wrap(s)).col + n <= s.cols
    ensures PutAll(s, Spaces(n)) == Overflow(Wrap(s)).(col := Overflow(Wrap(s)).col + n)
    decreases n
  {
    var before := Spaces(n)[..n - 1];
    assert before == Spaces(n - 1);
    if n == 1 {
      assert PutAll(s, before) == s;
    } else {
      SpacesAdvance(s, n - 1);
    }
  }

  lemma {:induction false} BreakIsWrap(s: Screen)
    requires Resting(s)
    ensures Resting(s.(col := s.cols)) && Put(s, NEWLINE) == Overflow(Wrap(s.(col := s.cols)))
  {
  }

  lemma {:induction false} AlikeMeets(s: Screen, plain: Screen)
    requires Alike(s, plain)
    ensures s.col < s.cols ==> Overflow(Wrap(plain)) == s
    ensures s.col == s.cols ==> plain == s
  {
  }

  /** A line break against the spaces that fill the line. */
  lemma {:induction false} BreakIsFill(s: Screen, plain: Screen)
    requires Alike(s, plain)
    ensures Alike(Put(s, NEWLINE), PutAll(plain, Spaces(s.cols - s.col)))
  {
    BreakIsWrap(s);
    AlikeMeets(s, plain);
    if s.col < s.cols {
      SpacesAdvance(plain, s.cols - s.col);
    }
    assert PutAll(plain, Spaces(s.cols - s.col)) == s.(col := s.cols);
  }

  lemma {:induction false} AppendChar(s: Screen, text: seq<Char>, ch: Char)
    requires Resting(s)
    ensures PutAll(s, text + [ch]) == Put(PutAll(s, text), ch)
  {
    assert (text + [ch])[..|text|] == text;
  }

  lemma {:induction false} ExpandNext(start: Screen, s: Screen, plain: seq<Char>, ch: Char)
    requires Resting(start) && Alike(s, PutAll(start, plain))
    ensures Visible(ch) ==> Put(s, ch) == PutAll(start, plain + [ch])
    ensures ch == NEWLINE ==> Alike(Put(s, ch), PutAll(start, plain + Spaces(s.cols - s.col)))
  {
    if Visible(ch) {
      VisibleMeets(s, PutAll(start, plain), ch);
      AppendChar(start, plain, ch);
    } else if ch == NEWLINE {
      BreakIsFill(s, PutAll(start, plain));
      PutAllConcat(start, plain, Spaces(s.cols - s.col));
    }
  }

  lemma PutColumn(s: Screen, ch: Char)
    requires Resting(s)
    ensures Put(s, ch).col == if Visible(ch) then (if s.col == s.cols then 1 else s.col + 1) else if ch == NEWLINE then 0 else s.col
  {
  }

  lemma {:induction false} ExpandAppend(before: seq<Char>, ch: Char, cols: nat)
    requires cols >= 1
    ensures Expand(before + [ch], cols) ==
            if Visible(ch) then Expand(before, cols) + [ch]
            else if ch == NEWLINE then Expand(before, cols) + Spaces(cols - Column(before, cols))
            else Expand(before, cols)
    ensures Column(before + [ch], cols) ==
            if Visible(ch) then (if Column(before, cols) == cols then 1 else Column(before, cols) + 1)
            else if ch == NEWLINE then 0
            else Column(before, cols)
  {
    assert (before + [ch])[..|before|] == before;
  }

  /** The screen s after a text stands at the text's column and looks like the expansion. */
  ghost predicate Follows(start: Screen, s: Screen, text: seq<Char>)
    requires Resting(start)
  {
    s.cols == start.cols && s.col == Column(text, start.cols) && Alike(s, PutAll(start, Expand(text, start.cols)))
  }

  lemma {:induction false} FollowsNext(start: Screen, s: Screen, text: seq<Char>, ch: Char)
    requires Resting(start) && Follows(start, s, text)
    ensures Follows(start, Put(s, ch), text + [ch])
  {
    PutColumn(s, ch);
    ExpandAppend(text, ch, start.cols);
    ExpandNext(start, s, Expand(text, start.cols), ch);
  }

  lemma {:induction false} FollowsAll(start: Screen, text: seq<Char>)
    requires Resting(start) && start.col == 0
    ensures Follows(start, PutAll(start, text), text)
    decreases |text|
  {
    if text != [] {
      var before, ch := text[..|text| - 1], text[|text| - 1];
      FollowsAll(start, before);
      FollowsNext(start, PutAll(start, before), before, ch);
      assert before + [ch] == text;
    }
  }

  /** Arbitrary text looks like its expansion, and its column does not depend on the height of the screen. */
  lemma {:induction false} ExpansionAlike(rows: nat, cols: nat, text: seq<Char>)
    requires rows >= 1 && cols >= 1
    ensures PutAll(Cleared(rows, cols), text).col == Column(text, cols)
    ensures Alike(PutAll(Cleared(rows, cols), text), PutAll(Cleared(rows, cols), Expand(text, cols)))
  {
    FollowsAll(Cleared(rows, cols), text);
  }

  /** After any text that ends in a visible character the screen shows the last page of the expansion, line by line. */
  lemma AnyTextLayout(rows: nat, cols: nat, text: seq<Char>)
    requires rows >= 1 && cols >= 1 && text != [] && 0x1A <= text[|text| - 1] <= 0x7E
    ensures rows * cols >= 1
    ensures Shows(PutAll(Cleared(rows, cols), text), OnScreen(Expand(text, cols), rows * cols))
  {
    var before, ch := text[..|text| - 1], text[|text| - 1];
    ExpansionAlike(rows, cols, before);
    var start := Cleared(rows, cols);
    ExpandNext(start, PutAll(start, before), Expand(before, cols), ch);
    TextLayout(rows, cols, Expand(text, cols));
  }
}
