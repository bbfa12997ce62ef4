/** `IlludGUI` of src/illud.py as a class: the buffer, the cursor, the
    window's top row, the mode and the exit flag, updated in place by the
    key handlers, the clamp of `main` and the scroll search of `drawText`.
    Each method is proved against the value-level functions of `Display`
    and `Session`. */
module Editor {
  import opened Common
  import opened Lines
  import opened LineBuffer
  import opened Display
  import opened Session

  /** `getNumWrappedLines(n, width)`: at least one row, one for an empty
      line, and otherwise the display form's length divided by the width,
      rounded up; it is the row's entry in the counts. */
  method RowsOfLine(lines: seq<string>, n: nat, width: nat, ghost counts: seq<nat>) returns (k: nat)
    requires n < |lines| && width >= 1
    requires CountsOf(counts, lines, width)
    ensures k == counts[n]
    ensures k >= 1 && (lines[n] == [] ==> k == 1)
    ensures lines[n] != [] ==> k == (|ConvertNonPrinting(lines[n])| + width - 1) / width
  {
    k := NumWrapped(lines, n, width);
    if lines[n] != [] {
      NumWrappedCount(lines, n, width);
    }
  }

  /** The sum of `getNumWrappedLines(n, width)` over the rows `lo` up to
      `hi`, read through the counts it agrees with. */
  method RowsOfSpan(lines: seq<string>, lo: nat, hi: nat, width: nat, ghost counts: seq<nat>) returns (k: nat)
    requires lo <= hi <= |lines| && width >= 1
    requires CountsOf(counts, lines, width)
    ensures k == RowSpan(counts, lo, hi)
  {
    k := SpanRows(lines, lo, hi, width);
    SpanRowsIsRowSpan(lines, lo, hi, width, counts);
  }

  class Illud {
    var buf: Buffer
    var row: int
    var col: int
    var scrollTop: int
    var mode: Mode
    var exitEditor: bool

    /** The buffer keeps its invariant and the window starts on a row. */
    ghost predicate Valid()
      reads this, buf
    {
      buf.Valid() && scrollTop >= 0
    }

    /** The state a key acts on, as a value. */
    function Current(): (s: EditorState)
      reads this, buf
      ensures s.lines == buf.lines && s.row == row && s.col == col
      ensures s.mode == mode && s.exitEditor == exitEditor
    {
      EditorState(buf.lines, row, col, mode, exitEditor)
    }

    /** `IlludGUI.__init__` on the text the file held (`''` without one). */
    constructor (text: string)
      ensures Valid() && fresh(buf)
      ensures Current() == Initial(text) && scrollTop == 0
    {
      buf := new Buffer(text);
      row, col, scrollTop := 0, 0, 0;
      mode := Navigation;
      exitEditor := false;
    }

    // -------------------------------------------------------------------
    // Scrolling

    /** `scrollBottomToTop(bottom, width, height)`: walk the top row up
        while the rows down to `bottom` fit, then check with `verify`;
        `None` is its failed assertion. `counts` names the rows' counts
        for the proof. */
    method ScrollBottomToTop(bottom: nat, width: nat, height: int, ghost counts: seq<nat>) returns (r: Option<nat>)
      requires Valid() && bottom < |buf.lines| && width >= 1
      requires CountsOf(counts, buf.lines, width) && Positive(counts)
      ensures r == LowestTop(counts, height, bottom)
    {
      var lines := buf.GetLines();
      var top: nat, nextTop: int := bottom, bottom;
      var distance := RowsOfLine(lines, bottom, width, counts);
      assert distance == RowSpan(counts, bottom, bottom + 1);
      while nextTop >= 0 && distance <= height
        invariant -1 <= nextTop <= bottom && top <= bottom
        invariant nextTop >= 0 ==> distance == RowSpan(counts, nextTop, bottom + 1)
        invariant (top == bottom && nextTop == bottom) || (nextTop == top - 1 && Shows(counts, height, top, bottom))
        decreases nextTop + 1
      {
        top := nextTop;
        nextTop := nextTop - 1;
        var more := RowsOfLine(lines, Max(0, nextTop), width, counts);
        distance := distance + more;
        if nextTop >= 0 {
          assert RowSpan(counts, nextTop, bottom + 1) == counts[nextTop] + RowSpan(counts, top, bottom + 1);
        }
      }
      // verify(top)
      var numRows := RowsOfSpan(lines, top, bottom + 1, width, counts);
      if numRows > height {
        assert top == bottom;
        return None;
      }
      assert top == 0 || !Shows(counts, height, top - 1, bottom) by {
        if nextTop >= 0 {
          assert nextTop == top - 1 && distance > height;
        }
      }
      LowestTopUnique(counts, height, bottom, top);
      return Some(top);
    }

    /** `scrollTo(lineNum, width, rowHeight)`: the scroll rule applied to
        the window's top row; `false` when `scrollBottomToTop` fails, with
        the top row left alone. */
    method ScrollTo(lineNum: nat, width: nat, rowHeight: int, ghost counts: seq<nat>) returns (ok: bool)
      requires Valid() && lineNum < |buf.lines| && width >= 1
      requires CountsOf(counts, buf.lines, width) && Positive(counts)
      modifies this
      ensures Valid()
      ensures buf == old(buf) && Current() == old(Current())
      ensures var lowest := LowestTop(counts, rowHeight, lineNum);
        && ok == lowest.Some?
        && (ok ==> scrollTop == ScrollRule(lineNum, old(scrollTop), lowest.value))
        && (!ok ==> scrollTop == old(scrollTop))
    {
      var lowest := ScrollBottomToTop(lineNum, width, rowHeight, counts);
      if lowest.None? {
        return false;
      }
      if lineNum < scrollTop {
        scrollTop := lineNum;
      } else if scrollTop < lowest.value {
        scrollTop := lowest.value;
      }
      return true;
    }

    /** The row walk and cursor arithmetic of `drawText(left, top, width,
        height)`. After scrolling, the lines from the top row on are laid
        out greedily while they fit; the cursor row is always among them,
        and the cursor lands at the display offset of its column, divided
        into a segment and a column by the line width. `counts` names
        the rows' counts at the text width for the proof. */
    method DrawText(left: int, top: int, width: int, height: int, ghost counts: seq<nat>)
      returns (ok: bool, cursorY: int, cursorX: int, drawnEnd: nat)
      requires Valid() && Resting(Current())
      requires width - GutterWidth(|buf.lines|) >= 1
      requires CountsOf(counts, buf.lines, width - GutterWidth(|buf.lines|)) && Positive(counts)
      modifies this
      ensures Valid() && buf == old(buf) && Current() == old(Current())
      ensures var gutter := GutterWidth(|buf.lines|);
        var lineWidth := width - gutter;
        var lowest := LowestTop(counts, height, row);
        var realCol := RealCol(buf.lines[row], col);
        && ok == lowest.Some?
        && (!ok ==> scrollTop == old(scrollTop))
        && (ok ==> scrollTop == ScrollRule(row, old(scrollTop), lowest.value))
        && (ok ==> scrollTop <= row < drawnEnd <= |buf.lines|)
        && (ok ==> RowSpan(counts, scrollTop, drawnEnd) <= height)
        && (ok && drawnEnd < |buf.lines| ==> RowSpan(counts, scrollTop, drawnEnd + 1) > height)
        && (ok ==> cursorY == top + RowSpan(counts, scrollTop, row) + realCol / lineWidth)
        && (ok ==> cursorX == left + gutter + realCol % lineWidth)
        && (ok ==> left + gutter <= cursorX < left + width)
    {
      var lines := buf.GetLines();
      var highestLineNum := |lines|;
      var gutterWidth := Max(3, Digits(highestLineNum)) + 1;
      var lineWidth: nat := width - gutterWidth;
      cursorY, cursorX := 0, 0;
      drawnEnd := 0;
      ok := ScrollTo(row, lineWidth, height, counts);
      if !ok {
        return;
      }
      ScrollRuleShows(counts, height, row, old(scrollTop));
      assert buf.lines == lines && gutterWidth == GutterWidth(|lines|);
      cursorY, cursorX, drawnEnd := LayOutRows(lines, scrollTop, top, height, left, gutterWidth, lineWidth, row, col, counts);
      assert gutterWidth + lineWidth == width;
    }

    // -------------------------------------------------------------------
    // Word motions

    /** `nextWord()`: over the rest of the word, then over the blanks. */
    method NextWord()
      requires Valid() && 0 <= row < |buf.lines| && col >= 0
      modifies this
      ensures Valid() && buf == old(buf)
      ensures Current() == old(Current()).(col := NextWordCol(old(buf.lines[row]), old(col)))
      ensures scrollTop == old(scrollTop)
    {
      var line := buf.GetLines()[row];
      while col < |line|
        invariant buf == old(buf) && row == old(row) && mode == old(mode)
        invariant exitEditor == old(exitEditor) && scrollTop == old(scrollTop)
        invariant old(col) <= col && SkipWord(line, col) == SkipWord(line, old(col))
        decreases |line| - col
      {
        if IsSpace(line[col]) {
          break;
        }
        col := col + 1;
      }
      ghost var afterWord := col;
      while col < |line|
        invariant buf == old(buf) && row == old(row) && mode == old(mode)
        invariant exitEditor == old(exitEditor) && scrollTop == old(scrollTop)
        invariant afterWord <= col && SkipBlanks(line, col) == SkipBlanks(line, afterWord)
        decreases |line| - col
      {
        if !IsSpace(line[col]) {
          break;
        }
        col := col + 1;
      }
    }

    /** `previousWord()`: left to a blank, then left over blanks, with
        Python's negative indices; `false` is the `IndexError` it raises,
        and then the column is where the failing read happened. */
    method PreviousWord() returns (ok: bool)
      requires Valid() && 0 <= row < |buf.lines| && col >= 0
      modifies this
      ensures Valid() && buf == old(buf)
      ensures var line := old(buf.lines[row]); var r := PreviousWordCol(line, old(col));
        && ok == r.Some?
        && Current() == old(Current()).(col := if ok then r.value
                         else if old(col) >= |line| then old(col) else -|line| - 1)
      ensures scrollTop == old(scrollTop)
    {
      var line := buf.GetLines()[row];
      ghost var blank := BackToBlank(line, col);
      while col >= 0
        invariant buf == old(buf) && row == old(row) && mode == old(mode)
        invariant exitEditor == old(exitEditor) && scrollTop == old(scrollTop)
        invariant col <= old(col)
        invariant col < old(col) ==> col < |line|
        invariant BackToBlank(line, col) == blank
        decreases col + 1
      {
        if col >= |line| {
          return false;
        }
        if IsSpace(line[col]) {
          break;
        }
        col := col - 1;
      }
      assert blank == Some(col);
      ghost var afterWord, target := col, BackOverBlanks(line, col);
      while col < |line|
        invariant buf == old(buf) && row == old(row) && mode == old(mode)
        invariant exitEditor == old(exitEditor) && scrollTop == old(scrollTop)
        invariant -|line| - 1 <= col <= afterWord
        invariant BackOverBlanks(line, col) == target
        decreases col + |line| + 1
      {
        if col < -|line| {
          return false;
        }
        if !IsSpace(PyAt(line, col)) {
          break;
        }
        col := col - 1;
      }
      return true;
    }

    // -------------------------------------------------------------------
    // Key handling

    /** `handleNavigationMode(key)` without the file write; `false` is the
        exception `previousWord` raises. */
    method HandleNavigationMode(key: char) returns (ok: bool)
      requires Valid() && Resting(Current())
      modifies this, buf
      ensures Valid() && buf == old(buf) && scrollTop == old(scrollTop)
      ensures var r := NavigationKey(old(Current()), key);
        && ok == r.Some?
        && (ok ==> Current() == r.value)
    {
      ok := true;
      if key == 'q' {
        exitEditor := true;
      } else if key == 'k' {
        row := row + 1;
      } else if key == 'i' {
        row := row - 1;
      } else if key == 'j' {
        col := col - 1;
      } else if key == 'l' {
        col := col + 1;
      } else if key == 's' {
        col := 0;
      } else if key == 'e' {
        var currentLineLen := |buf.GetLines()[row]|;
        col := currentLineLen - 1;
      } else if key == 'o' {
        NextWord();
      } else if key == 'u' {
        ok := PreviousWord();
      } else if key == 'x' {
        buf.SetText(row, col, row, col + 1, "");
      } else if key == 'f' {
        mode := Insert;
      } else if key == 'a' {
        mode := Insert;
        col := col + 1;
      }
    }

    /** `handleInsertMode(key)`. */
    method HandleInsertMode(key: char)
      requires Valid() && Resting(Current())
      modifies this, buf
      ensures Valid() && buf == old(buf) && scrollTop == old(scrollTop)
      ensures Current() == InsertKey(old(Current()), key)
    {
      if key == Escape {
        if mode == Insert {
          col := col - 1;
        }
        mode := Navigation;
      } else if key == Delete || key == Backspace {
        if col == 0 && row == 0 {
        } else if col == 0 {
          var prevLine := buf.GetLines()[row - 1];
          var curLine := buf.GetLines()[row];
          buf.SetText(row - 1, 0, row, |curLine|, prevLine + curLine);
          col := |prevLine|;
          row := row - 1;
        } else {
          buf.SetText(row, col - 1, row, col, "");
          col := col - 1;
        }
      } else {
        buf.SetText(row, col, row, col, [key]);
        if key == '\n' {
          row := row + 1;
          col := 0;
        } else {
          col := col + 1;
        }
      }
    }

    /** The clamp at the end of each iteration of `main`. */
    method ClampCursor()
      requires Valid()
      modifies this
      ensures Valid() && buf == old(buf) && scrollTop == old(scrollTop)
      ensures Current() == Clamp(old(Current()))
      ensures Resting(Current())
    {
      var numLines := |buf.GetLines()|;
      row := Min(numLines - 1, Max(0, row));
      var numCols := Max(1, |buf.GetLines()[row]|);
      if mode == Insert {
        numCols := numCols + 1;
      }
      col := Min(numCols - 1, Max(0, col));
      ClampNearest(old(Current()));
    }

    /** The key handling of one iteration of `main`: the handler of the
        current mode, then the clamp. */
    method HandleKey(key: char) returns (ok: bool)
      requires Valid() && Resting(Current())
      modifies this, buf
      ensures Valid() && buf == old(buf) && scrollTop == old(scrollTop)
      ensures var r := Session.Step(old(Current()), key);
        && ok == r.Some?
        && (ok ==> Current() == r.value && Resting(Current()))
    {
      if mode == Navigation {
        ok := HandleNavigationMode(key);
      } else {
        HandleInsertMode(key);
        ok := true;
      }
      if ok {
        ClampCursor();
      }
    }

    /** One iteration of `main` on a terminal of `width` by `height`
        cells: draw the text above the status line, then handle `key`.
        `false` is an exception that ends the editor. */
    method Iteration(width: int, height: int, key: char, ghost counts: seq<nat>) returns (ok: bool)
      requires Valid() && Resting(Current())
      requires width - GutterWidth(|buf.lines|) >= 1
      requires CountsOf(counts, buf.lines, width - GutterWidth(|buf.lines|)) && Positive(counts)
      modifies this, buf
      ensures Valid() && buf == old(buf)
      ensures var lowest := LowestTop(counts, height - 1, old(row));
        && (lowest.None? ==> !ok && Current() == old(Current()) && scrollTop == old(scrollTop))
        && (lowest.Some? ==> ok == Session.Step(old(Current()), key).Some?)
        && (lowest.Some? ==> scrollTop == ScrollRule(old(row), old(scrollTop), lowest.value))
        && (ok ==> Current() == Session.Step(old(Current()), key).value && Resting(Current()))
    {
      var drawn, cursorY, cursorX, drawnEnd := DrawText(0, 0, width, height - 1, counts);
      if !drawn {
        return false;
      }
      ok := HandleKey(key);
    }
  }

  /** The cursor's display offset on its line, read from the line's raw
      segments joined again. */
  method CursorOffset(lines: seq<string>, n: nat, width: nat, col: nat) returns (offset: nat)
    requires n < |lines| && width >= 1
    ensures offset == RealCol(lines[n], col)
  {
    var raw := WrappedLines(lines, n, width, false);
    offset := RealCol(Concat(raw), col);
  }

  /** What the row walk learns from the next line's count: it adds to the
      rows used, it is at least one, and up to the cursor row the rows
      still fit. */
  lemma NextLineRows(counts: seq<nat>, height: int, first: nat, lineNum: nat, cursorRow: nat)
    requires first <= lineNum < |counts| && cursorRow < |counts| && Positive(counts)
    requires Shows(counts, height, first, cursorRow)
    ensures RowSpan(counts, first, lineNum + 1) == RowSpan(counts, first, lineNum) + counts[lineNum]
    ensures counts[lineNum] >= 1
    ensures lineNum <= cursorRow ==> RowSpan(counts, first, lineNum + 1) <= height
  {
    if lineNum <= cursorRow {
      RowSpanSplit(counts, first, lineNum + 1, cursorRow + 1);
    }
    RowSpanGrow(counts, first, lineNum);
  }

  /** The row walk of `drawText`: from the window's top row `first`, each
      line's screen rows are laid out while they fit in the `height` rows
      starting at screen row `top`; the walk stops at the end of the
      document, when no rows remain, or before a line that does not fit.
      On the cursor's line the cursor is placed at the display offset of
      its column, split into a segment and a column by the line width. */
  method LayOutRows(lines: seq<string>, first: nat, top: int, height: int, left: int,
                    gutterWidth: int, lineWidth: nat, cursorRow: nat, cursorCol: nat,
                    ghost counts: seq<nat>)
    returns (cursorY: int, cursorX: int, drawnEnd: nat)
    requires lineWidth >= 1 && cursorRow < |lines|
    requires CountsOf(counts, lines, lineWidth) && Positive(counts)
    requires Shows(counts, height, first, cursorRow)
    ensures first <= cursorRow < drawnEnd <= |lines|
    ensures RowSpan(counts, first, drawnEnd) <= height
    ensures drawnEnd < |lines| ==> RowSpan(counts, first, drawnEnd + 1) > height
    ensures var realCol := RealCol(lines[cursorRow], cursorCol);
      && cursorY == top + RowSpan(counts, first, cursorRow) + realCol / lineWidth
      && cursorX == left + gutterWidth + realCol % lineWidth
    ensures left + gutterWidth <= cursorX < left + gutterWidth + lineWidth
  {
    cursorY, cursorX := 0, 0;
    ghost var realCol := RealCol(lines[cursorRow], cursorCol);
    var highestLineNum := |lines|;
    var lineNum: nat := first;
    var currentY := top;
    while lineNum < highestLineNum
      invariant first <= lineNum <= highestLineNum
      invariant currentY == top + RowSpan(counts, first, lineNum)
      invariant RowSpan(counts, first, lineNum) <= height
      invariant cursorRow < lineNum ==> cursorY == top + RowSpan(counts, first, cursorRow) + realCol / lineWidth
      invariant cursorRow < lineNum ==> cursorX == left + gutterWidth + realCol % lineWidth
      decreases highestLineNum - lineNum
    {
      var remainingRows := top + height - currentY;
      NextLineRows(counts, height, first, lineNum, cursorRow);
      if remainingRows == 0 {
        break;
      }
      var wrappedLines := WrappedLines(lines, lineNum, lineWidth, true);
      assert |wrappedLines| == counts[lineNum] by {
        assert counts[lineNum] == NumWrapped(lines, lineNum, lineWidth);
      }
      if |wrappedLines| > remainingRows {
        break;
      }
      if lineNum == cursorRow {
        var offset := CursorOffset(lines, lineNum, lineWidth, cursorCol);
        cursorY := currentY + offset / lineWidth;
        cursorX := left + gutterWidth + offset % lineWidth;
      }
      ghost var startY := currentY;
      var n := 0;
      while n < |wrappedLines|
        invariant 0 <= n <= |wrappedLines|
        invariant currentY == startY + n
      {
        currentY := currentY + 1;
        n := n + 1;
      }
      lineNum := lineNum + 1;
    }
    drawnEnd := lineNum;
  }
}
