/** One step of the editor session in src/illud.py, on values: the cursor
    and mode as `IlludGUI` holds them, the word motions `nextWord` and
    `previousWord`, the two key handlers and the clamp that ends every
    iteration of `main`. The imperative `Editor.Illud` class is proved
    against these functions. */
module Session {
  import opened Common
  import opened Lines
  import opened LineBuffer

  datatype Mode = Navigation | Insert

  /** The part of `IlludGUI` a key changes: the buffer's lines, the
      cursor, the mode and the exit flag. */
  datatype EditorState = EditorState(lines: seq<string>, row: int, col: int, mode: Mode, exitEditor: bool)

  /** The state right after `IlludGUI.__init__` on a text. */
  function Initial(text: string): (s: EditorState)
  {
    EditorState(Split(text), 0, 0, Navigation, false)
  }

  // ---------------------------------------------------------------------
  // Characters and key codes

  /** Python 3's `str.isspace` on one character. */
  predicate IsSpace(c: char)
  {
    var i := c as int;
    (9 <= i <= 13) || (28 <= i <= 32) || i == 0x85 || i == 0xA0 || i == 0x1680
    || (0x2000 <= i <= 0x200A) || i == 0x2028 || i == 0x2029 || i == 0x202F
    || i == 0x205F || i == 0x3000
  }

  const Escape: char := 27 as char
  const Backspace: char := 8 as char
  const Delete: char := 127 as char

  // ---------------------------------------------------------------------
  // nextWord

  /** The first loop of `nextWord`: the first blank at or after `col`, or
      the end of the line. */
  function SkipWord(line: string, col: nat): (r: nat)
    ensures col <= r && (r == col || r <= |line|)
    ensures forall i :: col <= i < r ==> i < |line| && !IsSpace(line[i])
    ensures r < |line| ==> IsSpace(line[r])
    decreases |line| - col
  {
    if col >= |line| || IsSpace(line[col]) then col else SkipWord(line, col + 1)
  }

  /** The second loop of `nextWord`: the first non-blank at or after
      `col`, or the end of the line. */
  function SkipBlanks(line: string, col: nat): (r: nat)
    ensures col <= r && (r == col || r <= |line|)
    ensures forall i :: col <= i < r ==> i < |line| && IsSpace(line[i])
    ensures r < |line| ==> !IsSpace(line[r])
    decreases |line| - col
  {
    if col >= |line| || !IsSpace(line[col]) then col else SkipBlanks(line, col + 1)
  }

  /** The column `nextWord` leaves the cursor at. */
  function NextWordCol(line: string, col: nat): nat
  {
    SkipBlanks(line, SkipWord(line, col))
  }

  /** Position `j` ends a word that starts after `col`: it is not blank
      and it is followed by a blank, both within the line, and that blank
      is beyond `col`. */
  predicate WordStartAfter(line: string, col: int, j: int)
  {
    0 <= col < j < |line| && !IsSpace(line[j]) && IsSpace(line[j - 1])
  }

  /** From inside the line, `nextWord` moves to the first word start after
      the cursor, or to the end of the line when there is none. */
  lemma NextWordFindsWordStart(line: string, col: nat)
    requires col < |line|
    ensures var r := NextWordCol(line, col);
      && col < r <= |line|
      && (r < |line| ==> WordStartAfter(line, col, r))
      && (forall j :: col < j < r ==> !WordStartAfter(line, col, j))
  {
    var w := SkipWord(line, col);
    var r := SkipBlanks(line, w);
    if w == col {
      assert IsSpace(line[col]);
    }
    forall j | col < j < r
      ensures !WordStartAfter(line, col, j)
    {
      if j < w {
        assert !IsSpace(line[j - 1]) by { assert col <= j - 1 < w; }
      } else {
        assert IsSpace(line[j]);
      }
    }
    if r < |line| {
      assert !IsSpace(line[r]);
      assert IsSpace(line[r - 1]);
    }
  }

  // ---------------------------------------------------------------------
  // previousWord

  /** The first loop of `previousWord`: walk left to a blank, stopping at
      `-1`. The loop reads `line[col]` first, so a column at or past the
      end raises `IndexError` (`None`). */
  function BackToBlank(line: string, col: int): (r: Option<int>)
    ensures r.None? <==> col >= |line|
    ensures r.Some? && col < 0 ==> r.value == col
    ensures r.Some? && col >= 0 ==> -1 <= r.value <= col
    ensures r.Some? && r.value >= 0 ==> IsSpace(line[r.value])
    decreases if col < 0 then 0 else col + 1
  {
    if col < 0 then Some(col)
    else if col >= |line| then None
    else if IsSpace(line[col]) then Some(col)
    else BackToBlank(line, col - 1)
  }

  /** Every character the walk to a blank passes over is a non-blank
      character of the line. */
  lemma {:induction false} BackToBlankSkips(line: string, col: int)
    ensures var r := BackToBlank(line, col);
      r.Some? ==> forall i :: r.value < i <= col ==> 0 <= i < |line| && !IsSpace(line[i])
    decreases if col < 0 then 0 else col + 1
  {
    if 0 <= col < |line| && !IsSpace(line[col]) {
      BackToBlankSkips(line, col - 1);
    }
  }

  /** The second loop of `previousWord`: walk left over blanks. Python's
      negative indices make `line[-1]` the last character, so from `-1`
      the walk continues from the end of the line; it raises `IndexError`
      (`None`) once it passes `-len(line)`. */
  function BackOverBlanks(line: string, col: int): (r: Option<int>)
    ensures r.None? ==> col < |line|
    ensures r.Some? && col >= |line| ==> r.value == col
    ensures r.Some? && col < |line| ==> -|line| <= r.value <= col && !IsSpace(PyAt(line, r.value))
    decreases col + |line| + 1
  {
    if col >= |line| then Some(col)
    else if col < -|line| then None
    else if !IsSpace(PyAt(line, col)) then Some(col)
    else BackOverBlanks(line, col - 1)
  }

  /** The walk over blanks raises exactly when every position from
      `-len(line)` up to its start is blank, and every position it passes
      over is blank. */
  lemma {:induction false} BackOverBlanksSkips(line: string, col: int)
    ensures var r := BackOverBlanks(line, col);
      && (r.None? <==> col < |line| && forall i :: -|line| <= i <= col ==> IsSpace(PyAt(line, i)))
      && (r.Some? ==> forall i :: r.value < i <= col && i < |line| ==> IsSpace(PyAt(line, i)))
    decreases col + |line| + 1
  {
    if -|line| <= col < |line| && IsSpace(PyAt(line, col)) {
      BackOverBlanksSkips(line, col - 1);
    }
  }

  /** The column `previousWord` leaves the cursor at, or `None` for the
      `IndexError` it raises. */
  function PreviousWordCol(line: string, col: int): Option<int>
  {
    match BackToBlank(line, col)
    case None => None
    case Some(p) => BackOverBlanks(line, p)
  }

  /** Every character of the line is blank (vacuously so when it is empty). */
  predicate AllBlank(line: string)
  {
    forall i :: 0 <= i < |line| ==> IsSpace(line[i])
  }

  /** From a non-negative column, `previousWord` raises exactly when the
      column is not on a character or the whole line is blank. */
  lemma PreviousWordFails(line: string, col: nat)
    ensures PreviousWordCol(line, col).None? <==> col >= |line| || AllBlank(line)
  {
    if col < |line| {
      var p := BackToBlank(line, col).value;
      BackToBlankSkips(line, col);
      BackOverBlanksSkips(line, p);
      if p < 0 {
        assert !IsSpace(line[0]);
        assert !IsSpace(PyAt(line, -|line|));
        assert BackOverBlanks(line, p).Some?;
      } else if AllBlank(line) {
        forall i | -|line| <= i <= p ensures IsSpace(PyAt(line, i)) {
          assert IsSpace(line[if i >= 0 then i else |line| + i]);
        }
      } else {
        var k :| 0 <= k < |line| && !IsSpace(line[k]);
        assert !IsSpace(PyAt(line, k - |line|));
      }
    }
  }

  /** Position `j` ends a word that lies before the blank in front of
      `col`: it is not blank and the next position, at most `col`, is. */
  predicate WordEndBefore(line: string, col: int, j: int)
  {
    0 <= j && j + 1 <= col && col < |line| && !IsSpace(line[j]) && IsSpace(line[j + 1])
  }

  /** From a character of the line, `previousWord` lands on the last word
      end before the cursor's word. When there is none the result is
      negative, which the clamp turns into column 0. */
  lemma PreviousWordFindsWordEnd(line: string, col: nat)
    requires col < |line| && !AllBlank(line)
    ensures PreviousWordCol(line, col).Some?
    ensures var r := PreviousWordCol(line, col).value;
      && r < col
      && (r >= 0 ==> WordEndBefore(line, col, r))
      && (forall j :: Max(r, -1) < j < col ==> !WordEndBefore(line, col, j))
  {
    PreviousWordFails(line, col);
    var p := BackToBlank(line, col).value;
    var r := PreviousWordCol(line, col).value;
    BackToBlankSkips(line, col);
    BackOverBlanksSkips(line, p);
    if p >= 0 {
      assert r < p;
      if r >= 0 {
        assert PyAt(line, r) == line[r];
        assert IsSpace(PyAt(line, r + 1));
      }
      forall j | Max(r, -1) < j < col ensures !WordEndBefore(line, col, j) {
        if j < p {
          assert PyAt(line, j) == line[j];
        } else if j + 1 <= col {
          assert !IsSpace(line[j + 1]);
        }
      }
    } else {
      assert p == -1;
      forall j | -1 < j < col ensures !WordEndBefore(line, col, j) {
        assert !IsSpace(line[j + 1]);
      }
    }
  }

  // ---------------------------------------------------------------------
  // The state between two keys

  /** `numCols` of `main`'s clamp: a line offers its characters, at least
      one column, and one more past the end in Insert mode. */
  function NumCols(lines: seq<string>, row: int, mode: Mode): (n: int)
    requires 0 <= row < |lines|
    ensures n >= 1
    ensures n >= |lines[row]| + (if mode == Insert then 1 else 0)
  {
    Max(1, |lines[row]|) + (if mode == Insert then 1 else 0)
  }

  /** What the clamp establishes and the buffer keeps: at least one line,
      none holding a newline, the row on a line and the column within
      `NumCols`. Every key is handled in such a state. */
  predicate Resting(s: EditorState)
  {
    |s.lines| >= 1 && NoNewlines(s.lines)
    && 0 <= s.row < |s.lines| && 0 <= s.col < NumCols(s.lines, s.row, s.mode)
  }

  /** The clamp at the end of each iteration of `main`. */
  function Clamp(s: EditorState): (r: EditorState)
    requires |s.lines| >= 1
    ensures r.lines == s.lines && r.mode == s.mode && r.exitEditor == s.exitEditor
  {
    var row := Min(|s.lines| - 1, Max(0, s.row));
    var numCols := NumCols(s.lines, row, s.mode);
    s.(row := row, col := Min(numCols - 1, Max(0, s.col)))
  }

  /** The clamp moves the row to the nearest line and then the column to
      the nearest column that line offers. */
  lemma ClampNearest(s: EditorState)
    requires |s.lines| >= 1 && NoNewlines(s.lines)
    ensures var r := Clamp(s);
      && Resting(r)
      && (forall row :: 0 <= row < |s.lines| ==> Dist(s.row, r.row) <= Dist(s.row, row))
      && (forall col :: 0 <= col < NumCols(s.lines, r.row, s.mode) ==> Dist(s.col, r.col) <= Dist(s.col, col))
  {
  }

  /** A resting state is its own clamp, so the clamp is idempotent. */
  lemma ClampResting(s: EditorState)
    requires Resting(s)
    ensures Clamp(s) == s
  {
  }

  /** The editor starts at rest, on the first line, in Navigation mode. */
  lemma InitialResting(text: string)
    ensures Resting(Initial(text))
  {
  }

  // ---------------------------------------------------------------------
  // handleNavigationMode

  /** `handleNavigationMode(key)` without the file write: `None` is the
      `IndexError` of `previousWord`. `'w'` and every key without a
      command only set the message, which the model does not hold. */
  function NavigationKey(s: EditorState, key: char): (r: Option<EditorState>)
    requires Resting(s)
    ensures r.None? <==> key == 'u' && (s.col >= |s.lines[s.row]| || AllBlank(s.lines[s.row]))
    ensures r.Some? ==> |r.value.lines| >= 1 && NoNewlines(r.value.lines)
    ensures r.Some? && key != 'x' ==> r.value.lines == s.lines
    ensures r.Some? ==> r.value.mode == (if key in "fa" then Insert else s.mode)
    ensures r.Some? ==> r.value.exitEditor == (s.exitEditor || key == 'q')
  {
    var line := s.lines[s.row];
    PreviousWordFails(line, s.col);
    if key == 'q' then Some(s.(exitEditor := true))
    else if key == 'k' then Some(s.(row := s.row + 1))
    else if key == 'i' then Some(s.(row := s.row - 1))
    else if key == 'j' then Some(s.(col := s.col - 1))
    else if key == 'l' then Some(s.(col := s.col + 1))
    else if key == 's' then Some(s.(col := 0))
    else if key == 'e' then Some(s.(col := |line| - 1))
    else if key == 'o' then Some(s.(col := NextWordCol(line, s.col)))
    else if key == 'u' then
      (match PreviousWordCol(line, s.col)
       case None => None
       case Some(c) => Some(s.(col := c)))
    else if key == 'x' then Some(s.(lines := Splice(s.lines, s.row, s.col, s.row, s.col + 1, "")))
    else if key == 'f' then Some(s.(mode := Insert))
    else if key == 'a' then Some(s.(mode := Insert, col := s.col + 1))
    else Some(s)
  }

  // ---------------------------------------------------------------------
  // handleInsertMode

  /** `handleInsertMode(key)`: Escape leaves Insert mode one column to the
      left; Backspace and Delete remove the character before the cursor,
      joining the line with the one above at column 0; any other key is
      inserted, a newline splitting the line. */
  function InsertKey(s: EditorState, key: char): (r: EditorState)
    requires Resting(s)
    ensures |r.lines| >= 1 && NoNewlines(r.lines)
    ensures r.exitEditor == s.exitEditor
    ensures r.mode == (if key == Escape then Navigation else s.mode)
    ensures key == Escape || (key in [Backspace, Delete] && s.row == 0 && s.col == 0) ==> r.lines == s.lines
  {
    if key == Escape then
      s.(col := if s.mode == Insert then s.col - 1 else s.col, mode := Navigation)
    else if key == Delete || key == Backspace then
      if s.col == 0 && s.row == 0 then s
      else if s.col == 0 then
        var prev, cur := s.lines[s.row - 1], s.lines[s.row];
        s.(lines := Splice(s.lines, s.row - 1, 0, s.row, |cur|, prev + cur), col := |prev|, row := s.row - 1)
      else
        s.(lines := Splice(s.lines, s.row, s.col - 1, s.row, s.col, ""), col := s.col - 1)
    else
      var lines := Splice(s.lines, s.row, s.col, s.row, s.col, [key]);
      if key == '\n' then s.(lines := lines, row := s.row + 1, col := 0)
      else s.(lines := lines, col := s.col + 1)
  }

  // ---------------------------------------------------------------------
  // One iteration of main

  /** One key: the handler of the current mode, then the clamp. `None`
      stands for the exception that ends the editor. */
  function Step(s: EditorState, key: char): (r: Option<EditorState>)
    requires Resting(s)
  {
    var next := if s.mode == Navigation then NavigationKey(s, key) else Some(InsertKey(s, key));
    match next
    case None => None
    case Some(t) => Some(Clamp(t))
  }

  /** Every key that does not end the editor leaves it at rest again. */
  lemma StepPreservesResting(s: EditorState, key: char)
    requires Resting(s)
    ensures Step(s, key).Some? ==> Resting(Step(s, key).value)
  {
    var next := if s.mode == Navigation then NavigationKey(s, key) else Some(InsertKey(s, key));
    if next.Some? {
      ClampNearest(next.value);
    }
  }

  /** The only key that can end the editor with an exception is `u` in
      Navigation mode on a blank line. */
  lemma StepFailsOnlyOnBlankLine(s: EditorState, key: char)
    requires Resting(s)
    ensures Step(s, key).None? <==> s.mode == Navigation && key == 'u' && AllBlank(s.lines[s.row])
  {
    if s.mode == Navigation && key == 'u' && !AllBlank(s.lines[s.row]) {
      assert s.col < |s.lines[s.row]|;
    }
  }

  /** Only `q` in Navigation mode asks the editor to stop. */
  lemma StepExits(s: EditorState, key: char)
    requires Resting(s) && !s.exitEditor && Step(s, key).Some?
    ensures Step(s, key).value.exitEditor <==> s.mode == Navigation && key == 'q'
  {
  }

  // ---------------------------------------------------------------------
  // Editing keys in terms of the document

  /** `x` removes the character under the cursor and nothing else. */
  lemma DeleteUnderCursor(s: EditorState)
    requires Resting(s) && s.mode == Navigation
    ensures Step(s, 'x').Some?
    ensures var t := Step(s, 'x').value; var line := s.lines[s.row];
      && t.row == s.row
      && (line == [] ==> t.lines == s.lines)
      && (line != [] ==> t.lines == s.lines[..s.row] + [line[..s.col] + line[s.col + 1..]] + s.lines[s.row + 1..])
  {
    var line := s.lines[s.row];
    var spliced := Splice(s.lines, s.row, s.col, s.row, s.col + 1, "");
    SpliceOneRow(s.lines, s.row, s.col, s.col + 1, "");
    var merged := Take(line, s.col) + "" + Drop(line, s.col + 1);
    assert spliced == s.lines[..s.row] + [merged] + s.lines[s.row + 1..];
    assert |spliced| == |s.lines|;
    NavigationDelete(s);
    assert Step(s, 'x') == Some(Clamp(s.(lines := spliced)));
    if line == [] {
      assert merged == line;
      assert s.lines[..s.row] + [line] + s.lines[s.row + 1..] == s.lines;
    } else {
      assert merged == line[..s.col] + line[s.col + 1..];
    }
  }

  /** In Navigation mode `x` is the splice of the one character under
      the cursor by nothing. */
  lemma NavigationDelete(s: EditorState)
    requires Resting(s)
    ensures NavigationKey(s, 'x') == Some(s.(lines := Splice(s.lines, s.row, s.col, s.row, s.col + 1, "")))
  {
  }

  /** A splice within one row whose merged text has no newline replaces
      that row and nothing else. */
  lemma SpliceOneRow(lines: seq<string>, row: nat, col1: nat, col2: nat, text: string)
    requires NoNewlines(lines) && row < |lines| && '\n' !in text
    ensures var merged := Take(lines[row], col1) + text + Drop(lines[row], col2);
      Splice(lines, row, col1, row, col2, text) == lines[..row] + [merged] + lines[row + 1..]
  {
    var line := lines[row];
    var merged := Take(line, col1) + text + Drop(line, col2);
    assert '\n' !in line;
    assert '\n' !in merged;
    SplitSingle(merged);
  }

  /** Typing a character other than a newline inserts it at the cursor and
      moves the cursor past it. */
  lemma TypeCharacter(s: EditorState, key: char)
    requires Resting(s) && s.mode == Insert
    requires key !in [Escape, Backspace, Delete, '\n']
    requires s.col <= |s.lines[s.row]|
    ensures var line := s.lines[s.row];
      Step(s, key) == Some(s.(lines := s.lines[..s.row] + [line[..s.col] + [key] + line[s.col..]] + s.lines[s.row + 1..], col := s.col + 1))
  {
    var line := s.lines[s.row];
    var merged := Take(line, s.col) + [key] + Drop(line, s.col);
    assert '\n' !in line;
    assert merged == line[..s.col] + [key] + line[s.col..];
    assert '\n' !in merged;
    SplitSingle(merged);
  }

  /** A newline splits the line at the cursor and moves to the start of
      the new second half. */
  lemma EnterSplitsLine(s: EditorState)
    requires Resting(s) && s.mode == Insert && s.col <= |s.lines[s.row]|
    ensures var line := s.lines[s.row];
      Step(s, '\n') == Some(s.(lines := s.lines[..s.row] + [line[..s.col], line[s.col..]] + s.lines[s.row + 1..], row := s.row + 1, col := 0))
  {
    var line := s.lines[s.row];
    var a, b := line[..s.col], line[s.col..];
    assert Take(line, s.col) == a && Drop(line, s.col) == b;
    assert '\n' !in line;
    assert '\n' !in a && '\n' !in b;
    SplitJoin([a, b]);
    assert Join([a, b]) == a + "\n" + b by {
      assert [a, b][1..] == [b];
    }
    assert Take(line, s.col) + "\n" + Drop(line, s.col) == Join([a, b]);
  }

  /** Backspace at column 0 joins the line to the one above, with the
      cursor where they meet. */
  lemma BackspaceJoinsLines(s: EditorState, key: char)
    requires Resting(s) && s.mode == Insert && key in [Backspace, Delete]
    requires s.col == 0 && s.row > 0
    ensures var prev, cur := s.lines[s.row - 1], s.lines[s.row];
      Step(s, key) == Some(s.(lines := s.lines[..s.row - 1] + [prev + cur] + s.lines[s.row + 1..], row := s.row - 1, col := |prev|))
  {
    var prev, cur := s.lines[s.row - 1], s.lines[s.row];
    var merged := Take(prev, 0) + (prev + cur) + Drop(cur, |cur|);
    assert merged == prev + cur;
    assert '\n' !in prev && '\n' !in cur;
    assert '\n' !in merged;
    SplitSingle(merged);
  }

  /** Backspace inside a line removes the character before the cursor. */
  lemma BackspaceInLine(s: EditorState, key: char)
    requires Resting(s) && s.mode == Insert && key in [Backspace, Delete]
    requires 0 < s.col <= |s.lines[s.row]|
    ensures var line := s.lines[s.row];
      Step(s, key) == Some(s.(lines := s.lines[..s.row] + [line[..s.col - 1] + line[s.col..]] + s.lines[s.row + 1..], col := s.col - 1))
  {
    var line := s.lines[s.row];
    var merged := Take(line, s.col - 1) + "" + Drop(line, s.col);
    assert merged == line[..s.col - 1] + line[s.col..];
    assert '\n' !in line;
    assert '\n' !in merged;
    SplitSingle(merged);
  }

  /** Replacing row `row` by `x` and then by `y` is replacing it by `y`. */
  lemma ReplaceTwice(lines: seq<string>, row: nat, x: string, y: string)
    requires row < |lines|
    ensures var m := lines[..row] + [x] + lines[row + 1..];
      && |m| == |lines| && m[row] == x
      && m[..row] + [y] + m[row + 1..] == lines[..row] + [y] + lines[row + 1..]
  {
    var m := lines[..row] + [x] + lines[row + 1..];
    assert m[..row] == lines[..row];
    assert m[row + 1..] == lines[row + 1..];
  }

  /** Splitting row `row` in two and joining the halves again. */
  lemma SplitThenJoin(lines: seq<string>, row: nat, a: string, b: string)
    requires row < |lines|
    ensures var m := lines[..row] + [a, b] + lines[row + 1..];
      && |m| == |lines| + 1 && m[row] == a && m[row + 1] == b
      && m[..row] + [a + b] + m[row + 2..] == lines[..row] + [a + b] + lines[row + 1..]
  {
    var m := lines[..row] + [a, b] + lines[row + 1..];
    assert m[..row] == lines[..row];
    assert m[row + 2..] == lines[row + 1..];
  }

  /** A row replaced by itself. */
  lemma ReplaceSame(lines: seq<string>, row: nat)
    requires row < |lines|
    ensures lines[..row] + [lines[row]] + lines[row + 1..] == lines
  {
  }

  /** Typing a key and then Backspace or Delete gives the lines back; the
      whole state comes back unless the cursor sat past the end of an
      empty line, where it comes back at column 0. */
  lemma InsertThenBackspace(s: EditorState, key: char, bs: char)
    requires Resting(s) && s.mode == Insert
    requires key !in [Escape, Backspace, Delete] && bs in [Backspace, Delete]
    ensures Step(s, key).Some? && Resting(Step(s, key).value)
    ensures Step(Step(s, key).value, bs).Some?
    ensures var u := Step(Step(s, key).value, bs).value;
      && u.lines == s.lines
      && (u == s <==> s.col <= |s.lines[s.row]|)
  {
    StepPreservesResting(s, key);
    if s.col <= |s.lines[s.row]| {
      InsertThenBackspaceInLine(s, key, bs);
    } else {
      PastEndInsertThenBackspace(s, key, bs);
    }
  }

  /** `InsertThenBackspace` with the cursor on the line. */
  lemma InsertThenBackspaceInLine(s: EditorState, key: char, bs: char)
    requires Resting(s) && s.mode == Insert && s.col <= |s.lines[s.row]|
    requires key !in [Escape, Backspace, Delete] && bs in [Backspace, Delete]
    requires Step(s, key).Some? && Resting(Step(s, key).value)
    ensures Step(Step(s, key).value, bs) == Some(s)
  {
    if key == '\n' {
      EnterThenBackspace(s, bs);
    } else {
      TypeThenBackspace(s, key, bs);
    }
  }

  /** A newline and then Backspace: the halves are joined again. */
  lemma EnterThenBackspace(s: EditorState, bs: char)
    requires Resting(s) && s.mode == Insert && s.col <= |s.lines[s.row]|
    requires bs in [Backspace, Delete]
    requires Step(s, '\n').Some? && Resting(Step(s, '\n').value)
    ensures Step(Step(s, '\n').value, bs) == Some(s)
  {
    var line := s.lines[s.row];
    var a, b := line[..s.col], line[s.col..];
    var t := s.(lines := s.lines[..s.row] + [a, b] + s.lines[s.row + 1..], row := s.row + 1, col := 0);
    EnterSplitsLine(s);
    var u := t.(lines := t.lines[..s.row] + [a + b] + t.lines[s.row + 2..], row := s.row, col := |a|);
    assert t.lines[t.row - 1] == a && t.lines[t.row] == b && u == s by {
      SplitThenJoin(s.lines, s.row, a, b);
      assert a + b == line;
      ReplaceSame(s.lines, s.row);
    }
    BackspaceJoinsLines(t, bs);
  }

  /** A character and then Backspace: the character is removed again. */
  lemma TypeThenBackspace(s: EditorState, key: char, bs: char)
    requires Resting(s) && s.mode == Insert && s.col <= |s.lines[s.row]|
    requires key !in [Escape, Backspace, Delete, '\n'] && bs in [Backspace, Delete]
    requires Step(s, key).Some? && Resting(Step(s, key).value)
    ensures Step(Step(s, key).value, bs) == Some(s)
  {
    var line := s.lines[s.row];
    var nl := line[..s.col] + [key] + line[s.col..];
    var t := s.(lines := s.lines[..s.row] + [nl] + s.lines[s.row + 1..], col := s.col + 1);
    TypeCharacter(s, key);
    var u := t.(lines := t.lines[..s.row] + [nl[..s.col] + nl[s.col + 1..]] + t.lines[s.row + 1..], col := s.col);
    assert t.lines[t.row] == nl && u == s by {
      ReplaceTwice(s.lines, s.row, nl, line);
      assert nl[..s.col] + nl[s.col + 1..] == line;
      ReplaceSame(s.lines, s.row);
    }
    BackspaceInLine(t, bs);
  }

  /** The empty-line case of `InsertThenBackspace`: Insert mode allows
      column 1 on an empty line, and the round trip ends at column 0. */
  lemma PastEndInsertThenBackspace(s: EditorState, key: char, bs: char)
    requires Resting(s) && s.mode == Insert && s.col > |s.lines[s.row]|
    requires key !in [Escape, Backspace, Delete] && bs in [Backspace, Delete]
    requires Step(s, key).Some? && Resting(Step(s, key).value)
    ensures Step(Step(s, key).value, bs) == Some(s.(col := 0))
  {
    assert s.lines[s.row] == [] && s.col == 1;
    if key == '\n' {
      PastEndEnterThenBackspace(s, bs);
    } else {
      PastEndTypeThenBackspace(s, key, bs);
    }
  }

  /** A newline past the end of an empty line, then Backspace. */
  lemma PastEndEnterThenBackspace(s: EditorState, bs: char)
    requires Resting(s) && s.mode == Insert && s.lines[s.row] == [] && s.col == 1
    requires bs in [Backspace, Delete]
    requires Step(s, '\n').Some? && Resting(Step(s, '\n').value)
    ensures Step(Step(s, '\n').value, bs) == Some(s.(col := 0))
  {
    var t := s.(lines := s.lines[..s.row] + ["", ""] + s.lines[s.row + 1..], row := s.row + 1, col := 0);
    PastEndEnter(s);
    var u := t.(lines := t.lines[..s.row] + ["" + ""] + t.lines[s.row + 2..], row := s.row, col := 0);
    assert t.lines[t.row - 1] == "" && t.lines[t.row] == "" && u == s.(col := 0) by {
      SplitThenJoin(s.lines, s.row, "", "");
      assert "" + "" == s.lines[s.row];
      ReplaceSame(s.lines, s.row);
    }
    BackspaceJoinsLines(t, bs);
  }

  /** A character past the end of an empty line, then Backspace. */
  lemma PastEndTypeThenBackspace(s: EditorState, key: char, bs: char)
    requires Resting(s) && s.mode == Insert && s.lines[s.row] == [] && s.col == 1
    requires key !in [Escape, Backspace, Delete, '\n'] && bs in [Backspace, Delete]
    requires Step(s, key).Some? && Resting(Step(s, key).value)
    ensures Step(Step(s, key).value, bs) == Some(s.(col := 0))
  {
    var t := s.(lines := s.lines[..s.row] + [[key]] + s.lines[s.row + 1..]);
    PastEndType(s, key);
    var u := t.(lines := t.lines[..s.row] + [[key][..0] + [key][1..]] + t.lines[s.row + 1..], col := 0);
    assert t.lines[t.row] == [key] && u == s.(col := 0) by {
      ReplaceTwice(s.lines, s.row, [key], "");
      assert [key][..0] + [key][1..] == s.lines[s.row];
      ReplaceSame(s.lines, s.row);
    }
    BackspaceInLine(t, bs);
  }

  /** A newline typed past the end of an empty line adds an empty line. */
  lemma PastEndEnter(s: EditorState)
    requires Resting(s) && s.mode == Insert && s.lines[s.row] == [] && s.col == 1
    ensures Step(s, '\n') == Some(s.(lines := s.lines[..s.row] + ["", ""] + s.lines[s.row + 1..], row := s.row + 1, col := 0))
  {
    assert Take("", 1) + "\n" + Drop("", 1) == "\n";
    assert Split("\n") == ["", ""] by { SplitSingle(""); }
  }

  /** A character typed past the end of an empty line becomes the line;
      the clamp puts the cursor back on column 1. */
  lemma PastEndType(s: EditorState, key: char)
    requires Resting(s) && s.mode == Insert && s.lines[s.row] == [] && s.col == 1
    requires key !in [Escape, Backspace, Delete, '\n']
    ensures Step(s, key) == Some(s.(lines := s.lines[..s.row] + [[key]] + s.lines[s.row + 1..]))
  {
    assert Take("", 1) + [key] + Drop("", 1) == [key];
    SplitSingle([key]);
  }
}
