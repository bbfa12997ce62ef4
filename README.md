# illud: a verified model of the editor core

illud is a small modal terminal text editor written in Python. This
project models its core in Dafny and proves properties of that model:

- **the text buffer.** A document is a list of lines. It is built by
  splitting the text on `'\n'`. It is changed only by `setText`, one splice
  of a row/column range.
- **the viewport engine of `IlludGUI`:**
  - `convertNonPrinting`, the display form of a line;
  - `getWrappedLines` and `getNumWrappedLines`, which wrap a line to the
    text width;
  - `scrollBottomToTop`, the backward search for the highest top row;
  - `scrollTo`, the scroll rule;
  - the row walk and the cursor arithmetic of `drawText`.
- **the session step.** This covers:
  - `nextWord` and `previousWord`;
  - `handleNavigationMode`, without the file write;
  - `handleInsertMode`;
  - the clamp at the end of every iteration of `main`.
- **the `checkPoint` bounds check** of the buffer in the top-level
  `illud.py`.

Modules:

- `Common`: `Option` (its `None` stands for a Python exception), `Min`,
  `Max` and `Dist`.
- `Lines`: Python's `str.split('\n')`, `'\n'.join`, clamping slices and
  negative indexing, with the split/join round trips.
- `LineBuffer`: the splice `Splice` and the class `Buffer`, whose `SetText`
  rewrites `lines` in place.
- `CheckedBuffer`: the top-level `illud.py` buffer and its `CheckPoint`.
- `Display`: the pure viewport functions on values:
  - display form, wrapping and row counts;
  - the specification `LowestTop` of the scroll search;
  - the scroll rule `ScrollRule`;
  - the gutter and the cursor's display offset `RealCol`.
- `Session`: one key on a value `EditorState`:
  - the handlers `NavigationKey` and `InsertKey`;
  - the clamp `Clamp`;
  - their composition `Step`.
- `Editor`: the class `Illud`. It holds `IlludGUI`'s fields: the buffer,
  `row`, `col`, `scrollTop`, `mode` and `exitEditor`. The source's
  imperative members are methods on it:
  - the scroll loop;
  - `scrollTo`;
  - `drawText`'s row walk;
  - the word-motion loops;
  - the key handlers;
  - the clamp.

  Each method's `ensures` ties its result or new state to the functions of
  `Display` and `Session`. The properties are lemmas about those functions.

Calling conventions:

- **Row counts.** The methods that walk rows take a ghost `counts`. It is
  constrained by `CountsOf` to be `getNumWrappedLines(n, width)` for every
  row `n`. `RowCountsOf` shows that the only such sequence is
  `RowCounts(lines, width)`.
- **Resting states.** The key handlers are stated for *resting* states
  (`Session.Resting`): at least one line, no newline inside a line, the
  row on a line, and the column within what the clamp allows. `main`
  calls a handler only in such a state: after `__init__` (proved by
  `InitialResting`) and after the clamp (proved by `ClampNearest` and
  `StepPreservesResting`).

## Model

| member | source | states |
|---|---|---|
| LineBuffer.Buffer.constructor | src/illud.py:7-8 | the lines are the text split on `'\n'`; there is at least one, and none holds a newline |
| LineBuffer.Buffer.GetLines | src/illud.py:10-11 | the copy equals the lines, in order; the buffer is only read |
| LineBuffer.Buffer.SetText | src/illud.py:13-15 | the new lines are `Splice` of the old: prefix of row `row1`, the text, suffix of row `row2`, re-split, in place of the slice `[row1:row2+1]`; the invariant (at least one line, no newline in a line) is kept |
| LineBuffer.Splice | src/illud.py:13-15 | a splice never leaves zero lines and keeps the lines free of newlines |
| LineBuffer.SpliceShape | src/illud.py:13-15 | for `row1 <= row2` the line count becomes `len - (row2 - row1) + len(split) - 1`; rows before `row1` and after `row2` are the old ones, with the new segment between |
| LineBuffer.SpliceUntouched | src/illud.py:13-15 | each row outside `[row1, row2]` is an old row, shifted by the change in the line count |
| LineBuffer.SpliceIdempotent | src/illud.py:13-15 | replacing an in-order range by the text it holds leaves the document unchanged |
| LineBuffer.SpanMerges | src/illud.py:14 | head of the first row, the range's text and tail of the last row make the range's rows joined by newlines |
| LineBuffer.EmptyTextIsOneLine | src/illud.py:7-8 | `Buffer('')` holds exactly `[""]` |
| LineBuffer.SpliceAcrossRows | src/illud.py:13-15 | a concrete two-row replacement merges the rows into one |
| LineBuffer.SpliceInsertsNewline | src/illud.py:13-15 | one example: inserting `"\nZ"` at column 1 of `["ab"]` gives `["a", "Zb"]` |
| LineBuffer.SpliceKeepsLastLine | src/illud.py:13-15 | deleting nothing from the empty document keeps its one empty line |
| Lines.Split | src/illud.py:8 | `split('\n')` yields at least one piece, none holding a newline |
| Lines.JoinSplit | src/illud.py:8 | joining the pieces of a split with newlines gives the text back |
| Lines.SplitJoin | src/illud.py:15 | splitting a join of newline-free lines gives the lines back |
| Lines.SplitCount | src/illud.py:15 | a text splits into one more piece than it has newlines |
| Lines.Take | src/illud.py:14 | `s[:n]` stops at the end of `s` and keeps the first characters |
| Lines.Drop | src/illud.py:14 | `s[n:]` is empty past the end and otherwise the characters from `n` on |
| Lines.PyAt | src/illud.py:194 | definition, no contract: Python's `line[i]`, where a negative index counts from the end; `BackOverBlanks` and `PreviousWordFindsWordEnd` state what reading with it finds |
| CheckedBuffer.Buffer.constructor | illud.py:7-8 | the lines are the text split on `'\n'`, at least one |
| CheckedBuffer.Buffer.GetLines | illud.py:10-11 | the copy equals the lines; nothing changes |
| CheckedBuffer.Buffer.CheckPoint | illud.py:13-20 | row message exactly when `row < 0` or `row > len(lines) - 1`; `IndexError` exactly when `row >= len` or `row < -len`; otherwise a column message exactly when `col < 0` or `col` exceeds the length of the row Python reads; the check is silent exactly on the valid positions; a function, so the lines are never modified |
| CheckedBuffer.CheckPointCleanIffValid | illud.py:13-20 | the check is silent exactly on the valid positions, with `col == len(line)` accepted |
| CheckedBuffer.CheckPointPastLastRow | illud.py:14-17 | the row after the last is reported and then raises |
| CheckedBuffer.CheckPointNegativeRow | illud.py:14-20 | row `-1` is reported, does not raise, and its column is checked against the last line |
| Display.ConvertNonPrinting | src/illud.py:58-68 | the display form is at least as long as the line, and empty exactly for the empty line |
| Display.ConvertPrintable | src/illud.py:58-68 | the display form holds only printable characters, and equals the line exactly when every character of the line is printable |
| Display.Placeholder | src/illud.py:62-67 | a tab becomes four cells, a bar and three blanks; a code below 32 or above 126 becomes an escape token of at least three cells, any other character is itself, and the result is printable |
| Display.PlaceholderNamesCode | src/illud.py:64-65 | the escape token is `<`, lower-case hex digits, `>`, and the digits give back the character's code |
| Display.Hex | src/illud.py:65 | `hex(i)[2:]` is a non-empty string of hex digits without a leading zero |
| Display.HexRoundTrip | src/illud.py:65 | reading the hex digits back gives the code |
| Display.ConvertAppend | src/illud.py:58-68 | the conversion of a concatenation is the concatenation of the conversions |
| Display.Chunks | src/illud.py:75-76 | definition, no contract: the `range(0, len, width)` slices of a non-empty text; `ChunksFacts`, `ChunksCount` and `ChunkCell` state their properties |
| Display.ChunksFacts | src/illud.py:74-76 | the `range(0, len, width)` slices concatenate back to the text, all but the last are `width` long, and the last is between 1 and `width` long |
| Display.Wrap | src/illud.py:71-76 | at least one segment, `[""]` for an empty text, and the segments concatenate back to the text |
| Display.WrapSegments | src/illud.py:71-76 | every segment is at most `width` long, and all but the last are exactly `width` long |
| Display.ChunksCount | src/illud.py:75-76 | a non-empty text yields `ceil(len / width)` slices |
| Display.WrapCount | src/illud.py:71-76 | a non-empty text wraps into `ceil(len / width)` segments |
| Display.ChunkCell | src/illud.py:75-76 | the cell at offset `q * width + r` is cell `r` of slice `q` |
| Display.WrapCell | src/illud.py:71-76 | cell `i` of a wrapped text is cell `i % width` of segment `i / width` |
| Display.WrappedLines | src/illud.py:70-84 | the list is never empty, and its segments concatenate to the converted line (or to the raw line without conversion) |
| Display.LineRows | src/illud.py:86-87 | every line takes at least one screen row; an empty line takes exactly one |
| Display.NumWrapped | src/illud.py:86-87 | every row takes at least one screen row, and an empty row exactly one |
| Display.NumWrappedCount | src/illud.py:75-87 | a non-empty row takes `ceil(len(convertNonPrinting(line)) / width)` screen rows |
| Display.RowCountsAt | src/illud.py:86-87 | entry `n` of the per-row counts is `getNumWrappedLines(n, width)` |
| Display.RowCountsOf | src/illud.py:86-87 | the per-row counts satisfy `CountsOf`, and they are the only sequence that does |
| Display.RowCountsPositive | src/illud.py:71-73 | every row's count is at least one |
| Display.RowCounts | src/illud.py:86-87 | one count per row of the document; `RowCountsAt` shows that entry `n` is `getNumWrappedLines(n, width)` |
| Display.SpanRows | src/illud.py:91-93 | definition, no contract: `verify`'s `sum(len(r) for r in rows)` over rows `lo .. hi`; `SpanRowsIsRowSpan` states its value |
| Display.SpanRowsStep | src/illud.py:91-93 | the first row of a range adds its entry in the counts to the sum over the rest |
| Display.SpanRowsIsRowSpan | src/illud.py:90-92 | `verify`'s sum of the wrapped lines of rows `top .. bottom` is the span of their counts |
| Display.ExtendUp | src/illud.py:104-109 | the upward search from a fitting top ends on a top row that shows `bottom` and that cannot move one row higher |
| Display.LowestTop | src/illud.py:89-112 | `None` (the failed `verify` assert) exactly when row `bottom` alone is taller than `height`; otherwise a top row that keeps all of `bottom` within `height` screen rows |
| Display.LowestTopHighest | src/illud.py:104-112 | no top row above the result keeps `bottom` within `height` screen rows |
| Display.LowestTopWindow | src/illud.py:89-112 | the top rows that show `bottom` are exactly `LowestTop .. bottom` |
| Display.LowestTopUnique | src/illud.py:104-112 | a top row that shows `bottom` and cannot start one row higher is the result |
| Display.ScrollRule | src/illud.py:117-120 | definition, no contract: `scrollTo`'s three-way rule, the cursor row when it is above the window, `lowestTop` when the window top is above that, and otherwise the old top; `ScrollRuleShows` and `ScrollRuleNearest` state its properties |
| Display.ScrollRuleShows | src/illud.py:114-120 | after a successful search, the scroll rule's top row shows the cursor row |
| Display.ScrollRuleNearest | src/illud.py:114-120 | the three-way rule ends on a top row that shows the cursor row; it leaves a top row that already shows the row alone; no top row that shows the row is nearer the old one |
| Display.Digits | src/illud.py:124 | `len(str(n))` is at least one |
| Display.GutterWidth | src/illud.py:124 | the gutter is at least four cells wide |
| Display.RealCol | src/illud.py:147-149 | the cursor's display offset lies within the display form, and strictly inside it when the column is on a character |
| Display.CursorOffsetShowsCharacter | src/illud.py:147-149 | on a character, the display offset holds the first cell of that character's display form |
| Display.CursorCellShowsCharacter | src/illud.py:144-151 | segment `realCol / lineWidth`, column `realCol % lineWidth` of the wrapped display form holds the first cell of the character under the cursor |
| Display.WrapPastEnd | src/illud.py:71-76 | the offset just after a wrapped text falls in an existing segment unless a non-empty text fills its last segment |
| Display.CursorPastEnd | src/illud.py:144-151 | at or past the end of the line the cursor is after the last cell, and its segment index is past the last segment exactly when the display form is non-empty and a multiple of `lineWidth` long |
| Display.CursorRowInsideLine | src/illud.py:130-151 | with the cursor on a character, its screen row `rows above it + realCol / lineWidth` lies among the rows of the cursor's own line |
| Display.CeilCompare | src/illud.py:150 | `realCol / lineWidth` is below `ceil(realCol / lineWidth)` exactly when `lineWidth` does not divide `realCol` |
| Editor.Illud.constructor | src/illud.py:26-33 | the buffer holds the text split on newlines; the cursor is at `(0, 0)`, the window at row 0, the mode Navigation, and the exit flag clear |
| Editor.Illud.ScrollBottomToTop | src/illud.py:89-112 | the backward accumulation loop returns `LowestTop` over the rows' counts, with `None` for the failed `verify` |
| Editor.Illud.ScrollTo | src/illud.py:114-120 | `scrollTop` becomes `lineNum` when it is above the window, `lowestTop` when the window top is above that, and otherwise stays; it is unchanged when the search fails; nothing else changes |
| Editor.Illud.DrawText | src/illud.py:122-151 | after `scrollTo`: the rows drawn start at `scrollTop`, include the cursor row, fit in `height`, and are all that fit; the cursor is at screen row `top + rows above it + realCol / lineWidth` and screen column `left + gutterWidth + realCol % lineWidth`, inside the text area |
| Editor.RowsOfLine | src/illud.py:75-87 | `getNumWrappedLines(n, width)` is at least one, exactly one for an empty row, and `ceil(len(convertNonPrinting(line)) / width)` for a non-empty one; it is the row's entry in the counts |
| Editor.RowsOfSpan | src/illud.py:91-93 | `verify`'s sum over rows `lo .. hi` is the span of their counts |
| Editor.CursorOffset | src/illud.py:145-149 | the offset computed from the joined raw segments is the display offset `RealCol` of the cursor column on its line |
| Editor.NextLineRows | src/illud.py:134-142 | each line the walk reaches adds its count, at least one, to the rows used, and up to the cursor row the rows still fit |
| Editor.LayOutRows | src/illud.py:130-160 | the greedy walk stops at the end of the document, when no rows remain, or before a line that does not fit; the cursor cell is set from the display offset of its column; the column is always less than `left + gutterWidth + lineWidth` |
| Editor.Illud.NextWord | src/illud.py:177-188 | the two loops leave the column at `NextWordCol`; nothing else changes |
| Editor.Illud.PreviousWord | src/illud.py:190-201 | the two loops leave the column at `PreviousWordCol`. `false` is the `IndexError`: the column is then left where the failing read happened |
| Editor.Illud.HandleNavigationMode | src/illud.py:203-245 | the new state is `NavigationKey` of the old; `false` exactly when that is the `IndexError` |
| Editor.Illud.HandleInsertMode | src/illud.py:247-274 | the new state is `InsertKey` of the old |
| Editor.Illud.ClampCursor | src/illud.py:287-293 | the new state is `Clamp` of the old, and it is resting |
| Editor.Illud.HandleKey | src/illud.py:282-293 | handler of the current mode and then the clamp: the new state is `Step` of the old, and it is resting |
| Editor.Illud.Iteration | src/illud.py:277-293 | one iteration of `main`: when the cursor row does not fit above the status line it stops, with the cursor state and `scrollTop` unchanged; otherwise `scrollTop` becomes `ScrollRule` of the old cursor row and window top, and the state after the key is `Step` of the old |
| Session.IsSpace | src/illud.py:181 | definition, no contract: Python 3's `str.isspace` on one code point, as the list of whitespace code points `nextWord` and `previousWord` test against |
| Session.NextWordCol | src/illud.py:177-188 | definition, no contract: the first loop and then the second; `NextWordFindsWordStart` states where it lands |
| Session.SkipWord | src/illud.py:180-183 | the first loop stops at the first blank at or after the column, or at the end of the line, passing only non-blanks |
| Session.SkipBlanks | src/illud.py:185-188 | the second loop stops at the first non-blank at or after the column, or at the end of the line, passing only blanks |
| Session.NextWordFindsWordStart | src/illud.py:177-188 | from a character, `nextWord` moves right to the first word start after the cursor, or to the end of the line when there is none |
| Session.BackToBlank | src/illud.py:193-196 | the first loop raises exactly for a column at or past the end; a negative column is returned as it is; otherwise it stops on a blank at or left of the column, or at `-1` |
| Session.BackToBlankSkips | src/illud.py:193-196 | every position the first loop passes over is a non-blank character of the line |
| Session.BackOverBlanks | src/illud.py:198-201 | from a column at or past the end the loop does not run and the column is returned; from a column before the end it either raises or stops at or left of the column on a non-blank, read with Python's indexing |
| Session.BackOverBlanksSkips | src/illud.py:198-201 | the second loop raises exactly when every read from the column down to `-len` is blank, and every position it passes over is blank |
| Session.PreviousWordCol | src/illud.py:190-201 | definition, no contract: the first loop and then the second, `None` when either raises; `PreviousWordFails` and `PreviousWordFindsWordEnd` state its outcome |
| Session.PreviousWordFails | src/illud.py:190-201 | from a non-negative column, `previousWord` raises exactly when the column is past the line or the line is all blank |
| Session.PreviousWordFindsWordEnd | src/illud.py:190-201 | otherwise it lands left of the cursor on the last word end before the cursor's word, or on a negative column when there is none |
| Session.NumCols | src/illud.py:289-292 | at least one column, and one past the end in Insert mode |
| Session.Clamp | src/illud.py:287-293 | the clamp leaves the lines, the mode and the exit flag alone |
| Session.ClampNearest | src/illud.py:287-293 | the clamp ends in a resting state, on the nearest row and then the nearest column that row allows |
| Session.ClampResting | src/illud.py:287-293 | a resting state is its own clamp, so the clamp is idempotent |
| Session.Initial | src/illud.py:26-33 | definition, no contract: the lines of the text, the cursor at `(0, 0)`, Navigation mode, the exit flag clear; `InitialResting` states that this state is resting |
| Session.InitialResting | src/illud.py:27-31 | the editor starts in a resting state |
| Session.NavigationKey | src/illud.py:203-245 | `None` exactly for `u` with the column past the line or the line all blank; only `x` changes the lines, and they keep the invariant; `f`/`a` switch to Insert; `q` sets the exit flag |
| Session.InsertKey | src/illud.py:247-274 | the lines keep the invariant; Escape switches to Navigation; Escape, and Backspace at the document start, leave the lines alone; the exit flag is untouched |
| Session.Step | src/illud.py:282-293 | definition, no contract: the handler of the current mode, then the clamp, `None` for the `IndexError`; `StepPreservesResting`, `StepFailsOnlyOnBlankLine`, `StepExits` and the per-key lemmas state its properties |
| Session.StepPreservesResting | src/illud.py:282-293 | every key that does not raise leaves the editor resting |
| Session.StepFailsOnlyOnBlankLine | src/illud.py:223-224 | the only key that raises is `u` in Navigation mode on an all-blank line |
| Session.StepExits | src/illud.py:206-207 | only `q` in Navigation mode sets the exit flag |
| Session.NavigationDelete | src/illud.py:225-227 | `x` is the splice of the one character under the cursor by nothing |
| Session.SpliceOneRow | src/illud.py:13-15 | a splice within one row whose merged text has no newline replaces that row and nothing else |
| Session.DeleteUnderCursor | src/illud.py:225-227 | `x` removes the character under the cursor and nothing else, and does nothing on an empty line |
| Session.TypeCharacter | src/illud.py:267-274 | a typed character is inserted at the cursor, and the cursor moves past it |
| Session.EnterSplitsLine | src/illud.py:267-272 | a newline splits the line at the cursor and moves to the start of the second half |
| Session.BackspaceJoinsLines | src/illud.py:256-262 | Backspace at column 0 joins the line to the one above, with the cursor where they meet |
| Session.BackspaceInLine | src/illud.py:263-266 | Backspace inside a line removes the character before the cursor |
| Session.InsertThenBackspace | src/illud.py:252-274 | typing a key and then Backspace gives the lines back; the whole state comes back exactly when the cursor was on the line |
| Session.InsertThenBackspaceInLine | src/illud.py:252-274 | with the cursor on the line, type-then-Backspace is the identity |
| Session.EnterThenBackspace | src/illud.py:252-272 | a newline then Backspace joins the halves again |
| Session.TypeThenBackspace | src/illud.py:252-274 | a character then Backspace removes it again |
| Session.PastEndInsertThenBackspace | src/illud.py:252-274 | on an empty line at Insert column 1, type-then-Backspace restores the lines but leaves column 0 |
| Session.PastEndEnterThenBackspace | src/illud.py:256-272 | a newline at column 1 of an empty line, then Backspace, restores the lines with the cursor at column 0 |
| Session.PastEndTypeThenBackspace | src/illud.py:263-274 | a character at column 1 of an empty line, then Backspace, restores the lines with the cursor at column 0 |
| Session.PastEndEnter | src/illud.py:267-272 | a newline typed at column 1 of an empty line adds an empty line below |
| Session.PastEndType | src/illud.py:267-274 | a character typed at column 1 of an empty line becomes the line |

## Left out

- Terminal output is not modelled: `drawGutter`, `drawStatusLine`,
  `useCurses` and `cursesMain` (src/illud.py:35-55, 295-318). Of `draw`
  (169-175), only the call `drawText(0, 0, width, height - 1)` is
  modelled, by `Iteration`; its `erase`, `drawStatusLine` and `refresh`
  calls are not.
  Of `drawText`, the gutter strings and `addstr` calls of the segment loop
  (154-159), the loop that fills the rows below the text (162-164) and the
  final `move` (166-167) are not modelled. The segment loop itself
  (153-160) is the inner loop of `LayOutRows`, which advances `currentY`
  once per segment.
- File input and output are not modelled:
  - the file read in `__init__` is a `text` parameter;
  - apart from the file write, which is not modelled, the `'w'` save
    command only sets the message, so the model treats it like any other
    key without a command.
- The `getch` loop of `main` is replaced by a key parameter of
  `Iteration`/`Step`. `Iteration` is one pass of the loop. The exit flag
  is what ends the loop.
- The `message` field is not modelled. It is written but never shown.
- The `'>'` truncation marker is not modelled. The assignment to
  `trailing_char` is dead, so the marker is never drawn.
- A text width `lineWidth < 1` is excluded by `DrawText`'s precondition.
  With such a width `range(0, len, width)` raises or wraps nothing.
- Negative columns are modelled where the source produces them. The
  column of `EditorState` and of `Illud` is an `int`:
  - `j` at column 0, Escape at column 0 and `e` on an empty line
    (`len('') - 1`) leave column `-1` until the clamp;
  - the second loop of `previousWord` can walk below 0, and it reads such
    columns with Python's negative indexing (`PyAt`).

  The operations that cannot meet a negative column take a `nat`:
  `Take`/`Drop` are only called from resting states, and `PreviousWord`
  requires `col >= 0`, which every resting state has.
- Characters are Unicode code points, and `IsSpace` is Python 3's
  `str.isspace`. Under Python 2 the lines would be byte strings and only
  ASCII blanks would count. The two readings agree on ASCII text except
  0x1C-0x1F, which Python 3 counts as blank and Python 2 does not.
  - The `/` of src/illud.py:150 is integer division on naturals. Python 2's
    `/` and Python 3's `/` followed by `int()` at line 167 agree on it.
- A key is a `char`, and the model follows Python 3's `chr`: InsertKey
  inserts any code the key holds, codes above 255 included. Under Python 2
  `chr` would raise on them. Codes that are
  not Unicode scalar values (the surrogates 0xD800-0xDFFF, and codes above
  0x10FFFF) are not a `char` and are not modelled.
- LineBuffer.Splice and LineBuffer.Buffer.SetText take natural rows below
  the line count and do not model out-of-range rows: neither the
  `IndexError` that `setText` raises for a row past the end
  (src/illud.py:14) nor Python's wraparound for a negative row. Every
  caller passes a row of a resting state, or `row - 1` with `row >= 1`.
- Session.NavigationKey, Session.InsertKey and Session.Step require a
  resting state. `main` only calls the handlers in one (see above).

## Source behaviour the model reproduces

- Two behaviours of the source, kept as written:
  - with the cursor at or past the end of a line whose display form is a
    positive multiple of `lineWidth` long, the cursor lands one screen
    row below that line's last segment (`CursorPastEnd`);
  - in Insert mode, column 1 is allowed on an empty line (`NumCols`).

  `PastEndInsertThenBackspace` shows the consequence: typing there and
  pressing Backspace returns to column 0, not 1.
