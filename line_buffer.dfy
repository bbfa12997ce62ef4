/** The editor's text buffer (`Buffer` in src/illud.py): the document as
    a list of lines, changed only by a multi-line range replacement. */
module LineBuffer {
  import opened Common
  import opened Lines

  /** The lines after `setText(row1, col1, row2, col2, text)`: the head of
      row `row1` up to `col1`, then `text`, then the tail of row `row2`
      from `col2`, re-split on newlines, stand in for the rows of the slice
      `lines[row1:row2+1]`. A slice whose stop lies before its start is
      empty, so for `row2 < row1` nothing is removed. */
  function Splice(lines: seq<string>, row1: nat, col1: nat, row2: nat, col2: nat, text: string): (r: seq<string>)
    requires row1 < |lines| && row2 < |lines|
    ensures |r| >= 1
    ensures NoNewlines(lines) ==> NoNewlines(r)
  {
    var merged := Take(lines[row1], col1) + text + Drop(lines[row2], col2);
    var rest := lines[Max(row1, row2 + 1)..];
    NoNewlinesAround(lines, Split(merged), row1, Max(row1, row2 + 1));
    lines[..row1] + Split(merged) + rest
  }

  /** Splicing newline-free pieces between newline-free rows keeps the
      document free of newlines inside its lines. */
  lemma NoNewlinesAround(lines: seq<string>, seg: seq<string>, lo: nat, hi: nat)
    requires lo <= hi <= |lines|
    ensures NoNewlines(lines) && NoNewlines(seg) ==> NoNewlines(lines[..lo] + seg + lines[hi..])
  {
    if NoNewlines(lines) && NoNewlines(seg) {
      var r := lines[..lo] + seg + lines[hi..];
      forall i | 0 <= i < |r| ensures '\n' !in r[i] {
        if i < lo {
          assert r[i] == lines[i];
        } else if i < lo + |seg| {
          assert r[i] == seg[i - lo];
        } else {
          assert r[i] == lines[hi + (i - lo - |seg|)];
        }
      }
    }
  }

  /** The new pieces of a splice: the merged text split on newlines. */
  function NewSegment(lines: seq<string>, row1: nat, col1: nat, row2: nat, col2: nat, text: string): seq<string>
    requires row1 < |lines| && row2 < |lines|
  {
    Split(Take(lines[row1], col1) + text + Drop(lines[row2], col2))
  }

  /** For an in-order range: the line count, rows before `row1` and
      after `row2` untouched, and the new segment in between. */
  lemma SpliceShape(lines: seq<string>, row1: nat, col1: nat, row2: nat, col2: nat, text: string)
    requires row1 <= row2 < |lines|
    ensures var seg := NewSegment(lines, row1, col1, row2, col2, text);
      var r := Splice(lines, row1, col1, row2, col2, text);
      && |r| == |lines| - (row2 - row1) + |seg| - 1
      && r[..row1] == lines[..row1]
      && r[row1..row1 + |seg|] == seg
      && r[row1 + |seg|..] == lines[row2 + 1..]
  {
  }

  /** Every row of an in-order splice's output outside the new segment is
      an old row, shifted by the change in the line count. */
  lemma SpliceUntouched(lines: seq<string>, row1: nat, col1: nat, row2: nat, col2: nat, text: string, i: nat)
    requires row1 <= row2 < |lines| && i < |lines|
    requires i < row1 || row2 < i
    ensures var seg := NewSegment(lines, row1, col1, row2, col2, text);
      var r := Splice(lines, row1, col1, row2, col2, text);
      && (i < row1 ==> r[i] == lines[i])
      && (row2 < i ==> r[i - (row2 - row1) + |seg| - 1] == lines[i])
  {
    SpliceShape(lines, row1, col1, row2, col2, text);
    var seg := NewSegment(lines, row1, col1, row2, col2, text);
    var r := Splice(lines, row1, col1, row2, col2, text);
    if row2 < i {
      assert r[row1 + |seg|..][i - row2 - 1] == lines[row2 + 1..][i - row2 - 1];
    } else {
      assert r[..row1][i] == lines[..row1][i];
    }
  }

  /** A valid position of the document: `col == |lines[row]|` is the
      insertion point after the last character. */
  predicate ValidPosition(lines: seq<string>, row: int, col: int)
  {
    0 <= row < |lines| && 0 <= col <= |lines[row]|
  }

  /** The position `(row1, col1)` does not come after `(row2, col2)`. */
  predicate InOrder(row1: int, col1: int, row2: int, col2: int)
  {
    row1 < row2 || (row1 == row2 && col1 <= col2)
  }

  /** The text a range holds: on one row the characters between the two
      columns; across rows the tail of the first row, the whole rows in
      between and the head of the last row, joined by newlines. */
  function SpanText(lines: seq<string>, row1: nat, col1: nat, row2: nat, col2: nat): string
    requires ValidPosition(lines, row1, col1) && ValidPosition(lines, row2, col2)
    requires InOrder(row1, col1, row2, col2)
  {
    if row1 == row2 then lines[row1][col1..col2]
    else Join([lines[row1][col1..]] + lines[row1 + 1..row2] + [lines[row2][..col2]])
  }

  /** Replacing a range by the text it already holds changes nothing. */
  lemma SpliceIdempotent(lines: seq<string>, row1: nat, col1: nat, row2: nat, col2: nat)
    requires NoNewlines(lines)
    requires ValidPosition(lines, row1, col1) && ValidPosition(lines, row2, col2)
    requires InOrder(row1, col1, row2, col2)
    ensures Splice(lines, row1, col1, row2, col2, SpanText(lines, row1, col1, row2, col2)) == lines
  {
    var span := SpanText(lines, row1, col1, row2, col2);
    var merged := Take(lines[row1], col1) + span + Drop(lines[row2], col2);
    var block := lines[row1..row2 + 1];
    assert NoNewlines(block) by {
      forall i | 0 <= i < |block| ensures '\n' !in block[i] {
        assert block[i] == lines[row1 + i];
      }
    }
    SpanMerges(lines, row1, col1, row2, col2);
    SplitJoin(block);
    assert lines[..row1] + block + lines[row2 + 1..] == lines;
  }

  /** Head of the first row, the range's text and tail of the last row
      together are the rows of the range, joined by newlines. */
  lemma SpanMerges(lines: seq<string>, row1: nat, col1: nat, row2: nat, col2: nat)
    requires ValidPosition(lines, row1, col1) && ValidPosition(lines, row2, col2)
    requires InOrder(row1, col1, row2, col2)
    ensures Take(lines[row1], col1) + SpanText(lines, row1, col1, row2, col2) + Drop(lines[row2], col2)
      == Join(lines[row1..row2 + 1])
  {
    var a, b := lines[row1], lines[row2];
    if row1 == row2 {
      assert a[..col1] + a[col1..col2] + a[col2..] == a;
      assert lines[row1..row2 + 1] == [a];
    } else {
      var mid := lines[row1 + 1..row2];
      var inner := [a[col1..]] + mid + [b[..col2]];
      var front := [a] + mid + [b[..col2]];
      assert a[..col1] + inner[0] == a;
      assert inner[1..] == mid + [b[..col2]];
      assert front == [a[..col1] + inner[0]] + inner[1..];
      JoinPrepend(a[..col1], inner);
      assert Join(front) == a[..col1] + SpanText(lines, row1, col1, row2, col2);
      assert front[..|front| - 1] == [a] + mid;
      assert front[|front| - 1] + b[col2..] == b;
      assert lines[row1..row2 + 1] == [a] + mid + [b];
      assert front[..|front| - 1] + [front[|front| - 1] + b[col2..]] == lines[row1..row2 + 1];
      JoinAppend(front, b[col2..]);
    }
  }

  /** A buffer: `lines` is the document; `Valid` is the invariant the
      split keeps (at least one line, none holding a newline). */
  class Buffer {
    var lines: seq<string>

    ghost predicate Valid()
      reads this
    {
      |lines| >= 1 && NoNewlines(lines)
    }

    /** `Buffer(text)`: the text split on newlines. */
    constructor (text: string)
      ensures Valid()
      ensures lines == Split(text)
    {
      lines := Split(text);
    }

    /** `getLines()`: a copy of the lines, in document order. */
    function GetLines(): (r: seq<string>)
      reads this
      requires Valid()
      ensures r == lines
      ensures |r| >= 1 && NoNewlines(r)
    {
      lines
    }

    /** `setText(row1, col1, row2, col2, text)`: one splice, in place. */
    method SetText(row1: nat, col1: nat, row2: nat, col2: nat, text: string)
      requires Valid()
      requires row1 < |lines| && row2 < |lines|
      modifies this
      ensures Valid()
      ensures lines == Splice(old(lines), row1, col1, row2, col2, text)
    {
      var merged := Take(lines[row1], col1) + text + Drop(lines[row2], col2);
      lines := lines[..row1] + Split(merged) + lines[Max(row1, row2 + 1)..];
    }
  }

  /** An empty text is one empty line. */
  lemma EmptyTextIsOneLine()
    ensures Split("") == [""]
  {
  }

  /** Replacing `"bc\nde"` in `["abc", "def"]` by `"XY"` leaves one line. */
  lemma SpliceAcrossRows()
    ensures Splice(["abc", "def"], 0, 1, 1, 2, "XY") == ["aXYf"]
  {
    assert Take("abc", 1) + "XY" + Drop("def", 2) == "aXYf";
    SplitSingle("aXYf");
  }

  /** Inserting `"\nZ"` inside `"ab"` makes two lines. */
  lemma SpliceInsertsNewline()
    ensures Splice(["ab"], 0, 1, 0, 1, "\nZ") == ["a", "Zb"]
  {
    var merged := Take("ab", 1) + "\nZ" + Drop("ab", 1);
    assert merged == "a" + ("\n" + "Zb");
    SplitPrepend("a", "\n" + "Zb");
    assert ("\n" + "Zb")[1..] == "Zb";
    SplitSingle("Zb");
    assert Split("\n" + "Zb") == [""] + ["Zb"];
    assert "a" + "" == "a";
    assert Split(merged) == ["a", "Zb"];
    var doc: seq<string> := ["ab"];
    assert doc[..0] + ["a", "Zb"] + doc[1..] == ["a", "Zb"];
  }

  /** Deleting nothing from the empty document keeps its one line. */
  lemma SpliceKeepsLastLine()
    ensures Splice([""], 0, 0, 0, 0, "") == [""]
  {
    assert Take("", 0) + "" + Drop("", 0) == "";
  }
}
