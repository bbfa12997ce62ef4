/** The buffer of the top-level illud.py: the same split-on-newline
    document as `LineBuffer`, with `checkPoint`, a bounds check of a
    position that reports instead of failing. */
module CheckedBuffer {
  import opened Lines
  import opened LineBuffer

  /** What `checkPoint(row, col)` does: whether it prints the row
      message, whether reading `lines[row]` raises `IndexError` (which
      ends the call), and whether it prints the column message. */
  datatype PointReport = PointReport(rowMessage: bool, raised: bool, colMessage: bool)
  {
    /** Nothing printed and nothing raised. */
    predicate Clean()
    {
      !rowMessage && !raised && !colMessage
    }
  }

  class Buffer {
    var lines: seq<string>

    ghost predicate Valid()
      reads this
    {
      |lines| >= 1 && NoNewlines(lines)
    }

    /** `Buffer(text)`: the text split on newlines. */
    constructor (text: string)
      ensures Valid()
      ensures lines == Split(text)
    {
      lines := Split(text);
    }

    /** `getLines()`: a copy of the lines. */
    function GetLines(): (r: seq<string>)
      reads this
      requires Valid()
      ensures r == lines
      ensures |r| >= 1 && NoNewlines(r)
    {
      lines
    }

    /** `checkPoint(row, col)`. The row message is printed for a row
        outside `0 .. len(lines) - 1`; the row is then read with Python's
        indexing, so a negative row down to `-len(lines)` reads a row from
        the end and anything further out raises. The column is checked
        against the row read, with the end of the line allowed. */
    function CheckPoint(row: int, col: int): (r: PointReport)
      reads this
      ensures r.rowMessage <==> row < 0 || row > |lines| - 1
      ensures r.raised <==> row >= |lines| || row < -|lines|
      ensures r.raised ==> !r.colMessage
      ensures !r.raised ==> (r.colMessage <==> col < 0 || col > |PyAt(lines, row)|)
      ensures r.Clean() <==> ValidPosition(lines, row, col)
    {
      var rowMessage := row < 0 || row > |lines| - 1;
      if row >= |lines| || row < -|lines| then
        PointReport(rowMessage, true, false)
      else
        var currentRow := if row >= 0 then lines[row] else lines[|lines| + row];
        PointReport(rowMessage, false, col < 0 || col > |currentRow|)
    }
  }

  /** `checkPoint` is silent exactly on the valid positions, the
      insertion point after a line's last character included. */
  lemma CheckPointCleanIffValid(b: Buffer, row: int, col: int)
    ensures b.CheckPoint(row, col).Clean() <==> ValidPosition(b.lines, row, col)
  {
  }

  /** A row below the document is reported and then raises. */
  lemma CheckPointPastLastRow(b: Buffer, col: int)
    ensures var r := b.CheckPoint(|b.lines|, col);
      r.rowMessage && r.raised && !r.colMessage
  {
  }

  /** A negative row within reach is reported, yet its column is checked
      against a row counted from the end. */
  lemma CheckPointNegativeRow(b: Buffer, col: int)
    requires b.Valid()
    ensures var r := b.CheckPoint(-1, col);
      && r.rowMessage && !r.raised
      && (r.colMessage <==> col < 0 || col > |b.lines[|b.lines| - 1]|)
  {
  }
}
