/** The viewport arithmetic of `IlludGUI` in src/illud.py, on values: how a
    character is shown, how a line wraps to the text width, how many screen
    rows a range of lines takes, which top row keeps a bottom row visible,
    the three-way scroll rule, and where the cursor lands on its line. */
module Display {
  import opened Common
  import opened Lines

  // ---------------------------------------------------------------------
  // Division facts used by the wrap arithmetic

  /** Division by a positive width is determined by quotient and remainder. */
  lemma DivMod(a: int, w: int, q: int, r: int)
    requires w >= 1 && 0 <= r < w && a == q * w + r
    ensures a / w == q && a % w == r
  {
    var q', r' := a / w, a % w;
    assert a == q' * w + r' && 0 <= r' < w;
    assert (q - q') * w == r' - r by {
      assert q * w + r == q' * w + r';
      assert (q - q') * w == q * w - q' * w;
    }
    ZeroFactor(q - q', w);
  }

  /** A multiple of `w` strictly between `-w` and `w` is zero. */
  lemma ZeroFactor(k: int, w: int)
    requires w >= 1 && -w < k * w < w
    ensures k == 0
  {
    if k >= 1 {
      MulAtLeast(k, w);
    } else if k <= -1 {
      assert (-k) * w == -(k * w);
      MulAtLeast(-k, w);
    }
  }

  lemma {:induction false} MulAtLeast(k: int, w: int)
    requires k >= 1 && w >= 1
    ensures k * w >= w
    decreases k
  {
    if k > 1 {
      MulAtLeast(k - 1, w);
      assert k * w == (k - 1) * w + w;
    }
  }

  /** `ceil(n / w)` as `(n + w - 1) / w`; one width or less is one chunk. */
  lemma CeilOne(n: int, w: int)
    requires w >= 1 && 1 <= n <= w
    ensures (n + w - 1) / w == 1
  {
    DivMod(n + w - 1, w, 1, n - 1);
  }

  /** One more width is one more chunk. */
  lemma CeilStep(n: int, w: int)
    requires w >= 1 && n >= 1
    ensures (n + w + w - 1) / w == (n + w - 1) / w + 1
  {
    var q, r := (n + w - 1) / w, (n + w - 1) % w;
    DivMod(n + w + w - 1, w, q + 1, r);
  }

  // ---------------------------------------------------------------------
  // convertNonPrinting

  /** A character the terminal shows as itself: codes 32 to 126. */
  predicate IsPrintable(c: char)
  {
    32 <= c as int <= 126
  }

  predicate IsHexDigit(c: char)
  {
    ('0' <= c <= '9') || ('a' <= c <= 'f')
  }

  function DigitValue(c: char): nat
    requires IsHexDigit(c)
  {
    if c <= '9' then c as int - '0' as int else c as int - 'a' as int + 10
  }

  function HexDigit(d: nat): (c: char)
    requires d < 16
    ensures IsHexDigit(c) && DigitValue(c) == d
  {
    if d < 10 then ('0' as int + d) as char else ('a' as int + d - 10) as char
  }

  /** `hex(n)[2:]`: lower-case hexadecimal digits without a leading zero. */
  function Hex(n: nat): (r: string)
    ensures |r| >= 1
    ensures forall i :: 0 <= i < |r| ==> IsHexDigit(r[i])
    ensures n > 0 ==> r[0] != '0'
    decreases n
  {
    if n < 16 then [HexDigit(n)] else Hex(n / 16) + [HexDigit(n % 16)]
  }

  /** The number a string of hexadecimal digits names. */
  function HexValue(s: string): nat
    requires forall i :: 0 <= i < |s| ==> IsHexDigit(s[i])
  {
    if s == [] then 0 else 16 * HexValue(s[..|s| - 1]) + DigitValue(s[|s| - 1])
  }

  /** Reading the digits back gives the code. */
  lemma {:induction false} HexRoundTrip(n: nat)
    ensures HexValue(Hex(n)) == n
    decreases n
  {
    if n >= 16 {
      HexRoundTrip(n / 16);
      var r := Hex(n);
      assert r[..|r| - 1] == Hex(n / 16);
    }
  }

  /** The display form of one character: a tab is the four cells `|   `,
      any other code below 32 or above 126 is its code in hex between
      angle brackets, everything else is itself. */
  function Placeholder(c: char): (r: string)
    ensures |r| >= 1
    ensures c == '\t' ==> r == "|   "
    ensures r == [c] <==> IsPrintable(c)
    ensures !IsPrintable(c) ==> |r| >= 3
    ensures forall i :: 0 <= i < |r| ==> IsPrintable(r[i])
  {
    if c == '\t' then "|   "
    else if c as int < 32 || c as int > 126 then "<" + Hex(c as int) + ">"
    else [c]
  }

  /** An escape token names the character's code, so the display form of
      a control character determines it. */
  lemma PlaceholderNamesCode(c: char)
    requires c != '\t' && !IsPrintable(c)
    ensures var r := Placeholder(c);
      && r[0] == '<' && r[|r| - 1] == '>'
      && (forall i :: 1 <= i < |r| - 1 ==> IsHexDigit(r[i]))
      && HexValue(r[1..|r| - 1]) == c as int
  {
    var r := Placeholder(c);
    assert r[1..|r| - 1] == Hex(c as int);
    HexRoundTrip(c as int);
  }

  /** `convertNonPrinting(text)`: the display form of every character, in
      order; at least as long as the text and empty only for the empty
      text. `ConvertPrintable` states what it shows. */
  function ConvertNonPrinting(s: string): (r: string)
    ensures |r| >= |s|
    ensures r == [] <==> s == []
    decreases |s|
  {
    if s == [] then [] else Placeholder(s[0]) + ConvertNonPrinting(s[1..])
  }

  /** The display form only holds printable characters, and it equals the
      text exactly when the text only holds printable characters. */
  lemma {:induction false} ConvertPrintable(s: string)
    ensures var r := ConvertNonPrinting(s);
      && (forall i :: 0 <= i < |r| ==> IsPrintable(r[i]))
      && (r == s <==> forall i :: 0 <= i < |s| ==> IsPrintable(s[i]))
    decreases |s|
  {
    if s != [] {
      ConvertPrintable(s[1..]);
      var p, rest := Placeholder(s[0]), ConvertNonPrinting(s[1..]);
      var r := p + rest;
      assert r == ConvertNonPrinting(s);
      forall i | 0 <= i < |r| ensures IsPrintable(r[i]) {
        if i >= |p| {
          assert r[i] == rest[i - |p|];
        }
      }
      if r == s {
        assert |p| == 1 by {
          assert |rest| >= |s[1..]|;
        }
        assert p == [s[0]] && rest == s[1..];
        forall i | 0 <= i < |s| ensures IsPrintable(s[i]) {
          if i > 0 {
            assert s[i] == s[1..][i - 1];
          }
        }
      }
      if forall i :: 0 <= i < |s| ==> IsPrintable(s[i]) {
        assert IsPrintable(s[0]);
        assert forall i :: 0 <= i < |s[1..]| ==> IsPrintable(s[1..][i]);
        assert [s[0]] + s[1..] == s;
      }
    }
  }

  /** Converting a concatenation converts each part. */
  lemma {:induction false} ConvertAppend(a: string, b: string)
    ensures ConvertNonPrinting(a + b) == ConvertNonPrinting(a) + ConvertNonPrinting(b)
    decreases |a|
  {
    if a == [] {
      assert a + b == b;
    } else {
      assert (a + b)[0] == a[0] && (a + b)[1..] == a[1..] + b;
      ConvertAppend(a[1..], b);
    }
  }

  // ---------------------------------------------------------------------
  // getWrappedLines / getNumWrappedLines

  /** `''.join(segments)`. */
  function Concat(ss: seq<string>): string
  {
    if ss == [] then [] else ss[0] + Concat(ss[1..])
  }

  /** The generator `wrapText` on a non-empty text: `text[i:i + width]`
      for `i` in `range(0, len(text), width)`. Its properties are the
      lemmas below, kept out of its contract so that proofs about single
      segments do not carry them. */
  function Chunks(t: string, w: nat): seq<string>
    requires w >= 1
    decreases |t|
  {
    if |t| <= w then [t] else [t[..w]] + Chunks(t[w..], w)
  }

  /** The segments concatenate back to the text; all but the last are
      exactly `w` long and the last is non-empty and at most `w` long. */
  lemma {:induction false} ChunksFacts(t: string, w: nat)
    requires w >= 1 && |t| >= 1
    ensures var r := Chunks(t, w);
      && |r| >= 1 && Concat(r) == t
      && (forall i :: 0 <= i < |r| - 1 ==> |r[i]| == w)
      && 1 <= |r[|r| - 1]| <= w
    decreases |t|
  {
    if |t| > w {
      var rest := Chunks(t[w..], w);
      ChunksFacts(t[w..], w);
      var r := [t[..w]] + rest;
      assert r[1..] == rest;
      assert t[..w] + t[w..] == t;
      forall i | 0 <= i < |r| - 1 ensures |r[i]| == w {
        if i > 0 { assert r[i] == rest[i - 1]; }
      }
    }
  }

  /** `wrapText(text, width)`: one empty segment for an empty text,
      otherwise segments that concatenate back to the text;
      `WrapSegments` states their lengths. */
  function Wrap(text: string, width: nat): (r: seq<string>)
    requires width >= 1
    ensures |r| >= 1 && Concat(r) == text
    ensures text == [] ==> r == [""]
  {
    if text == [] then [""]
    else
      ChunksFacts(text, width);
      Chunks(text, width)
  }

  /** Every segment is at most `width` long, and all but the last exactly
      `width` long. */
  lemma WrapSegments(text: string, width: nat)
    requires width >= 1
    ensures var r := Wrap(text, width);
      && (forall i :: 0 <= i < |r| - 1 ==> |r[i]| == width)
      && (forall i :: 0 <= i < |r| ==> |r[i]| <= width)
  {
    if text != [] {
      ChunksFacts(text, width);
    }
  }

  /** `wrapText` yields `ceil(len / width)` segments. */
  lemma {:induction false} ChunksCount(t: string, w: nat)
    requires w >= 1 && |t| >= 1
    ensures |Chunks(t, w)| == (|t| + w - 1) / w
    decreases |t|
  {
    if |t| <= w {
      CeilOne(|t|, w);
    } else {
      var n := |t| - w;
      ChunksCount(t[w..], w);
      CeilStep(n, w);
      assert n + w + w - 1 == |t| + w - 1;
    }
  }

  /** A non-empty text wraps to `ceil(len / width)` segments. */
  lemma WrapCount(text: string, width: nat)
    requires width >= 1 && text != []
    ensures |Wrap(text, width)| == (|text| + width - 1) / width
  {
    ChunksCount(text, width);
  }

  /** The offset where segment `q` starts: `q` widths, counted without
      multiplication so that the induction over segments stays linear. */
  function Start(q: nat, w: nat): (s: nat)
  {
    if q == 0 then 0 else Start(q - 1, w) + w
  }

  lemma {:induction false} StartIsProduct(q: nat, w: nat)
    ensures Start(q, w) == q * w
    decreases q
  {
    if q > 0 {
      StartIsProduct(q - 1, w);
      assert q * w == (q - 1) * w + w;
    }
  }

  /** The cell at offset `Start(q, w) + r` is cell `r` of segment `q`. */
  lemma {:induction false} ChunkCell(t: string, w: nat, q: nat, r: nat)
    requires w >= 1 && r < w && Start(q, w) + r < |t|
    ensures q < |Chunks(t, w)|
    ensures r < |Chunks(t, w)[q]|
    ensures Chunks(t, w)[q][r] == t[Start(q, w) + r]
    decreases q
  {
    if q > 0 {
      ChunkCell(t[w..], w, q - 1, r);
    }
  }

  /** Segment `i / width` of `segs` has a cell `i % width`, holding `c`. */
  predicate CellShows(segs: seq<string>, i: nat, width: nat, c: char)
    requires width >= 1
  {
    i / width < |segs| && i % width < |segs[i / width]| && segs[i / width][i % width] == c
  }

  /** Cell `i` of a wrapped text is cell `i % width` of segment
      `i / width`. */
  lemma WrapCell(text: string, width: nat, i: nat)
    requires width >= 1 && i < |text|
    ensures CellShows(Wrap(text, width), i, width, text[i])
  {
    var q, r := i / width, i % width;
    StartIsProduct(q, width);
    assert Start(q, width) + r == i;
    ChunkCell(text, width, q, r);
  }

  /** `getWrappedLines(lineNum, width, convertNonPrinting)`. */
  function WrappedLines(lines: seq<string>, row: nat, width: nat, convert: bool): (r: seq<string>)
    requires row < |lines| && width >= 1
    ensures |r| >= 1
    ensures Concat(r) == if convert then ConvertNonPrinting(lines[row]) else lines[row]
  {
    Wrap(if convert then ConvertNonPrinting(lines[row]) else lines[row], width)
  }

  /** The screen rows one line takes: its wrapped display form's
      segments, at least one. */
  function LineRows(line: string, width: nat): (r: nat)
    requires width >= 1
    ensures r >= 1
    ensures line == [] ==> r == 1
  {
    |Wrap(ConvertNonPrinting(line), width)|
  }

  /** `getNumWrappedLines(lineNum, width)`: `len(getWrappedLines(...))`. */
  function NumWrapped(lines: seq<string>, row: nat, width: nat): (r: nat)
    requires row < |lines| && width >= 1
    ensures r >= 1
    ensures lines[row] == [] ==> r == 1
  {
    |WrappedLines(lines, row, width, true)|
  }

  /** A non-empty line takes `ceil(len(convertNonPrinting(line)) / width)`
      screen rows. */
  lemma NumWrappedCount(lines: seq<string>, row: nat, width: nat)
    requires row < |lines| && width >= 1 && lines[row] != []
    ensures NumWrapped(lines, row, width) == (|ConvertNonPrinting(lines[row])| + width - 1) / width
  {
    WrapCount(ConvertNonPrinting(lines[row]), width);
  }

  // ---------------------------------------------------------------------
  // Screen rows of a range of lines

  /** `getNumWrappedLines(n, width)` for every row `n` of the document,
      built line by line; `RowCountsAt` reads one entry back. */
  function RowCounts(lines: seq<string>, width: nat): (c: seq<nat>)
    requires width >= 1
    ensures |c| == |lines|
    decreases |lines|
  {
    if lines == [] then [] else [LineRows(lines[0], width)] + RowCounts(lines[1..], width)
  }

  lemma {:induction false} RowCountsAt(lines: seq<string>, width: nat, n: nat)
    requires width >= 1 && n < |lines|
    ensures RowCounts(lines, width)[n] == NumWrapped(lines, n, width)
    decreases n
  {
    if n > 0 {
      RowCountsAt(lines[1..], width, n - 1);
    }
  }

  /** `counts` holds `getNumWrappedLines(n, width)` for every row `n`; the
      entry for a row is only looked at where that row's count is
      computed. */
  predicate CountsOf(counts: seq<nat>, lines: seq<string>, width: nat)
    requires width >= 1
  {
    && |counts| == |lines|
    && forall n {:trigger NumWrapped(lines, n, width)} :: 0 <= n < |lines| ==> counts[n] == NumWrapped(lines, n, width)
  }

  /** The row counts are the only sequence `CountsOf` admits. */
  lemma RowCountsOf(lines: seq<string>, width: nat, counts: seq<nat>)
    requires width >= 1
    ensures CountsOf(RowCounts(lines, width), lines, width)
    ensures CountsOf(counts, lines, width) ==> counts == RowCounts(lines, width)
  {
    forall n | 0 <= n < |lines| ensures RowCounts(lines, width)[n] == NumWrapped(lines, n, width) {
      RowCountsAt(lines, width, n);
    }
    if CountsOf(counts, lines, width) {
      forall n | 0 <= n < |lines| ensures counts[n] == RowCounts(lines, width)[n] {
        assert counts[n] == NumWrapped(lines, n, width);
      }
    }
  }

  /** `verify`'s `sum(len(r) for r in rows)`: the screen rows that the
      rows `lo .. hi - 1` take, each counted from its wrapped lines. */
  function SpanRows(lines: seq<string>, lo: nat, hi: nat, width: nat): nat
    requires lo <= hi <= |lines| && width >= 1
    decreases hi - lo
  {
    if lo == hi then 0 else NumWrapped(lines, lo, width) + SpanRows(lines, lo + 1, hi, width)
  }

  lemma {:induction false} SpanRowsIsRowSpan(lines: seq<string>, lo: nat, hi: nat, width: nat, counts: seq<nat>)
    requires lo <= hi <= |lines| && width >= 1 && CountsOf(counts, lines, width)
    ensures SpanRows(lines, lo, hi, width) == RowSpan(counts, lo, hi)
    decreases hi - lo
  {
    if lo < hi {
      SpanRowsIsRowSpan(lines, lo + 1, hi, width, counts);
      SpanRowsStep(lines, lo, hi, width, counts);
    }
  }

  /** The first row of a range contributes its entry in the counts. */
  lemma SpanRowsStep(lines: seq<string>, lo: nat, hi: nat, width: nat, counts: seq<nat>)
    requires lo < hi <= |lines| && width >= 1 && CountsOf(counts, lines, width)
    ensures SpanRows(lines, lo, hi, width) == counts[lo] + SpanRows(lines, lo + 1, hi, width)
  {
    assert counts[lo] == NumWrapped(lines, lo, width);
  }

  /** Every row takes at least one screen row. */
  predicate Positive(counts: seq<nat>)
  {
    forall n :: 0 <= n < |counts| ==> counts[n] >= 1
  }

  lemma RowCountsPositive(lines: seq<string>, width: nat)
    requires width >= 1
    ensures Positive(RowCounts(lines, width))
  {
    forall n | 0 <= n < |lines| ensures RowCounts(lines, width)[n] >= 1 {
      RowCountsAt(lines, width, n);
    }
  }

  /** The screen rows that the rows `lo .. hi - 1` take together. */
  function RowSpan(counts: seq<nat>, lo: nat, hi: nat): nat
    requires lo <= hi <= |counts|
    decreases hi - lo
  {
    if lo == hi then 0 else counts[lo] + RowSpan(counts, lo + 1, hi)
  }

  lemma {:induction false} RowSpanSplit(counts: seq<nat>, lo: nat, mid: nat, hi: nat)
    requires lo <= mid <= hi <= |counts|
    ensures RowSpan(counts, lo, hi) == RowSpan(counts, lo, mid) + RowSpan(counts, mid, hi)
    decreases mid - lo
  {
    if lo < mid {
      RowSpanSplit(counts, lo + 1, mid, hi);
    }
  }

  /** Adding the row below a range adds that row's count. */
  lemma RowSpanGrow(counts: seq<nat>, lo: nat, hi: nat)
    requires lo <= hi < |counts|
    ensures RowSpan(counts, lo, hi + 1) == RowSpan(counts, lo, hi) + counts[hi]
  {
    RowSpanSplit(counts, lo, hi, hi + 1);
  }

  /** Each row of a range takes at least one screen row. */
  lemma {:induction false} RowSpanAtLeast(counts: seq<nat>, lo: nat, hi: nat)
    requires lo <= hi <= |counts| && Positive(counts)
    ensures RowSpan(counts, lo, hi) >= hi - lo
    decreases hi - lo
  {
    if lo < hi {
      RowSpanAtLeast(counts, lo + 1, hi);
    }
  }

  /** Starting higher up takes at least one more screen row per row. */
  lemma RowSpanMonotone(counts: seq<nat>, lo': nat, lo: nat, hi: nat)
    requires lo' <= lo <= hi <= |counts| && Positive(counts)
    ensures RowSpan(counts, lo', hi) >= RowSpan(counts, lo, hi) + (lo - lo')
  {
    RowSpanSplit(counts, lo', lo, hi);
    RowSpanAtLeast(counts, lo', lo);
  }

  // ---------------------------------------------------------------------
  // scrollBottomToTop and scrollTo

  /** With top row `t`, all of row `row` fits in `height` screen rows. */
  predicate Shows(counts: seq<nat>, height: int, t: int, row: int)
    requires row < |counts|
  {
    0 <= t <= row && RowSpan(counts, t, row + 1) <= height
  }

  /** The search upwards from a top row that already keeps `bottom` within
      `height` rows: it stops at row 0 or below a row that would not fit. */
  function ExtendUp(counts: seq<nat>, height: int, bottom: nat, t: nat): (r: nat)
    requires t <= bottom < |counts|
    requires RowSpan(counts, t, bottom + 1) <= height
    ensures r <= t && Shows(counts, height, r, bottom)
    ensures r == 0 || !Shows(counts, height, r - 1, bottom)
    decreases t
  {
    if t == 0 || RowSpan(counts, t - 1, bottom + 1) > height then t
    else ExtendUp(counts, height, bottom, t - 1)
  }

  /** What `scrollBottomToTop(bottom, width, height)` returns, over the
      rows' counts: `None` when row `bottom` alone is taller than
      `height` (its `verify` assertion fails), otherwise the highest top
      row that keeps all of `bottom` visible. */
  function LowestTop(counts: seq<nat>, height: int, bottom: nat): (r: Option<nat>)
    requires bottom < |counts| && Positive(counts)
    ensures r.None? <==> counts[bottom] > height
    ensures r.Some? ==> Shows(counts, height, r.value, bottom)
  {
    assert RowSpan(counts, bottom, bottom + 1) == counts[bottom];
    if counts[bottom] > height then None
    else Some(ExtendUp(counts, height, bottom, bottom))
  }

  /** No top row above `LowestTop` keeps `bottom` visible. */
  lemma LowestTopHighest(counts: seq<nat>, height: int, bottom: nat)
    requires bottom < |counts| && Positive(counts)
    ensures var r := LowestTop(counts, height, bottom);
      r.Some? ==> forall t :: 0 <= t < r.value ==> !Shows(counts, height, t, bottom)
  {
    var r := LowestTop(counts, height, bottom);
    if r.Some? {
      var top := r.value;
      forall t | 0 <= t < top ensures !Shows(counts, height, t, bottom) {
        RowSpanMonotone(counts, t, top - 1, bottom + 1);
      }
    }
  }

  /** The top rows that show `bottom` are exactly `LowestTop .. bottom`. */
  lemma LowestTopWindow(counts: seq<nat>, height: int, bottom: nat, t: int)
    requires bottom < |counts| && Positive(counts)
    requires LowestTop(counts, height, bottom).Some?
    ensures Shows(counts, height, t, bottom) <==> LowestTop(counts, height, bottom).value <= t <= bottom
  {
    var lo := LowestTop(counts, height, bottom).value;
    LowestTopHighest(counts, height, bottom);
    if lo <= t <= bottom {
      RowSpanMonotone(counts, lo, t, bottom + 1);
    }
  }

  /** A top row that keeps `bottom` visible and could not start one row
      higher is the one `LowestTop` finds. */
  lemma LowestTopUnique(counts: seq<nat>, height: int, bottom: nat, t: nat)
    requires bottom < |counts| && Positive(counts)
    requires Shows(counts, height, t, bottom)
    requires t == 0 || !Shows(counts, height, t - 1, bottom)
    ensures LowestTop(counts, height, bottom) == Some(t)
  {
    RowSpanMonotone(counts, t, bottom, bottom + 1);
    assert RowSpan(counts, bottom, bottom + 1) == counts[bottom];
    var lo := LowestTop(counts, height, bottom).value;
    LowestTopWindow(counts, height, bottom, t);
    if lo < t {
      LowestTopWindow(counts, height, bottom, t - 1);
    }
  }

  /** `scrollTo`'s rule: a cursor row above the window becomes the top; a
      top above `lowestTop` moves down to it; otherwise nothing moves. */
  function ScrollRule(lineNum: int, scrollTop: int, lowestTop: int): int
  {
    if lineNum < scrollTop then lineNum
    else if scrollTop < lowestTop then lowestTop
    else scrollTop
  }

  /** The rule ends on a top row that shows the cursor row. */
  lemma ScrollRuleShows(counts: seq<nat>, height: int, row: nat, scrollTop: int)
    requires row < |counts| && Positive(counts) && 0 <= scrollTop
    requires LowestTop(counts, height, row).Some?
    ensures Shows(counts, height, ScrollRule(row, scrollTop, LowestTop(counts, height, row).value), row)
  {
    var lo := LowestTop(counts, height, row).value;
    LowestTopWindow(counts, height, row, ScrollRule(row, scrollTop, lo));
  }

  /** The rule moves the window as little as possible: it ends on a top row
      that shows the cursor row, leaves a top row that already shows it
      where it is, and no top row that shows it is nearer the old one. */
  lemma ScrollRuleNearest(counts: seq<nat>, height: int, row: nat, scrollTop: int)
    requires row < |counts| && Positive(counts) && 0 <= scrollTop
    requires LowestTop(counts, height, row).Some?
    ensures var r := ScrollRule(row, scrollTop, LowestTop(counts, height, row).value);
      && Shows(counts, height, r, row)
      && (Shows(counts, height, scrollTop, row) ==> r == scrollTop)
      && (forall t :: Shows(counts, height, t, row) ==> Dist(scrollTop, r) <= Dist(scrollTop, t))
  {
    var lo := LowestTop(counts, height, row).value;
    var r := ScrollRule(row, scrollTop, lo);
    LowestTopWindow(counts, height, row, r);
    LowestTopWindow(counts, height, row, scrollTop);
    forall t | Shows(counts, height, t, row)
      ensures Dist(scrollTop, r) <= Dist(scrollTop, t)
    {
      LowestTopWindow(counts, height, row, t);
    }
  }

  // ---------------------------------------------------------------------
  // drawText's gutter and cursor arithmetic

  /** `len(str(n))`. */
  function Digits(n: nat): (r: nat)
    ensures r >= 1
  {
    if n < 10 then 1 else 1 + Digits(n / 10)
  }

  /** `max(3, len(str(highestLineNum))) + 1`. */
  function GutterWidth(numLines: nat): (r: nat)
    ensures r >= 4
  {
    Max(3, Digits(numLines)) + 1
  }

  /** `len(convertNonPrinting(line[:col]))`: the cursor's display offset,
      counted in display cells. */
  function RealCol(line: string, col: nat): (r: nat)
    ensures r <= |ConvertNonPrinting(line)|
    ensures col < |line| ==> r < |ConvertNonPrinting(line)|
  {
    TakeDrop(line, col);
    ConvertAppend(Take(line, col), Drop(line, col));
    |ConvertNonPrinting(Take(line, col))|
  }

  /** Converting a non-empty text starts with its first character's
      display form. */
  lemma ConvertFirst(s: string)
    requires s != []
    ensures ConvertNonPrinting(s) == Placeholder(s[0]) + ConvertNonPrinting(s[1..])
  {
  }

  /** On a character of the line, the cursor's display offset holds the
      first cell of that character's display form. */
  lemma CursorOffsetShowsCharacter(line: string, col: nat)
    requires col < |line|
    ensures var rc := RealCol(line, col);
      && rc < |ConvertNonPrinting(line)|
      && ConvertNonPrinting(line)[rc] == Placeholder(line[col])[0]
  {
    var head, tail := line[..col], line[col..];
    assert line == head + tail;
    ConvertAppend(head, tail);
    ConvertFirst(tail);
    assert tail[0] == line[col];
    var p := Placeholder(line[col]);
    assert ConvertNonPrinting(line) == ConvertNonPrinting(head) + (p + ConvertNonPrinting(tail[1..]));
    assert Take(line, col) == head;
  }

  /** On a character of the line, the cursor's segment `realCol / width`
      and column `realCol % width` hold the first cell of that
      character's display form. */
  lemma CursorCellShowsCharacter(line: string, col: nat, width: nat)
    requires width >= 1 && col < |line|
    ensures CellShows(Wrap(ConvertNonPrinting(line), width), RealCol(line, col), width, Placeholder(line[col])[0])
  {
    var shown, rc := ConvertNonPrinting(line), RealCol(line, col);
    CursorOffsetShowsCharacter(line, col);
    WrapCell(shown, width, rc);
  }

  /** `ceil(n / w)` exceeds `n / w` exactly when `w` does not divide `n`. */
  lemma CeilCompare(n: int, w: int)
    requires w >= 1 && n >= 1
    ensures n / w <= (n + w - 1) / w
    ensures n / w < (n + w - 1) / w <==> n % w != 0
  {
    var q, r := n / w, n % w;
    assert n == q * w + r && 0 <= r < w;
    if r == 0 {
      DivMod(n + w - 1, w, q, w - 1);
    } else {
      DivMod(n + w - 1, w, q + 1, r - 1);
    }
  }

  /** The offset just after a wrapped text falls in an existing segment
      unless the text is non-empty and fills its last segment. */
  lemma WrapPastEnd(text: string, width: nat)
    requires width >= 1
    ensures var n, segs := |text|, Wrap(text, width);
      && n / width <= |segs|
      && (n / width < |segs| <==> n == 0 || n % width != 0)
  {
    if |text| > 0 {
      WrapCount(text, width);
      CeilCompare(|text|, width);
    } else {
      DivMod(0, width, 0, 0);
    }
  }

  /** At or past the end of the line the cursor sits after the last cell;
      its segment index is past the last segment exactly when the display
      form is non-empty and fills its last segment to the full width. */
  lemma CursorPastEnd(line: string, col: nat, width: nat)
    requires width >= 1 && col >= |line|
    ensures var rc, segs := RealCol(line, col), Wrap(ConvertNonPrinting(line), width);
      && rc == |ConvertNonPrinting(line)|
      && rc / width <= |segs|
      && (rc / width < |segs| <==> rc == 0 || rc % width != 0)
  {
    assert Take(line, col) == line;
    WrapPastEnd(ConvertNonPrinting(line), width);
  }

  /** On a character of its line, the cursor's screen row lies among the
      rows that line occupies below the window's top line `first`. */
  lemma CursorRowInsideLine(lines: seq<string>, width: nat, counts: seq<nat>,
                            first: nat, row: nat, col: nat)
    requires width >= 1 && first <= row < |lines| && CountsOf(counts, lines, width)
    requires col < |lines[row]|
    ensures RowSpan(counts, first, row) + RealCol(lines[row], col) / width < RowSpan(counts, first, row + 1)
  {
    var segs := Wrap(ConvertNonPrinting(lines[row]), width);
    var q := RealCol(lines[row], col) / width;
    assert q < |segs| by {
      CursorCellShowsCharacter(lines[row], col, width);
    }
    assert counts[row] == |segs| by {
      assert counts[row] == NumWrapped(lines, row, width);
    }
    RowSpanGrow(counts, first, row);
  }
}
