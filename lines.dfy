/** Text as a sequence of lines: Python's `str.split('\n')`, its inverse
    `'\n'.join(...)`, and Python's clamping slices `s[:n]` and `s[n:]`. */
module Lines {

  /** Python's `s[:n]` for a non-negative `n`: the slice stops at the end. */
  function Take<T>(s: seq<T>, n: nat): (r: seq<T>)
    ensures |r| == if n <= |s| then n else |s|
    ensures forall i :: 0 <= i < |r| ==> r[i] == s[i]
  {
    if n <= |s| then s[..n] else s
  }

  /** Python's `s[n:]` for a non-negative `n`: empty past the end. */
  function Drop<T>(s: seq<T>, n: nat): (r: seq<T>)
    ensures |r| == if n <= |s| then |s| - n else 0
    ensures forall i :: 0 <= i < |r| ==> r[i] == s[n + i]
  {
    if n <= |s| then s[n..] else []
  }

  /** Python's `s[i]` for `-len(s) <= i < len(s)`: a negative index
      counts from the end. */
  function PyAt<T>(s: seq<T>, i: int): T
    requires -|s| <= i < |s|
  {
    if i >= 0 then s[i] else s[|s| + i]
  }

  lemma TakeDrop<T>(s: seq<T>, n: nat)
    ensures Take(s, n) + Drop(s, n) == s
  {
  }

  /** No line of the document holds a newline: the newlines are the
      boundaries between the elements. */
  predicate NoNewlines(ls: seq<string>)
  {
    forall i :: 0 <= i < |ls| ==> '\n' !in ls[i]
  }

  /** `s.split('\n')`: the pieces between newlines, always at least one. */
  function Split(s: string): (r: seq<string>)
    ensures |r| >= 1
    ensures NoNewlines(r)
    decreases |s|
  {
    if s == [] then [""]
    else
      var rest := Split(s[1..]);
      if s[0] == '\n' then [""] + rest
      else [[s[0]] + rest[0]] + rest[1..]
  }

  /** `'\n'.join(ls)`. */
  function Join(ls: seq<string>): string
  {
    if ls == [] then ""
    else if |ls| == 1 then ls[0]
    else ls[0] + "\n" + Join(ls[1..])
  }

  /** Joining the pieces of a split gives the text back. */
  lemma {:induction false} JoinSplit(s: string)
    ensures Join(Split(s)) == s
    decreases |s|
  {
    if s != [] {
      var rest := Split(s[1..]);
      JoinSplit(s[1..]);
      if s[0] == '\n' {
        assert Split(s) == [""] + rest;
        assert s == "\n" + s[1..];
      } else if |rest| == 1 {
        assert Split(s) == [[s[0]] + rest[0]];
        assert s == [s[0]] + s[1..];
      } else {
        var head := [s[0]] + rest[0];
        assert Split(s) == [head] + rest[1..];
        assert ([head] + rest[1..])[1..] == rest[1..];
        assert Join(rest) == rest[0] + "\n" + Join(rest[1..]);
        assert s == [s[0]] + s[1..];
      }
    }
  }

  /** A newline-free prefix stays glued to the first piece. */
  lemma {:induction false} SplitPrepend(line: string, s: string)
    requires '\n' !in line
    ensures Split(line + s) == [line + Split(s)[0]] + Split(s)[1..]
    decreases |line|
  {
    if line != [] {
      var t := line + s;
      assert t[0] == line[0] && t[1..] == line[1..] + s;
      SplitPrepend(line[1..], s);
      assert line[0] != '\n';
      assert [line[0]] + (line[1..] + Split(s)[0]) == line + Split(s)[0];
    } else {
      assert line + s == s;
      assert line + Split(s)[0] == Split(s)[0];
      assert [Split(s)[0]] + Split(s)[1..] == Split(s);
    }
  }

  /** A text without newlines splits into itself. */
  lemma SplitSingle(s: string)
    requires '\n' !in s
    ensures Split(s) == [s]
  {
    SplitPrepend(s, "");
    assert s + "" == s;
  }

  /** Splitting a join of newline-free lines gives the lines back. */
  lemma {:induction false} SplitJoin(ls: seq<string>)
    requires |ls| >= 1 && NoNewlines(ls)
    ensures Split(Join(ls)) == ls
    decreases |ls|
  {
    assert '\n' !in ls[0];
    if |ls| == 1 {
      SplitSingle(ls[0]);
    } else {
      var tail := Join(ls[1..]);
      SplitJoin(ls[1..]);
      assert Join(ls) == ls[0] + ("\n" + tail);
      SplitPrepend(ls[0], "\n" + tail);
      assert ("\n" + tail)[1..] == tail;
      assert Split("\n" + tail) == [""] + ls[1..];
      assert ls[0] + "" == ls[0];
    }
  }

  /** Gluing text in front of a join extends its first line. */
  lemma {:induction false} JoinPrepend(a: string, ls: seq<string>)
    requires |ls| >= 1
    ensures Join([a + ls[0]] + ls[1..]) == a + Join(ls)
  {
    var m := [a + ls[0]] + ls[1..];
    if |ls| > 1 {
      assert m[1..] == ls[1..];
    }
  }

  /** Gluing text behind a join extends its last line. */
  lemma {:induction false} JoinAppend(ls: seq<string>, b: string)
    requires |ls| >= 1
    ensures Join(ls[..|ls| - 1] + [ls[|ls| - 1] + b]) == Join(ls) + b
    decreases |ls|
  {
    var m := ls[..|ls| - 1] + [ls[|ls| - 1] + b];
    if |ls| > 1 {
      JoinAppend(ls[1..], b);
      assert m[0] == ls[0];
      assert m[1..] == ls[1..][..|ls[1..]| - 1] + [ls[1..][|ls[1..]| - 1] + b];
    }
  }

  /** The number of pieces is one more than the number of newlines. */
  function CountNewlines(s: string): nat
  {
    if s == [] then 0 else (if s[0] == '\n' then 1 else 0) + CountNewlines(s[1..])
  }

  lemma {:induction false} SplitCount(s: string)
    ensures |Split(s)| == CountNewlines(s) + 1
    decreases |s|
  {
    if s != [] {
      SplitCount(s[1..]);
    }
  }
}
