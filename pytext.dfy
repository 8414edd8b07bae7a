/** The pieces of Python's text handling that the readers are built from:
    `file.readlines()`, `str.rstrip(c)` and `str.split(c)`, over text that
    has already been read and decoded. `Join` (`sep.join(...)`) is not used
    by the readers; it is the inverse of `Split` that the split lemmas and
    the description of a line's fields are stated with. */
module PyText {

  /** Number of occurrences of `c` in `s`. */
  function Count(s: string, c: char): nat
  {
    if |s| == 0 then 0 else (if s[0] == c then 1 else 0) + Count(s[1..], c)
  }

  lemma {:induction false} CountAppend(a: string, b: string, c: char)
    ensures Count(a + b, c) == Count(a, c) + Count(b, c)
  {
    if |a| > 0 {
      assert (a + b)[0] == a[0];
      assert (a + b)[1..] == a[1..] + b;
      CountAppend(a[1..], b, c);
    } else {
      assert a + b == b;
    }
  }

  /** `c` occurs in `s` exactly when it is counted at least once. */
  lemma {:induction false} CountPositive(s: string, c: char)
    ensures Count(s, c) > 0 <==> c in s
  {
    if |s| > 0 {
      CountPositive(s[1..], c);
      assert s == [s[0]] + s[1..];
    }
  }

  /** Index of the first `c` in `s`, or `|s|` when there is none
      (Python's `s.find(c)`, with `|s|` standing for -1). */
  function FirstIndexOf(s: string, c: char): (k: nat)
    ensures k <= |s|
  {
    if |s| == 0 then 0
    else if s[0] == c then 0
    else 1 + FirstIndexOf(s[1..], c)
  }

  /** `FirstIndexOf` finds the first `c`: there is one at the index it
      returns, unless that is `|s|`, and none before it. */
  lemma {:induction false} FirstIndexOfFinds(s: string, c: char)
    ensures FirstIndexOf(s, c) < |s| ==> s[FirstIndexOf(s, c)] == c
    ensures forall j :: 0 <= j < FirstIndexOf(s, c) ==> s[j] != c
  {
    if |s| > 0 && s[0] != c {
      FirstIndexOfFinds(s[1..], c);
    }
  }

  // ---------------------------------------------------------------------
  // file.readlines()
  // ---------------------------------------------------------------------

  /** Where the first line of `s` ends: just past its first '\n', or at the
      end of the text when it has none. */
  function LineEnd(s: string): (n: nat)
    ensures n <= |s|
    ensures |s| > 0 ==> 0 < n
  {
    var k := FirstIndexOf(s, '\n');
    if k < |s| then k + 1 else |s|
  }

  /** The first line ends with its '\n' when text follows it, and holds no
      other '\n'. */
  lemma LineEndFinds(s: string)
    ensures LineEnd(s) < |s| ==> s[LineEnd(s) - 1] == '\n'
    ensures forall j :: 0 <= j < LineEnd(s) - 1 ==> s[j] != '\n'
  {
    FirstIndexOfFinds(s, '\n');
  }

  /** The lines of `s` as `readlines()` yields them: each line keeps its
      '\n', a last line without '\n' is kept as it is, and a '\n' at the
      very end opens no extra empty line. */
  function ReadLines(s: string): (lines: seq<string>)
    ensures |lines| == 0 <==> |s| == 0
    ensures |lines| <= |s|
    decreases |s|
  {
    if |s| == 0 then []
    else
      var n := LineEnd(s);
      [s[..n]] + ReadLines(s[n..])
  }

  /** The text the lines were read from. */
  function Concat(lines: seq<string>): string
  {
    if |lines| == 0 then [] else lines[0] + Concat(lines[1..])
  }

  /** `l` is a line as `readlines()` yields it: not empty, '\n' only as its
      last character, and ending in '\n' unless it is the last line. */
  predicate IsLine(l: string, last: bool)
  {
    && |l| > 0
    && (forall j :: 0 <= j < |l| - 1 ==> l[j] != '\n')
    && (!last ==> l[|l| - 1] == '\n')
  }

  predicate WellFormedLines(lines: seq<string>)
  {
    forall i :: 0 <= i < |lines| ==> IsLine(lines[i], i == |lines| - 1)
  }

  /** One step of `ReadLines` on a non-empty text. */
  lemma ReadLinesStep(s: string, n: nat)
    requires |s| > 0 && n == LineEnd(s)
    ensures ReadLines(s) == [s[..n]] + ReadLines(s[n..])
  {
  }

  /** Reading lines loses nothing: the lines put back together are the text. */
  lemma {:induction false} ReadLinesConcat(s: string)
    ensures Concat(ReadLines(s)) == s
    decreases |s|
  {
    if |s| > 0 {
      var n := LineEnd(s);
      ReadLinesStep(s, n);
      ReadLinesConcat(s[n..]);
      assert s == s[..n] + s[n..];
    }
  }

  /** Every line has the shape `readlines()` promises. */
  lemma {:induction false} ReadLinesWellFormed(s: string)
    ensures WellFormedLines(ReadLines(s))
    decreases |s|
  {
    if |s| > 0 {
      var n := LineEnd(s);
      var rest := s[n..];
      LineEndFinds(s);
      ReadLinesStep(s, n);
      ReadLinesWellFormed(rest);
      var lines := ReadLines(s);
      forall i | 0 <= i < |lines|
        ensures IsLine(lines[i], i == |lines| - 1)
      {
        if i > 0 {
          assert lines[i] == ReadLines(rest)[i - 1];
        } else if |lines| > 1 {
          assert |rest| > 0;
        }
      }
    }
  }

  /** Text that ends a line reads as its own lines followed by those of
      what comes after it. */
  lemma ReadLinesAppend(a: string, b: string)
    requires |a| == 0 || a[|a| - 1] == '\n'
    ensures ReadLines(a + b) == ReadLines(a) + ReadLines(b)
  {
    ReadLinesWellFormed(a);
    ReadLinesWellFormed(b);
    ReadLinesConcat(a);
    ReadLinesConcat(b);
    if |a| > 0 {
      ReadLinesLast(a);
    }
    ConcatLinesAppend(ReadLines(a), ReadLines(b));
  }

  /** Lines whose last one ends in '\n', followed by more lines, read back
      as all of those lines. */
  lemma ConcatLinesAppend(x: seq<string>, y: seq<string>)
    requires WellFormedLines(x) && WellFormedLines(y)
    requires |x| == 0 || (|x[|x| - 1]| > 0 && x[|x| - 1][|x[|x| - 1]| - 1] == '\n')
    ensures ReadLines(Concat(x) + Concat(y)) == x + y
  {
    WellFormedAppend(x, y);
    ConcatAppend(x, y);
    ConcatReadLines(x + y);
  }

  /** The last line read ends with the text's last character. */
  lemma {:induction false} ReadLinesLast(s: string)
    requires |s| > 0
    ensures |ReadLines(s)| > 0
    ensures var l := ReadLines(s)[|ReadLines(s)| - 1]; |l| > 0 && l[|l| - 1] == s[|s| - 1]
    decreases |s|
  {
    var n := LineEnd(s);
    var rest := s[n..];
    ReadLinesStep(s, n);
    if |rest| > 0 {
      ReadLinesLast(rest);
      assert ReadLines(s)[|ReadLines(s)| - 1] == ReadLines(rest)[|ReadLines(rest)| - 1];
    } else {
      assert ReadLines(s) == [s[..n]];
    }
  }

  lemma {:induction false} ConcatAppend(x: seq<string>, y: seq<string>)
    ensures Concat(x + y) == Concat(x) + Concat(y)
  {
    if |x| == 0 {
      assert x + y == y;
    } else {
      assert (x + y)[1..] == x[1..] + y;
      ConcatAppend(x[1..], y);
    }
  }

  /** Well-formed lines after lines whose last one ends in '\n' are still
      well-formed. */
  lemma WellFormedAppend(x: seq<string>, y: seq<string>)
    requires WellFormedLines(x) && WellFormedLines(y)
    requires |x| == 0 || (|x[|x| - 1]| > 0 && x[|x| - 1][|x[|x| - 1]| - 1] == '\n')
    ensures WellFormedLines(x + y)
  {
    var z := x + y;
    forall i | 0 <= i < |z|
      ensures IsLine(z[i], i == |z| - 1)
    {
      if i < |x| {
        assert z[i] == x[i];
        assert IsLine(x[i], i == |x| - 1);
      } else {
        assert z[i] == y[i - |x|];
        assert IsLine(y[i - |x|], i - |x| == |y| - 1);
      }
    }
  }

  /** One line per '\n', plus one for a last line that has no '\n'. */
  lemma {:induction false} ReadLinesCount(s: string)
    ensures |ReadLines(s)| == Count(s, '\n') + (if |s| > 0 && s[|s| - 1] != '\n' then 1 else 0)
    decreases |s|
  {
    if |s| > 0 {
      var n := LineEnd(s);
      var rest := s[n..];
      ReadLinesStep(s, n);
      ReadLinesCount(rest);
      CountFirstLine(s);
      if |rest| > 0 {
        assert s[|s| - 1] == rest[|rest| - 1];
      }
    }
  }

  /** The first line holds one '\n' if it ends in one, and no other. */
  lemma CountFirstLine(s: string)
    requires |s| > 0
    ensures LineEnd(s) < |s| ==> s[LineEnd(s) - 1] == '\n'
    ensures Count(s, '\n') == (if s[LineEnd(s) - 1] == '\n' then 1 else 0) + Count(s[LineEnd(s)..], '\n')
  {
    LineEndFinds(s);
    CountAfterNone(s, LineEnd(s) - 1, '\n');
  }

  /** Counting past a stretch free of `c`. */
  lemma CountAfterNone(s: string, m: nat, c: char)
    requires m < |s|
    requires forall j :: 0 <= j < m ==> s[j] != c
    ensures Count(s, c) == (if s[m] == c then 1 else 0) + Count(s[m + 1..], c)
  {
    var front, rest := s[..m], s[m + 1..];
    assert s == front + [s[m]] + rest;
    CountAppend(front + [s[m]], rest, c);
    CountAppend(front, [s[m]], c);
    NoOccurrenceCount(front, c);
    assert [s[m]][1..] == [];
  }

  lemma {:induction false} NoOccurrenceCount(s: string, c: char)
    requires forall j :: 0 <= j < |s| ==> s[j] != c
    ensures Count(s, c) == 0
  {
    if |s| > 0 {
      NoOccurrenceCount(s[1..], c);
    }
  }

  /** Reading well-formed lines back gives exactly those lines, so
      `ReadLines` is the only way to cut a text into such lines. */
  lemma {:induction false} ConcatReadLines(lines: seq<string>)
    requires WellFormedLines(lines)
    ensures ReadLines(Concat(lines)) == lines
  {
    if |lines| > 0 {
      var l, tail := lines[0], lines[1..];
      var s := l + Concat(tail);
      assert IsLine(l, |lines| == 1);
      WellFormedTail(lines);
      ConcatReadLines(tail);
      LineEndOfLine(l, Concat(tail), |lines| == 1);
      ReadLinesStep(s, |l|);
      assert s[..|l|] == l;
      assert s[|l|..] == Concat(tail);
    }
  }

  lemma WellFormedTail(lines: seq<string>)
    requires |lines| > 0 && WellFormedLines(lines)
    ensures WellFormedLines(lines[1..])
  {
    var tail := lines[1..];
    forall i | 0 <= i < |tail|
      ensures IsLine(tail[i], i == |tail| - 1)
    {
      assert tail[i] == lines[i + 1];
    }
  }

  /** A line followed by the rest of the text ends where the line does. */
  lemma LineEndOfLine(l: string, rest: string, last: bool)
    requires IsLine(l, last)
    requires last ==> |rest| == 0
    ensures LineEnd(l + rest) == |l|
  {
    var s := l + rest;
    assert forall j :: 0 <= j < |l| ==> s[j] == l[j];
    var k := FirstIndexOf(s, '\n');
    FirstIndexOfFinds(s, '\n');
    if l[|l| - 1] == '\n' {
      assert k == |l| - 1;
    } else {
      assert s == l;
      assert k == |s|;
    }
  }

  // ---------------------------------------------------------------------
  // str.rstrip(c)
  // ---------------------------------------------------------------------

  /** `s.rstrip(c)`: the longest prefix of `s` that does not end in `c`,
      what is cut off being a run of `c` only. */
  function RStrip(s: string, c: char): (r: string)
    ensures r <= s
    ensures |r| == 0 || r[|r| - 1] != c
    ensures forall j :: |r| <= j < |s| ==> s[j] == c
  {
    if |s| == 0 || s[|s| - 1] != c then s else RStrip(s[..|s| - 1], c)
  }

  /** On a line from `readlines()`, `rstrip('\n')` removes just the line's
      own '\n' (if it has one) and leaves no '\n' behind. */
  lemma RStripLine(l: string, last: bool)
    requires IsLine(l, last)
    ensures RStrip(l, '\n') == if l[|l| - 1] == '\n' then l[..|l| - 1] else l
    ensures '\n' !in RStrip(l, '\n')
  {
    var r := RStrip(l, '\n');
    if l[|l| - 1] == '\n' {
      assert |r| == |l| - 1;
    }
  }

  // ---------------------------------------------------------------------
  // str.split(sep) and sep.join(fields)
  // ---------------------------------------------------------------------

  /** `s.split(sep)` for a one-character separator: the pieces between
      separators, in order, empty pieces included. */
  function Split(s: string, sep: char): (fields: seq<string>)
    ensures |fields| >= 1
    ensures forall i :: 0 <= i < |fields| ==> sep !in fields[i]
    decreases |s|
  {
    var k := FirstIndexOf(s, sep);
    FirstIndexOfFinds(s, sep);
    if k == |s| then [s] else [s[..k]] + Split(s[k + 1..], sep)
  }

  /** `sep.join(fields)`. */
  function Join(fields: seq<string>, sep: char): string
  {
    if |fields| == 0 then []
    else if |fields| == 1 then fields[0]
    else fields[0] + [sep] + Join(fields[1..], sep)
  }

  /** Splitting loses nothing: joining the fields gives the text back. */
  lemma {:induction false} SplitJoin(s: string, sep: char)
    ensures Join(Split(s, sep), sep) == s
    decreases |s|
  {
    var k := FirstIndexOf(s, sep);
    FirstIndexOfFinds(s, sep);
    if k < |s| {
      var rest := s[k + 1..];
      SplitStep(s, sep, k);
      SplitJoin(rest, sep);
      JoinStep(s[..k], Split(rest, sep), sep);
      assert s == s[..k] + [sep] + rest;
    }
  }

  /** One step of `Split` on a text whose first separator is at `k`. */
  lemma SplitStep(s: string, sep: char, k: nat)
    requires k == FirstIndexOf(s, sep) < |s|
    ensures Split(s, sep) == [s[..k]] + Split(s[k + 1..], sep)
  {
  }

  /** One step of `Join` in front of at least one more field. */
  lemma JoinStep(f: string, fields: seq<string>, sep: char)
    requires |fields| >= 1
    ensures Join([f] + fields, sep) == f + [sep] + Join(fields, sep)
  {
    assert ([f] + fields)[1..] == fields;
  }

  /** One field more than there are separators. */
  lemma {:induction false} SplitCount(s: string, sep: char)
    ensures |Split(s, sep)| == Count(s, sep) + 1
    decreases |s|
  {
    var k := FirstIndexOf(s, sep);
    FirstIndexOfFinds(s, sep);
    if k == |s| {
      NoOccurrenceCount(s, sep);
    } else {
      SplitStep(s, sep, k);
      SplitCount(s[k + 1..], sep);
      CountAfterNone(s, k, sep);
    }
  }

  /** Joining separator-free fields and splitting again gives the fields
      back, so `Split` is the only way to cut a text at its separators. */
  lemma {:induction false} JoinSplit(fields: seq<string>, sep: char)
    requires |fields| >= 1
    requires forall i :: 0 <= i < |fields| ==> sep !in fields[i]
    ensures Split(Join(fields, sep), sep) == fields
  {
    var f := fields[0];
    var s := Join(fields, sep);
    var k := FirstIndexOf(s, sep);
    FirstIndexOfFinds(s, sep);
    if |fields| == 1 {
      assert s == f;
      assert k == |s|;
    } else {
      var tail := fields[1..];
      assert s == f + [sep] + Join(tail, sep);
      assert forall j :: 0 <= j < |f| ==> s[j] != sep by {
        forall j | 0 <= j < |f|
          ensures s[j] != sep
        {
          assert s[j] == f[j];
          assert f[j] in f;
        }
      }
      assert s[|f|] == sep;
      assert k == |f|;
      assert s[..k] == f;
      assert s[k + 1..] == Join(tail, sep);
      assert forall i :: 0 <= i < |tail| ==> sep !in tail[i] by {
        forall i | 0 <= i < |tail|
          ensures sep !in tail[i]
        {
          assert tail[i] == fields[i + 1];
        }
      }
      JoinSplit(tail, sep);
    }
  }
}
