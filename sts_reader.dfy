/** `STSReader.read`: sentence pairs from one text file and similarity
    scores from another, paired line by line into the single split
    "test". The two files are given as their text; `float()` is the
    partial function `parse`, which yields `None` where Python raises
    `ValueError`. */
module StsReader {
  import opened Wrappers
  import opened PyText

  /** Why a call raises instead of returning. */
  datatype Error =
    | BadLabel(line: nat)      // float() refused this line of the labels file
    | TooFewFields(line: nat)  // e[1] found no second field on this line of the input file

  /** `((sentence1, sentence2), label)`. */
  type Example<L> = ((string, string), L)

  function Min(a: nat, b: nat): nat
  {
    if a <= b then a else b
  }

  /** The text of a line without its line break: `l.rstrip('\n')`. */
  function Stripped(l: string): (text: string)
    ensures text <= l
    ensures |text| == 0 || text[|text| - 1] != '\n'
  {
    RStrip(l, '\n')
  }

  /** The fields of one input line: `l.rstrip('\n').split('\t')`. At least
      one, none holding a tab, and joined by tabs they are the line's text. */
  function Fields(l: string): (fs: seq<string>)
    ensures |fs| >= 1
    ensures forall i :: 0 <= i < |fs| ==> '\t' !in fs[i]
    ensures Join(fs, '\t') == Stripped(l)
  {
    SplitJoin(Stripped(l), '\t');
    Split(Stripped(l), '\t')
  }

  /** Whether `float()` accepts the label line `l`. */
  predicate Parses<L>(parse: string -> Option<L>, l: string)
  {
    parse(Stripped(l)).Some?
  }

  /** First stage, which cannot fail: every line of the input file cut
      into its tab-separated fields. */
  function InputRows(input: string): (rows: seq<seq<string>>)
    ensures |rows| == |ReadLines(input)|
  {
    var lines := ReadLines(input);
    seq(|lines|, i requires 0 <= i < |lines| => Fields(lines[i]))
  }

  /** Second stage, `[float(l.rstrip('\n')) for l in lines]` from line `i`
      on: every label line is converted, and the first one `float()`
      refuses fails the whole list. */
  function ParseLabels<L>(lines: seq<string>, parse: string -> Option<L>, i: nat): (r: Result<seq<L>, Error>)
    requires i <= |lines|
    ensures r.Success? <==> forall j :: i <= j < |lines| ==> Parses(parse, lines[j])
    ensures r.Success? ==>
      && |r.value| == |lines| - i
      && forall j :: 0 <= j < |r.value| ==> parse(Stripped(lines[i + j])) == Some(r.value[j])
    ensures r.Failure? ==>
      && r.error.BadLabel?
      && i <= r.error.line < |lines|
      && !Parses(parse, lines[r.error.line])
      && forall j :: i <= j < r.error.line ==> Parses(parse, lines[j])
    decreases |lines| - i
  {
    if i == |lines| then Success([])
    else
      match parse(Stripped(lines[i]))
      case None => Failure(BadLabel(i))
      case Some(v) =>
        var rest :- ParseLabels(lines, parse, i + 1);
        Success([v] + rest)
  }

  /** Third stage, `[((e[0], e[1]), l) for e, l in zip(rows, labels)]`
      from position `i` on: `zip` stops at the shorter list, and a row
      with fewer than two fields raises at `e[1]`. */
  function Merge<L>(rows: seq<seq<string>>, labels: seq<L>, i: nat): (r: Result<seq<Example<L>>, Error>)
    requires i <= Min(|rows|, |labels|)
    ensures r.Success? <==> forall j :: i <= j < Min(|rows|, |labels|) ==> |rows[j]| >= 2
    ensures r.Success? ==>
      && |r.value| == Min(|rows|, |labels|) - i
      && forall j :: 0 <= j < |r.value| ==>
           |rows[i + j]| >= 2 && r.value[j] == ((rows[i + j][0], rows[i + j][1]), labels[i + j])
    ensures r.Failure? ==>
      && r.error.TooFewFields?
      && i <= r.error.line < Min(|rows|, |labels|)
      && |rows[r.error.line]| < 2
      && forall j :: i <= j < r.error.line ==> |rows[j]| >= 2
    decreases Min(|rows|, |labels|) - i
  {
    if i == Min(|rows|, |labels|) then Success([])
    else if |rows[i]| < 2 then Failure(TooFewFields(i))
    else
      var rest :- Merge(rows, labels, i + 1);
      Success([((rows[i][0], rows[i][1]), labels[i])] + rest)
  }

  /** `STSReader().read(...)` on the text of the input file and of the
      labels file. */
  function Read<L>(input: string, labels: string, parse: string -> Option<L>): (r: Result<map<string, seq<Example<L>>>, Error>)
    ensures r.Success? ==> r.value.Keys == {"test"}
  {
    var data := InputRows(input);
    var values :- ParseLabels(ReadLines(labels), parse, 0);
    var merged :- Merge(data, values, 0);
    Success(map["test" := merged])
  }

  // -----------------------------------------------------------------------
  // Properties of Read
  // -----------------------------------------------------------------------

  /** A line has a second field exactly when its text holds a tab. */
  lemma FieldsHasSecond(l: string)
    ensures |Fields(l)| >= 2 <==> '\t' in Stripped(l)
  {
    SplitCount(Stripped(l), '\t');
    CountPositive(Stripped(l), '\t');
  }

  /** One row of fields per input line, and a row has a second field
      exactly when its line's text holds a tab. */
  lemma InputRowsHaveSecond(input: string)
    ensures |InputRows(input)| == |ReadLines(input)|
    ensures forall i :: 0 <= i < |ReadLines(input)| ==>
      (|InputRows(input)[i]| >= 2 <==> '\t' in Stripped(ReadLines(input)[i]))
  {
    var lines := ReadLines(input);
    forall i | 0 <= i < |lines|
      ensures |InputRows(input)[i]| >= 2 <==> '\t' in Stripped(lines[i])
    {
      assert InputRows(input)[i] == Fields(lines[i]);
      FieldsHasSecond(lines[i]);
    }
  }

  /** `Read` runs its stages in order and stops at the first that raises. */
  lemma ReadStages<L>(input: string, labels: string, parse: string -> Option<L>)
    ensures
      var values := ParseLabels(ReadLines(labels), parse, 0);
      Read(input, labels, parse) ==
        if values.Failure? then Failure(values.error)
        else
          var merged := Merge(InputRows(input), values.value, 0);
          if merged.Failure? then Failure(merged.error) else Success(map["test" := merged.value])
  {
  }

  /** On success the result has the single key "test", holding one
      example per line pair: as many as the shorter file has lines. */
  lemma ReadShape<L>(input: string, labels: string, parse: string -> Option<L>)
    requires Read(input, labels, parse).Success?
    ensures Read(input, labels, parse).value.Keys == {"test"}
    ensures |Read(input, labels, parse).value["test"]| == Min(|ReadLines(input)|, |ReadLines(labels)|)
  {
    ReadStages(input, labels, parse);
  }

  /** The call succeeds exactly when every label line is a number and every
      input line that gets a partner holds a tab. Input lines past the last
      label line are never looked at. */
  lemma ReadSucceedsIff<L>(input: string, labels: string, parse: string -> Option<L>)
    ensures Read(input, labels, parse).Success? <==>
      && (forall j :: 0 <= j < |ReadLines(labels)| ==> Parses(parse, ReadLines(labels)[j]))
      && (forall i :: 0 <= i < Min(|ReadLines(input)|, |ReadLines(labels)|) ==> '\t' in Stripped(ReadLines(input)[i]))
  {
    ReadStages(input, labels, parse);
    InputRowsHaveSecond(input);
  }

  /** A label line `float()` refuses fails the whole call, and the first
      such line is the one reported, however long the input file is:
      labels are all converted before any pairing, so a bad label past the
      end of the input still fails. */
  lemma ReadBadLabel<L>(input: string, labels: string, parse: string -> Option<L>, j: nat)
    requires j < |ReadLines(labels)|
    requires !Parses(parse, ReadLines(labels)[j])
    requires forall k :: 0 <= k < j ==> Parses(parse, ReadLines(labels)[k])
    ensures Read(input, labels, parse) == Failure(BadLabel(j))
  {
    ReadStages(input, labels, parse);
  }

  /** With every label good, the first paired input line without a tab
      (a blank line among them) fails the call at `e[1]`. */
  lemma ReadTooFewFields<L>(input: string, labels: string, parse: string -> Option<L>, i: nat)
    requires forall j :: 0 <= j < |ReadLines(labels)| ==> Parses(parse, ReadLines(labels)[j])
    requires i < Min(|ReadLines(input)|, |ReadLines(labels)|)
    requires '\t' !in Stripped(ReadLines(input)[i])
    requires forall k :: 0 <= k < i ==> '\t' in Stripped(ReadLines(input)[k])
    ensures Read(input, labels, parse) == Failure(TooFewFields(i))
  {
    ReadStages(input, labels, parse);
    var values := ParseLabels(ReadLines(labels), parse, 0);
    assert values.Success? && |values.value| == |ReadLines(labels)|;
    var rows := InputRows(input);
    InputRowsHaveSecond(input);
    var merged := Merge(rows, values.value, 0);
    assert merged.Failure?;
    assert merged.error.line == i;
  }

  /** Example `i` is built from line `i` of each file: its sentences are
      the first two tab-separated fields of the input line's text, that
      text being the line without its '\n', and its label is `float()` of
      the label line. The sentences hold no tab and no line break; any
      fields after the second are dropped. */
  lemma ReadItem<L>(input: string, labels: string, parse: string -> Option<L>, i: nat)
    requires Read(input, labels, parse).Success?
    requires i < |Read(input, labels, parse).value["test"]|
    ensures
      var line := ReadLines(input)[i];
      var text := Stripped(line);
      var e := Read(input, labels, parse).value["test"][i];
      && (text == line || text + "\n" == line)
      && '\t' !in e.0.0 && '\t' !in e.0.1 && '\n' !in e.0.0 && '\n' !in e.0.1
      && (text == e.0.0 + "\t" + e.0.1 || e.0.0 + "\t" + e.0.1 + "\t" <= text)
      && parse(Stripped(ReadLines(labels)[i])) == Some(e.1)
  {
    ReadItemFields(input, labels, parse, i);
    var lines := ReadLines(input);
    ReadLinesWellFormed(input);
    LineFields(lines[i], i == |lines| - 1);
  }

  /** The first two fields of a line with a tab are its sentences: free
      of tabs and line breaks, and the line's text is them joined by a
      tab, followed by nothing or by a tab. */
  lemma LineFields(line: string, last: bool)
    requires IsLine(line, last)
    requires |Fields(line)| >= 2
    ensures
      var text, fs := Stripped(line), Fields(line);
      && (text == line || text + "\n" == line)
      && '\t' !in fs[0] && '\t' !in fs[1] && '\n' !in fs[0] && '\n' !in fs[1]
      && (text == fs[0] + "\t" + fs[1] || fs[0] + "\t" + fs[1] + "\t" <= text)
  {
    RStripLine(line, last);
    if line[|line| - 1] == '\n' {
      assert line == line[..|line| - 1] + "\n";
    }
    FirstTwoFields(Stripped(line));
  }

  /** Example `i` pairs the first two fields of input line `i` with the
      converted label line `i`. */
  lemma ReadItemFields<L>(input: string, labels: string, parse: string -> Option<L>, i: nat)
    requires Read(input, labels, parse).Success?
    requires i < |Read(input, labels, parse).value["test"]|
    ensures i < |ReadLines(input)| && i < |ReadLines(labels)|
    ensures
      var fs := Fields(ReadLines(input)[i]);
      var e := Read(input, labels, parse).value["test"][i];
      && |fs| >= 2 && e.0 == (fs[0], fs[1])
      && parse(Stripped(ReadLines(labels)[i])) == Some(e.1)
  {
    ReadStages(input, labels, parse);
    var values := ParseLabels(ReadLines(labels), parse, 0);
    var rows := InputRows(input);
    assert rows[i] == Fields(ReadLines(input)[i]);
    var merged := Merge(rows, values.value, 0);
    assert merged.value[i] == ((rows[i][0], rows[i][1]), values.value[i]);
  }

  /** The first two fields of a text with a tab and no line break: tab-
      and break-free, and followed by the end of the text or by a tab. */
  lemma FirstTwoFields(text: string)
    requires '\n' !in text
    requires |Split(text, '\t')| >= 2
    ensures
      var fs := Split(text, '\t');
      && '\t' !in fs[0] && '\t' !in fs[1] && '\n' !in fs[0] && '\n' !in fs[1]
      && (text == fs[0] + "\t" + fs[1] || fs[0] + "\t" + fs[1] + "\t" <= text)
  {
    var fs := Split(text, '\t');
    assert '\t' !in fs[0] && '\t' !in fs[1];
    SplitJoin(text, '\t');
    JoinFirstTwo(fs, '\t');
    NoNewlineInPart(text, fs[0], 0);
    NoNewlineInPart(text, fs[1], |fs[0]| + 1);
  }

  /** The joined text starts with the first field, the separator and the
      second field, and goes on, if at all, with another separator. */
  lemma JoinFirstTwo(fs: seq<string>, sep: char)
    requires |fs| >= 2
    ensures fs[0] + [sep] + fs[1] <= Join(fs, sep)
    ensures Join(fs, sep) == fs[0] + [sep] + fs[1] || fs[0] + [sep] + fs[1] + [sep] <= Join(fs, sep)
  {
    var head := fs[0] + [sep] + fs[1];
    assert Join(fs, sep) == fs[0] + [sep] + Join(fs[1..], sep);
    if |fs| == 2 {
      assert Join(fs[1..], sep) == fs[1];
    } else {
      assert Join(fs[1..], sep) == fs[1] + [sep] + Join(fs[2..], sep);
      var rest := Join(fs[2..], sep);
      assert Join(fs, sep) == (head + [sep]) + rest;
    }
  }

  /** A part of a text with no line break has no line break either. */
  lemma NoNewlineInPart(text: string, part: string, at: nat)
    requires '\n' !in text
    requires at + |part| <= |text| && text[at..at + |part|] == part
    ensures '\n' !in part
  {
    forall k | 0 <= k < |part|
      ensures part[k] != '\n'
    {
      assert part[k] == text[at + k];
    }
  }
  // -----------------------------------------------------------------------
  // Silent truncation
  // -----------------------------------------------------------------------

  /** Lines of the input file past the last label line change nothing,
      whatever they hold: `zip` drops them unread. */
  lemma ReadIgnoresExtraInput<L>(input: string, extra: string, labels: string, parse: string -> Option<L>)
    requires |input| == 0 || input[|input| - 1] == '\n'
    requires |ReadLines(labels)| <= |ReadLines(input)|
    ensures Read(input + extra, labels, parse) == Read(input, labels, parse)
  {
    ReadStages(input, labels, parse);
    ReadStages(input + extra, labels, parse);
    InputRowsAppend(input, extra);
    var values := ParseLabels(ReadLines(labels), parse, 0);
    if values.Success? {
      MergeRowsPrefix(InputRows(input), InputRows(input + extra), values.value);
    }
  }

  /** More text after a last '\n' only adds rows after the existing ones. */
  lemma InputRowsAppend(input: string, extra: string)
    requires |input| == 0 || input[|input| - 1] == '\n'
    ensures |ReadLines(input)| == |InputRows(input)| <= |InputRows(input + extra)|
    ensures InputRows(input + extra)[..|InputRows(input)|] == InputRows(input)
  {
    ReadLinesAppend(input, extra);
    var rows, rows2 := InputRows(input), InputRows(input + extra);
    assert forall j :: 0 <= j < |rows| ==> rows2[j] == rows[j];
  }

  /** Rows past the last label do not matter to `Merge`. */
  lemma MergeRowsPrefix<L>(rows: seq<seq<string>>, rows2: seq<seq<string>>, labels: seq<L>)
    requires |labels| <= |rows| <= |rows2| && rows2[..|rows|] == rows
    ensures Merge(rows, labels, 0) == Merge(rows2, labels, 0)
  {
    assert forall j :: 0 <= j < |labels| ==> rows2[j] == rows2[..|rows|][j];
    MergeSamePrefix(rows, labels, rows2, labels, 0);
  }

  /** Label lines past the last input line change nothing as long as
      `float()` accepts them: `zip` drops them once converted. */
  lemma ReadIgnoresExtraLabels<L>(input: string, labels: string, extra: string, parse: string -> Option<L>)
    requires |labels| == 0 || labels[|labels| - 1] == '\n'
    requires |ReadLines(input)| <= |ReadLines(labels)|
    requires forall j :: 0 <= j < |ReadLines(extra)| ==> Parses(parse, ReadLines(extra)[j])
    ensures Read(input, labels + extra, parse) == Read(input, labels, parse)
  {
    ReadStages(input, labels, parse);
    ReadStages(input, labels + extra, parse);
    ReadLinesAppend(labels, extra);
    ParseLabelsAppend(ReadLines(labels), ReadLines(extra), parse);
    var values := ParseLabels(ReadLines(labels), parse, 0);
    if values.Success? {
      var values2 := ParseLabels(ReadLines(labels + extra), parse, 0);
      MergeLabelsPrefix(InputRows(input), values.value, values2.value);
    }
  }

  /** Labels past the last row do not matter to `Merge`. */
  lemma MergeLabelsPrefix<L>(rows: seq<seq<string>>, labels: seq<L>, labels2: seq<L>)
    requires |rows| <= |labels| <= |labels2| && labels2[..|labels|] == labels
    ensures Merge(rows, labels, 0) == Merge(rows, labels2, 0)
  {
    assert forall j :: 0 <= j < |rows| ==> labels2[j] == labels2[..|labels|][j];
    MergeSamePrefix(rows, labels, rows, labels2, 0);
  }

  /** `Merge` looks only at the positions `zip` pairs. */
  lemma {:induction false} MergeSamePrefix<L>(rows: seq<seq<string>>, labels: seq<L>, rows2: seq<seq<string>>, labels2: seq<L>, i: nat)
    requires Min(|rows|, |labels|) == Min(|rows2|, |labels2|)
    requires i <= Min(|rows|, |labels|)
    requires forall j :: i <= j < Min(|rows|, |labels|) ==> rows[j] == rows2[j] && labels[j] == labels2[j]
    ensures Merge(rows, labels, i) == Merge(rows2, labels2, i)
    decreases Min(|rows|, |labels|) - i
  {
    if i < Min(|rows|, |labels|) && |rows[i]| >= 2 {
      MergeSamePrefix(rows, labels, rows2, labels2, i + 1);
    }
  }

  /** Appending label lines that all convert keeps a failure as it was
      and a success's values as a prefix. */
  lemma ParseLabelsAppend<L>(a: seq<string>, b: seq<string>, parse: string -> Option<L>)
    requires forall j :: 0 <= j < |b| ==> Parses(parse, b[j])
    ensures
      var r, r2 := ParseLabels(a, parse, 0), ParseLabels(a + b, parse, 0);
      && (r.Failure? ==> r2 == r)
      && (r.Success? ==> r2.Success? && |a| <= |r2.value| && r2.value[..|a|] == r.value)
  {
    var r, r2 := ParseLabels(a, parse, 0), ParseLabels(a + b, parse, 0);
    assert forall j :: 0 <= j < |a| ==> (a + b)[j] == a[j];
    if r.Failure? {
      var k := r.error.line;
      assert !Parses(parse, (a + b)[k]);
      assert r2.Failure?;
      var m := r2.error.line;
      assert m == k;
    } else {
      assert forall j :: |a| <= j < |a + b| ==> (a + b)[j] == b[j - |a|];
      assert r2.Success?;
      assert forall j :: 0 <= j < |a| ==> Some(r2.value[j]) == Some(r.value[j]);
    }
  }

  // -----------------------------------------------------------------------
  // Reading back well-formed files
  // -----------------------------------------------------------------------

  /** A sentence as the input file can carry it: no tab, no line break. */
  predicate IsSentence(s: string)
  {
    '\t' !in s && '\n' !in s
  }

  /** The input file that holds `pairs`, one tab-separated pair per line. */
  function InputLines(pairs: seq<(string, string)>): seq<string>
  {
    seq(|pairs|, i requires 0 <= i < |pairs| => pairs[i].0 + "\t" + pairs[i].1 + "\n")
  }

  /** The labels file that holds `texts`, one per line. */
  function LabelLines(texts: seq<string>): seq<string>
  {
    seq(|texts|, i requires 0 <= i < |texts| => texts[i] + "\n")
  }

  /** Reading files written one example per line gives back exactly those
      examples, in file order, each with the value `float()` gives its
      label text. */
  lemma ReadWrittenFiles<L>(pairs: seq<(string, string)>, texts: seq<string>, parse: string -> Option<L>, values: seq<L>)
    requires |texts| == |pairs| && |values| == |pairs|
    requires forall i :: 0 <= i < |pairs| ==> IsSentence(pairs[i].0) && IsSentence(pairs[i].1)
    requires forall i :: 0 <= i < |texts| ==> '\n' !in texts[i] && parse(texts[i]) == Some(values[i])
    ensures Read(Concat(InputLines(pairs)), Concat(LabelLines(texts)), parse)
         == Success(map["test" := seq(|pairs|, i requires 0 <= i < |pairs| => (pairs[i], values[i]))])
  {
    var input, labels := Concat(InputLines(pairs)), Concat(LabelLines(texts));
    WrittenInputLines(pairs);
    WrittenLabelLines(texts);
    ReadStages(input, labels, parse);
    var lls := LabelLines(texts);
    var parsed := ParseLabels(lls, parse, 0);
    assert parsed.Success? by {
      forall j | 0 <= j < |lls|
        ensures Parses(parse, lls[j])
      {
        assert Stripped(lls[j]) == texts[j];
      }
    }
    assert parsed.value == values by {
      forall j | 0 <= j < |lls|
        ensures parsed.value[j] == values[j]
      {
        assert Stripped(lls[j]) == texts[j];
      }
    }
    var rows := InputRows(input);
    var merged := Merge(rows, values, 0);
    assert merged.Success?;
    assert merged.value == seq(|pairs|, i requires 0 <= i < |pairs| => (pairs[i], values[i]));
  }

  /** The lines of a written input file, and the two fields of each. */
  lemma WrittenInputLines(pairs: seq<(string, string)>)
    requires forall i :: 0 <= i < |pairs| ==> IsSentence(pairs[i].0) && IsSentence(pairs[i].1)
    ensures ReadLines(Concat(InputLines(pairs))) == InputLines(pairs)
    ensures forall i :: 0 <= i < |pairs| ==> InputRows(Concat(InputLines(pairs)))[i] == [pairs[i].0, pairs[i].1]
  {
    var lines := InputLines(pairs);
    forall i | 0 <= i < |lines|
      ensures IsLine(lines[i], i == |lines| - 1)
      ensures Fields(lines[i]) == [pairs[i].0, pairs[i].1]
    {
      WrittenInputLine(pairs[i].0, pairs[i].1);
    }
    ConcatReadLines(lines);
  }

  /** One written input line is a line of `readlines()` whose fields are
      the two sentences written on it. */
  lemma WrittenInputLine(s1: string, s2: string)
    requires IsSentence(s1) && IsSentence(s2)
    ensures IsLine(s1 + "\t" + s2 + "\n", false) && IsLine(s1 + "\t" + s2 + "\n", true)
    ensures Fields(s1 + "\t" + s2 + "\n") == [s1, s2]
  {
    var text := s1 + "\t" + s2;
    var l := text + "\n";
    assert '\n' !in text by {
      forall k | 0 <= k < |text|
        ensures text[k] != '\n'
      {
        if k < |s1| {
          assert text[k] == s1[k];
        } else if k > |s1| {
          assert text[k] == s2[k - |s1| - 1];
        }
      }
    }
    assert forall k :: 0 <= k < |l| - 1 ==> l[k] == text[k];
    RStripLine(l, false);
    assert l[..|l| - 1] == text;
    assert Join([s1, s2], '\t') == text;
    JoinSplit([s1, s2], '\t');
  }

  /** The lines of a written labels file, and the text of each. */
  lemma WrittenLabelLines(texts: seq<string>)
    requires forall i :: 0 <= i < |texts| ==> '\n' !in texts[i]
    ensures ReadLines(Concat(LabelLines(texts))) == LabelLines(texts)
    ensures forall i :: 0 <= i < |texts| ==> Stripped(LabelLines(texts)[i]) == texts[i]
  {
    var lines := LabelLines(texts);
    forall i | 0 <= i < |lines|
      ensures IsLine(lines[i], i == |lines| - 1)
      ensures Stripped(lines[i]) == texts[i]
    {
      assert lines[i] == texts[i] + "\n";
      assert forall k :: 0 <= k < |lines[i]| - 1 ==> lines[i][k] == texts[i][k];
      RStripLine(lines[i], i == |lines| - 1);
      assert lines[i][..|lines[i]| - 1] == texts[i];
    }
    ConcatReadLines(lines);
  }

  /** A one-line input file and a one-line labels file, such as
      "cat sat\tdog ran\n" with "3.5\n", give one example. */
  lemma OneLineExample<L>(s1: string, s2: string, text: string, parse: string -> Option<L>, v: L)
    requires IsSentence(s1) && IsSentence(s2) && '\n' !in text
    requires parse(text) == Some(v)
    ensures Read(s1 + "\t" + s2 + "\n", text + "\n", parse) == Success(map["test" := [((s1, s2), v)]])
  {
    OneLineFiles(s1, s2, text, v);
    ReadWrittenFiles([(s1, s2)], [text], parse, [v]);
  }

  lemma OneLineFiles<L>(s1: string, s2: string, text: string, v: L)
    ensures Concat(InputLines([(s1, s2)])) == s1 + "\t" + s2 + "\n"
    ensures Concat(LabelLines([text])) == text + "\n"
    ensures seq(1, i requires 0 <= i < 1 => ([(s1, s2)][i], [v][i])) == [((s1, s2), v)]
  {
    var input, labels := s1 + "\t" + s2 + "\n", text + "\n";
    assert InputLines([(s1, s2)]) == [input];
    assert Concat([input]) == input + [];
    assert LabelLines([text]) == [labels];
    assert Concat([labels]) == labels + [];
  }
}
