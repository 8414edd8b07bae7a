# deepPavlovEval dataset readers in Dafny

This project models the two dataset readers of deepPavlovEval
(`deepPavlovEval/datautils.py`) as pure Dafny functions, with lemmas for
what they promise.

- `STSReader.read` reads a sentence-similarity corpus from two text files.
  The input file has one tab-separated sentence pair per line. The labels
  file has one number per line. The reader pairs them line by line and
  returns the pairs under the single split `"test"`.
- `XNLIReader.read` / `read_one` read the cross-lingual inference corpus.
  Each of the validation and test tables is cut down to its `language`,
  `gold_label`, `sentence1` and `sentence2` columns, optionally filtered
  to one language, and projected to `((sentence1, sentence2), gold_label)`.
  The validation items come back under `"train"`, the test items under
  `"test"`.

Files:

- `wrappers.dfy` — `Option` and `Result`. A Python exception raised by a
  reader is a `Failure` here.
- `pytext.dfy` (module `PyText`) — the Python text operations the readers
  use: `file.readlines()` (`ReadLines`), `str.rstrip(c)` (`RStrip`) and
  `str.split(c)` (`Split`). It also defines `Join` (`sep.join(...)`), which
  the readers never call: it is the inverse of `Split` that the split
  lemmas and the description of a line's fields are stated with.
- `sts_reader.dfy` (module `StsReader`) — `STSReader.read` in three stages:
  `InputRows` (split every input line into fields; this stage cannot fail),
  `ParseLabels` (convert every label line; the first bad one raises) and
  `Merge` (the `zip` that pairs them; a paired row without a second field
  raises at `e[1]`).
- `xnli_reader.dfy` (module `XnliReader`) — `read_one` as
  `SelectColumns` (`data[[...]]`), `FilterLanguage` (`data[data.language == lang]`, applied by `Restrict` only when `lang` is set)
  and `Values` (`.values`), then `read` over the two tables.

Modelling choices:

- Files are given by their contents. STS files are strings. XNLI files are
  already-parsed tables (`Frame`): a set of header columns and a sequence
  of rows, each row a map from every column to its cell text.
- Python's `float()` is the parameter `parse: string -> Option<L>`. It
  yields `None` where `float()` raises `ValueError`. The label type `L` is
  left open.
- Errors are values: `StsReader.Error.BadLabel(line)` (the `ValueError`),
  `StsReader.Error.TooFewFields(line)` (the `IndexError` at `e[1]`) and
  `XnliReader.Error.MissingColumns(names)` (the `KeyError` from the column
  selection). Line numbers count from 0.
- Python evaluates the labels list in full before the `zip` runs. So a bad
  label is reported even when the input file also has a line without a
  tab, and even when the bad label lies past the end of the input file.
- Every function is deterministic. Reading the same contents twice gives
  the same result by construction.

The docstrings in `datautils.py` differ from the code in four places. The
model follows the code in all of them.

- `XNLIReader`'s docstring (datautils.py:57) promises the key `"valid"`.
  The code (datautils.py:64) returns the validation items under `"train"`.
- `STSReader`'s docstring (datautils.py:33) describes triples
  `(sent1, sent2, similarity)`. The code (datautils.py:44) builds
  `((sent1, sent2), similarity)`.
- `XNLIReader`'s docstring (datautils.py:58) calls the two sets `np.arrays`.
  The code (datautils.py:73) turns the array from `.values` into a Python
  list of `((sent1, sent2), label)` tuples, which the model's `seq<Item>`
  stands for.
- `STSReader`'s docstring (datautils.py:19-20) calls `input_fname` and
  `labels_fname` parameters of `.__init__()`. In the code (datautils.py:35)
  they are parameters of `read`. The model takes the two files' contents
  instead, as "## Left out" says.

## Model

| member | source | states |
|---|---|---|
| `PyText.ReadLines` | deepPavlovEval/datautils.py:39-42 | `f.readlines()` on the file's text, for both the input and the labels file: no lines exactly for an empty text, and never more lines than characters; the lemmas below pin it down (`ReadLinesConcat` and `ConcatReadLines` make it the inverse of concatenation on well-formed lines) |
| `PyText.ReadLinesConcat` | deepPavlovEval/datautils.py:39-42 | the lines `readlines()` yields, concatenated, are exactly the file's text: nothing is lost or added |
| `PyText.ReadLinesWellFormed` | deepPavlovEval/datautils.py:39-42 | every line is non-empty, has `'\n'` only as its last character, and ends in `'\n'` unless it is the last line |
| `PyText.ReadLinesCount` | deepPavlovEval/datautils.py:39-42 | there is one line per `'\n'`, plus one for a last line without `'\n'`; a final `'\n'` opens no extra empty line |
| `PyText.ConcatReadLines` | deepPavlovEval/datautils.py:39-42 | reading back the text of any well-formed lines gives exactly those lines, so the cut into lines is unique |
| `PyText.ReadLinesAppend` | deepPavlovEval/datautils.py:39-42 | a text that ends a line, followed by more text, reads as its own lines followed by the lines of the rest |
| `PyText.ReadLinesLast` | deepPavlovEval/datautils.py:39-42 | a non-empty text yields at least one line, and the last line ends with the text's last character |
| `PyText.RStrip` | deepPavlovEval/datautils.py:39-42 | `rstrip(c)` gives a prefix of the text that does not end in `c`, and only `c` characters were cut off |
| `PyText.RStripLine` | deepPavlovEval/datautils.py:39-42 | on a line from `readlines()`, `rstrip('\n')` removes just that line's own `'\n'`, and the result holds no `'\n'` |
| `PyText.Split` | deepPavlovEval/datautils.py:39 | `split(sep)` returns at least one field, and no field contains the separator |
| `PyText.SplitJoin` | deepPavlovEval/datautils.py:39 | joining the fields of `split(sep)` with `sep` gives back the text |
| `PyText.SplitCount` | deepPavlovEval/datautils.py:39 | `split(sep)` returns one field more than the text has separators |
| `PyText.JoinSplit` | deepPavlovEval/datautils.py:39 | splitting the join of separator-free fields gives back those fields, so the split is unique |
| `StsReader.Stripped` | deepPavlovEval/datautils.py:39-42 | `l.rstrip('\n')` on a line of either file: a prefix of the line that does not end in `'\n'`; `PyText.RStripLine` shows it removes just the line's own `'\n'` |
| `StsReader.Fields` | deepPavlovEval/datautils.py:39 | `l.rstrip('\n').split('\t')`: at least one field, none holding a tab, and joined by tabs they give back the line's text |
| `StsReader.InputRows` | deepPavlovEval/datautils.py:39 | the comprehension over the input file gives one row of fields per line read; `InputRowsHaveSecond` says which rows have a second field |
| `StsReader.FieldsHasSecond` | deepPavlovEval/datautils.py:39 | a line's fields include a second one exactly when the line's text, without its `'\n'`, holds a tab |
| `StsReader.InputRowsHaveSecond` | deepPavlovEval/datautils.py:39 | the input file gives one row of fields per line, and a row has a second field exactly when its line's text holds a tab |
| `StsReader.ParseLabels` | deepPavlovEval/datautils.py:42 | every label line is converted: success exactly when `float()` accepts all lines, with one value per line in order; otherwise the error names the first line it refuses |
| `StsReader.Merge` | deepPavlovEval/datautils.py:44 | the `zip` pairs positions up to the shorter list only; success exactly when each paired row has two fields, giving `((e[0], e[1]), label)` per position; otherwise the first short row is reported |
| `StsReader.Read` | deepPavlovEval/datautils.py:35-45 | a successful result has the single key `"test"` |
| `StsReader.ReadShape` | deepPavlovEval/datautils.py:44-45 | a successful result has the single key `"test"` and as many examples as the shorter of the two files has lines |
| `StsReader.ReadSucceedsIff` | deepPavlovEval/datautils.py:39-44 | the call succeeds exactly when every label line converts and every input line with a partner holds a tab; input lines past the labels' length are never examined |
| `StsReader.ReadBadLabel` | deepPavlovEval/datautils.py:42 | the first label line `float()` refuses fails the call with that line, whatever the input file holds and however short it is |
| `StsReader.ReadTooFewFields` | deepPavlovEval/datautils.py:39-44 | with all labels good, the first paired input line without a tab (a blank line included) fails the call at `e[1]` |
| `StsReader.ReadItemFields` | deepPavlovEval/datautils.py:39-44 | example `i` pairs the first two fields of input line `i` with the converted label line `i` |
| `StsReader.ReadItem` | deepPavlovEval/datautils.py:39-44 | example `i`'s sentences are free of tabs and line breaks; the line's text is the line without its `'\n'`; that text is the first sentence, a tab and the second sentence, followed by nothing or by a tab and the dropped fields; the label is `float()` of label line `i` |
| `StsReader.FirstTwoFields` | deepPavlovEval/datautils.py:39 | the first two fields of a text with a tab are tab-free and break-free, and the text is them joined by a tab, followed by nothing or by another tab |
| `StsReader.LineFields` | deepPavlovEval/datautils.py:39 | on a line of the input file with a tab, the first two fields are free of tabs and line breaks, the text is the line less its `'\n'`, and the text is the two fields joined by a tab, followed by nothing or by a tab |
| `StsReader.JoinFirstTwo` | deepPavlovEval/datautils.py:39 | a join of two or more fields starts with the first field, the separator and the second field, followed by nothing or by another separator |
| `StsReader.MergeSamePrefix` | deepPavlovEval/datautils.py:44 | the pairing depends only on the positions the `zip` reaches |
| `StsReader.MergeRowsPrefix` | deepPavlovEval/datautils.py:44 | rows past the last label do not change the pairing |
| `StsReader.MergeLabelsPrefix` | deepPavlovEval/datautils.py:44 | labels past the last row do not change the pairing |
| `StsReader.InputRowsAppend` | deepPavlovEval/datautils.py:39 | text after the input file's last `'\n'` only adds rows after the existing ones |
| `StsReader.ParseLabelsAppend` | deepPavlovEval/datautils.py:42 | adding label lines that all convert keeps a failure as it was, and keeps a success's values as a prefix |
| `StsReader.ReadIgnoresExtraInput` | deepPavlovEval/datautils.py:44 | input lines past the last label line change nothing, whatever they hold: the truncation is silent |
| `StsReader.ReadIgnoresExtraLabels` | deepPavlovEval/datautils.py:42-44 | label lines past the last input line change nothing as long as `float()` accepts them |
| `StsReader.ReadWrittenFiles` | deepPavlovEval/datautils.py:35-45 | files written with one tab-separated pair and one label per line, of equal length, read back as exactly those examples in file order |
| `StsReader.WrittenInputLine` | deepPavlovEval/datautils.py:39 | a line written as two tab- and break-free sentences joined by a tab and ended by `'\n'` is a line of `readlines()` whose fields are exactly those two sentences |
| `StsReader.OneLineExample` | deepPavlovEval/datautils.py:35-45 | a one-line input file such as `"cat sat\tdog ran\n"` with a labels file such as `"3.5\n"` gives the single example `(("cat sat", "dog ran"), 3.5)` |
| `XnliReader.SelectColumns` | deepPavlovEval/datautils.py:68 | column selection succeeds exactly when the table has every selected column, keeps each row's cells for them, and otherwise fails naming the missing ones |
| `XnliReader.KeepLanguage` | deepPavlovEval/datautils.py:70 | every row the language mask keeps comes from the table and has that language |
| `XnliReader.FilterLanguage` | deepPavlovEval/datautils.py:70 | the boolean mask keeps the table's columns, and its rows are exactly the rows at `Positions` (the rows of language `lang`), in table order |
| `XnliReader.Restrict` | deepPavlovEval/datautils.py:69-70 | with `lang` set to `None` the table is left as it is; otherwise only the rows of language `lang` remain, in table order, with all columns kept |
| `XnliReader.Values` | deepPavlovEval/datautils.py:72 | `data[cols].values` has one row per table row, each holding that row's cells for `cols` in the order given; `ReadOneItems` and `ReadOneFiltered` tie the resulting items to the table's rows |
| `XnliReader.ReadOne` | deepPavlovEval/datautils.py:66-74 | `read_one` fails exactly when the table lacks one of `language`, `gold_label`, `sentence1`, `sentence2`, and then names the missing ones |
| `XnliReader.ReadOneItems` | deepPavlovEval/datautils.py:72-73 | each row left by `Restrict` after the column selection gives one item `((sentence1, sentence2), gold_label)` from its own cells, in row order |
| `XnliReader.ReadOneAllRows` | deepPavlovEval/datautils.py:69-73 | with `lang` set to `None`, every row comes back in order as its own sentences and gold label |
| `XnliReader.Positions` | deepPavlovEval/datautils.py:70 | the positions of the rows of a language are strictly increasing and hold every such row's position and no other |
| `XnliReader.KeepLanguageAtPositions` | deepPavlovEval/datautils.py:70 | the rows the mask keeps are exactly the rows at those positions, in that order |
| `XnliReader.ReadOneFiltered` | deepPavlovEval/datautils.py:69-73 | with `lang` set, the items are those of exactly the rows whose `language` equals `lang` (case-sensitive string equality), in table order |
| `XnliReader.ReadOneAtMostRows` | deepPavlovEval/datautils.py:69-73 | `read_one` never returns more items than the table has rows |
| `XnliReader.PositionsAgree` | deepPavlovEval/datautils.py:70 | the positions kept depend only on the `language` cells |
| `XnliReader.ReadOneSingleLanguage` | deepPavlovEval/datautils.py:69-70 | when every row has language `lang`, filtering on `lang` gives the same result as no filter |
| `XnliReader.KeepLanguageAll` | deepPavlovEval/datautils.py:70 | when every row has the language, the mask keeps every row |
| `XnliReader.Read` | deepPavlovEval/datautils.py:60-64 | a successful result has exactly the keys `"train"` and `"test"` |
| `XnliReader.ReadSplits` | deepPavlovEval/datautils.py:60-64 | `read` succeeds exactly when both tables have the required columns; `"train"` holds the validation table's items and `"test"` the test table's, under the same language filter; a validation-table failure is the one raised |
| `XnliReader.LanguageExample` | deepPavlovEval/datautils.py:60-73 | a validation table with a row of language `lang` and then a row of another language, read for `lang`, gives only the first row's item under `"train"` |

## Left out

- Opening files and joining paths (datautils.py:36-42, 61-63): the readers
  take the files' contents, so a missing file (`FileNotFoundError`) is not
  modelled.
- Text decoding and the universal-newline translation of text-mode reads
  (`"\r\n"` and `"\r"` read as `"\n"`): the input and labels texts are the
  decoded, translated text.
- Floating-point values: `float()` is the abstract partial function
  `parse`, so which strings it accepts and the number it gives are not
  modelled.
- `pd.read_csv` (datautils.py:67): TSV parsing, quoting, dtype inference
  and missing cells (`NaN`) are not modelled. A table arrives parsed, with
  a text cell for every column of every row, and a file that pandas cannot
  parse is not modelled.
- The `KeyError` message: `MissingColumns` carries the set of missing
  required columns, not pandas' wording.
- The `np.ndarray` that `.values` builds (datautils.py:72) is a sequence
  of rows, each a sequence of cells.
- `STSReader.read`'s unused `*args, **kwargs` and its file-name
  parameters: the model takes the two files' contents directly.
- `deepPavlovEval/evaluator.py` is not part of this model. It calls
  readers and scoring functions from other packages, writes JSON files and
  plots results; its own logic is bookkeeping.
