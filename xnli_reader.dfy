/** `XNLIReader.read` and `XNLIReader.read_one`: labelled sentence pairs
    from the validation and test tables of the cross-lingual inference
    corpus, optionally restricted to one language. A table is what
    `pd.read_csv(path, sep='\t')` yields, given here already parsed. */
module XnliReader {
  import opened Wrappers

  /** One row of a table: column name to cell text. */
  type Row = map<string, string>

  /** A table: the columns of its header and its rows in file order. */
  datatype Table = Table(columns: set<string>, rows: seq<Row>)

  /** A table as pandas builds it: every row has a cell for exactly the
      header's columns. */
  type Frame = t: Table | forall i | 0 <= i < |t.rows| :: t.rows[i].Keys == t.columns
    witness Table({}, [])

  /** Why a call raises instead of returning. */
  datatype Error =
    | MissingColumns(names: set<string>)  // KeyError: the table lacks these selected columns

  /** `((sentence1, sentence2), gold_label)`. */
  type Item = ((string, string), string)

  /** The columns `read_one` selects first. */
  const Required: set<string> := {"language", "gold_label", "sentence1", "sentence2"}

  /** The columns whose values `read_one` takes, in this order. */
  const Projected: seq<string> := ["sentence1", "sentence2", "gold_label"]

  /** `data[cols]`: the table cut down to the columns `cols`, or `KeyError`
      naming the selected columns the table lacks. */
  function SelectColumns(t: Frame, cols: set<string>): (r: Result<Frame, Error>)
    ensures r.Success? <==> cols <= t.columns
    ensures r.Failure? ==> r.error == MissingColumns(cols - t.columns)
    ensures r.Success? ==>
      && r.value.columns == cols
      && |r.value.rows| == |t.rows|
      && forall i, c | 0 <= i < |t.rows| && c in cols :: r.value.rows[i][c] == t.rows[i][c]
  {
    if cols <= t.columns then
      Success(Table(cols, seq(|t.rows|, i requires 0 <= i < |t.rows| => map c | c in cols :: t.rows[i][c])))
    else
      Failure(MissingColumns(cols - t.columns))
  }

  /** The rows whose `language` cell is `lang`, in their order: what the
      boolean mask `data.language == lang` keeps. */
  function KeepLanguage(rows: seq<Row>, lang: string): (kept: seq<Row>)
    requires forall i | 0 <= i < |rows| :: "language" in rows[i]
    ensures forall k | 0 <= k < |kept| :: kept[k] in rows && kept[k]["language"] == lang
  {
    if |rows| == 0 then []
    else
      var last := rows[|rows| - 1];
      KeepLanguage(rows[..|rows| - 1], lang) + if last["language"] == lang then [last] else []
  }

  /** `data[data.language == lang]`: the same columns, and the rows at
      the positions of language `lang`, in table order. */
  function FilterLanguage(t: Frame, lang: string): (r: Frame)
    requires "language" in t.columns
    ensures r.columns == t.columns
    ensures |r.rows| == |Positions(t.rows, lang)|
    ensures forall k | 0 <= k < |r.rows| :: r.rows[k] == t.rows[Positions(t.rows, lang)[k]]
  {
    KeepLanguageAtPositions(t.rows, lang);
    Table(t.columns, KeepLanguage(t.rows, lang))
  }

  /** `if lang is not None: data = data[data.language == lang]`. */
  function Restrict(t: Frame, lang: Option<string>): (r: Frame)
    requires "language" in t.columns
    ensures r.columns == t.columns
    ensures lang.None? ==> r == t
    ensures lang.Some? ==>
      && |r.rows| == |Positions(t.rows, lang.value)|
      && forall k | 0 <= k < |r.rows| :: r.rows[k] == t.rows[Positions(t.rows, lang.value)[k]]
  {
    if lang.Some? then FilterLanguage(t, lang.value) else t
  }

  /** `data[cols].values`: the cells of `cols` row by row. */
  function Values(t: Frame, cols: seq<string>): (v: seq<seq<string>>)
    requires forall j | 0 <= j < |cols| :: cols[j] in t.columns
    ensures |v| == |t.rows|
    ensures forall i | 0 <= i < |v| :: |v[i]| == |cols|
    ensures forall i, j | 0 <= i < |v| && 0 <= j < |cols| :: v[i][j] == t.rows[i][cols[j]]
  {
    seq(|t.rows|, i requires 0 <= i < |t.rows| =>
      seq(|cols|, j requires 0 <= j < |cols| => t.rows[i][cols[j]]))
  }

  /** `XNLIReader().read_one(path, lang)` on the table read from `path`;
      `lang` is `None` for Python's `None`. It fails exactly when the table
      lacks one of the four required columns, and then names the missing
      ones. */
  function ReadOne(t: Frame, lang: Option<string>): (r: Result<seq<Item>, Error>)
    ensures r.Failure? <==> !(Required <= t.columns)
    ensures r.Failure? ==> r.error == MissingColumns(Required - t.columns)
  {
    var selected :- SelectColumns(t, Required);
    var kept := Restrict(selected, lang);
    var values := Values(kept, Projected);
    Success(seq(|values|, i requires 0 <= i < |values| => ((values[i][0], values[i][1]), values[i][2])))
  }

  /** `XNLIReader().read(...)` on the validation table and the test table:
      the validation rows come back under "train", the test rows under
      "test", and a failure on the validation table is the one raised
      first. */
  function Read(valid: Frame, test: Frame, lang: Option<string>): (r: Result<map<string, seq<Item>>, Error>)
    ensures r.Success? ==> r.value.Keys == {"train", "test"}
  {
    var validItems :- ReadOne(valid, lang);
    var testItems :- ReadOne(test, lang);
    Success(map["train" := validItems, "test" := testItems])
  }

  // -----------------------------------------------------------------------
  // Properties
  // -----------------------------------------------------------------------

  /** The item a row gives. */
  function ItemOf(r: Row): Item
    requires Required <= r.Keys
  {
    ((r["sentence1"], r["sentence2"]), r["gold_label"])
  }

  /** Each row kept by the language filter, once the table is cut down to
      the required columns, gives one item, in order. */
  lemma ReadOneItems(t: Frame, lang: Option<string>)
    requires Required <= t.columns
    ensures ReadOne(t, lang).Success?
    ensures
      var kept := Restrict(SelectColumns(t, Required).value, lang).rows;
      && |ReadOne(t, lang).value| == |kept|
      && forall k | 0 <= k < |kept| :: Required <= kept[k].Keys && ReadOne(t, lang).value[k] == ItemOf(kept[k])
  {
    var kept := Restrict(SelectColumns(t, Required).value, lang);
    var values := Values(kept, Projected);
    forall k | 0 <= k < |kept.rows|
      ensures Required <= kept.rows[k].Keys
      ensures ReadOne(t, lang).value[k] == ItemOf(kept.rows[k])
    {
      assert values[k] == [kept.rows[k]["sentence1"], kept.rows[k]["sentence2"], kept.rows[k]["gold_label"]];
    }
  }

  /** Without a language every row comes back, in order, each as its own
      sentences and gold label. */
  lemma ReadOneAllRows(t: Frame)
    requires Required <= t.columns
    ensures ReadOne(t, None).Success?
    ensures |ReadOne(t, None).value| == |t.rows|
    ensures forall i | 0 <= i < |t.rows| :: ReadOne(t, None).value[i] == ItemOf(t.rows[i])
  {
    ReadOneItems(t, None);
    var selected := SelectColumns(t, Required).value;
    forall i | 0 <= i < |t.rows|
      ensures ReadOne(t, None).value[i] == ItemOf(t.rows[i])
    {
      assert ItemOf(selected.rows[i]) == ItemOf(t.rows[i]);
    }
  }

  /** The positions of the rows whose language is `lang`, in increasing
      order: every such position and no other. */
  function Positions(rows: seq<Row>, lang: string): (p: seq<nat>)
    requires forall i | 0 <= i < |rows| :: "language" in rows[i]
    ensures forall k | 0 <= k < |p| :: p[k] < |rows| && rows[p[k]]["language"] == lang
    ensures forall k, m | 0 <= k < m < |p| :: p[k] < p[m]
    ensures forall i | 0 <= i < |rows| && rows[i]["language"] == lang :: i in p
  {
    if |rows| == 0 then []
    else
      var n := |rows| - 1;
      Positions(rows[..n], lang) + if rows[n]["language"] == lang then [n] else []
  }

  /** The rows the mask keeps are the rows at `Positions`, in that order. */
  lemma {:induction false} KeepLanguageAtPositions(rows: seq<Row>, lang: string)
    requires forall i | 0 <= i < |rows| :: "language" in rows[i]
    ensures
      var kept, p := KeepLanguage(rows, lang), Positions(rows, lang);
      |kept| == |p| && forall k | 0 <= k < |p| :: kept[k] == rows[p[k]]
  {
    if |rows| > 0 {
      var n := |rows| - 1;
      var front := rows[..n];
      KeepLanguageAtPositions(front, lang);
      var kept, p := KeepLanguage(front, lang), Positions(front, lang);
      forall k | 0 <= k < |p|
        ensures kept[k] == rows[p[k]]
      {
        assert kept[k] == front[p[k]];
      }
    }
  }

  /** With a language, the items are those of the rows at `Positions`:
      exactly the rows of that language, in table order, each as its own
      sentences and gold label. */
  lemma ReadOneFiltered(t: Frame, lang: string)
    requires Required <= t.columns
    ensures ReadOne(t, Some(lang)).Success?
    ensures |ReadOne(t, Some(lang)).value| == |Positions(t.rows, lang)|
    ensures forall k | 0 <= k < |Positions(t.rows, lang)| ::
      ReadOne(t, Some(lang)).value[k] == ItemOf(t.rows[Positions(t.rows, lang)[k]])
  {
    ReadOneItems(t, Some(lang));
    var selected := SelectColumns(t, Required).value;
    var kept := FilterLanguage(selected, lang).rows;
    var p := Positions(t.rows, lang);
    PositionsAgree(t.rows, selected.rows, lang);
    forall k | 0 <= k < |p|
      ensures ReadOne(t, Some(lang)).value[k] == ItemOf(t.rows[p[k]])
    {
      assert kept[k] == selected.rows[p[k]];
      assert ItemOf(selected.rows[p[k]]) == ItemOf(t.rows[p[k]]);
    }
  }

  /** `read_one` never returns more items than the table has rows. */
  lemma ReadOneAtMostRows(t: Frame, lang: Option<string>)
    requires ReadOne(t, lang).Success?
    ensures |ReadOne(t, lang).value| <= |t.rows|
  {
    if lang.Some? {
      ReadOneFiltered(t, lang.value);
      IncreasingLength(Positions(t.rows, lang.value), |t.rows|);
    } else {
      ReadOneAllRows(t);
    }
  }

  /** Positions depend only on the `language` cells. */
  lemma {:induction false} PositionsAgree(rows: seq<Row>, rows2: seq<Row>, lang: string)
    requires |rows| == |rows2|
    requires forall i | 0 <= i < |rows| :: "language" in rows[i] && "language" in rows2[i]
    requires forall i | 0 <= i < |rows| :: rows[i]["language"] == rows2[i]["language"]
    ensures Positions(rows, lang) == Positions(rows2, lang)
  {
    if |rows| > 0 {
      var n := |rows| - 1;
      PositionsAgree(rows[..n], rows2[..n], lang);
    }
  }

  /** When every row is of language `lang`, filtering on it changes nothing. */
  lemma ReadOneSingleLanguage(t: Frame, lang: string)
    requires forall i | 0 <= i < |t.rows| :: "language" in t.rows[i] && t.rows[i]["language"] == lang
    ensures ReadOne(t, Some(lang)) == ReadOne(t, None)
  {
    if Required <= t.columns {
      var selected := SelectColumns(t, Required).value;
      KeepLanguageAll(selected.rows, lang);
      assert FilterLanguage(selected, lang) == selected;
    }
  }

  /** When every row is of language `lang`, the mask keeps every row. */
  lemma {:induction false} KeepLanguageAll(rows: seq<Row>, lang: string)
    requires forall i | 0 <= i < |rows| :: "language" in rows[i] && rows[i]["language"] == lang
    ensures KeepLanguage(rows, lang) == rows
  {
    if |rows| > 0 {
      var n := |rows| - 1;
      KeepLanguageAll(rows[..n], lang);
      assert rows == rows[..n] + [rows[n]];
    }
  }

  /** `read` succeeds exactly when both tables have the required columns;
      then it returns just the keys "train" (the validation table's items,
      not "valid") and "test", with the same language filter on both. */
  lemma ReadSplits(valid: Frame, test: Frame, lang: Option<string>)
    ensures Read(valid, test, lang).Success? <==> Required <= valid.columns && Required <= test.columns
    ensures Read(valid, test, lang).Success? ==>
      && Read(valid, test, lang).value.Keys == {"train", "test"}
      && Read(valid, test, lang).value["train"] == ReadOne(valid, lang).value
      && Read(valid, test, lang).value["test"] == ReadOne(test, lang).value
    ensures !(Required <= valid.columns) ==> Read(valid, test, lang) == Failure(MissingColumns(Required - valid.columns))
    ensures Required <= valid.columns && !(Required <= test.columns) ==>
      Read(valid, test, lang) == Failure(MissingColumns(Required - test.columns))
  {
  }

  /** A validation table with a row of language `lang` followed by a row
      of another language (an "en" row and an "fr" row, say), read for
      `lang`, gives under "train" the first row's item and nothing else. */
  lemma LanguageExample(r1: Row, r2: Row, lang: string, test: Frame)
    requires r1.Keys == Required && r2.Keys == Required
    requires r1["language"] == lang && r2["language"] != lang
    requires Required <= test.columns
    ensures Read(Table(Required, [r1, r2]), test, Some(lang)).Success?
    ensures Read(Table(Required, [r1, r2]), test, Some(lang)).value["train"] == [ItemOf(r1)]
  {
    var valid: Frame := Table(Required, [r1, r2]);
    ReadOneFiltered(valid, lang);
    TwoRowPositions(r1, r2, lang);
    ReadSplits(valid, test, Some(lang));
    var items := ReadOne(valid, Some(lang)).value;
    assert |items| == 1 && items[0] == ItemOf(r1);
  }

  /** Of a row of language `lang` and then a row of another language, only
      the first is at a position of `lang`. */
  lemma TwoRowPositions(r1: Row, r2: Row, lang: string)
    requires "language" in r1 && "language" in r2
    requires r1["language"] == lang && r2["language"] != lang
    ensures Positions([r1, r2], lang) == [0]
  {
    var rows := [r1, r2];
    assert rows[..1] == [r1];
    assert [r1][..0] == [];
    assert Positions([r1], lang) == Positions([], lang) + [0];
    assert Positions(rows, lang) == Positions([r1], lang) + [];
  }

  /** A strictly increasing sequence of positions below `n` has at most
      `n` elements. */
  lemma IncreasingLength(p: seq<nat>, n: nat)
    requires forall k, m | 0 <= k < m < |p| :: p[k] < p[m]
    requires forall k | 0 <= k < |p| :: p[k] < n
    ensures |p| <= n
  {
    if |p| > 0 {
      IncreasingAtLeastIndex(p, |p| - 1);
    }
  }

  lemma {:induction false} IncreasingAtLeastIndex(p: seq<nat>, k: nat)
    requires forall i, j | 0 <= i < j < |p| :: p[i] < p[j]
    requires k < |p|
    ensures p[k] >= k
  {
    if k > 0 {
      IncreasingAtLeastIndex(p, k - 1);
    }
  }
}
