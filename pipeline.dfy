/** The two cleaning pipelines put together, in the order the script runs
    its steps. Reading the files and `pd.read_csv` are outside the model:
    the waste pipeline starts from the lines of the raw file, the
    recycling pipeline from the rows `read_csv` produced. */
module Pipeline {
  import opened Wrappers
  import opened Text
  import opened LineRepair
  import opened Segmentation
  import opened Records
  import opened Imputation

  /** The selection of Entity, Code, Year and Agriculture once the frame
      is built (data_prep.py:177-178): the first four tokens of each row,
      each of them a well-formed token. */
  function ToRawRows(data: seq<seq<string>>): (r: seq<RawRow>)
    requires forall k :: 0 <= k < |data| ==> IsRow(data[k])
    ensures |r| == |data|
    ensures forall k :: 0 <= k < |data| ==>
      IsRow(data[k]) && r[k] == RawRow(data[k][0], data[k][1], data[k][2], data[k][3])
      && IsToken(r[k].entity) && IsToken(r[k].code) && IsToken(r[k].year) && IsToken(r[k].waste)
  {
    assert forall k :: 0 <= k < |data| ==>
      |data[k]| >= 4 && IsToken(data[k][0]) && IsToken(data[k][1]) && IsToken(data[k][2]) && IsToken(data[k][3])
    by {
      forall k | 0 <= k < |data|
        ensures |data[k]| >= 4 && IsToken(data[k][0]) && IsToken(data[k][1]) && IsToken(data[k][2]) && IsToken(data[k][3])
      {
        assert IsRow(data[k]);
      }
    }
    seq(|data|, k requires 0 <= k < |data| => RawRow(data[k][0], data[k][1], data[k][2], data[k][3]))
  }

  /** What `pd.DataFrame(data, columns=columns)` raises at
      data_prep.py:174 when the rows do not give one cell per name. */
  datatype FrameError = ColumnCountMismatch

  /** Some row of `data` has exactly `w` tokens. */
  predicate HasRowOfLength(data: seq<seq<string>>, w: nat)
  {
    exists k :: 0 <= k < |data| && |data[k]| == w
  }

  lemma HasRowOfLengthCons(data: seq<seq<string>>, w: nat)
    requires data != [] && HasRowOfLength(data[1..], w)
    ensures HasRowOfLength(data, w)
  {
    var j :| 0 <= j < |data[1..]| && |data[1..][j]| == w;
    assert |data[j + 1]| == w;
  }

  /** The number of columns pandas makes of a list of rows: the length of
      the longest row, the shorter ones padded with `None`. */
  function Width(data: seq<seq<string>>): (w: nat)
    ensures forall k :: 0 <= k < |data| ==> |data[k]| <= w
    ensures data == [] ==> w == 0
    ensures data != [] ==> HasRowOfLength(data, w)
    decreases |data|
  {
    if data == [] then 0
    else
      var rest := Width(data[1..]);
      assert forall k :: 1 <= k < |data| ==> data[k] == data[1..][k - 1];
      if |data[0]| >= rest then
        assert HasRowOfLength(data, |data[0]|) by { assert |data[0]| == |data[0]|; }
        |data[0]|
      else
        HasRowOfLengthCons(data, rest);
        rest
  }

  /** No row reaches the ten column names: pandas cannot build the frame. */
  predicate TooFewColumns(data: seq<seq<string>>)
  {
    data != [] && forall k :: 0 <= k < |data| ==> |data[k]| < 10
  }

  /** Rows of at most ten tokens are ten wide exactly when one of them
      has ten tokens. */
  lemma FrameWidth(data: seq<seq<string>>)
    requires forall k :: 0 <= k < |data| ==> IsRow(data[k])
    ensures data != [] && Width(data) != 10 <==> TooFewColumns(data)
  {
    if data != [] {
      var w := Width(data);
      var j :| 0 <= j < |data| && |data[j]| == w;
      assert IsRow(data[j]);
    }
  }

  /** `pd.DataFrame(data, columns=columns)` (data_prep.py:171-174) and the
      selection of the first four columns: an empty `data` gives an empty
      table; otherwise the rows are padded to the longest one, and pandas
      raises unless that makes ten columns. */
  function ToFrame(data: seq<seq<string>>): (r: Result<seq<RawRow>, FrameError>)
    requires forall k :: 0 <= k < |data| ==> IsRow(data[k])
    ensures r.Err? <==> TooFewColumns(data)
    ensures r.Ok? ==> r.value == ToRawRows(data)
  {
    FrameWidth(data);
    if data != [] && Width(data) != 10 then Err(ColumnCountMismatch) else Ok(ToRawRows(data))
  }

  /** The rows reconstructed from the waste file. */
  function WasteData(lines: seq<string>): (data: seq<seq<string>>)
    ensures forall k :: 0 <= k < |data| ==> IsRow(data[k])
  {
    ReconstructRows(Segments(WasteText(RepairedWasteLines(lines))));
    Reconstruct(Segments(WasteText(RepairedWasteLines(lines))))
  }

  /** The waste table just before the year window, when the frame could
      be built: reconstructed rows whose year passed the four-digit test,
      years converted. */
  function WasteTyped(lines: seq<string>): seq<Row<string>>
  {
    ConvertYears(YearFormatFilter(ToRawRows(WasteData(lines))))
  }

  /** The waste table before imputation: year window, then TotalWaste
      cleanup. */
  function WasteRows(lines: seq<string>): seq<Row<Option<real>>>
  {
    CleanTotalWaste(YearWindow(WasteTyped(lines)))
  }

  /** Every row the TotalWaste cleanup keeps is the converted form of one
      of its input rows. */
  lemma CleanTotalWasteFrom(rows: seq<Row<string>>, x: Row<Option<real>>)
    requires x in CleanTotalWaste(rows)
    ensures exists j :: (0 <= j < |rows| && x.entity == rows[j].entity && x.code == rows[j].code
                         && x.year == rows[j].year && x.value == ParseWaste(rows[j].value))
  {
    FilterMembership(ParseWasteColumn(rows), KeepWaste, x);
    var j :| 0 <= j < |ParseWasteColumn(rows)| && ParseWasteColumn(rows)[j] == x;
  }

  /** A row that survives the year window and the TotalWaste cleanup has
      a year of the converted table, inside the analysis window unless
      that table had an anomalous year. */
  lemma WasteRowYears(typed: seq<Row<string>>, x: Row<Option<real>>)
    requires forall k :: 0 <= k < |typed| ==> 0 <= typed[k].year <= 9999
    requires x in CleanTotalWaste(YearWindow(typed))
    ensures 0 <= x.year <= 9999
    ensures !YearsImplausible(typed) ==> 1990 <= x.year <= 2030
  {
    var windowed := YearWindow(typed);
    CleanTotalWasteFrom(windowed, x);
    var j :| 0 <= j < |windowed| && x.year == windowed[j].year;
    YearWindowSpec(typed, windowed[j]);
  }

  /** data_prep.py:148-245 for the waste file. It fails exactly when no
      reconstructed row has ten tokens. Otherwise the result has only
      four-digit years; its years lie in 1990-2030 unless the converted
      table had a year outside 1900-2050; every TotalWaste is missing or
      positive. */
  method CleanWaste(lines: seq<string>) returns (result: Result<seq<Row<Option<real>>>, FrameError>)
    ensures result.Err? <==> TooFewColumns(WasteData(lines))
    ensures result.Ok? ==> result.value == WasteRows(lines)
    ensures result.Ok? ==> forall k :: 0 <= k < |result.value| ==> 0 <= result.value[k].year <= 9999
    ensures result.Ok? && !YearsImplausible(WasteTyped(lines)) ==>
      forall k :: 0 <= k < |result.value| ==> 1990 <= result.value[k].year <= 2030
    ensures result.Ok? ==> forall k :: 0 <= k < |result.value| ==> KeepWaste(result.value[k])
  {
    var cleaned := RepairWasteLines(lines);
    var text := WasteText(cleaned);
    var segs := Segments(text);
    var data := BuildRows(segs);
    assert data == WasteData(lines);
    var frame := ToFrame(data);
    if frame.Err? {
      return Err(frame.error);
    }
    var raw := frame.value;
    var formatted := YearFormatFilter(raw);
    var typed := ConvertYears(formatted);
    var windowed := YearWindow(typed);
    var rows := CleanTotalWaste(windowed);
    assert typed == WasteTyped(lines);
    forall k | 0 <= k < |rows|
      ensures 0 <= rows[k].year <= 9999
      ensures !YearsImplausible(typed) ==> 1990 <= rows[k].year <= 2030
    {
      WasteRowYears(typed, rows[k]);
    }
    result := Ok(rows);
  }

  /** Imputation keeps every key: the table before and after has the same
      (Country, Year) pairs, row by row. */
  lemma OnlyTargetChangedKeepsKeys(before: seq<Row<Option<real>>>, after: seq<Row<Option<real>>>)
    requires OnlyTargetChanged(before, after)
    ensures forall k :: 0 <= k < |before| ==> Key(after[k]) == Key(before[k])
    ensures Keys(after) == Keys(before)
  {
    assert forall k :: 0 <= k < |before| ==> Key(after[k]) == Key(before[k]);
  }

  /** data_prep.py:100-138 for the recycling table: de-duplicate on
      (Country, Year), then impute the missing RecyclingRate values. The
      result never holds two rows with one key and has the keys of the
      input. With no missing rate the imputation is skipped; otherwise
      the rate column is the estimator's second column, and no rate is
      missing. */
  method CleanRecycling(parsed: seq<Row<Option<real>>>, estimator: seq<Feature> -> seq<seq<real>>)
    returns (table: Table, outcome: Outcome)
    ensures fresh(table)
    ensures forall i, j :: 0 <= i < j < |table.rows| ==> Key(table.rows[i]) != Key(table.rows[j])
    ensures Keys(table.rows) == Keys(parsed)
    ensures outcome != Imputed ==> table.rows == Dedup(parsed)
    ensures outcome == Imputed ==> OnlyTargetChanged(Dedup(parsed), table.rows) && MissingCount(table.rows) == 0
    ensures MissingCount(Dedup(parsed)) == 0 ==> outcome == Skipped
    ensures outcome == Imputed ==>
      var r := Overwrite(Dedup(parsed), estimator(Features(Dedup(parsed))));
      r.Ok? && table.rows == r.value
  {
    var unique := Dedup(parsed);
    DedupUnique(parsed);
    DedupKeys(parsed);
    table := new Table(unique);
    outcome := table.ImputeTarget(estimator);
    if outcome == Imputed {
      OnlyTargetChangedKeepsKeys(unique, table.rows);
    }
  }

  /** data_prep.py:148-279 for the waste table: clean, then impute the
      missing TotalWaste values. It fails exactly when the frame cannot be
      built. With no missing value the imputation is skipped, and every
      value is missing or positive; otherwise the TotalWaste column is the
      estimator's second column, and none is missing. */
  method CleanWasteTable(lines: seq<string>, estimator: seq<Feature> -> seq<seq<real>>)
    returns (result: Result<(Table, Outcome), FrameError>)
    ensures result.Err? <==> TooFewColumns(WasteData(lines))
    ensures result.Ok? ==> fresh(result.value.0)
    ensures result.Ok? ==>
      forall k :: 0 <= k < |result.value.0.rows| ==> 0 <= result.value.0.rows[k].year <= 9999
    ensures result.Ok? && !YearsImplausible(WasteTyped(lines)) ==>
      forall k :: 0 <= k < |result.value.0.rows| ==> 1990 <= result.value.0.rows[k].year <= 2030
    ensures result.Ok? && result.value.1 != Imputed ==> result.value.0.rows == WasteRows(lines)
    ensures result.Ok? && result.value.1 != Imputed ==>
      forall k :: 0 <= k < |result.value.0.rows| ==> KeepWaste(result.value.0.rows[k])
    ensures result.Ok? && result.value.1 == Imputed ==>
      OnlyTargetChanged(WasteRows(lines), result.value.0.rows) && MissingCount(result.value.0.rows) == 0
    ensures result.Ok? && MissingCount(WasteRows(lines)) == 0 ==> result.value.1 == Skipped
    ensures result.Ok? && result.value.1 == Imputed ==>
      var r := Overwrite(WasteRows(lines), estimator(Features(WasteRows(lines))));
      r.Ok? && result.value.0.rows == r.value
  {
    var cleaned := CleanWaste(lines);
    if cleaned.Err? {
      return Err(cleaned.error);
    }
    var rows := cleaned.value;
    var table := new Table(rows);
    var outcome := table.ImputeTarget(estimator);
    ghost var after := table.rows;
    assert OnlyTargetChanged(rows, after);
    ghost var bounded := !YearsImplausible(WasteTyped(lines));
    forall k | 0 <= k < |after|
      ensures 0 <= after[k].year <= 9999
      ensures bounded ==> 1990 <= after[k].year <= 2030
    {
      assert after[k].year == rows[k].year;
    }
    result := Ok((table, outcome));
  }
}
