# Verified model of the data-preparation pipeline of projet-datavis

`data_prep.py` is a top-level script that cleans two CSV exports for a
dashboard on municipal recycling rates and agricultural waste. This
project models its cleaning steps in Dafny, with each step lifted into its
own function or method over sequences of strings and records, and proves
properties of them.

- **Recycling file** (`text.dfy`, `line_repair.dfy`, `records.dfy`,
  `imputation.dfy`):
  - line repair: strip trailing line breaks, drop one outer pair of quotes;
  - de-duplication on (Country, Year);
  - guarded k-NN imputation of `RecyclingRate`.
- **Corrupted waste file** (`line_repair.dfy`, `segmentation.dfy`,
  `records.dfy`):
  - per-line repair: strip, `""` to `"`, `;"` to `"`, `;` to `,`, unquote;
  - joining the lines, cutting the text with `[A-Z][^A-Z]+`;
  - tokenising each segment, keeping rows of 4 to 10 tokens;
  - the four-digit year filter and the conditional 1990-2030 window;
  - `TotalWaste` extraction with `\d+\.?\d*` and the positive-or-missing
    filter;
  - the same imputation guard.
- **Diagnostics** (`diagnostics.dfy`): temporal gaps over the sorted
  distinct years, and the IQR outlier filter once Q1 and Q3 are known.
- **Composition** (`pipeline.dfy`): the steps put together in the
  script's order.

Representation:
- Years are `int`.
- Rates and waste amounts are `Option<real>`: exact values, with `None`
  standing for pandas `NaN`.
- The three regular expressions, `[A-Z][^A-Z]+`, `^\d{4}$` and
  `\d+\.?\d*`, are written out as scans over ASCII characters.
- The k-NN imputer is an uninterpreted function parameter from the
  (Year, target) feature matrix to a result matrix.
- Loops that build a list or a file in the script are methods with loop
  invariants. Each method is proved equal to a specification function.
- The in-place rewrite of the target column is the method
  `Table.ImputeTarget` of a class whose `rows` field it updates.

## Model

The functions that compute a step state little about themselves. The
lemmas beside them carry the specification, and the rows below name those
lemmas:
- `Records.Dedup` (data_prep.py:100): `DedupKeys`, `DedupUnique`,
  `DedupKeepsFirst`, `DedupIsSubsequence`.
- `Records.YearWindow` (data_prep.py:216-223): `YearWindowSpec`,
  `YearWindowIdempotent`.
- `LineRepair.RepairRecyclingLine` (data_prep.py:73-75):
  `RecyclingLineShape`, `RecyclingQuoteStrip`, `RepairedHasNoNewline`.
- `LineRepair.FixDelimiters` (data_prep.py:153):
  `FixDelimitersRemovesSemicolons`, `FixDelimitersClean`.
- `Text.ReplaceAll`: `ReplaceCharRemoves`,
  `DeleteCharRemoves`, `ReplaceAbsent`, `ReplaceKeeps`, `ReplaceShrinks`.
- `Text.Split` and `Text.Join`: `SplitJoin`, `JoinSplit`, `JoinKeeps`.
- `Records.Filter` (the boolean masks of data_prep.py:184, 223 and 245):
  `FilterMembership`, `FilterIsSubsequence`.

| member | source | states |
|---|---|---|
| LineRepair.RecyclingLineShape | data_prep.py:73-75 | The raw line is the result (re-wrapped in quotes when a pair was removed) followed only by `\r`/`\n` characters. When no pair was removed, the result does not end in one. |
| LineRepair.RecyclingQuoteStrip | data_prep.py:73-75 | A line that does not end in `\r` or `\n` and is wrapped in quotes (length >= 2) loses exactly its first and last character. Any other such line is left as it is. |
| LineRepair.RepairedHasNoNewline | data_prep.py:71-73 | A line the file iterator yields (no `\n` before its end) has no `\n` after repair. |
| LineRepair.TerminatedIsJoin | data_prep.py:76 | Writing each line followed by `\n` is the same as joining the lines plus one empty line with `\n`. |
| LineRepair.TerminatedSplit | data_prep.py:70-76 | Splitting the written file on `\n` gives back exactly the repaired lines plus one final empty field, because no repaired line holds a `\n`. |
| LineRepair.RepairRecyclingFile | data_prep.py:70-76 | The loop writes every repaired line plus `\n`, in order. Splitting the output on `\n` gives back exactly the repaired lines and one final empty field. |
| LineRepair.UnquoteWasteLine | data_prep.py:154-155 | Drops the first and last character of a line that starts and ends with `"`. A lone `"` becomes empty, because there is no length check. Any other line is unchanged. |
| LineRepair.UnquoteKeepsChars | data_prep.py:154-155 | Unquoting never lengthens a line and adds no character. |
| LineRepair.FixDelimitersRemovesSemicolons | data_prep.py:153 | The replacement chain leaves no `;` and never lengthens the line. |
| LineRepair.FixDelimitersClean | data_prep.py:153 | A line with no `"` and no `;` passes the replacement chain unchanged. |
| LineRepair.RepairWasteLine | data_prep.py:152-155 | A repaired waste line contains no `;` and is no longer than the raw line. |
| LineRepair.CleanWasteLineUnchanged | data_prep.py:152-155 | A line with no outer whitespace, no quote and no semicolon is left as it is. |
| LineRepair.RepairWasteLines | data_prep.py:149-156 | The loop's list is `RepairedWasteLines`: in order, the repair of each raw line. None of them contains `;`. |
| LineRepair.WasteText | data_prep.py:159 | The joined text contains no `;`. |
| Text.StripRight | data_prep.py:73 | `rstrip` keeps a prefix of the line, removes only characters of the given set, and leaves no such character at the end. |
| Text.Strip | data_prep.py:152 | The result is a contiguous slice of the input with no leading or trailing ASCII whitespace. |
| Text.ReplaceCharRemoves | data_prep.py:153 | Replacing every occurrence of a character by a different one leaves none of it. |
| Text.DeleteCharRemoves | data_prep.py:239 | Deleting every occurrence of a character leaves none of it and never lengthens the string. |
| Text.ReplaceAbsent | data_prep.py:153 | A string without the pattern's first character is unchanged by the replacement. |
| Text.ReplaceKeeps | data_prep.py:153 | A replacement introduces no character found in neither the input nor the replacement. |
| Text.ReplaceShrinks | data_prep.py:153 | Replacing a pattern by a string no longer than it never lengthens the input. |
| Text.SplitJoin | data_prep.py:159 | Splitting a join on its one-character separator gives back the parts, when there is at least one part and none contains the separator. |
| Text.JoinSplit | data_prep.py:166 | Joining the fields of a split with the separator gives back the string. |
| Text.JoinKeeps | data_prep.py:159 | A character in neither the parts nor the separator is not in the join. |
| Segmentation.Scan | data_prep.py:161 | Every span found is a match of `[A-Z][^A-Z]+` starting at or after the scan start, and the spans do not overlap and come in text order. |
| Segmentation.ScanFindsEveryStart | data_prep.py:161 | A position starts a found match exactly when it holds an uppercase letter followed by a non-uppercase character. |
| Segmentation.MatchStarts | data_prep.py:161 | The same as ScanFindsEveryStart, for the whole text. |
| Segmentation.Segments | data_prep.py:161 | Each segment is the text of its span. It has length >= 2, starts with an uppercase letter and holds no other uppercase letter. |
| Segmentation.StripKeepsNoComma | data_prep.py:166 | Stripping a comma-free field keeps it comma-free. |
| Segmentation.Tokens | data_prep.py:166 | Every token of a segment is non-empty, comma-free and has no outer whitespace. |
| Segmentation.TokensOfJoin | data_prep.py:166 | Tokenising the comma-join of well-formed tokens gives them back. |
| Segmentation.FirstTen | data_prep.py:168 | The result is the prefix of at most 10 tokens: all of them when there are at most 10, else exactly 10. |
| Segmentation.ReconstructRows | data_prep.py:165-168 | Every reconstructed row has 4 to 10 well-formed tokens. |
| Segmentation.UnparseableSegmentDropped | data_prep.py:167 | Removing a segment with fewer than 4 tokens does not change the rows. |
| Segmentation.ParseableSegmentKept | data_prep.py:167-168 | The first ten tokens of a segment with at least 4 tokens are among the rows. |
| Segmentation.ReconstructSound | data_prep.py:165-168 | Every row is the first ten tokens of some segment with at least 4 tokens. |
| Segmentation.ReconstructAppend | data_prep.py:164-168 | Rows of concatenated segment lists are the concatenation of their rows. |
| Segmentation.BuildRows | data_prep.py:164-168 | The loop's `data` list equals the reconstruction of all segments, and every row has 4 to 10 well-formed tokens. |
| Pipeline.ToRawRows | data_prep.py:177-178 | Each raw waste row is the first four tokens of its reconstructed row (Entity, Code, Year, Agriculture renamed TotalWaste), each a well-formed token. |
| Records.FilterMembership | data_prep.py:184 | A boolean-mask selection keeps exactly the elements satisfying the mask. |
| Records.FilterIsSubsequence | data_prep.py:184 | A boolean-mask selection keeps the relative order of the rows. |
| Records.DedupKeys | data_prep.py:100 | De-duplication keeps every (Country, Year) key present in the input. |
| Records.DedupUnique | data_prep.py:100 | After de-duplication no two rows share a (Country, Year) key. |
| Records.FirstOccurrenceKept | data_prep.py:100 | The first row with a key survives de-duplication. |
| Records.KeptIsFirstOccurrence | data_prep.py:100 | Every row that survives is the first row with its key. |
| Records.DedupKeepsFirst | data_prep.py:100 | The first occurrence of each key is kept, and every kept row is the first occurrence of its key. |
| Records.DedupIsSubsequence | data_prep.py:100 | De-duplication keeps the rows' relative order. |
| Records.TokenYearFormat | data_prep.py:184 | For a stripped token, `^\d{4}$` holds exactly when it is four ASCII digits. |
| Records.ParseYear | data_prep.py:187 | `astype(int)` of a four-digit year lies in 0..9999. |
| Records.ParseYearRoundTrip | data_prep.py:184-187 | Writing a parsed year back with four digits gives the four digits of the token. |
| Records.FourDigitsRoundTrip | data_prep.py:184-187 | Every year in 0..9999 written with four digits passes the format test and parses back to itself. |
| Records.YearFormatFilter | data_prep.py:184 | Every kept row has a four-digit Year token. |
| Records.YearFormatFilterSpec | data_prep.py:184 | A row is kept exactly when its Year token is four digits, and order is kept. |
| Records.ConvertYears | data_prep.py:187 | Only the year changes. It becomes the integer whose four-digit spelling is the token. |
| Records.MinYear | data_prep.py:211 | The result is a year of some row, and no row has a smaller one. |
| Records.MaxYear | data_prep.py:212 | The result is a year of some row, and no row has a larger one. |
| Records.YearsImplausibleIff | data_prep.py:216 | The anomaly branch is taken exactly when some year is below 1900 or above 2050. On an empty table it is not taken. |
| Records.YearWindowSpec | data_prep.py:216-223 | With anomalous years the table is unchanged. Otherwise exactly the rows of 1990..2030 remain. Either way the result is an order-preserving subsequence. |
| Records.YearWindowIdempotent | data_prep.py:216-223 | Applying the year window twice is the same as applying it once. |
| Records.FindNumber | data_prep.py:240 | `\d+\.?\d*` is found exactly when the string holds a digit. The match starts at the first digit, is well formed and is the longest match from there. |
| Records.NumberPositiveIff | data_prep.py:241-245 | The value of an extracted number is positive exactly when one of its digits is non-zero. |
| Records.ParseWaste | data_prep.py:239-241 | The extracted value is missing exactly when the string has no digit once its commas are removed. A present value is never negative, and it is positive exactly when the first number of the comma-free string has a non-zero digit. |
| Records.ParseWasteColumn | data_prep.py:236-242 | Entity, Code and Year stay in every row. A TotalWaste cell becomes NaN exactly when its comma-free text has no digit, and a converted cell is positive exactly when its first number has a non-zero digit, which is what the filter at line 245 tests. |
| Records.CleanTotalWaste | data_prep.py:235-245 | Every remaining TotalWaste is missing or strictly positive. |
| Records.CleanTotalWasteSpec | data_prep.py:245 | Rows with a missing value are never dropped. A row with a value is kept exactly when the value is positive. Order is kept. |
| Diagnostics.Insert | data_prep.py:36 | Inserting a year into strictly increasing years keeps them strictly increasing and adds exactly that year. |
| Diagnostics.SortedDistinct | data_prep.py:36 | The sorted unique years are strictly increasing and are exactly the input's years. |
| Diagnostics.AdjacentGapsIff | data_prep.py:38-40 | A pair is a gap exactly when it is two neighbouring years more than one apart. |
| Diagnostics.AdjacentGapsAscending | data_prep.py:38-40 | Over increasing years the gaps are increasing pairs in ascending, non-overlapping order. |
| Diagnostics.NoGapsContiguous | data_prep.py:38-45 | Without a gap, no year between the first and the last is missing. |
| Diagnostics.GapMissesYear | data_prep.py:38-45 | With a gap, some year between the first and the last is missing. |
| Diagnostics.NoGapsIffContiguous | data_prep.py:42-45 | There is no gap exactly when every year between the first and the last is present. |
| Diagnostics.CheckTemporalConsistency | data_prep.py:30-46 | An empty table gives no gaps. Otherwise the loop returns exactly the adjacent gaps of the sorted distinct years. |
| Diagnostics.SortedExample | data_prep.py:36 | Years 1990, 1991, 1995 sort to themselves. |
| Diagnostics.GapExample | data_prep.py:36-40 | Years 1990, 1991, 1995 give the single gap (1991, 1995). |
| Diagnostics.Outliers | data_prep.py:61 | Every returned row lies below the lower fence or above the upper fence. |
| Diagnostics.OutliersSpec | data_prep.py:57-61 | A row is returned exactly when it is an outlier. A missing value never is one, and order is kept. |
| Diagnostics.InterquartileNotOutlier | data_prep.py:57-61 | A value between Q1 and Q3 is never an outlier. |
| Imputation.MissingCount | data_prep.py:119 | The missing count is zero exactly when every target value is present. |
| Imputation.Overwrite | data_prep.py:131 | The assignment `[:, 1]` succeeds exactly when every result row has a second column and the lengths match. It then changes only the target, to that second column, and leaves nothing missing. A short row gives the index error. |
| Imputation.Table.ImputeTarget | data_prep.py:119-135 | With nothing missing the table is untouched. Otherwise the estimator's result replaces only the target column, or on error the table is untouched. |
| Pipeline.WasteRowYears | data_prep.py:216-245 | A row left after the year window and the TotalWaste cleanup has a year in 0..9999. That year is in 1990..2030 unless the converted table had an anomalous year. |
| Pipeline.Width | data_prep.py:174 | The number of columns pandas makes of the rows is at least every row's length and is the length of one of them (zero for no rows). |
| Pipeline.FrameWidth | data_prep.py:168-174 | Rows of four to ten tokens are not ten wide exactly when there is a row and none has ten tokens. |
| Pipeline.ToFrame | data_prep.py:171-178 | `pd.DataFrame(data, columns=...)` fails exactly when there is a row and no row has ten tokens. Otherwise it gives the first four tokens of every row. |
| Pipeline.CleanWaste | data_prep.py:148-245 | The waste pipeline fails exactly when the frame cannot be built. Otherwise the waste rows are the composition of all waste steps. Every year is in 0..9999, and in 1990..2030 unless the converted table had an anomalous year. Every TotalWaste is missing or positive. |
| Pipeline.OnlyTargetChangedKeepsKeys | data_prep.py:131 | Imputation keeps every row's (Country, Year) key. |
| Pipeline.CleanRecycling | data_prep.py:100-135 | The recycling table has unique keys and the keys of the input. With no missing rate after de-duplication the step is skipped and the table is the de-duplicated one. It is the de-duplicated table unless imputed. After imputation the table is `Overwrite` of the de-duplicated rows with the estimator's output on their features, and nothing is missing. |
| Pipeline.CleanWasteTable | data_prep.py:148-276 | It fails exactly when the frame cannot be built. Otherwise the waste table keeps the year bounds. Without imputation it is the cleaned rows, with every value missing or positive. With no missing TotalWaste the step is skipped. After imputation the table is `Overwrite` of the cleaned rows with the estimator's output on their features: only the target changed and nothing is missing. |

## Left out

- File I/O: opening, reading, writing and `to_csv` (data_prep.py:70,
  141, 150, 282) and the hard-coded paths. The waste pipeline starts from
  the file's lines. The recycling pipeline starts from the typed rows.
- `pd.read_csv` parsing (data_prep.py:81): its CSV quoting rules belong to
  library code that is not part of this model. So does the type conversion
  of lines 103-104 (`astype(int)` / `astype(float)` of `Year` and
  `RecyclingRate`). `CleanRecycling` takes the rows already parsed.
- The k-NN estimator (data_prep.py:127-128) is a function parameter. Its
  distance computation and the values it produces are not modelled.
- Imputation.Overwrite: the estimator's output is a matrix of reals, so
  the model assumes that it returns no NaN. "Nothing is missing after
  imputation" in `Overwrite`, `Table.ImputeTarget`, `CleanRecycling` and
  `CleanWasteTable` rests on that assumption, not on a proof. scikit-learn's
  `KNNImputer` behaves that way: it fills every missing entry of a column
  that has at least one value, and it drops a column with no value at all,
  which is the `MissingSecondColumn` path of the model.
- Pipeline.CleanRecycling: de-duplicates rows whose Year is already an
  integer. The script de-duplicates at data_prep.py:100 on the Year as
  `read_csv` read it and converts with `astype(int)` only at line 103. The
  two agree when the Year column holds whole numbers. With Year cells such
  as `2010.0` and `2010.4` for one Country, the script keeps both rows and
  then gives them the same key. The model cannot be given those rows, so
  its promise of unique keys does not cover that case. A missing Year,
  which makes `astype(int)` raise, is not modelled either.
- Pipeline.CleanWasteTable: after imputation the model does not promise
  that imputed TotalWaste values are positive, since the estimator is
  abstract.
- `quantile` interpolation (data_prep.py:55-56): Q1 and Q3 are inputs of
  `Outliers`.
- Floating point: `astype(float)` is modelled as the exact decimal value
  of the extracted digits. Rounding, `inf` and `NaN` arithmetic other than
  "missing" are not modelled.
- Unicode: `\d` and `str.strip()` are modelled over ASCII. The Python
  whitespace set used is the ASCII one, including `\x1c`-`\x1f`. Non-ASCII
  digits and spaces are not recognised. (`[A-Z]` is the ASCII range in
  Python too.)
- `read_csv` reads an empty Country cell as `NaN`, and `drop_duplicates`
  treats two `NaN` keys as equal. The model represents such a cell by one
  fixed string (the empty string), which de-duplicates the same way. In
  the waste pipeline every Entity is a non-empty token.
- `validate_data_structure`, every `print`, and the final report and
  recommendation (data_prep.py:16-26, 306-328): output only.
- `dashboard.py` and `vis.py`: Streamlit and Plotly presentation code,
  not part of this model.
