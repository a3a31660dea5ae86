/** The guarded k-NN imputation of a target column (data_prep.py:119-135
    for RecyclingRate, data_prep.py:253-276 for TotalWaste). The fitted
    estimator, `KNNImputer(n_neighbors=5).fit_transform`, is a parameter:
    it maps the feature matrix `df[['Year', target]]` to a matrix of
    reals, one row per table row. */
module Imputation {
  import opened Wrappers
  import opened Records

  /** One row of the feature matrix: the year and the possibly missing
      target value. */
  datatype Feature = Feature(year: int, target: Option<real>)

  /** What numpy or pandas raises when the estimator's output does not fit:
      `imputed[:, 1]` needs a second column, and assigning a column needs
      one value per row. */
  datatype ImputeError = MissingSecondColumn | LengthMismatch

  datatype Outcome = Skipped | Imputed | Failed(error: ImputeError)

  /** `df[target].isnull().sum()`. */
  function MissingCount(rows: seq<Row<Option<real>>>): (n: nat)
    ensures n <= |rows|
    ensures n == 0 <==> forall k :: 0 <= k < |rows| ==> rows[k].value.Some?
    decreases |rows|
  {
    if rows == [] then 0
    else
      var rest := MissingCount(rows[1..]);
      assert forall k :: 1 <= k < |rows| ==> rows[k] == rows[1..][k - 1];
      (if rows[0].value.None? then 1 else 0) + rest
  }

  /** `df[['Year', target]]`. */
  function Features(rows: seq<Row<Option<real>>>): seq<Feature>
  {
    seq(|rows|, k requires 0 <= k < |rows| => Feature(rows[k].year, rows[k].value))
  }

  /** Only the target column differs between the two tables. */
  predicate OnlyTargetChanged(before: seq<Row<Option<real>>>, after: seq<Row<Option<real>>>)
  {
    |after| == |before| &&
    forall k :: 0 <= k < |before| ==>
      after[k].entity == before[k].entity && after[k].code == before[k].code && after[k].year == before[k].year
  }

  /** `df[target] = imputed[:, 1]`: every target cell takes the second
      column of the estimator's output, all other cells stay, and no
      target is missing afterwards. It fails when the output has a row
      with fewer than two columns, or not one row per table row. */
  function Overwrite(rows: seq<Row<Option<real>>>, imputed: seq<seq<real>>): (r: Result<seq<Row<Option<real>>>, ImputeError>)
    ensures r.Ok? <==> (forall k :: 0 <= k < |imputed| ==> |imputed[k]| >= 2) && |imputed| == |rows|
    ensures r.Ok? ==>
      OnlyTargetChanged(rows, r.value) && MissingCount(r.value) == 0
      && forall k :: 0 <= k < |rows| ==> r.value[k].value == Some(imputed[k][1])
    ensures r.Err? && !(forall k :: 0 <= k < |imputed| ==> |imputed[k]| >= 2) ==> r.error == MissingSecondColumn
  {
    if exists k :: 0 <= k < |imputed| && |imputed[k]| < 2 then Err(MissingSecondColumn)
    else if |imputed| != |rows| then Err(LengthMismatch)
    else Ok(seq(|rows|, k requires 0 <= k < |rows| => rows[k].(value := Some(imputed[k][1]))))
  }

  /** A DataFrame whose target column the imputation step rewrites. */
  class Table {
    var rows: seq<Row<Option<real>>>

    constructor (initial: seq<Row<Option<real>>>)
      ensures rows == initial
    {
      rows := initial;
    }

    /** The guard of data_prep.py:119 and data_prep.py:260: with no
        missing target the table is left exactly as it is and the
        estimator is not consulted. Otherwise the whole target column is
        overwritten with the estimator's second column
        (data_prep.py:131 and data_prep.py:272), or, when the output does
        not fit, the step raises and the table is unchanged. The
        empty-table guard of data_prep.py:253 is the case of zero rows,
        which have zero missing values. */
    method ImputeTarget(estimator: seq<Feature> -> seq<seq<real>>) returns (outcome: Outcome)
      modifies this
      ensures MissingCount(old(rows)) == 0 ==> outcome == Skipped && rows == old(rows)
      ensures MissingCount(old(rows)) > 0 ==>
        var r := Overwrite(old(rows), estimator(Features(old(rows))));
        (r.Ok? ==> outcome == Imputed && rows == r.value)
        && (r.Err? ==> outcome == Failed(r.error) && rows == old(rows))
      ensures outcome == Imputed ==> OnlyTargetChanged(old(rows), rows) && MissingCount(rows) == 0
      ensures outcome != Imputed ==> rows == old(rows)
    {
      if MissingCount(rows) == 0 {
        return Skipped;
      }
      var imputed := estimator(Features(rows));
      var r := Overwrite(rows, imputed);
      if r.Err? {
        return Failed(r.error);
      }
      rows := r.value;
      outcome := Imputed;
    }
  }
}
