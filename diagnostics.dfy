/** The read-only diagnostics run on each cleaned table: temporal
    continuity (data_prep.py:30-46) and the IQR outlier rule
    (data_prep.py:49-63). Neither changes the table. */
module Diagnostics {
  import opened Wrappers
  import opened Records

  predicate StrictlyIncreasing(s: seq<int>)
  {
    forall i, j :: 0 <= i < j < |s| ==> s[i] < s[j]
  }

  /** Putting a year in front of larger ones keeps the sequence strictly
      increasing. */
  lemma PrependSmaller(s: seq<int>, y: int, rest: seq<int>)
    requires StrictlyIncreasing(s) && s != [] && s[0] < y
    requires StrictlyIncreasing(rest) && forall x :: x in rest <==> x in s[1..] || x == y
    ensures StrictlyIncreasing([s[0]] + rest)
    ensures forall x :: x in [s[0]] + rest <==> x in s || x == y
  {
    var tail := s[1..];
    assert s == [s[0]] + tail;
    assert forall i :: 0 <= i < |tail| ==> s[0] < tail[i];
    forall x | x in rest
      ensures s[0] < x
    {
      if x != y {
        var i :| 0 <= i < |tail| && tail[i] == x;
      }
    }
    var r := [s[0]] + rest;
    forall i, j | 0 <= i < j < |r|
      ensures r[i] < r[j]
    {
      assert r[j] == rest[j - 1] && r[j] in rest;
      if i > 0 {
        assert r[i] == rest[i - 1];
      }
    }
  }

  /** `y` inserted into a strictly increasing sequence, unless present. */
  function Insert(s: seq<int>, y: int): (r: seq<int>)
    requires StrictlyIncreasing(s)
    ensures StrictlyIncreasing(r)
    ensures forall x :: x in r <==> x in s || x == y
    decreases |s|
  {
    if s == [] then [y]
    else if y < s[0] then [y] + s
    else if y == s[0] then s
    else
      var rest := Insert(s[1..], y);
      PrependSmaller(s, y, rest);
      [s[0]] + rest
  }

  /** `sorted(df[year_col].unique())`: the distinct years, ascending. */
  function SortedDistinct(years: seq<int>): (r: seq<int>)
    ensures StrictlyIncreasing(r)
    ensures forall y :: y in r <==> y in years
    decreases |years|
  {
    if years == [] then []
    else
      var init := years[..|years| - 1];
      assert years == init + [years[|years| - 1]];
      Insert(SortedDistinct(init), years[|years| - 1])
  }

  /** `df[year_col]`. */
  function Years<V>(rows: seq<Row<V>>): seq<int>
  {
    seq(|rows|, k requires 0 <= k < |rows| => rows[k].year)
  }

  /** The adjacent pairs of `ys` more than one apart, in order. */
  function AdjacentGaps(ys: seq<int>): seq<(int, int)>
    decreases |ys|
  {
    if |ys| < 2 then []
    else
      var n := |ys|;
      AdjacentGaps(ys[..n - 1]) + (if ys[n - 1] - ys[n - 2] > 1 then [(ys[n - 2], ys[n - 1])] else [])
  }

  /** A pair is reported exactly when it is a pair of neighbours in `ys`
      more than one year apart. */
  lemma {:induction false} AdjacentGapsIff(ys: seq<int>, a: int, b: int)
    ensures (a, b) in AdjacentGaps(ys) <==>
      exists i :: 1 <= i < |ys| && ys[i - 1] == a && ys[i] == b && b - a > 1
    decreases |ys|
  {
    if |ys| >= 2 {
      var init := ys[..|ys| - 1];
      AdjacentGapsIff(init, a, b);
      if exists i :: 1 <= i < |init| && init[i - 1] == a && init[i] == b && b - a > 1 {
        var i :| 1 <= i < |init| && init[i - 1] == a && init[i] == b && b - a > 1;
        assert ys[i - 1] == a && ys[i] == b;
      }
      if exists i :: 1 <= i < |ys| && ys[i - 1] == a && ys[i] == b && b - a > 1 {
        var i :| 1 <= i < |ys| && ys[i - 1] == a && ys[i] == b && b - a > 1;
        if i < |ys| - 1 {
          assert init[i - 1] == a && init[i] == b;
        }
      }
    }
  }

  /** Over ascending years the gaps come out in ascending order. */
  lemma {:induction false} AdjacentGapsAscending(ys: seq<int>)
    requires StrictlyIncreasing(ys)
    ensures forall k :: 0 <= k < |AdjacentGaps(ys)| ==>
      AdjacentGaps(ys)[k].0 < AdjacentGaps(ys)[k].1 && AdjacentGaps(ys)[k].1 <= ys[|ys| - 1]
    ensures forall k, l :: 0 <= k < l < |AdjacentGaps(ys)| ==>
      AdjacentGaps(ys)[k].1 <= AdjacentGaps(ys)[l].0
    decreases |ys|
  {
    if |ys| >= 2 {
      var init := ys[..|ys| - 1];
      AdjacentGapsAscending(init);
      var n := |ys|;
      var gi := AdjacentGaps(init);
      assert init[|init| - 1] == ys[n - 2] < ys[n - 1];
      if ys[n - 1] - ys[n - 2] > 1 {
        var g := gi + [(ys[n - 2], ys[n - 1])];
        assert AdjacentGaps(ys) == g;
        assert forall k :: 0 <= k < |gi| ==> g[k] == gi[k];
      } else {
        assert AdjacentGaps(ys) == gi;
      }
    }
  }

  /** Without a gap, a strictly increasing run of years misses no year
      between its first and its last. */
  lemma {:induction false} NoGapsContiguous(ys: seq<int>)
    requires ys != [] && StrictlyIncreasing(ys) && AdjacentGaps(ys) == []
    ensures forall y :: ys[0] <= y <= ys[|ys| - 1] ==> y in ys
    decreases |ys|
  {
    if |ys| >= 2 {
      var n := |ys|;
      var init := ys[..n - 1];
      assert AdjacentGaps(init) == [] && ys[n - 1] - ys[n - 2] <= 1;
      NoGapsContiguous(init);
      forall y | ys[0] <= y <= ys[n - 1]
        ensures y in ys
      {
        if y <= init[n - 2] {
          assert init[0] <= y <= init[|init| - 1];
          assert y in init;
          var i :| 0 <= i < |init| && init[i] == y;
          assert ys[i] == y;
        } else {
          assert y == ys[n - 1];
        }
      }
    }
  }

  /** With a gap, some year between the first and the last is missing. */
  lemma {:induction false} GapMissesYear(ys: seq<int>)
    requires ys != [] && StrictlyIncreasing(ys) && AdjacentGaps(ys) != []
    ensures exists y :: ys[0] <= y <= ys[|ys| - 1] && y !in ys
    decreases |ys|
  {
    var n := |ys|;
    var init := ys[..n - 1];
    if AdjacentGaps(init) == [] {
      assert ys[n - 1] - ys[n - 2] > 1;
      var y := ys[n - 2] + 1;
      forall i | 0 <= i < n
        ensures ys[i] != y
      {
        if i < n - 1 {
          assert ys[i] <= ys[n - 2];
        }
      }
      assert ys[0] <= y <= ys[n - 1] && y !in ys;
    } else {
      GapMissesYear(init);
      var y :| init[0] <= y <= init[|init| - 1] && y !in init;
      forall i | 0 <= i < n
        ensures ys[i] != y
      {
        if i < n - 1 {
          assert ys[i] == init[i];
        }
      }
      assert ys[0] <= y <= ys[n - 1] && y !in ys;
    }
  }

  /** A strictly increasing run of years has no gap exactly when it
      misses no year between its first and its last. */
  lemma NoGapsIffContiguous(ys: seq<int>)
    requires ys != [] && StrictlyIncreasing(ys)
    ensures AdjacentGaps(ys) == [] <==> forall y :: ys[0] <= y <= ys[|ys| - 1] ==> y in ys
  {
    if AdjacentGaps(ys) == [] {
      NoGapsContiguous(ys);
    } else {
      GapMissesYear(ys);
    }
  }

  /** `check_temporal_consistency`: an empty table has no gap; otherwise
      the gaps are the adjacent pairs of the sorted distinct years that are
      more than one year apart. */
  method CheckTemporalConsistency<V>(rows: seq<Row<V>>) returns (gaps: seq<(int, int)>)
    ensures rows == [] ==> gaps == []
    ensures gaps == AdjacentGaps(SortedDistinct(Years(rows)))
  {
    if |rows| == 0 {
      return [];
    }
    var years := SortedDistinct(Years(rows));
    assert Years(rows)[0] == rows[0].year;
    assert rows[0].year in years;
    gaps := [];
    for i := 1 to |years|
      invariant gaps == AdjacentGaps(years[..i])
    {
      if years[i] - years[i - 1] > 1 {
        gaps := gaps + [(years[i - 1], years[i])];
      }
      assert years[..i + 1][..i] == years[..i];
    }
    assert years[..|years|] == years;
  }

  /** The worked example: years 1990, 1991 and 1995 show one gap,
      from 1991 to 1995. */
  lemma GapExample()
    ensures AdjacentGaps(SortedDistinct([1990, 1991, 1995])) == [(1991, 1995)]
  {
    var ys := [1990, 1991, 1995];
    SortedExample();
    assert ys[..2] == [1990, 1991] && ys[..2][..1] == [1990];
    assert AdjacentGaps([1990, 1991]) == [];
  }

  lemma SortedExample()
    ensures SortedDistinct([1990, 1991, 1995]) == [1990, 1991, 1995]
  {
    var ys := [1990, 1991, 1995];
    assert ys[..2] == [1990, 1991] && ys[..2][..1] == [1990] && ys[..2][..1][..0] == [];
    assert SortedDistinct([1990]) == [1990];
    assert SortedDistinct([1990, 1991]) == Insert([1990], 1991);
    assert [1990][1..] == [];
    assert Insert([1990], 1991) == [1990, 1991];
    assert [1990, 1991][1..] == [1991] && [1991][1..] == [];
    assert Insert([1991], 1995) == [1991, 1995];
    assert Insert([1990, 1991], 1995) == ys;
  }

  // ---------------------------------------------------------------------
  // IQR rule, data_prep.py:55-61

  function LowerFence(q1: real, q3: real): real
  {
    q1 - 1.5 * (q3 - q1)
  }

  function UpperFence(q1: real, q3: real): real
  {
    q3 + 1.5 * (q3 - q1)
  }

  /** A present value strictly outside the fences; a missing value (NaN)
      compares false on both sides and is never an outlier. */
  predicate IsOutlier(q1: real, q3: real, row: Row<Option<real>>)
  {
    row.value.Some? && (row.value.value < LowerFence(q1, q3) || row.value.value > UpperFence(q1, q3))
  }

  /** `detect_outliers_iqr` once the quartiles are known: the rows whose
      target lies outside the fences, in table order. */
  function Outliers(rows: seq<Row<Option<real>>>, q1: real, q3: real): (r: seq<Row<Option<real>>>)
    ensures forall k :: 0 <= k < |r| ==> IsOutlier(q1, q3, r[k])
  {
    if |rows| == 0 then [] else Filter(rows, (row: Row<Option<real>>) => IsOutlier(q1, q3, row))
  }

  /** Exactly the rows outside the fences are reported, in order. */
  lemma OutliersSpec(rows: seq<Row<Option<real>>>, q1: real, q3: real, row: Row<Option<real>>)
    ensures row in Outliers(rows, q1, q3) <==> row in rows && IsOutlier(q1, q3, row)
    ensures IsSubsequence(Outliers(rows, q1, q3), rows)
  {
    var p := (row: Row<Option<real>>) => IsOutlier(q1, q3, row);
    FilterMembership(rows, p, row);
    FilterIsSubsequence(rows, p);
  }

  /** With ordered quartiles the fences enclose [Q1, Q3]: a value between
      the quartiles is never flagged. */
  lemma InterquartileNotOutlier(q1: real, q3: real, row: Row<Option<real>>)
    requires q1 <= q3 && row.value.Some? && q1 <= row.value.value <= q3
    ensures !IsOutlier(q1, q3, row)
  {
  }
}
