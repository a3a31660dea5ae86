/** The typed tables and the expression-style row filters of the cleaning
    script: de-duplication (data_prep.py:100), the four-digit year filter
    and year conversion (data_prep.py:184-187), the plausibility window on
    years (data_prep.py:211-223) and the TotalWaste cleanup
    (data_prep.py:235-245). */
module Records {
  import opened Wrappers
  import opened Text

  /** One row of a cleaned table. The recycling table reads it as
      (Country, Code, Year, RecyclingRate), the waste table as
      (Entity, Code, Year, TotalWaste). */
  datatype Row<V> = Row(entity: string, code: string, year: int, value: V)

  /** The four kept columns of a reconstructed waste row, still text:
      Entity, Code, Year and Agriculture, which becomes TotalWaste
      (data_prep.py:177-178). */
  datatype RawRow = RawRow(entity: string, code: string, year: string, waste: string)

  /** `a` is `b` with some elements removed, order kept. */
  ghost predicate IsSubsequence<T>(a: seq<T>, b: seq<T>)
    decreases |b|
  {
    a == [] ||
    (b != [] &&
     ((a[|a| - 1] == b[|b| - 1] && IsSubsequence(a[..|a| - 1], b[..|b| - 1]))
      || IsSubsequence(a, b[..|b| - 1])))
  }

  /** Boolean-mask selection `df[mask]`: the rows satisfying `p`, in order. */
  function Filter<T>(xs: seq<T>, p: T -> bool): (r: seq<T>)
    ensures |r| <= |xs|
    ensures forall k :: 0 <= k < |r| ==> p(r[k])
    decreases |xs|
  {
    if xs == [] then []
    else Filter(xs[..|xs| - 1], p) + (if p(xs[|xs| - 1]) then [xs[|xs| - 1]] else [])
  }

  /** A mask keeps a row exactly when the row satisfies it. */
  lemma {:induction false} FilterMembership<T>(xs: seq<T>, p: T -> bool, x: T)
    ensures x in Filter(xs, p) <==> x in xs && p(x)
    decreases |xs|
  {
    if xs != [] {
      FilterMembership(xs[..|xs| - 1], p, x);
      assert xs == xs[..|xs| - 1] + [xs[|xs| - 1]];
    }
  }

  /** A mask keeps the relative order of the rows it keeps. */
  lemma {:induction false} FilterIsSubsequence<T>(xs: seq<T>, p: T -> bool)
    ensures IsSubsequence(Filter(xs, p), xs)
    decreases |xs|
  {
    if xs != [] {
      var init := xs[..|xs| - 1];
      FilterIsSubsequence(init, p);
      var r := Filter(xs, p);
      if p(xs[|xs| - 1]) {
        assert r == Filter(init, p) + [xs[|xs| - 1]];
        assert r[|r| - 1] == xs[|xs| - 1] && r[..|r| - 1] == Filter(init, p);
      } else {
        assert r == Filter(init, p);
      }
    }
  }

  /** A mask every row satisfies keeps the table as it is. */
  lemma {:induction false} FilterKeepsAll<T>(xs: seq<T>, p: T -> bool)
    requires forall k :: 0 <= k < |xs| ==> p(xs[k])
    ensures Filter(xs, p) == xs
    decreases |xs|
  {
    if xs != [] {
      FilterKeepsAll(xs[..|xs| - 1], p);
    }
  }

  // ---------------------------------------------------------------------
  // De-duplication on (Country, Year), data_prep.py:100

  function Key<V>(r: Row<V>): (string, int)
  {
    (r.entity, r.year)
  }

  function Keys<V>(rows: seq<Row<V>>): set<(string, int)>
  {
    set k | 0 <= k < |rows| :: Key(rows[k])
  }

  /** Row `i` is the first with its key. */
  predicate IsFirstOccurrence<V>(rows: seq<Row<V>>, i: nat)
    requires i < |rows|
  {
    forall j :: 0 <= j < i ==> Key(rows[j]) != Key(rows[i])
  }

  /** `drop_duplicates(subset=["Country", "Year"])` with pandas' default
      `keep="first"`. */
  function Dedup<V>(rows: seq<Row<V>>): seq<Row<V>>
    decreases |rows|
  {
    if rows == [] then []
    else
      var init := rows[..|rows| - 1];
      if Key(rows[|rows| - 1]) in Keys(init) then Dedup(init) else Dedup(init) + [rows[|rows| - 1]]
  }

  lemma KeysAppend<V>(rows: seq<Row<V>>, r: Row<V>)
    ensures Keys(rows + [r]) == Keys(rows) + {Key(r)}
  {
    var s := rows + [r];
    assert forall k :: 0 <= k < |rows| ==> s[k] == rows[k];
    assert s[|rows|] == r;
  }

  /** De-duplication loses no key. */
  lemma {:induction false} DedupKeys<V>(rows: seq<Row<V>>)
    ensures Keys(Dedup(rows)) == Keys(rows)
    decreases |rows|
  {
    if rows != [] {
      var init, last := rows[..|rows| - 1], rows[|rows| - 1];
      DedupKeys(init);
      assert rows == init + [last];
      KeysAppend(init, last);
      if Key(last) !in Keys(init) {
        KeysAppend(Dedup(init), last);
      }
    }
  }

  /** After de-duplication no two rows share a (Country, Year) key. */
  lemma {:induction false} DedupUnique<V>(rows: seq<Row<V>>)
    ensures forall i, j :: 0 <= i < j < |Dedup(rows)| ==> Key(Dedup(rows)[i]) != Key(Dedup(rows)[j])
    decreases |rows|
  {
    if rows != [] {
      var init, last := rows[..|rows| - 1], rows[|rows| - 1];
      DedupUnique(init);
      if Key(last) !in Keys(init) {
        DedupKeys(init);
        var d := Dedup(init);
        forall i | 0 <= i < |d| ensures Key(d[i]) != Key(last) {
          assert Key(d[i]) in Keys(d);
        }
      }
    }
  }

  /** The first row with a given key survives de-duplication. */
  lemma {:induction false} FirstOccurrenceKept<V>(rows: seq<Row<V>>, i: nat)
    requires i < |rows| && IsFirstOccurrence(rows, i)
    ensures rows[i] in Dedup(rows)
    decreases |rows|
  {
    var init, last := rows[..|rows| - 1], rows[|rows| - 1];
    if i < |init| {
      assert IsFirstOccurrence(init, i) by {
        forall j | 0 <= j < i
          ensures Key(init[j]) != Key(init[i])
        {
          assert init[j] == rows[j] && init[i] == rows[i];
        }
      }
      FirstOccurrenceKept(init, i);
      assert rows[i] == init[i];
    } else {
      forall j | 0 <= j < |init|
        ensures Key(init[j]) != Key(last)
      {
        assert rows[j] == init[j];
      }
      assert Key(last) !in Keys(init);
      assert Dedup(rows) == Dedup(init) + [last];
    }
  }

  /** `x` is the first row of `rows` with its key. */
  predicate IsFirstRow<V(==)>(rows: seq<Row<V>>, x: Row<V>)
  {
    exists i :: 0 <= i < |rows| && x == rows[i] && IsFirstOccurrence(rows, i)
  }

  /** Every row de-duplication keeps is the first row with its key. */
  lemma {:induction false} KeptIsFirstOccurrence<V>(rows: seq<Row<V>>, k: nat)
    requires k < |Dedup(rows)|
    ensures IsFirstRow(rows, Dedup(rows)[k])
    decreases |rows|
  {
    assert rows != [];
    var init, last := rows[..|rows| - 1], rows[|rows| - 1];
    var d := Dedup(rows);
    if k < |Dedup(init)| {
      KeptIsFirstOccurrence(init, k);
      var i :| 0 <= i < |init| && Dedup(init)[k] == init[i] && IsFirstOccurrence(init, i);
      assert d[k] == Dedup(init)[k];
      assert rows[i] == init[i];
      assert IsFirstOccurrence(rows, i) by {
        forall j | 0 <= j < i
          ensures Key(rows[j]) != Key(rows[i])
        {
          assert rows[j] == init[j];
        }
      }
    } else {
      assert Key(last) !in Keys(init);
      assert d[k] == last;
      forall j | 0 <= j < |rows| - 1
        ensures Key(rows[j]) != Key(last)
      {
        assert rows[j] == init[j];
        assert Key(init[j]) in Keys(init);
      }
      assert IsFirstOccurrence(rows, |rows| - 1);
    }
  }

  /** The kept rows are exactly the first occurrences of their keys. */
  lemma DedupKeepsFirst<V>(rows: seq<Row<V>>, i: nat)
    requires i < |rows|
    ensures rows[i] in Dedup(rows) <== IsFirstOccurrence(rows, i)
    ensures forall k :: 0 <= k < |Dedup(rows)| ==> IsFirstRow(rows, Dedup(rows)[k])
  {
    if IsFirstOccurrence(rows, i) {
      FirstOccurrenceKept(rows, i);
    }
    forall k | 0 <= k < |Dedup(rows)|
      ensures IsFirstRow(rows, Dedup(rows)[k])
    {
      KeptIsFirstOccurrence(rows, k);
    }
  }

  /** De-duplication keeps the relative order of the rows. */
  lemma {:induction false} DedupIsSubsequence<V>(rows: seq<Row<V>>)
    ensures IsSubsequence(Dedup(rows), rows)
    decreases |rows|
  {
    if rows != [] {
      var init := rows[..|rows| - 1];
      DedupIsSubsequence(init);
      var d := Dedup(rows);
      if Key(rows[|rows| - 1]) !in Keys(init) {
        assert d[..|d| - 1] == Dedup(init);
      }
    }
  }

  // ---------------------------------------------------------------------
  // Year format and conversion, data_prep.py:184-187

  function DigitValue(c: char): (d: nat)
    requires IsDigit(c)
    ensures d <= 9
  {
    (c as int) - ('0' as int)
  }

  /** `str.match(r"^\d{4}$")`: four digits and nothing else, except that
      Python's `$` also matches before a final "\n". */
  predicate IsFourDigitYear(s: string)
  {
    (|s| == 4 && AllDigits(s)) || (|s| == 5 && AllDigits(s[..4]) && s[4] == '\n')
  }

  /** For a token, which never ends in whitespace, the test is exactly
      "four ASCII digits". */
  lemma TokenYearFormat(s: string)
    requires s == [] || !IsSpace(s[|s| - 1])
    ensures IsFourDigitYear(s) <==> |s| == 4 && AllDigits(s)
  {
  }

  /** `astype(int)` of a four-digit year token. */
  function ParseYear(s: string): (y: int)
    requires IsFourDigitYear(s)
    ensures 0 <= y <= 9999
  {
    1000 * DigitValue(s[0]) + 100 * DigitValue(s[1]) + 10 * DigitValue(s[2]) + DigitValue(s[3])
  }

  /** The digit character of a value below ten. */
  function DigitChar(d: int): (c: char)
    requires 0 <= d <= 9
    ensures IsDigit(c) && DigitValue(c) == d
  {
    (('0' as int) + d) as char
  }

  /** A year written back with four digits, zero-padded. */
  function FourDigits(y: int): (s: string)
    requires 0 <= y <= 9999
    ensures |s| == 4 && AllDigits(s)
  {
    [DigitChar(y / 1000), DigitChar(y / 100 % 10), DigitChar(y / 10 % 10), DigitChar(y % 10)]
  }

  /** Converting a year and writing it back gives its four digits. */
  lemma ParseYearRoundTrip(s: string)
    requires IsFourDigitYear(s)
    ensures FourDigits(ParseYear(s)) == s[..4]
  {
    var a, b, c, d := DigitValue(s[0]), DigitValue(s[1]), DigitValue(s[2]), DigitValue(s[3]);
    var y := ParseYear(s);
    DigitsOfYear(a, b, c, d);
    var t := FourDigits(y);
    assert DigitValue(t[0]) == a && DigitValue(t[1]) == b && DigitValue(t[2]) == c && DigitValue(t[3]) == d;
    assert t[0] == s[0] && t[1] == s[1] && t[2] == s[2] && t[3] == s[3];
  }

  lemma DigitsOfYear(a: int, b: int, c: int, d: int)
    requires 0 <= a <= 9 && 0 <= b <= 9 && 0 <= c <= 9 && 0 <= d <= 9
    ensures var y := 1000 * a + 100 * b + 10 * c + d;
      y / 1000 == a && y / 100 % 10 == b && y / 10 % 10 == c && y % 10 == d
  {
    var y := 1000 * a + 100 * b + 10 * c + d;
    assert y / 10 == 100 * a + 10 * b + c;
    assert y / 100 == 10 * a + b;
    assert y / 1000 == a;
  }

  /** A year written with four digits converts back to itself. */
  lemma FourDigitsRoundTrip(y: int)
    requires 0 <= y <= 9999
    ensures IsFourDigitYear(FourDigits(y)) && ParseYear(FourDigits(y)) == y
  {
    var q, r := y / 10, y % 10;
    var q2, r2 := q / 10, q % 10;
    var q3, r3 := q2 / 10, q2 % 10;
    assert y == 10 * q + r && q == 10 * q2 + r2 && q2 == 10 * q3 + r3;
    assert y / 100 == q2 && y / 1000 == q3;
    assert ParseYear(FourDigits(y)) == 1000 * q3 + 100 * r3 + 10 * r2 + r;
  }

  /** The year-format mask of data_prep.py:184. */
  function YearFormatFilter(rows: seq<RawRow>): (r: seq<RawRow>)
    ensures forall k :: 0 <= k < |r| ==> IsFourDigitYear(r[k].year)
  {
    Filter(rows, (row: RawRow) => IsFourDigitYear(row.year))
  }

  /** The year-format mask drops exactly the rows whose year is not four
      digits, and keeps the order of the others. */
  lemma YearFormatFilterSpec(rows: seq<RawRow>, row: RawRow)
    ensures row in YearFormatFilter(rows) <==> row in rows && IsFourDigitYear(row.year)
    ensures IsSubsequence(YearFormatFilter(rows), rows)
  {
    FilterMembership(rows, (row: RawRow) => IsFourDigitYear(row.year), row);
    FilterIsSubsequence(rows, (row: RawRow) => IsFourDigitYear(row.year));
  }

  /** `df3_simple["Year"].astype(int)` (data_prep.py:187): the other
      columns are untouched. */
  function ConvertYears(rows: seq<RawRow>): (r: seq<Row<string>>)
    requires forall k :: 0 <= k < |rows| ==> IsFourDigitYear(rows[k].year)
    ensures |r| == |rows|
    ensures forall k :: 0 <= k < |rows| ==>
      r[k].entity == rows[k].entity && r[k].code == rows[k].code && r[k].value == rows[k].waste
      && 0 <= r[k].year <= 9999 && IsFourDigitYear(rows[k].year)
      && FourDigits(r[k].year) == rows[k].year[..4]
  {
    assert forall k :: 0 <= k < |rows| ==> FourDigits(ParseYear(rows[k].year)) == rows[k].year[..4] by {
      forall k | 0 <= k < |rows| ensures FourDigits(ParseYear(rows[k].year)) == rows[k].year[..4] {
        ParseYearRoundTrip(rows[k].year);
      }
    }
    seq(|rows|, k requires 0 <= k < |rows| =>
      Row(rows[k].entity, rows[k].code, ParseYear(rows[k].year), rows[k].waste))
  }

  // ---------------------------------------------------------------------
  // Year window, data_prep.py:211-223

  /** `df['Year'].min()` of a non-empty table. */
  function MinYear<V>(rows: seq<Row<V>>): (m: int)
    requires rows != []
    ensures exists k :: 0 <= k < |rows| && rows[k].year == m
    ensures forall k :: 0 <= k < |rows| ==> m <= rows[k].year
    decreases |rows|
  {
    if |rows| == 1 then rows[0].year
    else
      var m := MinYear(rows[1..]);
      assert forall k :: 1 <= k < |rows| ==> rows[k] == rows[1..][k - 1];
      if rows[0].year <= m then rows[0].year else m
  }

  /** `df['Year'].max()` of a non-empty table. */
  function MaxYear<V>(rows: seq<Row<V>>): (m: int)
    requires rows != []
    ensures exists k :: 0 <= k < |rows| && rows[k].year == m
    ensures forall k :: 0 <= k < |rows| ==> rows[k].year <= m
    decreases |rows|
  {
    if |rows| == 1 then rows[0].year
    else
      var m := MaxYear(rows[1..]);
      assert forall k :: 1 <= k < |rows| ==> rows[k] == rows[1..][k - 1];
      if rows[0].year >= m then rows[0].year else m
  }

  /** The script's anomaly test `annee_min < 1900 or annee_max > 2050`.
      On an empty table pandas gives NaN for both and both comparisons
      are false. */
  predicate YearsImplausible<V>(rows: seq<Row<V>>)
  {
    rows != [] && (MinYear(rows) < 1900 || MaxYear(rows) > 2050)
  }

  /** The anomaly test holds exactly when some year lies outside
      [1900, 2050]. */
  lemma YearsImplausibleIff<V>(rows: seq<Row<V>>)
    ensures YearsImplausible(rows) <==>
      exists k :: 0 <= k < |rows| && (rows[k].year < 1900 || rows[k].year > 2050)
  {
    if exists k :: 0 <= k < |rows| && (rows[k].year < 1900 || rows[k].year > 2050) {
      var k :| 0 <= k < |rows| && (rows[k].year < 1900 || rows[k].year > 2050);
      assert MinYear(rows) <= rows[k].year <= MaxYear(rows);
    }
  }

  predicate InAnalysisWindow<V>(row: Row<V>)
  {
    1990 <= row.year <= 2030
  }

  /** The conditional filter of data_prep.py:216-223: every row is kept
      when the years look corrupted, otherwise only 1990 to 2030. */
  function YearWindow<V>(rows: seq<Row<V>>): seq<Row<V>>
  {
    if YearsImplausible(rows) then rows else Filter(rows, (row: Row<V>) => InAnalysisWindow(row))
  }

  /** With a corrupted year range nothing is dropped; otherwise exactly
      the rows of the analysis window remain; in both cases the order is
      kept. */
  lemma YearWindowSpec<V>(rows: seq<Row<V>>, row: Row<V>)
    ensures YearsImplausible(rows) ==> YearWindow(rows) == rows
    ensures !YearsImplausible(rows) ==>
      (forall k :: 0 <= k < |YearWindow(rows)| ==> InAnalysisWindow(YearWindow(rows)[k]))
      && (row in YearWindow(rows) <==> row in rows && InAnalysisWindow(row))
    ensures IsSubsequence(YearWindow(rows), rows)
  {
    var p := (row: Row<V>) => InAnalysisWindow(row);
    FilterMembership(rows, p, row);
    FilterIsSubsequence(rows, p);
    if YearsImplausible(rows) {
      SubsequenceOfItself(rows);
    }
  }

  lemma {:induction false} SubsequenceOfItself<T>(xs: seq<T>)
    ensures IsSubsequence(xs, xs)
    decreases |xs|
  {
    if xs != [] {
      SubsequenceOfItself(xs[..|xs| - 1]);
    }
  }

  /** Applying the year window twice changes nothing more. */
  lemma YearWindowIdempotent<V>(rows: seq<Row<V>>)
    ensures YearWindow(YearWindow(rows)) == YearWindow(rows)
  {
    if !YearsImplausible(rows) {
      var r := YearWindow(rows);
      YearsImplausibleIff(r);
      FilterKeepsAll(r, (row: Row<V>) => InAnalysisWindow(row));
    }
  }

  // ---------------------------------------------------------------------
  // TotalWaste cleanup, data_prep.py:236-245

  /** A full match of `\d+\.?\d*`: a digit first, digits and at most one
      dot after it. */
  predicate IsNumber(m: string)
  {
    && |m| >= 1 && IsDigit(m[0])
    && (forall i :: 0 <= i < |m| ==> IsDigit(m[i]) || m[i] == '.')
    && (forall i, j :: 0 <= i < j < |m| && m[i] == '.' ==> m[j] != '.')
  }

  /** The first position at or after `j` that is not a digit, or the end. */
  function DigitRunEnd(s: string, j: nat): (k: nat)
    requires j <= |s|
    ensures j <= k <= |s| && (k == |s| || !IsDigit(s[k]))
    ensures forall i :: j <= i < k ==> IsDigit(s[i])
    decreases |s| - j
  {
    if j == |s| || !IsDigit(s[j]) then j else DigitRunEnd(s, j + 1)
  }

  /** The first digit at or after `j`, if any. */
  function FirstDigit(s: string, j: nat): (r: Option<nat>)
    requires j <= |s|
    ensures r.None? <==> forall i :: j <= i < |s| ==> !IsDigit(s[i])
    ensures r.Some? ==>
      j <= r.value < |s| && IsDigit(s[r.value]) && forall i :: j <= i < r.value ==> !IsDigit(s[i])
    decreases |s| - j
  {
    if j == |s| then None
    else if IsDigit(s[j]) then Some(j)
    else FirstDigit(s, j + 1)
  }

  /** A digit run, a dot and a second digit run form the longest number
      starting at `a`. */
  lemma NumberWithFraction(s: string, a: nat, b1: nat, b: nat)
    requires a < b1 < b <= |s| && s[b1] == '.'
    requires forall i :: a <= i < b1 ==> IsDigit(s[i])
    requires forall i :: b1 < i < b ==> IsDigit(s[i])
    requires b == |s| || !IsDigit(s[b])
    ensures IsNumber(s[a..b])
    ensures forall e :: b < e <= |s| ==> !IsNumber(s[a..e])
  {
    var m := s[a..b];
    assert forall i :: 0 <= i < |m| ==> m[i] == s[a + i];
    forall i, j | 0 <= i < j < |m| && m[i] == '.'
      ensures m[j] != '.'
    {
      assert i == b1 - a;
    }
    forall e | b < e <= |s|
      ensures !IsNumber(s[a..e])
    {
      var m' := s[a..e];
      assert m'[b1 - a] == '.' && m'[b - a] == s[b];
    }
  }

  /** A digit run not followed by a dot or a digit is the longest number
      starting at `a`. */
  lemma NumberWithoutFraction(s: string, a: nat, b1: nat)
    requires a < b1 <= |s|
    requires forall i :: a <= i < b1 ==> IsDigit(s[i])
    requires b1 == |s| || (!IsDigit(s[b1]) && s[b1] != '.')
    ensures IsNumber(s[a..b1])
    ensures forall e :: b1 < e <= |s| ==> !IsNumber(s[a..e])
  {
    var m := s[a..b1];
    assert forall i :: 0 <= i < |m| ==> m[i] == s[a + i];
    forall e | b1 < e <= |s|
      ensures !IsNumber(s[a..e])
    {
      assert s[a..e][b1 - a] == s[b1];
    }
  }

  /** `re.search(r"(\d+\.?\d*)", s)`, as a range of `s`: the match starts
      at the first digit and is the longest that starts there; there is
      none exactly when `s` has no digit. */
  function FindNumber(s: string): (r: Option<(nat, nat)>)
    ensures r.None? <==> forall i :: 0 <= i < |s| ==> !IsDigit(s[i])
    ensures r.Some? ==>
      var (a, b) := r.value;
      && a < b <= |s| && IsNumber(s[a..b])
      && (forall i :: 0 <= i < a ==> !IsDigit(s[i]))
      && (forall e :: b < e <= |s| ==> !IsNumber(s[a..e]))
  {
    var first := FirstDigit(s, 0);
    if first.None? then None
    else
      var a := first.value;
      var b1 := DigitRunEnd(s, a);
      if b1 < |s| && s[b1] == '.' then
        var b := DigitRunEnd(s, b1 + 1);
        NumberWithFraction(s, a, b1, b);
        Some((a, b))
      else
        NumberWithoutFraction(s, a, b1);
        Some((a, b1))
  }

  /** The value of a digit string. */
  function DigitsValue(ds: string): (v: nat)
    requires AllDigits(ds)
    decreases |ds|
  {
    if ds == [] then 0 else 10 * DigitsValue(ds[..|ds| - 1]) + DigitValue(ds[|ds| - 1])
  }

  /** The value of the digits after a decimal point. */
  function FractionValue(ds: string): (v: real)
    requires AllDigits(ds)
    decreases |ds|
  {
    if ds == [] then 0.0 else (DigitValue(ds[0]) as real + FractionValue(ds[1..])) / 10.0
  }

  predicate HasNonZeroDigit(ds: string)
  {
    exists i :: 0 <= i < |ds| && IsDigit(ds[i]) && ds[i] != '0'
  }

  /** The position of the dot of a number, or its length when it has none. */
  function DotIndex(m: string): (d: nat)
    ensures d <= |m| && (d == |m| || m[d] == '.')
    ensures forall i :: 0 <= i < d ==> m[i] != '.'
    decreases |m|
  {
    if m == [] then 0 else if m[0] == '.' then 0 else 1 + DotIndex(m[1..])
  }

  /** The exact value of a matched number (`astype(float)` without
      rounding). */
  function NumberValue(m: string): real
    requires IsNumber(m)
  {
    var d := DotIndex(m);
    assert AllDigits(m[..d]);
    DigitsValue(m[..d]) as real + (if d < |m| then FractionValue(m[d + 1..]) else 0.0)
  }

  lemma {:induction false} DigitsValuePositive(ds: string)
    requires AllDigits(ds)
    ensures DigitsValue(ds) > 0 <==> HasNonZeroDigit(ds)
    decreases |ds|
  {
    if ds != [] {
      var init := ds[..|ds| - 1];
      DigitsValuePositive(init);
      if HasNonZeroDigit(init) {
        var i :| 0 <= i < |init| && IsDigit(init[i]) && init[i] != '0';
        assert ds[i] == init[i];
      }
      if HasNonZeroDigit(ds) {
        var i :| 0 <= i < |ds| && IsDigit(ds[i]) && ds[i] != '0';
        if i < |init| { assert init[i] == ds[i]; }
      }
    }
  }

  lemma {:induction false} FractionValuePositive(ds: string)
    requires AllDigits(ds)
    ensures FractionValue(ds) >= 0.0
    ensures FractionValue(ds) > 0.0 <==> HasNonZeroDigit(ds)
    decreases |ds|
  {
    if ds != [] {
      var rest := ds[1..];
      FractionValuePositive(rest);
      if HasNonZeroDigit(rest) {
        var i :| 0 <= i < |rest| && IsDigit(rest[i]) && rest[i] != '0';
        assert ds[i + 1] == rest[i];
      }
      if HasNonZeroDigit(ds) {
        var i :| 0 <= i < |ds| && IsDigit(ds[i]) && ds[i] != '0';
        if i > 0 { assert rest[i - 1] == ds[i]; }
      }
    }
  }

  /** A matched number is strictly positive exactly when one of its
      digits is not zero: "0", "0.", "00.000" are the numbers the
      `> 0` test of data_prep.py:245 rejects. */
  lemma NumberPositiveIff(m: string)
    requires IsNumber(m)
    ensures NumberValue(m) >= 0.0
    ensures NumberValue(m) > 0.0 <==> HasNonZeroDigit(m)
  {
    var d := DotIndex(m);
    var ip := m[..d];
    DigitsValuePositive(ip);
    if d < |m| {
      var fp := m[d + 1..];
      assert AllDigits(fp) by {
        forall i | 0 <= i < |fp| ensures IsDigit(fp[i]) {
          assert fp[i] == m[d + 1 + i];
        }
      }
      FractionValuePositive(fp);
      if HasNonZeroDigit(m) {
        var i :| 0 <= i < |m| && IsDigit(m[i]) && m[i] != '0';
        if i < d { assert ip[i] == m[i]; } else { assert fp[i - d - 1] == m[i]; }
      }
      if HasNonZeroDigit(ip) {
        var i :| 0 <= i < |ip| && IsDigit(ip[i]) && ip[i] != '0';
        assert m[i] == ip[i];
      }
      if HasNonZeroDigit(fp) {
        var i :| 0 <= i < |fp| && IsDigit(fp[i]) && fp[i] != '0';
        assert m[d + 1 + i] == fp[i];
      }
    } else {
      assert ip == m;
    }
  }

  /** One TotalWaste cell after `str.replace(",", "")`, `str.extract`
      and `astype(float)`: the value of the first number in the text, or
      NaN (`None`) when the text has no digit. */
  function ParseWaste(s: string): (v: Option<real>)
    ensures v.None? <==> forall i :: 0 <= i < |ReplaceAll(s, ",", [])| ==> !IsDigit(ReplaceAll(s, ",", [])[i])
    ensures v.Some? ==> v.value >= 0.0 && (v.value > 0.0 <==> HasNonZeroDigit(FirstNumber(ReplaceAll(s, ",", []))))
  {
    var t := ReplaceAll(s, ",", []);
    if FindNumber(t).None? then None
    else
      NumberPositiveIff(FirstNumber(t));
      Some(NumberValue(FirstNumber(t)))
  }

  /** The text of the first number match, empty when there is none. */
  function FirstNumber(t: string): (m: string)
    ensures FindNumber(t).Some? ==> IsNumber(m)
  {
    match FindNumber(t)
    case None => []
    case Some((a, b)) => t[a..b]
  }

  /** The row test of data_prep.py:245: positive, or missing. */
  predicate KeepWaste(row: Row<Option<real>>)
  {
    row.value.None? || row.value.value > 0.0
  }

  /** The TotalWaste column converted row by row: the other cells stay,
      a cell becomes NaN exactly when its comma-free text has no digit,
      and a converted cell is positive exactly when its first number has
      a non-zero digit. */
  function ParseWasteColumn(rows: seq<Row<string>>): (r: seq<Row<Option<real>>>)
    ensures |r| == |rows|
    ensures forall k :: 0 <= k < |r| ==>
      r[k].entity == rows[k].entity && r[k].code == rows[k].code && r[k].year == rows[k].year
    ensures forall k :: 0 <= k < |r| ==>
      var t := ReplaceAll(rows[k].value, ",", []);
      && (r[k].value.None? <==> forall i :: 0 <= i < |t| ==> !IsDigit(t[i]))
      && (r[k].value.Some? ==> (r[k].value.value > 0.0 <==> HasNonZeroDigit(FirstNumber(t))))
  {
    seq(|rows|, k requires 0 <= k < |rows| =>
      Row(rows[k].entity, rows[k].code, rows[k].year, ParseWaste(rows[k].value)))
  }

  /** data_prep.py:235-245: on a non-empty table, convert the column and
      drop the rows whose value is present but not positive. */
  function CleanTotalWaste(rows: seq<Row<string>>): (r: seq<Row<Option<real>>>)
    ensures forall k :: 0 <= k < |r| ==> r[k].value.None? || r[k].value.value > 0.0
  {
    if |rows| == 0 then [] else Filter(ParseWasteColumn(rows), KeepWaste)
  }

  /** The cleanup keeps the order; it keeps every row whose value is
      missing, and a row with a value exactly when the value is positive. */
  lemma CleanTotalWasteSpec(rows: seq<Row<string>>, k: nat)
    requires k < |rows|
    ensures IsSubsequence(CleanTotalWaste(rows), ParseWasteColumn(rows))
    ensures ParseWaste(rows[k].value).None? ==> ParseWasteColumn(rows)[k] in CleanTotalWaste(rows)
    ensures ParseWaste(rows[k].value).Some? ==>
      (ParseWasteColumn(rows)[k] in CleanTotalWaste(rows) <==> ParseWaste(rows[k].value).value > 0.0)
  {
    var col := ParseWasteColumn(rows);
    FilterIsSubsequence(col, KeepWaste);
    FilterMembership(col, KeepWaste, col[k]);
  }
}
