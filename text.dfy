/** The string primitives the cleaning script relies on, written out for
    ASCII text: Python's `str.strip`, `str.rstrip`, `str.replace`,
    `str.split` and `str.join`, and the character classes `[A-Z]`, `\d`
    and `\s`. */
module Text {

  /** Python's `str.isspace()` restricted to ASCII: space, \t, \n, \v,
      \f, \r and the four separators \x1c-\x1f. */
  const Whitespace: set<char> :=
    {' ', '\t', '\n', '\U{B}', '\U{C}', '\r', '\U{1C}', '\U{1D}', '\U{1E}', '\U{1F}'}

  predicate IsUpper(c: char) { 'A' <= c <= 'Z' }

  predicate IsDigit(c: char) { '0' <= c <= '9' }

  predicate IsSpace(c: char) { c in Whitespace }

  predicate AllIn(s: string, cs: set<char>)
  {
    forall i :: 0 <= i < |s| ==> s[i] in cs
  }

  predicate AllDigits(s: string)
  {
    forall i :: 0 <= i < |s| ==> IsDigit(s[i])
  }

  /** The end of the run of characters of `cs` that starts at `i`. */
  function SkipForward(s: string, cs: set<char>, i: nat): (k: nat)
    requires i <= |s|
    ensures i <= k <= |s| && (k == |s| || s[k] !in cs)
    ensures forall j :: i <= j < k ==> s[j] in cs
    decreases |s| - i
  {
    if i < |s| && s[i] in cs then SkipForward(s, cs, i + 1) else i
  }

  /** The start of the run of characters of `cs` that ends at `j`,
      going no lower than `lo`. */
  function SkipBackward(s: string, cs: set<char>, lo: nat, j: nat): (k: nat)
    requires lo <= j <= |s|
    ensures lo <= k <= j && (k == lo || s[k - 1] !in cs)
    ensures forall m :: k <= m < j ==> s[m] in cs
    decreases j
  {
    if lo < j && s[j - 1] in cs then SkipBackward(s, cs, lo, j - 1) else j
  }

  /** `s.rstrip(cs)`: the longest prefix of `s` that does not end with a
      character of `cs`. */
  function StripRight(s: string, cs: set<char>): (r: string)
    ensures |r| <= |s| && r == s[..|r|]
    ensures AllIn(s[|r|..], cs)
    ensures r == [] || r[|r| - 1] !in cs
  {
    s[..SkipBackward(s, cs, 0, |s|)]
  }

  /** `s.strip()`: `s` without leading and trailing whitespace. */
  function Strip(s: string): (r: string)
    ensures var a := SkipForward(s, Whitespace, 0);
      a + |r| <= |s| && r == s[a..a + |r|]
      && AllIn(s[..a], Whitespace) && AllIn(s[a + |r|..], Whitespace)
    ensures r == [] || (!IsSpace(r[0]) && !IsSpace(r[|r| - 1]))
  {
    var a := SkipForward(s, Whitespace, 0);
    s[a..SkipBackward(s, Whitespace, a, |s|)]
  }

  /** A string without surrounding whitespace is its own strip. */
  lemma StripClean(s: string)
    requires s == [] || (!IsSpace(s[0]) && !IsSpace(s[|s| - 1]))
    ensures Strip(s) == s
  {
  }

  /** A character that does not occur in `s` does not occur in a slice of it. */
  lemma NotInSlice(s: string, a: nat, b: nat, c: char)
    requires a <= b <= |s| && c !in s
    ensures c !in s[a..b]
  {
  }

  /** `s.replace(pat, rep)` for a non-empty pattern: occurrences are
      replaced left to right without overlapping. */
  function ReplaceAll(s: string, pat: string, rep: string): string
    requires pat != []
    decreases |s|
  {
    if |s| < |pat| then s
    else if s[..|pat|] == pat then rep + ReplaceAll(s[|pat|..], pat, rep)
    else [s[0]] + ReplaceAll(s[1..], pat, rep)
  }

  /** Replacing one character by another is the character-wise map. */
  lemma {:induction false} ReplaceCharIsMap(s: string, c: char, d: char)
    ensures var r := ReplaceAll(s, [c], [d]);
      |r| == |s| && forall i :: 0 <= i < |s| ==> r[i] == (if s[i] == c then d else s[i])
    decreases |s|
  {
    if |s| >= 1 {
      ReplaceCharIsMap(s[1..], c, d);
      assert s[..1] == [s[0]];
    }
  }

  /** After `s.replace(c, d)` with `c != d` no `c` is left. */
  lemma ReplaceCharRemoves(s: string, c: char, d: char)
    requires c != d
    ensures c !in ReplaceAll(s, [c], [d])
  {
    ReplaceCharIsMap(s, c, d);
  }

  /** `s.replace(c, "")` keeps every other character, in order. */
  lemma {:induction false} DeleteCharRemoves(s: string, c: char)
    ensures c !in ReplaceAll(s, [c], [])
    ensures |ReplaceAll(s, [c], [])| <= |s|
    decreases |s|
  {
    if |s| >= 1 {
      DeleteCharRemoves(s[1..], c);
      assert s[..1] == [s[0]];
    }
  }

  /** A pattern whose first character does not occur leaves `s` as it was. */
  lemma {:induction false} ReplaceAbsent(s: string, pat: string, rep: string)
    requires pat != [] && pat[0] !in s
    ensures ReplaceAll(s, pat, rep) == s
    decreases |s|
  {
    if |s| >= |pat| {
      assert s[..|pat|][0] == s[0];
      ReplaceAbsent(s[1..], pat, rep);
      assert [s[0]] + s[1..] == s;
    }
  }

  /** A character occurs in the result of a replacement only if it
      occurs in the input or in the replacement text. */
  lemma {:induction false} ReplaceKeeps(s: string, pat: string, rep: string, c: char)
    requires pat != [] && c !in s && c !in rep
    ensures c !in ReplaceAll(s, pat, rep)
    decreases |s|
  {
    if |s| >= |pat| {
      if s[..|pat|] == pat {
        NotInSlice(s, |pat|, |s|, c);
        assert s[|pat|..] == s[|pat|..|s|];
        ReplaceKeeps(s[|pat|..], pat, rep, c);
      } else {
        NotInSlice(s, 1, |s|, c);
        assert s[1..] == s[1..|s|];
        ReplaceKeeps(s[1..], pat, rep, c);
      }
    }
  }

  /** A replacement whose text is no longer than its pattern never makes
      the string longer. */
  lemma {:induction false} ReplaceShrinks(s: string, pat: string, rep: string)
    requires pat != [] && |rep| <= |pat|
    ensures |ReplaceAll(s, pat, rep)| <= |s|
    decreases |s|
  {
    if |s| >= |pat| {
      if s[..|pat|] == pat {
        ReplaceShrinks(s[|pat|..], pat, rep);
      } else {
        ReplaceShrinks(s[1..], pat, rep);
      }
    }
  }

  /** `s.split(sep)`: the fields between the occurrences of `sep`; there is
      always one more field than separators. */
  function Split(s: string, sep: char): (r: seq<string>)
    ensures |r| >= 1
    ensures forall k :: 0 <= k < |r| ==> sep !in r[k]
    decreases |s|
  {
    if s == [] then [[]]
    else
      var rest := Split(s[1..], sep);
      if s[0] == sep then [[]] + rest
      else [[s[0]] + rest[0]] + rest[1..]
  }

  /** `sep.join(parts)`; the empty list joins to the empty string. */
  function Join(parts: seq<string>, sep: string): string
    decreases |parts|
  {
    if |parts| == 0 then []
    else if |parts| == 1 then parts[0]
    else parts[0] + sep + Join(parts[1..], sep)
  }

  /** Joining the fields of a split with its separator gives back the
      original string. */
  lemma {:induction false} JoinSplit(s: string, sep: char)
    ensures Join(Split(s, sep), [sep]) == s
    decreases |s|
  {
    if s != [] {
      var rest := Split(s[1..], sep);
      JoinSplit(s[1..], sep);
      if s[0] != sep {
        var p := Split(s, sep);
        assert p[1..] == rest[1..];
        if |rest| == 1 {
          assert Join(p, [sep]) == [s[0]] + rest[0];
        } else {
          assert Join(rest, [sep]) == rest[0] + [sep] + Join(rest[1..], [sep]);
          assert Join(p, [sep]) == [s[0]] + rest[0] + [sep] + Join(rest[1..], [sep]);
        }
      }
    }
  }

  /** Splitting a join of separator-free parts gives back the parts. */
  lemma {:induction false} SplitJoin(parts: seq<string>, sep: char)
    requires |parts| >= 1
    requires forall k :: 0 <= k < |parts| ==> sep !in parts[k]
    ensures Split(Join(parts, [sep]), sep) == parts
    decreases |parts|, |parts[0]|
  {
    var p := parts[0];
    if p == [] {
      if |parts| > 1 {
        SplitJoin(parts[1..], sep);
        assert Join(parts, [sep]) == [sep] + Join(parts[1..], [sep]);
        assert Join(parts, [sep])[1..] == Join(parts[1..], [sep]);
      }
    } else {
      var parts' := [p[1..]] + parts[1..];
      assert sep !in p[1..] by { NotInSlice(p, 1, |p|, sep); assert p[1..] == p[1..|p|]; }
      SplitJoin(parts', sep);
      assert parts'[1..] == parts[1..];
      if |parts| == 1 {
        assert Join(parts, [sep]) == p;
        assert Join(parts', [sep]) == p[1..];
      } else {
        assert Join(parts', [sep]) == p[1..] + [sep] + Join(parts[1..], [sep]);
        assert Join(parts, [sep]) == p + [sep] + Join(parts[1..], [sep]);
      }
      var s := Join(parts, [sep]);
      assert s[0] == p[0] && s[1..] == Join(parts', [sep]);
      assert [p[0]] + p[1..] == p;
    }
  }

  /** A character absent from every part and from the separator is
      absent from the join. */
  lemma {:induction false} JoinKeeps(parts: seq<string>, sep: string, c: char)
    requires c !in sep
    requires forall k :: 0 <= k < |parts| ==> c !in parts[k]
    ensures c !in Join(parts, sep)
    decreases |parts|
  {
    if |parts| > 1 {
      JoinKeeps(parts[1..], sep, c);
    }
  }
}
