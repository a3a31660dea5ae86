/** Re-segmentation of the repaired waste text into logical rows
    (data_prep.py:161-168): `re.findall(r'([A-Z][^A-Z]+)', raw_text)`,
    then each segment split on commas, its fields stripped, blank fields
    dropped, and the segment kept as a row of its first ten tokens when it
    has at least four. Character classes are ASCII. */
module Segmentation {
  import opened Text

  /** The half-open character range [start, end) of one match. */
  datatype Span = Span(start: nat, end: nat)

  /** A complete match of `[A-Z][^A-Z]+` at `sp`: an uppercase letter and
      the longest non-empty run of non-uppercase characters after it. */
  predicate IsMatch(text: string, sp: Span)
  {
    && sp.start + 2 <= sp.end <= |text|
    && IsUpper(text[sp.start])
    && (forall m :: sp.start < m < sp.end ==> !IsUpper(text[m]))
    && (sp.end == |text| || IsUpper(text[sp.end]))
  }

  /** The pattern can begin at `p`: an uppercase letter followed by a
      character that is not one. */
  predicate CanStart(text: string, p: nat)
  {
    p + 1 < |text| && IsUpper(text[p]) && !IsUpper(text[p + 1])
  }

  /** The first uppercase position at or after `j`, or the end of the text. */
  function RunEnd(text: string, j: nat): (k: nat)
    requires j <= |text|
    ensures j <= k <= |text|
    ensures k == |text| || IsUpper(text[k])
    ensures forall m :: j <= m < k ==> !IsUpper(text[m])
    decreases |text| - j
  {
    if j == |text| || IsUpper(text[j]) then j else RunEnd(text, j + 1)
  }

  /** `findall` from position `i`: at each position try the pattern; on a
      match record it and resume after it, otherwise move on by one. The
      matches lie at or after `i`, are complete and do not overlap. */
  function Scan(text: string, i: nat): (spans: seq<Span>)
    requires i <= |text|
    ensures forall k :: 0 <= k < |spans| ==> IsMatch(text, spans[k]) && i <= spans[k].start
    ensures forall k, l :: 0 <= k < l < |spans| ==> spans[k].end <= spans[l].start
    decreases |text| - i
  {
    if i + 1 >= |text| then []
    else if IsUpper(text[i]) && !IsUpper(text[i + 1]) then
      [Span(i, RunEnd(text, i + 1))] + Scan(text, RunEnd(text, i + 1))
    else Scan(text, i + 1)
  }

  /** The matches of the whole text. */
  function Matches(text: string): seq<Span>
  {
    Scan(text, 0)
  }

  /** Some span of `spans` starts at `p`. */
  predicate StartsAt(spans: seq<Span>, p: nat)
  {
    exists k :: 0 <= k < |spans| && spans[k].start == p
  }

  /** A span list with a first element starts at `p` when the first span
      or one of the others does. */
  lemma StartsAtCons(sp: Span, rest: seq<Span>, p: nat)
    ensures StartsAt([sp] + rest, p) <==> sp.start == p || StartsAt(rest, p)
  {
    var spans := [sp] + rest;
    if sp.start == p {
      assert spans[0] == sp;
    }
    if StartsAt(rest, p) {
      var k :| 0 <= k < |rest| && rest[k].start == p;
      assert spans[k + 1] == rest[k];
    }
    if StartsAt(spans, p) && sp.start != p {
      var k :| 0 <= k < |spans| && spans[k].start == p;
      assert rest[k - 1] == spans[k];
      assert StartsAt(rest, p);
    }
  }

  /** A match begins exactly where the pattern can begin: the scan misses
      no row start and invents none. */
  lemma {:induction false} ScanFindsEveryStart(text: string, i: nat, p: nat)
    requires i <= |text| && i <= p
    ensures CanStart(text, p) <==> StartsAt(Scan(text, i), p)
    decreases |text| - i
  {
    if i + 1 >= |text| {
      assert Scan(text, i) == [];
    } else if IsUpper(text[i]) && !IsUpper(text[i + 1]) {
      var e := RunEnd(text, i + 1);
      var rest := Scan(text, e);
      assert Scan(text, i) == [Span(i, e)] + rest;
      StartsAtCons(Span(i, e), rest, p);
      if p == i {
        assert CanStart(text, p);
      } else if p < e {
        assert !CanStart(text, p);
        assert !StartsAt(rest, p);
      } else {
        ScanFindsEveryStart(text, e, p);
      }
    } else if p > i {
      assert Scan(text, i) == Scan(text, i + 1);
      ScanFindsEveryStart(text, i + 1, p);
    } else {
      assert !CanStart(text, p);
      assert !StartsAt(Scan(text, i + 1), p);
    }
  }

  /** A match of the whole text starts at `p` if and only if an
      uppercase letter at `p` is followed by a non-uppercase character. */
  lemma MatchStarts(text: string, p: nat)
    ensures CanStart(text, p) <==> StartsAt(Matches(text), p)
  {
    assert Matches(text) == Scan(text, 0);
    ScanFindsEveryStart(text, 0, p);
  }

  /** The matched substrings, in text order (`rows` at data_prep.py:161).
      Each starts with an uppercase letter, has at least two characters
      and holds no other uppercase letter. */
  function Segments(text: string): (segs: seq<string>)
    ensures |segs| == |Matches(text)|
    ensures forall k :: 0 <= k < |segs| ==>
      var sp := Matches(text)[k]; segs[k] == text[sp.start..sp.end]
    ensures forall k :: 0 <= k < |segs| ==>
      |segs[k]| >= 2 && IsUpper(segs[k][0])
      && forall m :: 1 <= m < |segs[k]| ==> !IsUpper(segs[k][m])
  {
    var spans := Matches(text);
    seq(|spans|, k requires 0 <= k < |spans| => text[spans[k].start..spans[k].end])
  }

  /** A token of a reconstructed row: not empty, no comma, no leading or
      trailing whitespace. */
  predicate IsToken(t: string)
  {
    t != [] && ',' !in t && !IsSpace(t[0]) && !IsSpace(t[|t| - 1])
  }

  /** The stripped piece of a comma-free field has no comma. */
  lemma StripKeepsNoComma(f: string)
    requires ',' !in f
    ensures ',' !in Strip(f)
  {
    var r := Strip(f);
    var a := SkipForward(f, Whitespace, 0);
    NotInSlice(f, a, a + |r|, ',');
  }

  /** `[p.strip() for p in fields if p.strip() != ""]` over comma-free
      fields: only well-formed tokens remain. */
  function StripNonBlank(fields: seq<string>): (parts: seq<string>)
    requires forall j :: 0 <= j < |fields| ==> ',' !in fields[j]
    ensures |parts| <= |fields|
    ensures forall k :: 0 <= k < |parts| ==> IsToken(parts[k])
    decreases |fields|
  {
    if fields == [] then []
    else
      var t := Strip(fields[0]);
      StripKeepsNoComma(fields[0]);
      var rest := StripNonBlank(fields[1..]);
      if t != [] then [t] + rest else rest
  }

  /** The tokens of one segment (data_prep.py:166). */
  function Tokens(segment: string): (parts: seq<string>)
    ensures forall k :: 0 <= k < |parts| ==> IsToken(parts[k])
  {
    StripNonBlank(Split(segment, ','))
  }

  /** Tokens joined by commas tokenise back to themselves. */
  lemma TokensOfJoin(parts: seq<string>)
    requires |parts| >= 1
    requires forall k {:trigger parts[k]} :: 0 <= k < |parts| ==> IsToken(parts[k])
    ensures Tokens(Join(parts, ",")) == parts
  {
    SplitJoin(parts, ',');
    StripNonBlankOfTokens(parts);
  }

  lemma {:induction false} StripNonBlankOfTokens(parts: seq<string>)
    requires forall k {:trigger parts[k]} :: 0 <= k < |parts| ==> IsToken(parts[k])
    ensures (forall k :: 0 <= k < |parts| ==> ',' !in parts[k]) && StripNonBlank(parts) == parts
    decreases |parts|
  {
    assert forall k :: 0 <= k < |parts| ==> ',' !in parts[k];
    if parts != [] {
      var t := parts[0];
      assert IsToken(t);
      StripClean(t);
      StripNonBlankOfTokens(parts[1..]);
      assert StripNonBlank(parts) == [t] + StripNonBlank(parts[1..]);
    }
  }

  /** `parts[:10]`. */
  function FirstTen(parts: seq<string>): (r: seq<string>)
    ensures |r| <= 10 && |r| <= |parts| && r == parts[..|r|]
    ensures |parts| <= 10 ==> r == parts
    ensures |parts| >= 10 ==> |r| == 10
  {
    if |parts| <= 10 then parts else parts[..10]
  }

  /** What one segment contributes to `data` (data_prep.py:166-168). */
  function RowsOf(segment: string): seq<seq<string>>
  {
    var parts := Tokens(segment);
    if |parts| >= 4 then [FirstTen(parts)] else []
  }

  /** The `data` list built from the segments, in their order. */
  function Reconstruct(segs: seq<string>): seq<seq<string>>
    decreases |segs|
  {
    if segs == [] then [] else Reconstruct(segs[..|segs| - 1]) + RowsOf(segs[|segs| - 1])
  }

  /** A reconstructed row: four to ten well-formed tokens. */
  predicate IsRow(row: seq<string>)
  {
    4 <= |row| <= 10 && forall k :: 0 <= k < |row| ==> IsToken(row[k])
  }

  /** Every reconstructed row has between four and ten tokens, each of
      them well formed. */
  lemma {:induction false} ReconstructRows(segs: seq<string>)
    ensures forall k :: 0 <= k < |Reconstruct(segs)| ==> IsRow(Reconstruct(segs)[k])
    decreases |segs|
  {
    if segs != [] {
      ReconstructRows(segs[..|segs| - 1]);
    }
  }

  /** Reconstruction works segment by segment. */
  lemma {:induction false} ReconstructAppend(a: seq<string>, b: seq<string>)
    ensures Reconstruct(a + b) == Reconstruct(a) + Reconstruct(b)
    decreases |b|
  {
    if b == [] {
      assert a + b == a;
    } else {
      var b', last := b[..|b| - 1], b[|b| - 1];
      assert (a + b)[..|a + b| - 1] == a + b';
      assert (a + b)[|a + b| - 1] == last;
      ReconstructAppend(a, b');
      assert Reconstruct(a + b) == Reconstruct(a + b') + RowsOf(last);
      assert Reconstruct(b) == Reconstruct(b') + RowsOf(last);
    }
  }

  /** A segment with fewer than four tokens contributes nothing: removing
      it leaves the rows as they were. */
  lemma UnparseableSegmentDropped(segs: seq<string>, k: nat)
    requires k < |segs| && |Tokens(segs[k])| < 4
    ensures Reconstruct(segs[..k] + segs[k + 1..]) == Reconstruct(segs)
  {
    var pre, post := segs[..k], segs[k + 1..];
    assert segs == (pre + [segs[k]]) + post;
    assert (pre + [segs[k]])[..|pre|] == pre;
    assert Reconstruct(pre + [segs[k]]) == Reconstruct(pre);
    ReconstructAppend(pre + [segs[k]], post);
    ReconstructAppend(pre, post);
  }

  /** A segment with at least four tokens contributes its first ten. */
  lemma ParseableSegmentKept(segs: seq<string>, k: nat)
    requires k < |segs| && |Tokens(segs[k])| >= 4
    ensures FirstTen(Tokens(segs[k])) in Reconstruct(segs)
  {
    var pre, post := segs[..k], segs[k + 1..];
    assert segs == (pre + [segs[k]]) + post;
    assert (pre + [segs[k]])[..|pre|] == pre;
    assert Reconstruct(pre + [segs[k]]) == Reconstruct(pre) + [FirstTen(Tokens(segs[k]))];
    ReconstructAppend(pre + [segs[k]], post);
  }

  /** Every row comes from a segment with at least four tokens. */
  lemma {:induction false} ReconstructSound(segs: seq<string>, row: seq<string>)
    requires row in Reconstruct(segs)
    ensures exists k :: 0 <= k < |segs| && |Tokens(segs[k])| >= 4 && row == FirstTen(Tokens(segs[k]))
    decreases |segs|
  {
    var init := segs[..|segs| - 1];
    if row in Reconstruct(init) {
      ReconstructSound(init, row);
      var k :| 0 <= k < |init| && |Tokens(init[k])| >= 4 && row == FirstTen(Tokens(init[k]));
      assert init[k] == segs[k];
    } else {
      assert segs[|segs| - 1] == segs[|segs| - 1];
    }
  }

  /** The loop of data_prep.py:164-168 that builds `data`. */
  method BuildRows(segs: seq<string>) returns (data: seq<seq<string>>)
    ensures data == Reconstruct(segs)
    ensures forall k :: 0 <= k < |data| ==> IsRow(data[k])
  {
    data := [];
    var i := 0;
    while i < |segs|
      invariant 0 <= i <= |segs|
      invariant data == Reconstruct(segs[..i])
    {
      var parts := Tokens(segs[i]);
      if |parts| >= 4 {
        data := data + [FirstTen(parts)];
      }
      assert segs[..i + 1][..i] == segs[..i];
      i := i + 1;
    }
    assert segs[..i] == segs;
    ReconstructRows(segs);
  }
}
