/** Line-level repair of the two raw extracts (data_prep.py:69-76 for the
    recycling file, data_prep.py:148-159 for the waste file). A file is
    given as the sequence of lines Python's `for line in f_in` yields; only
    the last may lack its terminating "\n". */
module LineRepair {
  import opened Text

  const LineBreaks: set<char> := {'\r', '\n'}

  /** A line as file iteration delivers it: "\n" occurs at most at its end. */
  predicate IteratedLine(raw: string)
  {
    forall i :: 0 <= i < |raw| - 1 ==> raw[i] != '\n'
  }

  /** The recycling file's test before unquoting: at least two characters,
      a double quote at each end (data_prep.py:74). */
  predicate WrappedInQuotes(t: string)
  {
    |t| >= 2 && t[0] == '"' && t[|t| - 1] == '"'
  }

  /** One line of the recycling file after `rstrip("\r\n")` and removal of
      one outer pair of quotes (data_prep.py:73-75). */
  function RepairRecyclingLine(raw: string): string
  {
    var t := StripRight(raw, LineBreaks);
    if WrappedInQuotes(t) then t[1..|t| - 1] else t
  }

  /** The raw line is the repaired line, re-wrapped in quotes when one
      pair was taken off, followed by line-break characters only. */
  lemma RecyclingLineShape(raw: string)
    ensures var r := RepairRecyclingLine(raw);
      WrappedInQuotes(StripRight(raw, LineBreaks)) ==>
        |r| + 2 <= |raw| && raw[..|r| + 2] == "\"" + r + "\"" && AllIn(raw[|r| + 2..], LineBreaks)
    ensures var r := RepairRecyclingLine(raw);
      !WrappedInQuotes(StripRight(raw, LineBreaks)) ==>
        |r| <= |raw| && raw[..|r|] == r && AllIn(raw[|r|..], LineBreaks) && (r == [] || r[|r| - 1] !in LineBreaks)
  {
    var t := StripRight(raw, LineBreaks);
    if WrappedInQuotes(t) {
      assert t == t[..1] + t[1..|t| - 1] + t[|t| - 1..];
    }
  }

  /** A line without trailing line breaks that is wrapped in quotes loses
      exactly its first and last character; any other such line is left
      as it is. */
  lemma RecyclingQuoteStrip(raw: string)
    ensures raw == [] || raw[|raw| - 1] !in LineBreaks ==>
      RepairRecyclingLine(raw) == if WrappedInQuotes(raw) then raw[1..|raw| - 1] else raw
  {
  }

  /** Each line followed by "\n", as `f_out.write(line + "\n")` produces them. */
  function Terminated(ls: seq<string>): string
    decreases |ls|
  {
    if ls == [] then [] else ls[0] + "\n" + Terminated(ls[1..])
  }

  lemma {:induction false} TerminatedAppend(ls: seq<string>, l: string)
    ensures Terminated(ls + [l]) == Terminated(ls) + l + "\n"
    decreases |ls|
  {
    if ls != [] {
      assert (ls + [l])[1..] == ls[1..] + [l];
      TerminatedAppend(ls[1..], l);
    }
  }

  /** One more line written extends the output by that line and "\n". */
  lemma TerminatedStep(ls: seq<string>, i: nat)
    requires i < |ls|
    ensures Terminated(ls[..i + 1]) == Terminated(ls[..i]) + ls[i] + "\n"
  {
    assert ls[..i + 1] == ls[..i] + [ls[i]];
    TerminatedAppend(ls[..i], ls[i]);
  }

  lemma {:induction false} TerminatedIsJoin(ls: seq<string>)
    ensures Terminated(ls) == Join(ls + [[]], "\n")
    decreases |ls|
  {
    if ls != [] {
      assert (ls + [[]])[1..] == ls[1..] + [[]];
      TerminatedIsJoin(ls[1..]);
    }
  }

  /** The repaired recycling lines, one per raw line. */
  function RepairedRecyclingLines(lines: seq<string>): (r: seq<string>)
    ensures |r| == |lines|
  {
    seq(|lines|, i requires 0 <= i < |lines| => RepairRecyclingLine(lines[i]))
  }

  /** A repaired line of an iterated line holds no "\n". */
  lemma RepairedHasNoNewline(raw: string)
    requires IteratedLine(raw)
    ensures '\n' !in RepairRecyclingLine(raw)
  {
  }

  /** Read back line by line, the terminated repaired lines are exactly
      the repaired lines, followed by the empty field after the last
      "\n". */
  lemma TerminatedSplit(lines: seq<string>)
    requires forall k :: 0 <= k < |lines| ==> IteratedLine(lines[k])
    ensures Split(Terminated(RepairedRecyclingLines(lines)), '\n') == RepairedRecyclingLines(lines) + [[]]
  {
    var repaired := RepairedRecyclingLines(lines);
    TerminatedIsJoin(repaired);
    forall k | 0 <= k < |repaired + [[]]|
      ensures '\n' !in (repaired + [[]])[k]
    {
      if k < |repaired| {
        RepairedHasNoNewline(lines[k]);
      }
    }
    SplitJoin(repaired + [[]], '\n');
  }

  /** The loop of data_prep.py:71-76: every line is repaired and written
      with a single "\n". Read back line by line, the cleaned file holds
      exactly the repaired lines, in their original order. */
  method RepairRecyclingFile(lines: seq<string>) returns (out: string)
    requires forall k :: 0 <= k < |lines| ==> IteratedLine(lines[k])
    ensures out == Terminated(RepairedRecyclingLines(lines))
    ensures Split(out, '\n') == RepairedRecyclingLines(lines) + [[]]
  {
    ghost var repaired := RepairedRecyclingLines(lines);
    out := [];
    var i := 0;
    while i < |lines|
      invariant 0 <= i <= |lines|
      invariant out == Terminated(repaired[..i])
    {
      var line := StripRight(lines[i], LineBreaks);
      ghost var stripped := line;
      if |line| >= 2 && line[0] == '"' && line[|line| - 1] == '"' {
        line := line[1..|line| - 1];
      }
      assert line == (if WrappedInQuotes(stripped) then stripped[1..|stripped| - 1] else stripped);
      assert repaired[i] == RepairRecyclingLine(lines[i]);
      TerminatedStep(repaired, i);
      out := out + line + "\n";
      i := i + 1;
    }
    assert repaired[..|lines|] == repaired;
    TerminatedSplit(lines);
  }

  /** `line[1:-1]` when the line starts and ends with a quote
      (data_prep.py:154-155). There is no length test: a line made of a
      single quote becomes empty. */
  function UnquoteWasteLine(line: string): (r: string)
    ensures |line| >= 2 && line[0] == '"' && line[|line| - 1] == '"' ==> r == line[1..|line| - 1]
    ensures line == "\"" ==> r == []
    ensures !(|line| >= 1 && line[0] == '"' && line[|line| - 1] == '"') ==> r == line
  {
    if |line| >= 1 && line[0] == '"' && line[|line| - 1] == '"' then
      (if |line| >= 2 then line[1..|line| - 1] else [])
    else line
  }

  /** Unquoting only removes characters. */
  lemma UnquoteKeepsChars(line: string)
    ensures |UnquoteWasteLine(line)| <= |line|
    ensures forall c :: c in UnquoteWasteLine(line) ==> c in line
  {
  }

  /** The three replacements of data_prep.py:153, in their order. */
  function FixDelimiters(s: string): string
  {
    ReplaceAll(ReplaceAll(ReplaceAll(s, "\"\"", "\""), ";\"", "\""), ";", ",")
  }

  /** Doubled quotes collapse and semicolons become commas: no semicolon
      is left, and the line does not grow. */
  lemma FixDelimitersRemovesSemicolons(s: string)
    ensures ';' !in FixDelimiters(s)
    ensures |FixDelimiters(s)| <= |s|
  {
    var undoubled := ReplaceAll(s, "\"\"", "\"");
    var requoted := ReplaceAll(undoubled, ";\"", "\"");
    ReplaceShrinks(s, "\"\"", "\"");
    ReplaceShrinks(undoubled, ";\"", "\"");
    ReplaceCharIsMap(requoted, ';', ',');
  }

  /** Text without quotes and semicolons has nothing to fix. */
  lemma FixDelimitersClean(s: string)
    requires '"' !in s && ';' !in s
    ensures FixDelimiters(s) == s
  {
    ReplaceAbsent(s, "\"\"", "\"");
    ReplaceAbsent(s, ";\"", "\"");
    ReplaceAbsent(s, ";", ",");
  }

  /** One line of the waste file after the repair chain of
      data_prep.py:152-155: strip, `""` to `"`, `;"` to `"`, `;` to `,`,
      then one outer quote pair removed. No semicolon survives and the
      line never grows. */
  function RepairWasteLine(raw: string): (r: string)
    ensures ';' !in r
    ensures |r| <= |raw|
  {
    FixDelimitersRemovesSemicolons(Strip(raw));
    UnquoteKeepsChars(FixDelimiters(Strip(raw)));
    UnquoteWasteLine(FixDelimiters(Strip(raw)))
  }

  /** A line already clean (no surrounding whitespace, no quote, no
      semicolon) passes the repair chain unchanged. */
  lemma CleanWasteLineUnchanged(raw: string)
    requires raw == [] || (!IsSpace(raw[0]) && !IsSpace(raw[|raw| - 1]))
    requires '"' !in raw && ';' !in raw
    ensures RepairWasteLine(raw) == raw
  {
    StripClean(raw);
    FixDelimitersClean(raw);
    assert UnquoteWasteLine(raw) == raw;
  }

  /** The repaired waste lines, one per raw line, in order. */
  function RepairedWasteLines(lines: seq<string>): (r: seq<string>)
    ensures |r| == |lines|
    ensures forall k :: 0 <= k < |r| ==> ';' !in r[k]
  {
    seq(|lines|, k requires 0 <= k < |lines| => RepairWasteLine(lines[k]))
  }

  /** The loop of data_prep.py:151-156 that fills `cleaned_lines`. */
  method RepairWasteLines(lines: seq<string>) returns (cleaned: seq<string>)
    ensures cleaned == RepairedWasteLines(lines)
    ensures forall k :: 0 <= k < |cleaned| ==> ';' !in cleaned[k]
  {
    ghost var spec := RepairedWasteLines(lines);
    cleaned := [];
    var i := 0;
    while i < |lines|
      invariant 0 <= i <= |lines|
      invariant cleaned == spec[..i]
    {
      var line := Strip(lines[i]);
      line := FixDelimiters(line);
      ghost var fixed := line;
      if |line| >= 1 && line[0] == '"' && line[|line| - 1] == '"' {
        line := if |line| >= 2 then line[1..|line| - 1] else [];
      }
      assert line == UnquoteWasteLine(fixed);
      assert spec[i] == RepairWasteLine(lines[i]);
      assert spec[..i + 1] == spec[..i] + [spec[i]];
      cleaned := cleaned + [line];
      i := i + 1;
    }
    assert spec[..|lines|] == spec;
  }

  /** `"\n".join(cleaned_lines)` (data_prep.py:159): the whole waste text
      carries no semicolon. */
  function WasteText(cleaned: seq<string>): (text: string)
    requires forall k :: 0 <= k < |cleaned| ==> ';' !in cleaned[k]
    ensures ';' !in text
  {
    JoinKeeps(cleaned, "\n", ';');
    Join(cleaned, "\n")
  }
}
