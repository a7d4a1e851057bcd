/**
 * The vocabulary CSV reader: each line is trimmed; blank lines and `#`
 * comments are ignored; the rest is split at its first comma into a German
 * word and its translation; rows with a missing comma or an empty side are
 * reported as warnings (by line number) and skipped; header rows are dropped
 * wherever they appear; every other row becomes one entry, in input order.
 */
module CsvImport {
  import opened Wrappers
  import opened JavaText
  import opened StoreModel

  /** What becomes of one line. */
  datatype LineResult =
    | Ignored          // blank, or a `#` comment
    | Malformed        // no comma
    | EmptySide        // nothing on one side of the comma
    | Header           // the column headers, in any case
    | Row(entry: VocabEntry)

  /** A warning is logged for a malformed row and for a row with an empty side. */
  predicate IsWarning(r: LineResult) {
    r.Malformed? || r.EmptySide?
  }

  /** The treatment of one line, given the expected left and right headers. */
  function ParseLine(line: string, leftHeader: string, rightHeader: string): LineResult {
    var trimmed := Trim(line);
    if trimmed == [] || trimmed[0] == '#' then Ignored
    else
      var comma := IndexOf(trimmed, ',');
      if comma < 0 then Malformed
      else SplitRow(Trim(trimmed[..comma]), Trim(trimmed[comma + 1..]), leftHeader, rightHeader)
  }

  /** The treatment of a line once split at its first comma into trimmed sides. */
  function SplitRow(left: string, right: string, leftHeader: string, rightHeader: string): (r: LineResult)
    ensures !r.Ignored? && !r.Malformed?
    ensures r.Row? ==> r.entry == VocabEntry(left, right) && left != [] && right != []
    ensures r.Row? ==> !(EqualsIgnoreCase(left, leftHeader) && EqualsIgnoreCase(right, rightHeader))
  {
    if left == [] || right == [] then EmptySide
    else if EqualsIgnoreCase(left, leftHeader) && EqualsIgnoreCase(right, rightHeader) then Header
    else Row(VocabEntry(left, right))
  }

  /**
   * Blank and comment lines are ignored, a line without a comma is malformed,
   * and a row is a trimmed, non-empty pair whose German side is the text before
   * the first comma and which is not the header.
   */
  lemma ParseLineFacts(line: string, leftHeader: string, rightHeader: string)
    ensures var r := ParseLine(line, leftHeader, rightHeader);
            && (r.Ignored? <==> Trim(line) == [] || Trim(line)[0] == '#')
            && (r.Malformed? <==> Trim(line) != [] && Trim(line)[0] != '#' && ',' !in Trim(line))
            && (r.Row? ==> r.entry.left != [] && r.entry.right != [])
            && (r.Row? ==> IsTrimmed(r.entry.left) && IsTrimmed(r.entry.right) && ',' !in r.entry.left)
            && (r.Row? ==> !(EqualsIgnoreCase(r.entry.left, leftHeader) && EqualsIgnoreCase(r.entry.right, rightHeader)))
  {
    var t := Trim(line);
    if t != [] && t[0] != '#' {
      var comma := IndexOf(t, ',');
      if comma >= 0 {
        TrimKeepsCharacters(t[..comma]);
        assert ParseLine(line, leftHeader, rightHeader) ==
               SplitRow(Trim(t[..comma]), Trim(t[comma + 1..]), leftHeader, rightHeader);
      }
    }
  }

  /** The treatment of every line, position by position. */
  function LineResults(lines: seq<string>, leftHeader: string, rightHeader: string): (results: seq<LineResult>)
    ensures |results| == |lines|
    ensures forall i :: 0 <= i < |lines| ==> results[i] == ParseLine(lines[i], leftHeader, rightHeader)
  {
    seq(|lines|, i requires 0 <= i < |lines| => ParseLine(lines[i], leftHeader, rightHeader))
  }

  /** The entries of the rows among `results`, in order. */
  function Entries(results: seq<LineResult>): (entries: seq<VocabEntry>)
    ensures |entries| <= |results|
  {
    if results == [] then []
    else
      var init := Entries(results[..|results| - 1]);
      match results[|results| - 1]
      case Row(e) => init + [e]
      case _ => init
  }

  /** The 1-based positions of the results that draw a warning, in order. */
  function Warnings(results: seq<LineResult>): (numbers: seq<nat>)
    ensures |numbers| <= |results|
    ensures forall k :: 0 <= k < |numbers| ==> 1 <= numbers[k] <= |results|
  {
    if results == [] then []
    else
      var init := Warnings(results[..|results| - 1]);
      if IsWarning(results[|results| - 1]) then init + [|results|] else init
  }

  /** The entries `parse` returns for `lines`. */
  function ParseLines(lines: seq<string>, leftHeader: string, rightHeader: string): seq<VocabEntry> {
    Entries(LineResults(lines, leftHeader, rightHeader))
  }

  /** The numbers of the lines `parse` warns about. */
  function WarningLines(lines: seq<string>, leftHeader: string, rightHeader: string): seq<nat> {
    Warnings(LineResults(lines, leftHeader, rightHeader))
  }

  /** Reading one more line extends the results by that line's treatment. */
  lemma LineResultsSnoc(lines: seq<string>, n: nat, leftHeader: string, rightHeader: string)
    requires n < |lines|
    ensures LineResults(lines[..n + 1], leftHeader, rightHeader) ==
            LineResults(lines[..n], leftHeader, rightHeader) + [ParseLine(lines[n], leftHeader, rightHeader)]
  {
    var r := LineResults(lines[..n + 1], leftHeader, rightHeader);
    assert r[..n] == LineResults(lines[..n], leftHeader, rightHeader);
  }

  /** One more result adds its entry, if it is a row. */
  lemma EntriesSnoc(done: seq<LineResult>, r: LineResult)
    ensures Entries(done + [r]) == Entries(done) + (if r.Row? then [r.entry] else [])
  {
    assert (done + [r])[..|done|] == done;
  }

  /** One more result adds its 1-based position, if it draws a warning. */
  lemma WarningsSnoc(done: seq<LineResult>, r: LineResult)
    ensures Warnings(done + [r]) == Warnings(done) + (if IsWarning(r) then [|done| + 1] else [])
  {
    assert (done + [r])[..|done|] == done;
  }

  /**
   * `VocabularyCsvImport.parse`: reads the lines one by one, counting them, and
   * collects the entries and the numbers of the lines it warns about.
   */
  method Parse(lines: seq<string>, leftHeader: string, rightHeader: string)
    returns (entries: seq<VocabEntry>, warnings: seq<nat>)
    ensures entries == ParseLines(lines, leftHeader, rightHeader)
    ensures warnings == WarningLines(lines, leftHeader, rightHeader)
  {
    entries := [];
    warnings := [];
    ghost var results: seq<LineResult> := [];
    var lineNo := 0;
    while lineNo < |lines|
      invariant 0 <= lineNo <= |lines|
      invariant results == LineResults(lines[..lineNo], leftHeader, rightHeader)
      invariant entries == Entries(results) && warnings == Warnings(results)
    {
      var line := lines[lineNo];
      LineResultsSnoc(lines, lineNo, leftHeader, rightHeader);
      lineNo := lineNo + 1;
      // What this line turns out to be, in the terms of `ParseLine`.
      ghost var result: LineResult;
      var trimmed := Trim(line);
      if trimmed == [] || trimmed[0] == '#' {
        result := Ignored;
      } else {
        var comma := IndexOf(trimmed, ',');
        if comma < 0 {
          warnings := warnings + [lineNo];
          result := Malformed;
        } else {
          var left := Trim(trimmed[..comma]);
          var right := Trim(trimmed[comma + 1..]);
          if left == [] || right == [] {
            warnings := warnings + [lineNo];
            result := EmptySide;
          } else if EqualsIgnoreCase(left, leftHeader) && EqualsIgnoreCase(right, rightHeader) {
            result := Header;
          } else {
            entries := entries + [VocabEntry(left, right)];
            result := Row(VocabEntry(left, right));
          }
        }
      }
      assert result == ParseLine(line, leftHeader, rightHeader);
      EntriesSnoc(results, result);
      WarningsSnoc(results, result);
      results := results + [result];
    }
    assert lines[..|lines|] == lines;
  }

  // ---------------------------------------------------------------------------
  // Properties of the parser
  // ---------------------------------------------------------------------------

  /** The entries of two consecutive blocks of results are the entries of each, in order. */
  lemma {:induction false} EntriesAppend(a: seq<LineResult>, b: seq<LineResult>)
    ensures Entries(a + b) == Entries(a) + Entries(b)
    decreases |b|
  {
    if b == [] {
      assert a + b == a;
    } else {
      var b' := b[..|b| - 1];
      assert (a + b)[..|a + b| - 1] == a + b';
      assert (a + b)[|a + b| - 1] == b[|b| - 1];
      EntriesAppend(a, b');
    }
  }

  /** Parsing is line by line: the entries of two consecutive blocks of lines are the entries of each, in order. */
  lemma ParseLinesAppend(a: seq<string>, b: seq<string>, leftHeader: string, rightHeader: string)
    ensures ParseLines(a + b, leftHeader, rightHeader) ==
            ParseLines(a, leftHeader, rightHeader) + ParseLines(b, leftHeader, rightHeader)
  {
    assert LineResults(a + b, leftHeader, rightHeader) ==
           LineResults(a, leftHeader, rightHeader) + LineResults(b, leftHeader, rightHeader);
    EntriesAppend(LineResults(a, leftHeader, rightHeader), LineResults(b, leftHeader, rightHeader));
  }

  /** An entry is produced exactly for a result that is that row. */
  lemma {:induction false} EntriesMembers(results: seq<LineResult>, e: VocabEntry)
    ensures e in Entries(results) <==> Row(e) in results
  {
    if results != [] {
      var init := results[..|results| - 1];
      EntriesMembers(init, e);
      assert results == init + [results[|results| - 1]];
    }
  }

  /** An entry is produced exactly for a line whose treatment is that row. */
  lemma ParseLinesMembers(lines: seq<string>, leftHeader: string, rightHeader: string, e: VocabEntry)
    ensures e in ParseLines(lines, leftHeader, rightHeader) <==>
            exists i :: 0 <= i < |lines| && ParseLine(lines[i], leftHeader, rightHeader) == Row(e)
  {
    var results := LineResults(lines, leftHeader, rightHeader);
    EntriesMembers(results, e);
    if Row(e) in results {
      var i :| 0 <= i < |results| && results[i] == Row(e);
      assert ParseLine(lines[i], leftHeader, rightHeader) == Row(e);
    }
  }

  /**
   * There are no more entries than lines, and every entry is a trimmed, non-empty
   * pair whose German side has no comma and which is not the header.
   */
  lemma EntriesWellFormed(lines: seq<string>, leftHeader: string, rightHeader: string)
    ensures |ParseLines(lines, leftHeader, rightHeader)| <= |lines|
    ensures forall e :: e in ParseLines(lines, leftHeader, rightHeader) ==>
              && e.left != [] && e.right != [] && IsTrimmed(e.left) && IsTrimmed(e.right) && ',' !in e.left
              && !(EqualsIgnoreCase(e.left, leftHeader) && EqualsIgnoreCase(e.right, rightHeader))
  {
    var results := LineResults(lines, leftHeader, rightHeader);
    forall e | e in Entries(results)
      ensures e.left != [] && e.right != [] && IsTrimmed(e.left) && IsTrimmed(e.right) && ',' !in e.left
      ensures !(EqualsIgnoreCase(e.left, leftHeader) && EqualsIgnoreCase(e.right, rightHeader))
    {
      EntriesMembers(results, e);
      var i :| 0 <= i < |results| && results[i] == Row(e);
      ParseLineFacts(lines[i], leftHeader, rightHeader);
    }
  }

  /** Results that are not rows contribute no entry. */
  lemma {:induction false} EntriesSkip(results: seq<LineResult>)
    requires forall k :: 0 <= k < |results| ==> !results[k].Row?
    ensures Entries(results) == []
  {
    if results != [] {
      EntriesSkip(results[..|results| - 1]);
    }
  }

  /** The treatment of two consecutive blocks of lines is the treatment of each. */
  lemma LineResultsAppend(a: seq<string>, b: seq<string>, leftHeader: string, rightHeader: string)
    ensures LineResults(a + b, leftHeader, rightHeader) ==
            LineResults(a, leftHeader, rightHeader) + LineResults(b, leftHeader, rightHeader)
  {
  }

  /** A header row produces nothing, wherever it stands. */
  lemma HeaderDroppedAnywhere(before: seq<string>, after: seq<string>, header: string,
                              leftHeader: string, rightHeader: string)
    requires ParseLine(header, leftHeader, rightHeader).Header?
    ensures ParseLines(before + [header] + after, leftHeader, rightHeader) ==
            ParseLines(before, leftHeader, rightHeader) + ParseLines(after, leftHeader, rightHeader)
  {
    var rb := LineResults(before, leftHeader, rightHeader);
    var ra := LineResults(after, leftHeader, rightHeader);
    LineResultsAppend(before + [header], after, leftHeader, rightHeader);
    LineResultsAppend(before, [header], leftHeader, rightHeader);
    assert LineResults([header], leftHeader, rightHeader) == [Header];
    EntriesAppend(rb + [Header], ra);
    EntriesSnoc(rb, Header);
  }

  /** A line "left,right" whose German side is trimmed, comma-free, non-empty and not a comment is split there. */
  lemma CommaLine(left: string, right: string, leftHeader: string, rightHeader: string)
    requires left != [] && IsTrimmed(left) && ',' !in left && left[0] != '#'
    requires right != [] && IsTrimmed(right)
    ensures ParseLine(left + "," + right, leftHeader, rightHeader) == SplitRow(left, right, leftHeader, rightHeader)
  {
    var line := left + "," + right;
    assert line[0] == left[0] && line[|line| - 1] == right[|right| - 1];
    assert Trim(line) == line;
    assert line[|left|] == ',';
    assert line[..|left|] == left;
    assert IndexOf(line, ',') == |left|;
    assert line[|left| + 1..] == right;
  }

  /**
   * Writing a pair as "left,right" and reading it back gives the pair, when the
   * German word is trimmed, non-empty, comma-free and not a comment, the
   * translation is trimmed and non-empty (it may hold commas), and the pair is
   * not the header.
   */
  lemma RowRoundTrip(left: string, right: string, leftHeader: string, rightHeader: string)
    requires left != [] && IsTrimmed(left) && ',' !in left && left[0] != '#'
    requires right != [] && IsTrimmed(right)
    requires !(EqualsIgnoreCase(left, leftHeader) && EqualsIgnoreCase(right, rightHeader))
    ensures ParseLine(left + "," + right, leftHeader, rightHeader) == Row(VocabEntry(left, right))
  {
    CommaLine(left, right, leftHeader, rightHeader);
  }

  /** The header row, in any case, is recognised as the header. */
  lemma HeaderLine(left: string, right: string, leftHeader: string, rightHeader: string)
    requires left != [] && IsTrimmed(left) && ',' !in left && left[0] != '#'
    requires right != [] && IsTrimmed(right)
    requires EqualsIgnoreCase(left, leftHeader) && EqualsIgnoreCase(right, rightHeader)
    ensures ParseLine(left + "," + right, leftHeader, rightHeader) == Header
  {
    CommaLine(left, right, leftHeader, rightHeader);
  }

  /** The header line of the sample sheet. */
  lemma SheetHeaderLine()
    ensures ParseLine("de,en", "de", "en") == Header
  {
    assert "de,en" == "de" + "," + "en";
    EqualsIgnoreCaseReflexive("de");
    EqualsIgnoreCaseReflexive("en");
    HeaderLine("de", "en", "de", "en");
  }

  lemma SheetHausLine()
    ensures ParseLine("haus,house", "de", "en") == Row(VocabEntry("haus", "house"))
  {
    assert "haus,house" == "haus" + "," + "house";
    RowRoundTrip("haus", "house", "de", "en");
  }

  lemma SheetBaumLine()
    ensures ParseLine("baum,tree", "de", "en") == Row(VocabEntry("baum", "tree"))
  {
    assert "baum,tree" == "baum" + "," + "tree";
    RowRoundTrip("baum", "tree", "de", "en");
  }

  lemma SheetInvalidLine()
    ensures ParseLine("invalid-row-without-comma", "de", "en") == Malformed
  {
    var s := "invalid-row-without-comma";
    assert IsTrimmed(s);
    assert forall k :: 0 <= k < |s| ==> s[k] != ',';
  }

  /** The treatment of four lines, one by one. */
  lemma FourLineResults(a: string, b: string, c: string, d: string, leftHeader: string, rightHeader: string)
    ensures LineResults([a, b, c, d], leftHeader, rightHeader) ==
            [ParseLine(a, leftHeader, rightHeader), ParseLine(b, leftHeader, rightHeader),
             ParseLine(c, leftHeader, rightHeader), ParseLine(d, leftHeader, rightHeader)]
  {
  }

  /** The treatment of the lines of a sample sheet: a header, two rows and a row without a comma. */
  lemma SheetResults(lines: seq<string>)
    requires lines == ["de,en", "haus,house", "invalid-row-without-comma", "baum,tree"]
    ensures LineResults(lines, "de", "en") ==
            [Header, Row(VocabEntry("haus", "house")), Malformed, Row(VocabEntry("baum", "tree"))]
  {
    SheetHeaderLine();
    SheetHausLine();
    SheetInvalidLine();
    SheetBaumLine();
    FourLineResults("de,en", "haus,house", "invalid-row-without-comma", "baum,tree", "de", "en");
  }

  /** Those results keep the two rows and warn about the third position. */
  lemma SheetEntries(results: seq<LineResult>)
    requires results == [Header, Row(VocabEntry("haus", "house")), Malformed, Row(VocabEntry("baum", "tree"))]
    ensures Entries(results) == [VocabEntry("haus", "house"), VocabEntry("baum", "tree")]
    ensures Warnings(results) == [3]
  {
    var r1, r2, r3 := results[..1], results[..2], results[..3];
    assert r1[..0] == [] && r2[..1] == r1 && r3[..2] == r2;
    assert Entries(r1) == [] && Warnings(r1) == [];
    assert Entries(r2) == [VocabEntry("haus", "house")] && Warnings(r2) == [];
    assert Entries(r3) == [VocabEntry("haus", "house")] && Warnings(r3) == [3];
  }

  /** The import of that sheet keeps the two rows and warns about its third line. */
  lemma SheetWithInvalidRow(lines: seq<string>)
    requires lines == ["de,en", "haus,house", "invalid-row-without-comma", "baum,tree"]
    ensures ParseLines(lines, "de", "en") == [VocabEntry("haus", "house"), VocabEntry("baum", "tree")]
    ensures WarningLines(lines, "de", "en") == [3]
  {
    SheetResults(lines);
    SheetEntries(LineResults(lines, "de", "en"));
  }
}
