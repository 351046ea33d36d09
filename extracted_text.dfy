/**
 * The normalisation the document processor applies to the text it pulls out
 * of a PDF: every line stripped, blank lines dropped except page markers,
 * the lines joined again, and runs of blank lines collapsed.
 */
module ExtractedText {
  import opened Text

  /** The marker the extractor writes at the start of each page that yields text. */
  const PageMarker: string := "--- Page"

  /** The condition under which a line survives: not blank, or a page marker. */
  predicate KeepLine(line: string) {
    Strip(line) != [] || PageMarker <= line
  }

  /** The stripped forms of the lines that survive, in their order. */
  function KeptLines(lines: seq<string>): seq<string>
    decreases |lines|
  {
    if lines == [] then []
    else
      var last := lines[|lines| - 1];
      KeptLines(lines[..|lines| - 1]) + (if KeepLine(last) then [Strip(last)] else [])
  }

  /** `_clean_extracted_text`. */
  function CleanExtracted(text: string): string {
    if text == [] then []
    else CollapseRuns(Join(KeptLines(Split(text, '\n')), '\n'), "\n\n\n", "\n\n")
  }

  /** `_clean_extracted_text`, line by line as the source does. */
  method CleanExtractedText(text: string) returns (cleaned: string)
    ensures cleaned == CleanExtracted(text)
  {
    if text == [] {
      return [];
    }
    var lines := Split(text, '\n');
    var kept: seq<string> := [];
    for i := 0 to |lines|
      invariant kept == KeptLines(lines[..i])
    {
      var line := Strip(lines[i]);
      assert lines[..i + 1][..i] == lines[..i];
      if line != [] || PageMarker <= lines[i] {
        kept := kept + [line];
      }
    }
    assert lines[..|lines|] == lines;
    cleaned := Join(kept, '\n');
    cleaned := Collapse(cleaned, "\n\n\n", "\n\n");
  }

  /**
   * The page-marker exception never matters: a marker line is not blank,
   * so a line survives exactly when it is not all whitespace.
   */
  lemma KeepLineIff(line: string)
    ensures KeepLine(line) <==> Strip(line) != []
  {
    if PageMarker <= line {
      assert line[0] == PageMarker[0] == '-';
      assert !IsSpace(line[0]);
    }
  }

  /** A line that survives does so stripped, and a line that does not is blank. */
  lemma {:induction false} KeptLinesShape(lines: seq<string>, sep: char)
    requires forall k :: 0 <= k < |lines| ==> sep !in lines[k]
    ensures forall k :: 0 <= k < |KeptLines(lines)| ==>
      KeptLines(lines)[k] != [] && Trimmed(KeptLines(lines)[k]) && sep !in KeptLines(lines)[k]
    decreases |lines|
  {
    if lines != [] {
      var last := lines[|lines| - 1];
      KeptLinesShape(lines[..|lines| - 1], sep);
      KeepLineIff(last);
      StripAvoids(last, {sep});
    }
  }

  /** Every surviving line appears, stripped, among the kept lines. */
  lemma {:induction false} KeptLinesMembers(lines: seq<string>, i: nat)
    requires i < |lines|
    ensures KeepLine(lines[i]) ==> Strip(lines[i]) in KeptLines(lines)
    decreases |lines|
  {
    if i < |lines| - 1 {
      KeptLinesMembers(lines[..|lines| - 1], i);
    }
  }

  /** `x` is the stripped form of a line of `lines` that survives. */
  ghost predicate StrippedLineOf(lines: seq<string>, x: string) {
    exists i :: 0 <= i < |lines| && KeepLine(lines[i]) && x == Strip(lines[i])
  }

  /** Every kept line is the stripped form of a surviving input line. */
  lemma {:induction false} KeptLinesFrom(lines: seq<string>)
    ensures forall j :: 0 <= j < |KeptLines(lines)| ==> StrippedLineOf(lines, KeptLines(lines)[j])
    decreases |lines|
  {
    if lines != [] {
      var init := lines[..|lines| - 1];
      var last := |lines| - 1;
      KeptLinesFrom(init);
      var kept := KeptLines(lines);
      forall j | 0 <= j < |kept|
        ensures StrippedLineOf(lines, kept[j])
      {
        if j < |KeptLines(init)| {
          assert StrippedLineOf(init, KeptLines(init)[j]);
          var i :| 0 <= i < |init| && KeepLine(init[i]) && KeptLines(init)[j] == Strip(init[i]);
          assert lines[i] == init[i];
        } else {
          assert KeepLine(lines[last]) && kept[j] == Strip(lines[last]);
        }
      }
    }
  }

  /** Stripped, non-empty lines all survive, unchanged. */
  lemma {:induction false} KeptLinesOfClean(lines: seq<string>)
    requires forall k :: 0 <= k < |lines| ==> lines[k] != [] && Trimmed(lines[k])
    ensures KeptLines(lines) == lines
    decreases |lines|
  {
    if lines != [] {
      var last := lines[|lines| - 1];
      KeptLinesOfClean(lines[..|lines| - 1]);
      StripTrimmed(last);
      assert lines[..|lines| - 1] + [last] == lines;
    }
  }

  /** The joined lines hold no empty line, so the collapsing loop never runs. */
  lemma JoinedNeedsNoCollapse(kept: seq<string>)
    requires forall k :: 0 <= k < |kept| ==> kept[k] != [] && '\n' !in kept[k]
    ensures !Contains(Join(kept, '\n'), "\n\n")
    ensures CollapseRuns(Join(kept, '\n'), "\n\n\n", "\n\n") == Join(kept, '\n')
  {
    JoinNoEmptyPiece(kept, '\n');
    assert "\n\n" == ['\n', '\n'];
    assert "\n\n" + "\n" == "\n\n\n";
    AbsenceExtends(Join(kept, '\n'), "\n\n", "\n");
  }

  /**
   * The cleaned text is the stripped non-blank lines of the input joined by
   * newlines: it holds no empty line, and splitting it at newlines gives
   * back exactly those lines, each non-empty and trimmed.
   */
  lemma CleanExtractedLines(text: string)
    ensures var kept := KeptLines(Split(text, '\n'));
      && (text == [] ==> CleanExtracted(text) == [])
      && (text != [] ==> CleanExtracted(text) == Join(kept, '\n'))
      && !Contains(CleanExtracted(text), "\n\n")
      && (forall k :: 0 <= k < |kept| ==> kept[k] != [] && Trimmed(kept[k]))
      && (kept != [] ==> Split(CleanExtracted(text), '\n') == kept)
  {
    var kept := KeptLines(Split(text, '\n'));
    KeptLinesShape(Split(text, '\n'), '\n');
    JoinedNeedsNoCollapse(kept);
    if text == [] {
      assert CleanExtracted(text) == [];
      ContainsIff([], "\n\n");
    } else if kept != [] {
      SplitJoin(kept, '\n');
    }
  }

  /** Every page marker of the input is a line of the output, stripped. */
  lemma PageMarkersSurvive(text: string, i: nat)
    requires var lines := Split(text, '\n');
      i < |lines| && PageMarker <= lines[i]
    ensures Strip(Split(text, '\n')[i]) in Split(CleanExtracted(text), '\n')
  {
    var lines := Split(text, '\n');
    KeptLinesMembers(lines, i);
    CleanExtractedLines(text);
  }

  /**
   * When any line survives, a line of the output is exactly the stripped
   * form of a surviving input line.
   */
  lemma CleanExtractedLineIff(text: string, x: string)
    requires KeptLines(Split(text, '\n')) != []
    ensures x in Split(CleanExtracted(text), '\n') <==> StrippedLineOf(Split(text, '\n'), x)
  {
    var lines := Split(text, '\n');
    CleanExtractedLines(text);
    KeptLinesFrom(lines);
    if StrippedLineOf(lines, x) {
      var i :| 0 <= i < |lines| && KeepLine(lines[i]) && x == Strip(lines[i]);
      KeptLinesMembers(lines, i);
    }
  }

  /** Cleaning twice is cleaning once. */
  lemma CleanExtractedIdempotent(text: string)
    ensures CleanExtracted(CleanExtracted(text)) == CleanExtracted(text)
  {
    var c := CleanExtracted(text);
    var kept := KeptLines(Split(text, '\n'));
    CleanExtractedLines(text);
    if c != [] {
      assert kept != [];
      KeptLinesOfClean(kept);
      CleanExtractedLines(c);
    }
  }
}
