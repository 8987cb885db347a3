/**
  What the extractor does on typical lines of a model reply: a three-cell
  line with clean cells is kept as those cells (a markdown separator row
  among them), the header row is dropped, and so is a student whose name
  contains "Roll"; a fenced reply with a header, a separator and a data
  line gives two records; a reply written without `|` stops the handler.
 */
module Scenarios {
  import opened PyStr
  import opened Comprehension
  import opened Extractor

  /** `|w0|w1|w2|` splits into the three cells with an empty piece at each end. */
  lemma ThreeCellSplit(w0: string, w1: string, w2: string)
    requires Pipe !in w0 && Pipe !in w1 && Pipe !in w2
    ensures Cells([Pipe] + w0 + [Pipe] + w1 + [Pipe] + w2 + [Pipe]) == ["", w0, w1, w2, ""]
  {
    var pieces := ["", w0, w1, w2, ""];
    assert Join(pieces[4..], Pipe) == "";
    assert Join(pieces[3..], Pipe) == w2 + [Pipe];
    assert Join(pieces[2..], Pipe) == w1 + [Pipe] + w2 + [Pipe];
    assert Join(pieces[1..], Pipe) == w0 + [Pipe] + w1 + [Pipe] + w2 + [Pipe];
    assert Join(pieces, Pipe) == [Pipe] + w0 + [Pipe] + w1 + [Pipe] + w2 + [Pipe];
    SplitJoin(pieces, Pipe);
  }

  /** The last two cells of `|w0|w1|w2|`, the second not blank, clean to its trimmed word. */
  lemma CleanLastCells(w2: string)
    requires Strip(w2) != ""
    ensures CleanRow([w2, ""]) == [Strip(w2)]
  {
    assert CleanRow([""]) == [] by {
      CleanRowCons("", []);
      assert [""] + [] == [""];
    }
    CleanRowCons(w2, [""]);
    assert [w2] + [""] == [w2, ""];
  }

  /** The last three cells of `|w0|w1|w2|`, the first two not blank, clean to their trimmed words. */
  lemma CleanMiddleCells(w1: string, w2: string)
    requires Strip(w1) != "" && Strip(w2) != ""
    ensures CleanRow([w1, w2, ""]) == [Strip(w1), Strip(w2)]
  {
    CleanLastCells(w2);
    CleanRowCons(w1, [w2, ""]);
    assert [w1] + [w2, ""] == [w1, w2, ""];
  }

  /** The last four cells of `|w0|w1|w2|`, none of the words blank, clean to the trimmed words. */
  lemma CleanWordCells(w0: string, w1: string, w2: string)
    requires Strip(w0) != "" && Strip(w1) != "" && Strip(w2) != ""
    ensures CleanRow([w0, w1, w2, ""]) == [Strip(w0), Strip(w1), Strip(w2)]
  {
    CleanMiddleCells(w1, w2);
    CleanRowCons(w0, [w1, w2, ""]);
    assert [w0] + [w1, w2, ""] == [w0, w1, w2, ""];
  }

  /** The cells of `|w0|w1|w2|` clean to the three trimmed words when none is blank. */
  lemma CleanThreeCells(w0: string, w1: string, w2: string)
    requires Strip(w0) != "" && Strip(w1) != "" && Strip(w2) != ""
    ensures CleanRow(["", w0, w1, w2, ""]) == [Strip(w0), Strip(w1), Strip(w2)]
  {
    CleanWordCells(w0, w1, w2);
    CleanRowCons("", [w0, w1, w2, ""]);
    assert [""] + [w0, w1, w2, ""] == ["", w0, w1, w2, ""];
  }

  /** A line `|w0|w1|w2|` whose cells are not blank and do not contain "Roll"
      is kept, as the three trimmed cells. */
  lemma ThreeCellLineKept(w0: string, w1: string, w2: string)
    requires Pipe !in w0 && Pipe !in w1 && Pipe !in w2
    requires Strip(w0) != "" && Strip(w1) != "" && Strip(w2) != ""
    requires !Contains(Strip(w0), HeaderMarker)
    requires !Contains(Strip(w1), HeaderMarker)
    requires !Contains(Strip(w2), HeaderMarker)
    ensures KeepsRow(Cells([Pipe] + w0 + [Pipe] + w1 + [Pipe] + w2 + [Pipe]))
    ensures FirstThree(Cells([Pipe] + w0 + [Pipe] + w1 + [Pipe] + w2 + [Pipe])) == [Strip(w0), Strip(w1), Strip(w2)]
  {
    var row := Cells([Pipe] + w0 + [Pipe] + w1 + [Pipe] + w2 + [Pipe]);
    ThreeCellSplit(w0, w1, w2);
    CleanThreeCells(w0, w1, w2);
    ThreeCleanCellsKept(row, Strip(w0), Strip(w1), Strip(w2));
  }

  /** A padded cell `" " + w + " "` trims to `w`. */
  lemma PaddedCell(w: string)
    requires |w| > 0 && IsStripped(w)
    ensures Strip(" " + w + " ") == w
  {
    StripPadded(" ", w, " ");
  }

  /** The markdown table line `| a | b | c |` the model is asked to write. */
  function PaddedLine(a: string, b: string, c: string): string {
    "| " + a + " | " + b + " | " + c + " |"
  }

  /** `| a | b | c |` splits into the three padded cells with an empty piece at each end. */
  lemma PaddedLineCells(a: string, b: string, c: string)
    requires Pipe !in a && Pipe !in b && Pipe !in c
    ensures Cells(PaddedLine(a, b, c)) == ["", " " + a + " ", " " + b + " ", " " + c + " ", ""]
  {
    var w0, w1, w2 := " " + a + " ", " " + b + " ", " " + c + " ";
    assert PaddedLine(a, b, c) == [Pipe] + w0 + [Pipe] + w1 + [Pipe] + w2 + [Pipe];
    ThreeCellSplit(w0, w1, w2);
  }

  /** The cells of `| a | b | c |`, for non-empty trimmed `a`, `b` and `c`, clean to `[a, b, c]`. */
  lemma PaddedLineCleans(a: string, b: string, c: string)
    requires Pipe !in a && Pipe !in b && Pipe !in c
    requires |a| > 0 && |b| > 0 && |c| > 0
    requires IsStripped(a) && IsStripped(b) && IsStripped(c)
    ensures CleanRow(Cells(PaddedLine(a, b, c))) == [a, b, c]
  {
    PaddedLineCells(a, b, c);
    PaddedCell(a);
    PaddedCell(b);
    PaddedCell(c);
    CleanThreeCells(" " + a + " ", " " + b + " ", " " + c + " ");
  }

  /** A row that cleans to three cells without "Roll" is kept as those cells. */
  lemma ThreeCleanCellsKept(row: seq<string>, a: string, b: string, c: string)
    requires CleanRow(row) == [a, b, c]
    requires !Contains(a, HeaderMarker) && !Contains(b, HeaderMarker) && !Contains(c, HeaderMarker)
    ensures KeepsRow(row)
    ensures FirstThree(row) == [a, b, c]
  {
    var clean := CleanRow(row);
    forall k | 0 <= k < |clean|
      ensures !Contains(clean[k], HeaderMarker)
    {
      assert clean[k] == [a, b, c][k];
    }
    assert Take(clean, Columns) == clean;
  }

  /** A line `| a | b | c |` of non-empty trimmed cells without an "R" is kept as `[a, b, c]`. */
  lemma PaddedLineKept(a: string, b: string, c: string)
    requires Pipe !in a && Pipe !in b && Pipe !in c
    requires |a| > 0 && |b| > 0 && |c| > 0
    requires IsStripped(a) && IsStripped(b) && IsStripped(c)
    requires HeaderMarker[0] !in a && HeaderMarker[0] !in b && HeaderMarker[0] !in c
    ensures KeepsRow(Cells(PaddedLine(a, b, c)))
    ensures FirstThree(Cells(PaddedLine(a, b, c))) == [a, b, c]
  {
    ContainsHead(a, HeaderMarker);
    ContainsHead(b, HeaderMarker);
    ContainsHead(c, HeaderMarker);
    PaddedLineCleans(a, b, c);
    ThreeCleanCellsKept(Cells(PaddedLine(a, b, c)), a, b, c);
  }

  /** A line `| a | b | c |` of non-empty trimmed cells one of which begins with "Roll" is dropped. */
  lemma PaddedLineDropped(a: string, b: string, c: string)
    requires Pipe !in a && Pipe !in b && Pipe !in c
    requires |a| > 0 && |b| > 0 && |c| > 0
    requires IsStripped(a) && IsStripped(b) && IsStripped(c)
    requires StartsWith(a, HeaderMarker) || StartsWith(b, HeaderMarker) || StartsWith(c, HeaderMarker)
    ensures !KeepsRow(Cells(PaddedLine(a, b, c)))
  {
    var clean := [a, b, c];
    PaddedLineCleans(a, b, c);
    assert Contains(clean[0], HeaderMarker) || Contains(clean[1], HeaderMarker) || Contains(clean[2], HeaderMarker);
  }

  /** The markdown separator row under a table header is kept as a record of dashes. */
  lemma SeparatorRowKept()
    ensures KeepsRow(Cells("|---|---|---|"))
    ensures FirstThree(Cells("|---|---|---|")) == ["---", "---", "---"]
  {
    var d := "---";
    assert "|---|---|---|" == [Pipe] + d + [Pipe] + d + [Pipe] + d + [Pipe];
    StripFixed(d);
    ContainsHead(d, HeaderMarker);
    ThreeCellLineKept(d, d, d);
  }

  /** A data line of the sheet is kept as its three trimmed cells. */
  lemma DataLineKept()
    ensures KeepsRow(Cells(PaddedLine("2501", "Aarav Sharma", "P")))
    ensures FirstThree(Cells(PaddedLine("2501", "Aarav Sharma", "P"))) == ["2501", "Aarav Sharma", "P"]
  {
    PaddedLineKept("2501", "Aarav Sharma", "P");
  }

  /** The header row is dropped because its first cell contains "Roll". */
  lemma HeaderRowDropped()
    ensures !KeepsRow(Cells(PaddedLine("Roll No", "Student Name", "Status")))
  {
    PaddedLineDropped("Roll No", "Student Name", "Status");
  }

  /** A student whose name contains "Roll" is dropped like a header. */
  lemma RollInNameDropped()
    ensures !KeepsRow(Cells(PaddedLine("7", "Rollo Das", "A")))
  {
    PaddedLineDropped("7", "Rollo Das", "A");
  }

  /** The header line the model writes above the data. */
  const HeaderLine: string := PaddedLine("Roll No", "Student Name", "Status")

  /** The markdown separator line under the header. */
  const SeparatorLine: string := "|---|---|---|"

  /** A reply as the model usually writes it: a "```csv" fence line, three
      table lines, and a closing "```" fence. */
  function FencedReply(l0: string, l1: string, l2: string): string {
    CsvFence + [Newline] + l0 + [Newline] + l1 + [Newline] + l2 + [Newline] + Fence
  }

  /** Three lines joined with newlines. */
  lemma JoinThreeLines(l0: string, l1: string, l2: string)
    ensures Join([l0, l1, l2], Newline) == l0 + [Newline] + l1 + [Newline] + l2
  {
    var lines := [l0, l1, l2];
    assert Join(lines[2..], Newline) == l2;
    assert Join(lines[1..], Newline) == l1 + [Newline] + l2;
  }

  /** Clean-up of a fenced three-line reply leaves the three lines joined by
      newlines, when they hold no backtick and the first and last are
      trimmed and not empty. */
  lemma FencedReplyCleans(l0: string, l1: string, l2: string)
    requires '`' !in l0 && '`' !in l1 && '`' !in l2
    requires |l0| > 0 && |l2| > 0 && IsStripped(l0) && IsStripped(l2)
    ensures CleanFences(FencedReply(l0, l1, l2)) == l0 + [Newline] + l1 + [Newline] + l2
  {
    var body := l0 + [Newline] + l1 + [Newline] + l2;
    var t := [Newline] + body + [Newline];
    assert FencedReply(l0, l1, l2) == CsvFence + t + Fence;
    assert '`' !in t;
    CleanFencesUnwraps(t);
    assert body[0] == l0[0] && body[|body| - 1] == l2[|l2| - 1];
    StripPadded([Newline], body, [Newline]);
  }

  /** The lines of a fenced three-line reply are its three lines. */
  lemma FencedReplyLines(l0: string, l1: string, l2: string)
    requires '`' !in l0 && '`' !in l1 && '`' !in l2
    requires Newline !in l0 && Newline !in l1 && Newline !in l2
    requires |l0| > 0 && |l2| > 0 && IsStripped(l0) && IsStripped(l2)
    ensures Lines(CleanFences(FencedReply(l0, l1, l2))) == [l0, l1, l2]
  {
    FencedReplyCleans(l0, l1, l2);
    JoinThreeLines(l0, l1, l2);
    JoinLines([l0, l1, l2]);
  }

  /** Three lines that all contain `|` give one row each. */
  lemma ThreePipeLinesRows(l0: string, l1: string, l2: string)
    requires HasPipe(l0) && HasPipe(l1) && HasPipe(l2)
    ensures Rows([l0, l1, l2]) == [Cells(l0), Cells(l1), Cells(l2)]
  {
    ComprehendCons(l2, [], HasPipe, Cells);
    assert [l2] + [] == [l2];
    ComprehendCons(l1, [l2], HasPipe, Cells);
    assert [l1] + [l2] == [l1, l2];
    ComprehendCons(l0, [l1, l2], HasPipe, Cells);
    assert [l0] + [l1, l2] == [l0, l1, l2];
  }

  /** A dropped row followed by two kept rows gives the two kept rows' data. */
  lemma DropKeepKeep(r0: seq<string>, r1: seq<string>, r2: seq<string>)
    requires !KeepsRow(r0) && KeepsRow(r1) && KeepsRow(r2)
    ensures DataRows([r0, r1, r2]) == [FirstThree(r1), FirstThree(r2)]
  {
    ComprehendCons(r2, [], KeepsRow, FirstThree);
    assert [r2] + [] == [r2];
    ComprehendCons(r1, [r2], KeepsRow, FirstThree);
    assert [r1] + [r2] == [r1, r2];
    ComprehendCons(r0, [r1, r2], KeepsRow, FirstThree);
    assert [r0] + [r1, r2] == [r0, r1, r2];
  }

  /** A fenced three-line reply whose first line is dropped and whose other
      two lines are kept gives a table of the two kept lines' cells. */
  lemma FencedDropKeepKeep(l0: string, l1: string, l2: string)
    requires '`' !in l0 && '`' !in l1 && '`' !in l2
    requires Newline !in l0 && Newline !in l1 && Newline !in l2
    requires |l0| > 0 && |l2| > 0 && IsStripped(l0) && IsStripped(l2)
    requires HasPipe(l0) && HasPipe(l1) && HasPipe(l2)
    requires !KeepsRow(Cells(l0)) && KeepsRow(Cells(l1)) && KeepsRow(Cells(l2))
    ensures Extract(FencedReply(l0, l1, l2))
            == Table(ToRecords([FirstThree(Cells(l1)), FirstThree(Cells(l2))]))
  {
    FencedReplyLines(l0, l1, l2);
    ThreePipeLinesRows(l0, l1, l2);
    DropKeepKeep(Cells(l0), Cells(l1), Cells(l2));
  }

  /** Two data rows of three cells become two records with those cells. */
  lemma TwoRecords(d: seq<string>, e: seq<string>)
    requires |d| == Columns && |e| == Columns
    ensures ToRecords([d, e]) == [Record(d[0], d[1], d[2]), Record(e[0], e[1], e[2])]
  {
    var recs := ToRecords([d, e]);
    assert RecordCells(recs[0]) == d && RecordCells(recs[1]) == e;
  }

  /** `| a | b | c |` is a non-empty trimmed line with a `|`, and it brings
      in no backtick and no newline. */
  lemma PaddedLineShape(a: string, b: string, c: string)
    requires Newline !in a && Newline !in b && Newline !in c
    requires '`' !in a && '`' !in b && '`' !in c
    ensures var line := PaddedLine(a, b, c);
            |line| > 0 && IsStripped(line) && HasPipe(line) && '`' !in line && Newline !in line
  {
    var line := PaddedLine(a, b, c);
    assert line[0] == Pipe && line[|line| - 1] == Pipe;
  }

  /** The separator line is a non-empty trimmed line with a `|`, without a
      backtick or a newline. */
  lemma SeparatorLineShape()
    ensures |SeparatorLine| > 0 && IsStripped(SeparatorLine) && HasPipe(SeparatorLine)
    ensures '`' !in SeparatorLine && Newline !in SeparatorLine
  {
  }

  /** A fenced reply holding the header line, the separator line and one data
      line `| a | b | c |` gives a table of two records: the separator's
      dashes, then the data line's cells. */
  lemma FencedTableExtracts(a: string, b: string, c: string)
    requires Pipe !in a && Pipe !in b && Pipe !in c
    requires Newline !in a && Newline !in b && Newline !in c
    requires '`' !in a && '`' !in b && '`' !in c
    requires |a| > 0 && |b| > 0 && |c| > 0
    requires IsStripped(a) && IsStripped(b) && IsStripped(c)
    requires HeaderMarker[0] !in a && HeaderMarker[0] !in b && HeaderMarker[0] !in c
    ensures Extract(FencedReply(HeaderLine, SeparatorLine, PaddedLine(a, b, c)))
            == Table([Record("---", "---", "---"), Record(a, b, c)])
  {
    var dataLine := PaddedLine(a, b, c);
    PaddedLineShape("Roll No", "Student Name", "Status");
    PaddedLineShape(a, b, c);
    SeparatorLineShape();
    HeaderRowDropped();
    SeparatorRowKept();
    PaddedLineKept(a, b, c);
    FencedDropKeepKeep(HeaderLine, SeparatorLine, dataLine);
    TwoRecords(["---", "---", "---"], [a, b, c]);
  }

  /** A sheet as the model returns it, fenced, with the header, the separator
      and the line of student 2501: the table holds a record of dashes and
      the student's record. */
  lemma FencedSheetExtracts()
    ensures Extract(FencedReply(HeaderLine, SeparatorLine, PaddedLine("2501", "Aarav Sharma", "P")))
            == Table([Record("---", "---", "---"), Record("2501", "Aarav Sharma", "P")])
  {
    FencedTableExtracts("2501", "Aarav Sharma", "P");
  }

  /** A free-text line such as an OCR transcript is not a table row: the
      handler stops and shows the reply. */
  lemma FreeTextReplyStops()
    ensures Extract("2501 Aarav Sharma P") == FormatVaried("2501 Aarav Sharma P")
  {
    NoPipeReplyStops("2501 Aarav Sharma P");
  }
}
