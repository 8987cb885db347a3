/**
  The pipe-delimited row extractor of the attendance scanner (app.py:60-75).
  The vision model's reply is an arbitrary string; the extractor removes
  code fences, keeps the lines that contain `|`, splits them into cells,
  trims the cells and drops the empty ones, and keeps a row when it has at
  least three cells and none of them contains "Roll", cut to its first three
  cells. When no line contains `|` the handler stops before building a table.
 */
module Extractor {
  import opened PyStr
  import opened Comprehension

  const CsvFence: string := "```csv"
  const Fence: string := "```"
  const HeaderMarker: string := "Roll"
  const Newline: char := '\n'
  const Pipe: char := '|'

  /** Number of columns of the exported table. */
  const Columns: nat := 3

  /** One line of the exported table, columns "Roll No", "Student Name" and
      "Status". The cells are kept as the strings the model wrote. */
  datatype Record = Record(rollNo: string, studentName: string, status: string)

  /** What the button handler ends with: either it stops and shows the raw
      reply because no line used `|`, or it has a table of records. */
  datatype Extraction =
    | FormatVaried(rawText: string)
    | Table(records: seq<Record>)

  // ---------------------------------------------------------------------------
  // Fence clean-up (app.py:60)
  // ---------------------------------------------------------------------------

  /** `ai_text.replace('```csv', '').replace('```', '').strip()` */
  function CleanFences(aiText: string): (text: string)
    ensures IsStripped(text)
    ensures !Contains(text, Fence)
    ensures !Contains(text, CsvFence)
  {
    NoFenceSurvives(aiText);
    Strip(Remove(Remove(aiText, CsvFence), Fence))
  }

  lemma NoFenceSurvives(aiText: string)
    ensures !Contains(Strip(Remove(Remove(aiText, CsvFence), Fence)), Fence)
    ensures !Contains(Strip(Remove(Remove(aiText, CsvFence), Fence)), CsvFence)
  {
    var unfenced := Remove(Remove(aiText, CsvFence), Fence);
    NoFenceAfterRemove(Remove(aiText, CsvFence));
    StripContains(unfenced, Fence);
    ContainsPrefixOfPattern(Strip(unfenced), CsvFence, Fence);
  }

  /** Deleting fences never removes the first character when it is not a backtick. */
  lemma RemoveFenceKeepsHead(t: string)
    requires |t| > 0 && t[0] != '`'
    ensures |Remove(t, Fence)| > 0 && Remove(t, Fence)[0] == t[0]
  {
    assert !StartsWith(t, Fence) by {
      if |t| >= 3 {
        assert t[..3][0] == t[0];
      }
    }
  }

  /** After deleting every "```" no three backticks are left in a row: each run
      of backticks shrinks by a multiple of three, and the characters that
      separate runs are never deleted. */
  lemma {:induction false} NoFenceAfterRemove(s: string)
    ensures !Contains(Remove(s, Fence), Fence)
    decreases |s|
  {
    var r := Remove(s, Fence);
    if |s| == 0 {
      assert r == "";
    } else if StartsWith(s, Fence) {
      NoFenceAfterRemove(s[3..]);
    } else {
      var rest := Remove(s[1..], Fence);
      NoFenceAfterRemove(s[1..]);
      assert r == [s[0]] + rest;
      assert r[1..] == rest;
      if s[0] == '`' && |s| >= 2 {
        if s[1] != '`' {
          RemoveFenceKeepsHead(s[1..]);
        } else if |s| == 2 {
          assert rest == s[1..];
        } else {
          assert s[2] != '`' by {
            assert s[..3] == [s[0], s[1], s[2]];
          }
          assert !StartsWith(s[1..], Fence) by {
            if |s| >= 4 {
              assert s[1..][..3][1] == s[2];
            }
          }
          assert s[1..][1..] == s[2..];
          assert rest == [s[1]] + Remove(s[2..], Fence);
          RemoveFenceKeepsHead(s[2..]);
        }
      }
      assert !StartsWith(r, Fence) by {
        if |r| >= 3 {
          assert r[..3] == [r[0], r[1], r[2]];
        }
      }
    }
  }

  /** Clean-up leaves a reply alone exactly when it has no fence and no
      surrounding whitespace. */
  lemma CleanFencesFixed(aiText: string)
    ensures CleanFences(aiText) == aiText <==> IsStripped(aiText) && !Contains(aiText, Fence)
  {
    if IsStripped(aiText) && !Contains(aiText, Fence) {
      ContainsPrefixOfPattern(aiText, CsvFence, Fence);
      RemoveUnchanged(aiText, CsvFence);
      RemoveUnchanged(aiText, Fence);
      StripFixed(aiText);
    }
  }

  /** The model's usual wrapping, a "```csv" fence before the content and a
      "```" fence after it, is taken off and the content is trimmed; nothing
      of the content is lost when it holds no backtick. */
  lemma CleanFencesUnwraps(t: string)
    requires '`' !in t
    ensures CleanFences(CsvFence + t + Fence) == Strip(t)
  {
    var s := CsvFence + t + Fence;
    assert Remove(s, CsvFence) == t + Fence by {
      RemoveFirstOccurrence([], t + Fence, CsvFence);
      assert [] + CsvFence + (t + Fence) == s;
      RemovePrefixFree(t, Fence, CsvFence);
      ShortFenceKept();
    }
    assert Remove(t + Fence, Fence) == t by {
      RemoveFirstOccurrence(t, [], Fence);
      assert t + Fence + [] == t + Fence;
    }
  }

  /** "```" is too short to hold "```csv", so deleting "```csv" keeps it. */
  lemma ShortFenceKept()
    ensures Remove(Fence, CsvFence) == Fence
  {
    ContainsAt(Fence, CsvFence);
    RemoveUnchanged(Fence, CsvFence);
  }

  /** Cleaning a cleaned reply changes nothing more. */
  lemma CleanFencesIdempotent(aiText: string)
    ensures CleanFences(CleanFences(aiText)) == CleanFences(aiText)
  {
    CleanFencesFixed(CleanFences(aiText));
  }

  // ---------------------------------------------------------------------------
  // Line selection and split (app.py:63)
  // ---------------------------------------------------------------------------

  /** `clean_text.split('\n')` */
  function Lines(text: string): (lines: seq<string>)
    ensures |lines| == CountChar(text, Newline) + 1
    ensures forall i :: 0 <= i < |lines| ==> Newline !in lines[i]
  {
    Split(text, Newline)
  }

  /** The lines put back together with newlines are the text again. */
  lemma LinesJoin(text: string)
    ensures Join(Lines(text), Newline) == text
  {
    JoinSplit(text, Newline);
  }

  /** Newline-free lines put together with newlines split back into the same lines. */
  lemma JoinLines(lines: seq<string>)
    requires |lines| > 0
    requires forall i :: 0 <= i < |lines| ==> Newline !in lines[i]
    ensures Lines(Join(lines, Newline)) == lines
  {
    SplitJoin(lines, Newline);
  }

  /** `'|' in line` */
  predicate HasPipe(line: string) {
    Pipe in line
  }

  /** `line.split('|')`: a line splits into two or more cells exactly when
      it contains `|`, and no cell holds a `|`. */
  function Cells(line: string): (cells: seq<string>)
    ensures |cells| >= 2 <==> HasPipe(line)
    ensures forall k :: 0 <= k < |cells| ==> Pipe !in cells[k]
  {
    CountCharPositive(line, Pipe);
    Split(line, Pipe)
  }

  /** `[line.split('|') for line in lines if '|' in line]` */
  function Rows(lines: seq<string>): (rows: seq<seq<string>>)
    ensures |rows| <= |lines|
    ensures forall k :: 0 <= k < |rows| ==> |rows[k]| >= 2
    ensures forall k, c :: 0 <= k < |rows| && 0 <= c < |rows[k]| ==> Pipe !in rows[k][c]
  {
    RowsHaveTwoCells(lines);
    Comprehend(lines, HasPipe, Cells)
  }

  /** A line with a `|` splits into at least two cells. */
  lemma RowsHaveTwoCells(lines: seq<string>)
    ensures forall k :: 0 <= k < |Comprehend(lines, HasPipe, Cells)| ==>
              |Comprehend(lines, HasPipe, Cells)[k]| >= 2
  {
    var rows := Comprehend(lines, HasPipe, Cells);
    forall k | 0 <= k < |rows|
      ensures |rows[k]| >= 2
    {
      var i := ComprehendSource(lines, HasPipe, Cells, k);
      CountCharPositive(lines[i], Pipe);
    }
  }

  /** The substring test the code performs and the character test of `HasPipe` agree. */
  lemma HasPipeIsSubstringTest(line: string)
    ensures HasPipe(line) <==> Contains(line, "|")
  {
    ContainsChar(line, Pipe);
  }

  /** A row is produced by a line exactly when the line contains `|`, and it is
      that line split on `|`. */
  lemma RowsMember(lines: seq<string>, row: seq<string>)
    ensures row in Rows(lines) <==>
              exists i :: 0 <= i < |lines| && HasPipe(lines[i]) && row == Cells(lines[i])
  {
    ComprehendMember(lines, HasPipe, Cells, row);
  }

  /** Line `i` containing `|` yields the row at the position counted by the
      `|`-lines before it, so rows come out in the order of their lines. */
  lemma RowsInOrder(lines: seq<string>, i: nat, j: nat)
    requires i < j < |lines| && HasPipe(lines[i]) && HasPipe(lines[j])
    ensures |Rows(lines[..i])| < |Rows(lines[..j])| < |Rows(lines)|
    ensures Rows(lines)[|Rows(lines[..i])|] == Cells(lines[i])
    ensures Rows(lines)[|Rows(lines[..j])|] == Cells(lines[j])
  {
    ComprehendIndex(lines, HasPipe, Cells, i);
    ComprehendIndex(lines, HasPipe, Cells, j);
    ComprehendOrder(lines, HasPipe, Cells, i, j);
  }

  /** There is one row per line containing `|`. */
  lemma RowsCount(lines: seq<string>)
    ensures |Rows(lines)| == Count(lines, HasPipe)
  {
    ComprehendCount(lines, HasPipe, Cells);
  }

  /** No rows at all exactly when no line contains `|`. */
  lemma RowsEmpty(lines: seq<string>)
    ensures Rows(lines) == [] <==> forall i :: 0 <= i < |lines| ==> !HasPipe(lines[i])
  {
    ComprehendEmpty(lines, HasPipe, Cells);
  }

  /** Every row joined back with `|` is a line of the input that contains `|`. */
  lemma RowsRejoin(lines: seq<string>, k: nat)
    requires k < |Rows(lines)|
    ensures Join(Rows(lines)[k], Pipe) in lines
    ensures HasPipe(Join(Rows(lines)[k], Pipe))
  {
    var row := Rows(lines)[k];
    RowsMember(lines, row);
    var i :| 0 <= i < |lines| && HasPipe(lines[i]) && row == Cells(lines[i]);
    JoinSplit(lines[i], Pipe);
  }

  // ---------------------------------------------------------------------------
  // Cell cleaning (app.py:73)
  // ---------------------------------------------------------------------------

  /** `if cell.strip()`: the cell has something besides whitespace. */
  predicate IsFilled(cell: string) {
    Strip(cell) != ""
  }

  /** `cell.strip()`, as the element function of the comprehension below. */
  function StripCell(cell: string): string {
    Strip(cell)
  }

  /** `[cell.strip() for cell in r if cell.strip()]` */
  function CleanRow(row: seq<string>): (clean: seq<string>)
    ensures |clean| <= |row|
    ensures forall k :: 0 <= k < |clean| ==> clean[k] != "" && IsStripped(clean[k])
  {
    Comprehend(row, IsFilled, StripCell)
  }

  /** Cleaning goes cell by cell: the first cell contributes its trimmed form
      when it is not blank, then the rest of the row follows. */
  lemma CleanRowCons(cell: string, row: seq<string>)
    ensures CleanRow([cell] + row) == (if Strip(cell) != "" then [Strip(cell)] else []) + CleanRow(row)
  {
    ComprehendCons(cell, row, IsFilled, StripCell);
  }

  /** A cell is in the cleaned row exactly when it is the non-empty trimmed form of some cell. */
  lemma CleanRowMember(row: seq<string>, cell: string)
    ensures cell in CleanRow(row) <==>
              exists i :: 0 <= i < |row| && Strip(row[i]) != "" && cell == Strip(row[i])
  {
    ComprehendMember(row, IsFilled, StripCell, cell);
  }

  /** A cell with more than whitespace is dropped exactly when it is blank,
      and kept cells stay in their relative order. */
  lemma CleanRowInOrder(row: seq<string>, i: nat, j: nat)
    requires i < j < |row| && Strip(row[i]) != "" && Strip(row[j]) != ""
    ensures |CleanRow(row[..i])| < |CleanRow(row[..j])| < |CleanRow(row)|
    ensures CleanRow(row)[|CleanRow(row[..i])|] == Strip(row[i])
    ensures CleanRow(row)[|CleanRow(row[..j])|] == Strip(row[j])
  {
    ComprehendIndex(row, IsFilled, StripCell, i);
    ComprehendIndex(row, IsFilled, StripCell, j);
    ComprehendOrder(row, IsFilled, StripCell, i, j);
  }

  /** A blank cell (empty or all whitespace) contributes nothing. */
  lemma CleanRowBlank(row: seq<string>, blank: string)
    requires AllSpace(blank)
    ensures CleanRow(row + [blank]) == CleanRow(row)
  {
    StripEmpty(blank);
    ComprehendAppend(row, [blank], IsFilled, StripCell);
  }

  /** Cleaning leaves a row alone exactly when its cells are already non-empty and trimmed. */
  lemma CleanRowFixed(row: seq<string>)
    ensures CleanRow(row) == row <==>
              forall k :: 0 <= k < |row| ==> row[k] != "" && IsStripped(row[k])
  {
    if forall k :: 0 <= k < |row| ==> row[k] != "" && IsStripped(row[k]) {
      forall k | 0 <= k < |row|
        ensures IsFilled(row[k]) && Strip(row[k]) == row[k]
      {
        StripFixed(row[k]);
      }
      ComprehendIdentity(row, IsFilled, StripCell);
    }
  }

  /** Cleaning a cleaned row changes nothing. */
  lemma CleanRowIdempotent(row: seq<string>)
    ensures CleanRow(CleanRow(row)) == CleanRow(row)
  {
    CleanRowFixed(CleanRow(row));
  }

  // ---------------------------------------------------------------------------
  // Row filtering and truncation (app.py:74-75)
  // ---------------------------------------------------------------------------

  /** `len(clean_row) >= 3 and not any("Roll" in str(x) for x in clean_row)` */
  predicate IsDataRow(clean: seq<string>) {
    |clean| >= Columns && forall k :: 0 <= k < |clean| ==> !Contains(clean[k], HeaderMarker)
  }

  /** Python slice `cells[:n]`, which is the whole list when it is shorter than `n`. */
  function Take(cells: seq<string>, n: nat): (front: seq<string>)
    ensures |front| == if |cells| < n then |cells| else n
    ensures forall k :: 0 <= k < |front| ==> front[k] == cells[k]
  {
    if |cells| <= n then cells else cells[..n]
  }

  predicate KeepsRow(row: seq<string>) {
    IsDataRow(CleanRow(row))
  }

  /** `clean_row[:3]`: at most three cells, the leading cells of the cleaned row. */
  function FirstThree(row: seq<string>): (front: seq<string>)
    ensures |front| <= Columns
    ensures |front| <= |CleanRow(row)|
    ensures |front| == Columns <==> |CleanRow(row)| >= Columns
    ensures forall k :: 0 <= k < |front| ==> front[k] == CleanRow(row)[k]
  {
    Take(CleanRow(row), Columns)
  }

  /** The data rows of the split rows: cleaned rows with at least three cells
      and no "Roll" anywhere, cut to their first three cells. */
  function DataRows(rows: seq<seq<string>>): (data: seq<seq<string>>)
    ensures |data| <= |rows|
    ensures forall k :: 0 <= k < |data| ==> |data[k]| == Columns
    ensures forall k, c :: 0 <= k < |data| && 0 <= c < Columns ==>
              data[k][c] != "" && IsStripped(data[k][c]) && !Contains(data[k][c], HeaderMarker)
  {
    Comprehend(rows, KeepsRow, FirstThree)
  }

  /** For a kept row, the Python slice `[:3]` is the plain prefix of three cells. */
  lemma FirstThreeOfDataRow(row: seq<string>)
    requires KeepsRow(row)
    ensures FirstThree(row) == CleanRow(row)[..Columns]
  {
    var clean := CleanRow(row);
    if |clean| == Columns {
      assert clean[..Columns] == clean;
    }
  }

  /** A row is emitted exactly when its cleaned form is a data row, and what is
      emitted is the first three cleaned cells. */
  lemma DataRowsMember(rows: seq<seq<string>>, data: seq<string>)
    ensures data in DataRows(rows) <==>
              exists i :: 0 <= i < |rows| && IsDataRow(CleanRow(rows[i]))
                          && data == CleanRow(rows[i])[..Columns]
  {
    ComprehendMember(rows, KeepsRow, FirstThree, data);
    forall i | 0 <= i < |rows| && KeepsRow(rows[i])
      ensures FirstThree(rows[i]) == CleanRow(rows[i])[..Columns]
    {
      FirstThreeOfDataRow(rows[i]);
    }
  }

  /** A row is kept exactly when at least three of its cells are not blank
      and no cell, trimmed, contains "Roll" -- cells past the third included. */
  lemma KeepsRowIff(row: seq<string>)
    ensures KeepsRow(row) <==>
              Count(row, IsFilled) >= Columns
              && forall i :: 0 <= i < |row| ==> !Contains(Strip(row[i]), HeaderMarker)
  {
    ComprehendCount(row, IsFilled, StripCell);
    var clean := CleanRow(row);
    if forall i :: 0 <= i < |row| ==> !Contains(Strip(row[i]), HeaderMarker) {
      forall k | 0 <= k < |clean|
        ensures !Contains(clean[k], HeaderMarker)
      {
        CleanRowMember(row, clean[k]);
      }
    }
    if forall k :: 0 <= k < |clean| ==> !Contains(clean[k], HeaderMarker) {
      forall i | 0 <= i < |row|
        ensures !Contains(Strip(row[i]), HeaderMarker)
      {
        if IsFilled(row[i]) {
          CleanRowMember(row, Strip(row[i]));
        } else {
          assert !StartsWith(Strip(row[i]), HeaderMarker);
        }
      }
    }
  }

  /** One cell containing "Roll" anywhere in a row drops the whole row. */
  lemma RollAnywhereDropsRow(row: seq<string>, i: nat)
    requires i < |row| && Contains(Strip(row[i]), HeaderMarker)
    ensures !KeepsRow(row)
    ensures forall data :: data in DataRows([row]) ==> false
  {
    KeepsRowIff(row);
    ComprehendCons(row, [], KeepsRow, FirstThree);
  }

  /** Emitted rows keep the order of the rows they come from. */
  lemma DataRowsInOrder(rows: seq<seq<string>>, i: nat, j: nat)
    requires i < j < |rows| && KeepsRow(rows[i]) && KeepsRow(rows[j])
    ensures |DataRows(rows[..i])| < |DataRows(rows[..j])| < |DataRows(rows)|
    ensures DataRows(rows)[|DataRows(rows[..i])|] == CleanRow(rows[i])[..Columns]
    ensures DataRows(rows)[|DataRows(rows[..j])|] == CleanRow(rows[j])[..Columns]
  {
    ComprehendIndex(rows, KeepsRow, FirstThree, i);
    ComprehendIndex(rows, KeepsRow, FirstThree, j);
    ComprehendOrder(rows, KeepsRow, FirstThree, i, j);
    FirstThreeOfDataRow(rows[i]);
    FirstThreeOfDataRow(rows[j]);
  }

  /** Python's `any(p in x for x in cells)`: scans the cells in order and
      stops at the first one that contains `p`. */
  method AnyContains(cells: seq<string>, p: string) returns (found: bool)
    ensures found <==> exists k :: 0 <= k < |cells| && Contains(cells[k], p)
  {
    var i := 0;
    while i < |cells|
      invariant 0 <= i <= |cells|
      invariant forall k :: 0 <= k < i ==> !Contains(cells[k], p)
    {
      if Contains(cells[i], p) {
        return true;
      }
      i := i + 1;
    }
    return false;
  }

  /** Extending the rows by one extends the data rows by that row's
      contribution, so the loop below may build them one row at a time. */
  lemma DataRowsSnoc(rows: seq<seq<string>>, i: nat)
    requires i < |rows|
    ensures DataRows(rows[..i + 1]) ==
              DataRows(rows[..i]) + (if KeepsRow(rows[i]) then [FirstThree(rows[i])] else [])
  {
    assert rows[..i + 1] == rows[..i] + [rows[i]];
    ComprehendAppend(rows[..i], [rows[i]], KeepsRow, FirstThree);
    ComprehendCons(rows[i], [], KeepsRow, FirstThree);
    assert [rows[i]] + [] == [rows[i]];
  }

  /** The loop of app.py:71-75: for each row, clean it, and append its first
      three cells when it has at least three and none contains "Roll". It
      builds exactly the data rows. */
  method CollectDataRows(rows: seq<seq<string>>) returns (data: seq<seq<string>>)
    ensures data == DataRows(rows)
  {
    data := [];
    var i := 0;
    while i < |rows|
      invariant 0 <= i <= |rows|
      invariant data == DataRows(rows[..i])
    {
      var cleanRow := CleanRow(rows[i]);
      var hasMarker := AnyContains(cleanRow, HeaderMarker);
      DataRowsSnoc(rows, i);
      if |cleanRow| >= Columns && !hasMarker {
        data := data + [Take(cleanRow, Columns)];
      }
      i := i + 1;
    }
    assert rows[..|rows|] == rows;
  }

  // ---------------------------------------------------------------------------
  // The whole extractor (app.py:60-75, with the early stop at 65-68)
  // ---------------------------------------------------------------------------

  function ToRecord(data: seq<string>): Record
    requires |data| == Columns
  {
    Record(data[0], data[1], data[2])
  }

  /** The cells of a record, in column order. */
  function RecordCells(rec: Record): seq<string> {
    [rec.rollNo, rec.studentName, rec.status]
  }

  /** The data rows as records (the three DataFrame columns): one record per
      row, and each record gives back its row's cells in column order. */
  function ToRecords(data: seq<seq<string>>): (recs: seq<Record>)
    requires forall k :: 0 <= k < |data| ==> |data[k]| == Columns
    ensures |recs| == |data|
    ensures forall k :: 0 <= k < |recs| ==> RecordCells(recs[k]) == data[k]
  {
    assert forall k :: 0 <= k < |data| ==> RecordCells(ToRecord(data[k])) == data[k];
    seq(|data|, k requires 0 <= k < |data| => ToRecord(data[k]))
  }

  /** A record's three fields are non-empty, trimmed, and free of "Roll". */
  predicate IsCleanRecord(rec: Record) {
    && rec.rollNo != "" && rec.studentName != "" && rec.status != ""
    && IsStripped(rec.rollNo) && IsStripped(rec.studentName) && IsStripped(rec.status)
    && !Contains(rec.rollNo, HeaderMarker)
    && !Contains(rec.studentName, HeaderMarker)
    && !Contains(rec.status, HeaderMarker)
  }

  /** The records built from data rows are clean records. */
  lemma DataRecordsClean(rows: seq<seq<string>>)
    ensures forall k :: 0 <= k < |ToRecords(DataRows(rows))| ==> IsCleanRecord(ToRecords(DataRows(rows))[k])
  {
    var data := DataRows(rows);
    forall k | 0 <= k < |data|
      ensures IsCleanRecord(ToRecords(data)[k])
    {
      assert ToRecords(data)[k] == Record(data[k][0], data[k][1], data[k][2]);
    }
  }

  /** The split rows of the reply, before cleaning. */
  function ReplyRows(aiText: string): seq<seq<string>> {
    Rows(Lines(CleanFences(aiText)))
  }

  /** From the model's reply to the table the handler displays. */
  function Extract(aiText: string): (e: Extraction)
    ensures e.FormatVaried? <==>
              forall i :: 0 <= i < |Lines(CleanFences(aiText))| ==> !HasPipe(Lines(CleanFences(aiText))[i])
    ensures e.FormatVaried? ==> e.rawText == aiText
    ensures e.Table? ==> 0 < |ReplyRows(aiText)| && |e.records| <= |ReplyRows(aiText)|
    ensures e.Table? ==> forall k :: 0 <= k < |e.records| ==> IsCleanRecord(e.records[k])
  {
    var rows := ReplyRows(aiText);
    RowsEmpty(Lines(CleanFences(aiText)));
    DataRecordsClean(rows);
    if |rows| == 0 then FormatVaried(aiText) else Table(ToRecords(DataRows(rows)))
  }

  /** A reply without any `|` never yields a table: the handler stops and shows it. */
  lemma NoPipeReplyStops(aiText: string)
    requires Pipe !in aiText
    ensures Extract(aiText) == FormatVaried(aiText)
  {
    var unfenced := Remove(Remove(aiText, CsvFence), Fence);
    RemoveKeepsChars(aiText, CsvFence, Pipe);
    RemoveKeepsChars(Remove(aiText, CsvFence), Fence, Pipe);
    StripKeepsChars(unfenced, Pipe);
    var lines := Lines(CleanFences(aiText));
    forall i | 0 <= i < |lines|
      ensures !HasPipe(lines[i])
    {
      SplitKeepsChars(CleanFences(aiText), Newline, i, Pipe);
    }
  }

  /** A record of the table comes from some `|`-line of the cleaned reply that
      splits and cleans into a data row whose first three cells it holds. */
  lemma RecordHasLine(aiText: string, k: nat) returns (i: nat)
    requires Extract(aiText).Table? && k < |Extract(aiText).records|
    ensures var lines := Lines(CleanFences(aiText));
            && i < |lines| && HasPipe(lines[i])
            && IsDataRow(CleanRow(Cells(lines[i])))
            && Extract(aiText).records[k] == ToRecord(CleanRow(Cells(lines[i]))[..Columns])
  {
    var lines := Lines(CleanFences(aiText));
    var rows := ReplyRows(aiText);
    var data := DataRows(rows);
    assert Extract(aiText).records[k] == ToRecord(data[k]);
    DataRowsMember(rows, data[k]);
    var j :| 0 <= j < |rows| && IsDataRow(CleanRow(rows[j])) && data[k] == CleanRow(rows[j])[..Columns];
    i := ComprehendSource(lines, HasPipe, Cells, j);
  }

  /** Every `|`-line of the cleaned reply that cleans into a data row gives a
      record of the table. */
  lemma LineHasRecord(aiText: string, i: nat) returns (k: nat)
    requires Extract(aiText).Table?
    requires var lines := Lines(CleanFences(aiText));
             i < |lines| && HasPipe(lines[i]) && IsDataRow(CleanRow(Cells(lines[i])))
    ensures var lines := Lines(CleanFences(aiText));
            && k < |Extract(aiText).records|
            && Extract(aiText).records[k] == ToRecord(CleanRow(Cells(lines[i]))[..Columns])
  {
    var lines := Lines(CleanFences(aiText));
    var rows := ReplyRows(aiText);
    ComprehendIndex(lines, HasPipe, Cells, i);
    var j := |Rows(lines[..i])|;
    assert rows[j] == Cells(lines[i]);
    ComprehendIndex(rows, KeepsRow, FirstThree, j);
    k := |DataRows(rows[..j])|;
    FirstThreeOfDataRow(rows[j]);
    assert Extract(aiText).records[k] == ToRecord(DataRows(rows)[k]);
  }

  /** Records come out in the order of the `|`-lines they come from: two such
      lines that clean into data rows give two records, the earlier line's
      first. */
  lemma ExtractInOrder(aiText: string, i: nat, j: nat) returns (ki: nat, kj: nat)
    requires var lines := Lines(CleanFences(aiText));
             i < j < |lines| && HasPipe(lines[i]) && HasPipe(lines[j])
             && IsDataRow(CleanRow(Cells(lines[i]))) && IsDataRow(CleanRow(Cells(lines[j])))
    ensures var lines := Lines(CleanFences(aiText));
            && Extract(aiText).Table?
            && ki < kj < |Extract(aiText).records|
            && Extract(aiText).records[ki] == ToRecord(CleanRow(Cells(lines[i]))[..Columns])
            && Extract(aiText).records[kj] == ToRecord(CleanRow(Cells(lines[j]))[..Columns])
  {
    var lines := Lines(CleanFences(aiText));
    var rows := ReplyRows(aiText);
    RowsInOrder(lines, i, j);
    var ri, rj := |Rows(lines[..i])|, |Rows(lines[..j])|;
    DataRowsInOrder(rows, ri, rj);
    ki, kj := |DataRows(rows[..ri])|, |DataRows(rows[..rj])|;
    assert Extract(aiText).records[ki] == ToRecord(DataRows(rows)[ki]);
    assert Extract(aiText).records[kj] == ToRecord(DataRows(rows)[kj]);
  }

  /** A record is in the table exactly when some `|`-line of the cleaned reply
      splits and cleans into a data row whose first three cells it holds. */
  lemma ExtractMember(aiText: string, rec: Record)
    requires Extract(aiText).Table?
    ensures rec in Extract(aiText).records <==>
              var lines := Lines(CleanFences(aiText));
              exists i :: 0 <= i < |lines| && HasPipe(lines[i])
                          && IsDataRow(CleanRow(Cells(lines[i])))
                          && rec == ToRecord(CleanRow(Cells(lines[i]))[..Columns])
  {
    var lines := Lines(CleanFences(aiText));
    var records := Extract(aiText).records;
    if rec in records {
      var k :| 0 <= k < |records| && records[k] == rec;
      var i := RecordHasLine(aiText, k);
    }
    if exists i :: 0 <= i < |lines| && HasPipe(lines[i])
                   && IsDataRow(CleanRow(Cells(lines[i])))
                   && rec == ToRecord(CleanRow(Cells(lines[i]))[..Columns]) {
      var i :| 0 <= i < |lines| && HasPipe(lines[i])
               && IsDataRow(CleanRow(Cells(lines[i])))
               && rec == ToRecord(CleanRow(Cells(lines[i]))[..Columns]);
      var k := LineHasRecord(aiText, i);
    }
  }
}
