# Attendance-sheet row extractor, in Dafny

The attendance scanner sends a photo of a paper attendance sheet to a vision
model. The prompt (app.py:43-50) asks for a table with exactly three columns,
"Roll No", "Student Name" and "Status", and for the data rows only. The code
then assumes that the reply is a markdown table or CSV-like text
(app.py:56) and turns it into a table of records (app.py:60-77). This project
models that extractor as pure functions over `string` and
`seq<seq<string>>`, and proves what it does:

1. **Fence clean-up** (app.py:60). Every "```csv" is deleted, then every "```",
   then surrounding whitespace is stripped. Modelled by `Extractor.CleanFences`.
2. **Line selection and split** (app.py:63). The text is split on newlines,
   the lines containing `|` are kept, and each is split on `|`.
   Modelled by `Extractor.Lines` and `Extractor.Rows`.
3. **Early stop** (app.py:65-68). When no line contains `|`, the handler shows
   the raw reply and stops. Modelled as the `FormatVaried` outcome of
   `Extractor.Extract`.
4. **Cell cleaning** (app.py:73). Each cell is trimmed and blank cells are
   dropped. Modelled by `Extractor.CleanRow`.
5. **Row filter and cut** (app.py:71-75). A cleaned row is kept when it has at
   least three cells and no cell contains "Roll". It is cut to its first three
   cells. Modelled by `Extractor.DataRows` and by the loop
   `Extractor.CollectDataRows`.

The Python built-ins involved are written out with their Python semantics in
module `PyStr`:

- `str.strip()` follows CPython: it counts the leading and the trailing
  whitespace run and slices between them. Whitespace is the set of characters
  for which `str.isspace()` is true.
- `p in s` is a substring test.
- `s.replace(p, '')` scans left to right and deletes occurrences without
  overlap.
- `s.split(c)` always returns `s.count(c) + 1` pieces.
- `c.join(pieces)` undoes `split(c)` for every string. `split(c)` undoes
  `c.join(pieces)` when the list of pieces is non-empty and no piece holds
  `c`.

Module `Comprehension` models the filtering list comprehension
`[f(x) for x in xs if keep(x)]`. Line 63 and line 73 use it, and so does the
append loop of lines 71-75 (`Extractor.CollectDataRows` is proved to build
the same list). Module `Scenarios` states what the extractor does on typical
lines:

- a data line is kept;
- the header line is dropped;
- the separator line `|---|---|---|` is kept;
- a student whose name contains "Roll" is dropped;
- a fenced reply with the header, the separator and one data line gives two
  records, the separator's dashes and then the student;
- a reply without `|` stops the handler.

The extractor keeps every cell as the string the vision model wrote. It maps
no status letters, supplies no default status and parses no roll numbers.

## Model

| member | source | states |
|---|---|---|
| PyStr.IsSpace | app.py:73 | the definition of whitespace: exactly the characters for which Python 3's `str.isspace()` is true, which are the characters `str.strip()` with no argument removes |
| PyStr.Strip | app.py:73 | `strip()` gives a string with no whitespace at either end, never longer than the input |
| PyStr.StripTrims | app.py:73 | the stripped string is a contiguous piece of the input, and only whitespace is cut away in front of and behind it |
| PyStr.StripFixed | app.py:73 | `strip()` leaves a string unchanged exactly when it has no whitespace at either end |
| PyStr.StripIdempotent | app.py:73 | stripping twice is the same as stripping once |
| PyStr.StripEmpty | app.py:73 | a cell strips to the empty string exactly when it is all whitespace, so `if cell.strip()` drops exactly the blank cells |
| PyStr.StripPadded | app.py:73 | a non-empty trimmed word with whitespace padding on both sides strips back to the word |
| PyStr.LeadingSpaceIs | app.py:60 | the leading whitespace run `strip` cuts is the unique run ended by a non-whitespace character |
| PyStr.TrailingSpaceIs | app.py:60 | the trailing whitespace run `strip` cuts is the unique run preceded by a non-whitespace character |
| PyStr.Contains | app.py:74 | the definition of Python's `p in s`: `p` is a prefix of `s` or of one of its suffixes; the empty pattern occurs in every string |
| PyStr.ContainsAt | app.py:74 | the recursive substring test `p in s` holds exactly when `p` occurs at some index of `s` |
| PyStr.ContainsChar | app.py:63 | for a one-character pattern, the substring test is membership of the character |
| PyStr.StripContains | app.py:60 | stripping cannot create an occurrence of a pattern |
| PyStr.Remove | app.py:60 | `replace(p, '')` never makes the string longer |
| PyStr.RemoveUnchanged | app.py:60 | `replace(p, '')` with a non-empty `p` changes the string exactly when `p` occurs in it |
| PyStr.RemovePrefixFree | app.py:60 | text holding no first character of the pattern passes through `replace(p, '')` unchanged, in front of whatever the rest becomes |
| PyStr.RemoveFirstOccurrence | app.py:60 | an occurrence of the pattern after pattern-free text is deleted, the text in front of it is kept, and the scan goes on after it |
| PyStr.RemoveKeepsChars | app.py:60 | `replace(p, '')` never introduces a character that was not in the input |
| PyStr.StripKeepsChars | app.py:60 | `strip()` never introduces a character that was not in the input |
| PyStr.Split | app.py:63 | `split(c)` returns one more piece than there are `c` in the string, and no piece contains `c` |
| PyStr.CountChar | app.py:63 | `s.count(c)` is at most the length of `s`, and equals it exactly when every character of `s` is `c` |
| PyStr.CountCharPositive | app.py:63 | a character occurs in a string exactly when its count is positive |
| PyStr.SplitKeepsChars | app.py:63 | every character of a piece is a character of the string that was split |
| PyStr.JoinSplit | app.py:63 | joining the pieces of `split(c)` with `c` gives back the original string |
| PyStr.SplitJoin | app.py:63 | splitting the join of non-empty `c`-free pieces gives back the pieces |
| Comprehension.Comprehend | app.py:63 | the comprehension has at most as many outputs as inputs, and each output is `f` of some kept input |
| Comprehension.ComprehendSource | app.py:63 | each output can be traced to the kept input it comes from |
| Comprehension.ComprehendAppend | app.py:63 | the comprehension of a concatenation is the concatenation of the comprehensions |
| Comprehension.ComprehendCount | app.py:63 | there is exactly one output per kept input |
| Comprehension.ComprehendIndex | app.py:63 | a kept input lands at the position given by the number of outputs before it |
| Comprehension.ComprehendOrder | app.py:63 | kept inputs keep their relative order in the output |
| Comprehension.ComprehendMember | app.py:63 | a value is an output exactly when it is `f` of some kept input |
| Comprehension.ComprehendEmpty | app.py:63 | the output is empty exactly when no input is kept |
| Comprehension.ComprehendIdentity | app.py:73 | when every input is kept and `f` fixes it, the comprehension returns its input |
| Extractor.CleanFences | app.py:60 | the cleaned reply has no whitespace at either end and contains neither "```" nor "```csv" |
| Extractor.NoFenceAfterRemove | app.py:60 | after deleting every "```", no run of three backticks is left, even one formed by joining the pieces around a deleted fence |
| Extractor.CleanFencesFixed | app.py:60 | clean-up leaves a reply unchanged exactly when it has no fence and no surrounding whitespace |
| Extractor.CleanFencesUnwraps | app.py:60 | a reply wrapped as "```csv", content, "```", with no backtick in the content, cleans to the content with its surrounding whitespace stripped: nothing of the content is lost |
| Extractor.CleanFencesIdempotent | app.py:60 | cleaning a cleaned reply changes nothing |
| Extractor.Lines | app.py:63 | the text splits into one more line than it has newlines, and no line contains a newline |
| Extractor.LinesJoin | app.py:63 | the lines joined with newlines are the text again, for every text |
| Extractor.JoinLines | app.py:63 | a non-empty list of newline-free lines joined with newlines splits back into the same lines |
| Extractor.HasPipe | app.py:63 | the definition of the line test "pipe in line" as membership of the pipe character |
| Extractor.Cells | app.py:63 | splitting a line on pipes gives two or more cells exactly when the line contains a pipe, and no cell contains a pipe |
| Extractor.Rows | app.py:63 | there are at most as many rows as lines, each row has at least two cells, and no cell contains a pipe |
| Extractor.HasPipeIsSubstringTest | app.py:63 | the character test used for lines agrees with Python's substring test for a pipe |
| Extractor.RowsMember | app.py:63 | a row is produced exactly when some line contains a pipe, and the row is that line split on pipes |
| Extractor.RowsInOrder | app.py:63 | rows come out in the order of their source lines |
| Extractor.RowsCount | app.py:63 | there is one row per line that contains a pipe |
| Extractor.RowsEmpty | app.py:63-65 | there are no rows exactly when no line contains a pipe |
| Extractor.RowsRejoin | app.py:63 | each row joined back with pipes is an input line that contains a pipe |
| Extractor.CleanRow | app.py:73 | a cleaned row is no longer than the row, and each of its cells is non-empty with no whitespace at either end |
| Extractor.CleanRowMember | app.py:73 | a cell is in the cleaned row exactly when it is the non-empty trimmed form of some cell of the row |
| Extractor.CleanRowInOrder | app.py:73 | kept cells stay in their original relative order |
| Extractor.CleanRowBlank | app.py:73 | a trailing blank cell contributes nothing |
| Extractor.CleanRowFixed | app.py:73 | cleaning leaves a row unchanged exactly when its cells are already non-empty and trimmed |
| Extractor.CleanRowIdempotent | app.py:73 | cleaning a cleaned row changes nothing |
| Extractor.IsDataRow | app.py:74 | the definition of the row test: at least three cleaned cells, and no cell contains "Roll" |
| Extractor.Take | app.py:75 | the slice `[:n]` is the first `n` cells, or the whole list when it is shorter |
| Extractor.FirstThree | app.py:75 | `clean_row[:3]` has at most three cells, exactly three when the cleaned row has at least three, and they are the leading cells of the cleaned row |
| Extractor.FirstThreeOfDataRow | app.py:75 | for a kept row, `clean_row[:3]` is exactly its first three cleaned cells |
| Extractor.DataRows | app.py:71-75 | every emitted row has exactly three cells, each non-empty, trimmed and free of "Roll", and no more rows are emitted than there are input rows |
| Extractor.DataRowsMember | app.py:74-75 | a row is emitted exactly when its cleaned form is a data row, and what is emitted is the first three cleaned cells |
| Extractor.KeepsRowIff | app.py:74 | a row is kept exactly when at least three of its cells are not blank and no trimmed cell contains "Roll", cells past the third included |
| Extractor.RollAnywhereDropsRow | app.py:74 | one cell containing "Roll" anywhere in the row drops the whole row |
| Extractor.DataRowsInOrder | app.py:71-75 | emitted rows keep the order of the rows they come from |
| Extractor.AnyContains | app.py:74 | `any("Roll" in str(x) for x in clean_row)` is true exactly when some cell contains the pattern |
| Extractor.DataRowsSnoc | app.py:71-75 | one more input row adds exactly that row's contribution at the end of the data rows |
| Extractor.CollectDataRows | app.py:71-75 | the append loop builds exactly the data rows |
| Extractor.ToRecords | app.py:77 | the DataFrame with columns "Roll No", "Student Name" and "Status" has one record per data row, and each record's fields are its row's cells in column order |
| Extractor.DataRecordsClean | app.py:75-77 | every record has three non-empty, trimmed fields free of "Roll" |
| Extractor.Extract | app.py:60-75 | the handler stops with the raw reply exactly when no line of the cleaned reply contains a pipe; otherwise it builds clean records, no more than there are pipe lines |
| Extractor.NoPipeReplyStops | app.py:65-68 | a reply without any pipe always ends in the stop branch |
| Extractor.RecordHasLine | app.py:63-75 | every record comes from a pipe line of the cleaned reply whose cleaned cells form a data row |
| Extractor.LineHasRecord | app.py:63-75 | every pipe line of the cleaned reply whose cleaned cells form a data row gives a record |
| Extractor.ExtractInOrder | app.py:63-75 | two pipe lines that clean into data rows give two records, the earlier line's record first |
| Extractor.ExtractMember | app.py:63-75 | a record is in the table exactly when some pipe line of the cleaned reply cleans into a data row whose first three cells it holds |
| Scenarios.ThreeCellSplit | app.py:63 | the line w0, w1, w2 between pipes splits into the three cells with an empty piece at each end |
| Scenarios.CleanThreeCells | app.py:73 | the two empty end pieces are dropped and the three cells are trimmed |
| Scenarios.ThreeCellLineKept | app.py:73-75 | the line w0, w1, w2 between pipes of non-blank cells without "Roll" is kept as the three trimmed cells |
| Scenarios.PaddedLineCleans | app.py:63-73 | the markdown line of padded cells a, b, c cleans to `[a, b, c]` |
| Scenarios.PaddedLineKept | app.py:74-75 | the markdown line of padded cells a, b, c without an "R" in its cells is kept as `[a, b, c]` |
| Scenarios.PaddedLineDropped | app.py:74 | the markdown line of padded cells a, b, c is dropped when one of its cells begins with "Roll" |
| Scenarios.SeparatorRowKept | app.py:74-75 | the markdown separator line of three dash cells is kept, as a record of dashes |
| Scenarios.DataLineKept | app.py:74-75 | the line of cells 2501, Aarav Sharma, P is kept as `["2501", "Aarav Sharma", "P"]` |
| Scenarios.HeaderRowDropped | app.py:74 | the header line of cells Roll No, Student Name, Status is dropped |
| Scenarios.RollInNameDropped | app.py:74 | the line of cells 7, Rollo Das, A is dropped too, because the name contains "Roll" |
| Scenarios.FencedReplyCleans | app.py:60 | fence clean-up of "```csv", three lines without backticks, "```" leaves the three lines joined by newlines |
| Scenarios.FencedReplyLines | app.py:60-63 | the lines of such a fenced reply are exactly its three lines |
| Scenarios.FencedTableExtracts | app.py:60-77 | a fenced reply of the header line, the separator line and a data line of cells a, b, c gives the table of a dashes record and the record a, b, c |
| Scenarios.FencedSheetExtracts | app.py:60-77 | the fenced reply with the header, the separator and the line of student 2501 gives the dashes record and the record 2501, Aarav Sharma, P |
| Scenarios.FreeTextReplyStops | app.py:65-68 | the free-text reply "2501 Aarav Sharma P" stops the handler |

## Left out

- The Streamlit page, its widgets, the camera and upload input, `st.warning`, `st.text` and `st.stop` (app.py:10-39, 66-68, 79-80, 87-93) are user interface. Only the outcome of the early stop is modelled, as `FormatVaried(aiText)`.
- The secrets lookup, the Gemini configuration and the `generate_content` call (app.py:14-21, 43-53) are a network client. The reply `ai_text` is an arbitrary input string.
- PIL image handling (app.py:36-37) is image I/O.
- The pandas DataFrame, the interactive editor and the Excel export through openpyxl (app.py:77-85) are foreign library calls and file output. Only their column count is modelled: a `Record` has three fields.
- The `except Exception` handler (app.py:95-96) wraps the foreign calls. The extractor itself raises nothing on string input.
- `str(x)` in the "Roll" test is the identity on strings, so it is not modelled.
- Strings are sequences of Unicode scalar values. Python strings may also hold lone surrogates, which are not whitespace and are not `|`, newline or backtick, so they behave like any other character here.
- Scenarios.PaddedLineKept: requires that no cell contains the letter "R" instead of the exact condition "no cell contains Roll", because it is a concrete instance. The exact condition is stated by Extractor.KeepsRowIff.
- Scenarios.PaddedLineDropped: requires that a cell begins with "Roll" rather than contains it anywhere, because it is a concrete instance. The general case is Extractor.RollAnywhereDropsRow.
- Scenarios.FencedTableExtracts: requires that no data cell contains the letter "R", like Scenarios.PaddedLineKept, because it is a concrete instance. The exact condition is stated by Extractor.KeepsRowIff.
- Extractor.CleanFencesUnwraps: states the unwrapping only for content without a backtick, because a backtick next to a fence can form a new "```" that is deleted as well. Extractor.NoFenceAfterRemove covers that case.
