# CSV–HTML parser, modelled in Dafny

The parser compares simulation results in two forms. One is a CSV
substitution table with one row per case. The other is a set of HTML summary
reports, one per case. The model covers the parser's logic:

- **Discovery.** It pairs every folder entry with every configured case
  identifier (`CASESTR`) whose text it contains, provided the name also
  contains `html`. It lists the identifiers that have no report. It decides
  whether the run stops, warns or goes on.
- **Extraction.** It takes each field's value from a report's page text with
  three chained `str.split` calls. It takes the case identifier from the file
  name and builds the report record: the identifier first, then one value per
  compared label.
- **Comparison.** It computes one 0/1 mismatch flag per column. A flag is 1
  when the numbers differ, when only one cell has a unit, or when two units
  differ.
- **Main loop.** For each discovered report it builds the record, selects the
  reference row of its case, compares the two, and names the output file by
  replacing `html` with `csv`. An exception in any report ends the run.

Python's `str` operations are stated exactly in `py_text.dfy`, module
`PyText`:

- `t in s` is `Contains`.
- `s.split(sep)` is `Split`.
- `sep.join` is `Join`.
- `s.replace` is `Replace`.

Their behaviour is proved, not assumed, and they carry some consequences:

- `Split` is proved to be undone by `Join`, and its pieces are free of the
  separator.
- Piece `[1]` of a split runs from the first occurrence of the separator to
  the second, not to the end of the string.
- So a field's value is looked for only in the part of the page between the
  field's marker and its next occurrence. The model follows that code, which
  is narrower than "the first value marker after the label" would be.

Exceptions raised by Python or pandas are values of `Failures.Failure`.
`Failures.Result` carries either a value or the failure. None is caught in
the source, so the first one ends the run (`Pipeline.Process`).

The decimal comparison `compareDecimals` is the parameter
`same: (string, string) -> bool`. It holds when the two numeric tokens are
the same number. Both of its arguments are Python floats, so the decimal
precision it sets has no effect on the subtraction. The model therefore keeps
no precision.

Cells of three or more tokens are compared on their number and token count
only: the text after the number is never looked at
(`Comparison.ThreeTokenCellsIgnoreUnits`).

## Model

| member | source | states |
|---|---|---|
| Discovery.Discover | CSV_HTML_Parser.py:86-92 | The nested loop produces exactly the pairs `Matches(folder, ids)`, folder order first, then identifier order. Its two lists have equal length, and each file holds its identifier and `html`. |
| Discovery.MatchesCount | CSV_HTML_Parser.py:88-92 | A pair occurs (file count × identifier count) times when the file holds both the identifier and `html`, and never otherwise. So a file naming several identifiers appears once per identifier. |
| Discovery.MatchMembership | CSV_HTML_Parser.py:90 | A pair is discovered iff the file is listed, the identifier is configured, and the file name holds both the identifier and `html`. |
| Discovery.DiscoveredIds | CSV_HTML_Parser.py:92 | An identifier lands in `casestr_cor` iff it is configured and some listed file holds it and `html`. |
| Discovery.MissingIdsCount | CSV_HTML_Parser.py:95-98 | The corrected missing list holds each configured identifier absent from `casestr_cor`, as often as it is configured, and no other entry. |
| Discovery.MissingMeansNoReport | CSV_HTML_Parser.py:95-98 | An identifier is listed as missing iff it is configured and no listed file holds both it and `html`. |
| Discovery.CollectMissing | CSV_HTML_Parser.py:95-98 | The loop, with the identifier appended, yields exactly the missing identifiers. Membership holds iff the identifier is configured and not discovered. |
| Discovery.CollectMissingAsWritten | CSV_HTML_Parser.py:95-98 | The loop as written appends one entry per missing identifier, and every entry is the whole configured list. |
| Discovery.MissingAsWrittenHoldsConfiguration | CSV_HTML_Parser.py:98 | For identifiers `Case_041`, `Case_042` with only the first found, the loop as written yields `[["Case_041","Case_042"]]` where `["Case_042"]` is meant. |
| Discovery.DiscoveryVerdict | CSV_HTML_Parser.py:99-108 | The run stops iff no file was discovered, and warns iff files were discovered and some identifier is missing, with that missing list; what those conditions mean on the folder is `Discovery.VerdictMeaning`. |
| Discovery.VerdictMeaning | CSV_HTML_Parser.py:99-108 | The run stops iff no listed file holds any configured identifier with `html`. It warns iff some identifier has no such file; the corrected list of line 98 names exactly those. Otherwise every identifier has one. |
| PyText.Find | CSV_HTML_Parser.py:125 | There is an index iff `t in s` holds. It is an occurrence, and no occurrence comes before it. |
| PyText.Split | CSV_HTML_Parser.py:125 | There is always a piece `[0]`, and a piece `[1]` exists iff the separator occurs. |
| PyText.SplitJoin | CSV_HTML_Parser.py:125-127 | Joining the pieces of a split with the separator gives back the string. |
| PyText.SplitPiecesFree | CSV_HTML_Parser.py:125-127 | No piece of a split contains the separator. |
| PyText.SplitHead | CSV_HTML_Parser.py:127 | Piece `[0]` is a prefix free of the separator. It is the whole string iff the separator is absent, and is otherwise followed by the separator. |
| PyText.SplitSecondPiece | CSV_HTML_Parser.py:125-126 | When the separator occurs, piece `[1]` stands right after its first occurrence, is free of it, and ends at an occurrence or at the end. |
| PyText.SecondPieceHasNoOccurrence | CSV_HTML_Parser.py:125-126 | No occurrence of the separator starts inside piece `[1]`. With `PyText.SplitSecondPiece` this makes piece `[1]` end exactly at the second occurrence or at the end, even for a separator that overlaps itself. |
| PyText.SplitAfterFirst | CSV_HTML_Parser.py:157-158 | Splitting `a + sep + b` on a one-character separator absent from `a` gives `a`, then the pieces of `b`. |
| PyText.SplitLacksChar | CSV_HTML_Parser.py:157-158 | Splitting on a one-character separator that does not occur gives the string alone. |
| PyText.Replace | CSV_HTML_Parser.py:187 | `replace` agrees with splitting on the pattern and joining with the replacement. |
| PyText.ReplaceRemovesPattern | CSV_HTML_Parser.py:187 | After replacing with text none of whose characters is in the pattern, the pattern no longer occurs. |
| Extraction.FieldBlockBounds | CSV_HTML_Parser.py:123-125 | A field's block is the text right after the first `label + "\nTypeSCALAR"`. It holds no further such marker, no occurrence of the marker starts inside it, and it ends at the next one or at the end of the page. So the block is fixed even for a marker that overlaps itself, such as the one of `Rho Ref`. |
| Extraction.ValueLine | CSV_HTML_Parser.py:126-127 | The value stands right after the block's first `"\nValue"`, holds no line break, and ends at a line break or at the end of the block. |
| Extraction.ExtractField | CSV_HTML_Parser.py:123-127 | Extraction fails with `MissingLabel` iff the label's marker is absent from the page. It fails with `MissingValue` iff the marker is present but its block lacks `"\nValue"`. No other failure occurs. |
| Extraction.ExtractedValue | CSV_HTML_Parser.py:123-127 | An extracted value holds no line break, stands right after the block's first value marker, and runs to the next line break or the block's end. |
| Extraction.CaseId | CSV_HTML_Parser.py:129 | The identifier is a prefix of the file name that holds no `_Summary.html`. It is the whole name iff the suffix is absent, and is otherwise followed by the suffix. |
| Extraction.CaseIdOfSummaryName | CSV_HTML_Parser.py:129 | A report named `<id>_Summary.html`, where `<id>` holds no such suffix, has the identifier `<id>`. |
| Extraction.FieldValues | CSV_HTML_Parser.py:121-128 | The label loop yields at most one value per label; which values, and which failure, is stated by `Extraction.FieldValuesOk` and `Extraction.FieldValuesErr`. |
| Extraction.FieldValuesOk | CSV_HTML_Parser.py:121-128 | When no extraction fails, there is one value per label other than `CASESTR`, in label order, each the extraction of its label. |
| Extraction.FieldValuesErr | CSV_HTML_Parser.py:121-128 | When an extraction fails, the failure is that of the first compared label whose extraction fails. All labels before it extract. |
| Extraction.FieldValuesErrorStays | CSV_HTML_Parser.py:121-128 | Once an extraction has failed, the remaining labels change nothing. |
| Extraction.RecordOf | CSV_HTML_Parser.py:121-131 | A built record has one cell per column and the report's case identifier first; when it is built and what its other cells are is stated by `Extraction.RecordBuilt` and `Extraction.RecordLayout`. |
| Extraction.RecordBuilt | CSV_HTML_Parser.py:121-131 | A record is built iff every compared label extracts and there is exactly one column more than compared labels. |
| Extraction.RecordFailure | CSV_HTML_Parser.py:121-131 | A record that is not built fails with the error of the first compared label whose extraction fails (lines 125-126). When every label extracts, it fails with `ShapeMismatch` from line 131, the record having one cell more than compared labels and the columns differing. |
| Extraction.RecordLayout | CSV_HTML_Parser.py:121-131 | A built record has one cell per column: the case identifier at 0, then the value of the k-th compared label at k + 1. |
| Extraction.BuildRecord | CSV_HTML_Parser.py:121-131 | The append loop followed by `insert(0, cstr)` yields exactly `RecordOf`, including its first failure. |
| Comparison.Tokens | CSV_HTML_Parser.py:157-158 | The `.split(' ')` of a cell has at least one token, so token 0 always exists. |
| Comparison.CellFlag | CSV_HTML_Parser.py:157-167 | The flag computed by the override sequence is 0 or 1. It is 1 iff the token counts differ, or both cells have two tokens with different second tokens, or the first tokens are different numbers. |
| Comparison.TokensOfReading | CSV_HTML_Parser.py:157-158 | A space-free number, optionally followed by a space and a space-free unit, splits into exactly those tokens. |
| Comparison.ReadingFlag | CSV_HTML_Parser.py:157-167 | For cells made of a number and an optional unit, the flag is 0 iff the numbers are the same and the units are equal, a unit on one side only counting as unequal. |
| Comparison.ThreeTokenCellsIgnoreUnits | CSV_HTML_Parser.py:165-167 | Two three-token cells with the same number get flag 0 whatever their other tokens. |
| Comparison.MismatchVector | CSV_HTML_Parser.py:154-169 | The vector has one flag per column. Flag 0 is 0, and every flag is 0 or 1. Flag k ≥ 1 is 1 iff the k-th cells mismatch. |
| Comparison.CompareDataFrames | CSV_HTML_Parser.py:153-172 | Starting from zeros and writing a 1 at each flagged column gives exactly the mismatch vector. |
| Comparison.UnitOnOneSideScenario | CSV_HTML_Parser.py:153-169 | Rows of six columns that agree except for a unit on the report side in the second compared column give `[0, 0, 1, 0, 0, 0]`, provided only that the numeric check holds of each of the four other numbers against itself. |
| Comparison.SpeedUnitScenario | CSV_HTML_Parser.py:153-169 | The reference row `Case_041, 0.85, 250.0, 500, -10, 1.2` against the report row with `250.0 m/s` gives `[0, 0, 1, 0, 0, 0]`. |
| Pipeline.OutputName | CSV_HTML_Parser.py:187 | The output name holds no `html`. |
| Pipeline.OutputNameOfReport | CSV_HTML_Parser.py:187 | A report named `<base>.html`, where `<base>` holds no `html`, is saved as `<base>.csv`. |
| Pipeline.ReferenceRows | CSV_HTML_Parser.py:180 | The selected rows are exactly the table rows whose identifier cell holds the case identifier. There are no more of them than table rows. |
| Pipeline.ReferenceRowsCount | CSV_HTML_Parser.py:180 | Each table row carrying the case identifier is selected exactly as often as the table holds it, and no other row is selected, so a case listed twice gives two rows. |
| Pipeline.SelectRow | CSV_HTML_Parser.py:180-186 | A row is selected iff exactly one table row carries the identifier and it has a cell per column. The row is then from the table and carries the identifier. `NoReferenceRow` is reported iff no row carries the identifier. |
| Pipeline.ProcessReport | CSV_HTML_Parser.py:178-187 | A treated report has the report's output name, one flag and one record cell per column, a reference row at least as wide, and that row and the record both start with the report's case identifier; the full layout is `Pipeline.ProcessReportOutput`. |
| Pipeline.ProcessReportFailure | CSV_HTML_Parser.py:178-186 | A report fails iff its record is not built or its reference row cannot be selected. The failure is the record's when the record fails, and otherwise the selection's. |
| Pipeline.ProcessReportOutput | CSV_HTML_Parser.py:176-187 | A report's output holds its output name, a reference row of its case from the table, and a record with the case identifier followed by the extracted value of every compared label. Its flags are the mismatch vector of the two rows: flag 0 is 0, every flag is 0 or 1, and flag k ≥ 1 is 1 iff the k-th cells mismatch. |
| Pipeline.Process | CSV_HTML_Parser.py:176-189 | The main loop writes no more outputs than there are reports; which outputs and which failure is `Pipeline.ProcessSpec`. |
| Pipeline.ProcessSpec | CSV_HTML_Parser.py:176-189 | Every report before the first failing one has its output, in order. The run ends with the failure of the first failing report, or with an output for every report. |
| Pipeline.ProcessFailureStays | CSV_HTML_Parser.py:176-189 | Once a report has failed, the reports after it change nothing. |
| Pipeline.ProcessOne | CSV_HTML_Parser.py:178-187 | The loop body (build, select, compare, name) yields exactly `ProcessReport`. |
| Pipeline.ProcessAll | CSV_HTML_Parser.py:176-189 | The main loop yields exactly `Process` over the discovered files, stopping at the first failure. |
| Pipeline.Run | CSV_HTML_Parser.py:86-189 | The verdict is that of discovery. No report is treated when none was found. Otherwise the reports are treated in discovery order as `Process` says. |

## Left out

- File system and console. `os.listdir` is the `folder` parameter, and `open` is not part of this model. The messages printed at lines 100-108 and 170-171 are not modelled. `exit()` is the `NoReportsFound` verdict with nothing processed.
- BeautifulSoup parsing and `get_text()` (lines 119, 124). The page text of a report is the opaque parameter `pageOf(file)`, a foreign library's output that the model cannot see.
- `os.path.join` (lines 118, 188): file names are used without the folder prefix.
- pandas `read_csv` and the column projection (lines 111-112). The reference table is given as rows of cell text in the CSV file's own column order, which line 112 keeps; the `CASESTR` cell is taken to come first. Cells are compared by position, as at line 157, so a CSV whose columns come in a different order from `cref` is compared position by position. The text pandas would print for a number (`str(cdf.iat[0, i])`) is taken as given.
- pandas row selection (line 180) compares typed values. The model compares the identifier cell's text with the case identifier.
- pandas `DataFrame`, transposes, `concat`, index assignment and `to_csv` (lines 131, 172, 185-189). Only their failure conditions are modelled: a record whose length differs from `cref`, and a selection without exactly one row. An output is the triple of rows it would write; column alignment by name in `concat` is not modelled.
- `compareDecimals` and `float()` (lines 139-147, 159). The numeric check is the parameter `same`. The `ValueError` of a token that is not a number, and the `TypeError` that `abs` raises on the exponent of a NaN or an infinity (`'n'`, `'N'` or `'F'`), are not modelled.
- The hard-coded configuration (lines 64-80) becomes parameters, and the `href.insert(0, 'CASESTR')` side effect (line 136) is not modelled. `href` is passed as the loop sees it. Labels equal to `CASESTR` are skipped wherever they stand, so the insertion does not change the values.
- Failure positions. A reference table without a row for the case fails at line 157 (`IndexError`) when there are two or more columns, and otherwise at line 186 (`ValueError`). Both are the single failure `NoReferenceRow`. A selection of several rows fails only at line 186, after its flags were computed and printed; the model reports it without the flags.
- Pipeline.Run: the whole run uses the corrected missing list of `Discovery.CollectMissing`, not the list `Discovery.CollectMissingAsWritten` builds. As written, line 98 puts the whole configuration into the list once per missing identifier, so the warning at lines 105-106 prints the whole configuration once per missing identifier rather than the missing identifiers; `Discovery.VerdictMeaning` states the warning's contents for the corrected list.
- Comparison.CompareDataFrames: requires a cell per column in both rows. The `IndexError` that a narrower reference row raises inside the loop is reported beforehand by `Pipeline.SelectRow` as `ReferenceRowTooShort`.

## Findings

| source | as written | input that shows it | evidently intended | confidence | as-written member | corrected member |
|---|---|---|---|---|---|---|
| CSV_HTML_Parser.py:98 | `casestr_missing.append(casestr)` appends the whole configured identifier list once per identifier without a report | `casestr = ['Case_041', 'Case_042']`, only `Case_041` found: the warning lists `['Case_041', 'Case_042']` | append the identifier `ele`, so the warning lists `Case_042` | high; not executed | Discovery.CollectMissingAsWritten | Discovery.CollectMissing |
