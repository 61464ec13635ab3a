/**
 * The main loop: for each discovered report, in discovery order, build its
 * record, select the reference row of its case, compare the two and name the
 * output file. The first failure ends the run; the outputs named before it
 * stay written.
 */
module Pipeline {
  import opened PyText
  import opened Failures
  import opened Discovery
  import opened Extraction
  import opened Comparison

  /** The occurrence in a report name that the output name replaces. */
  const ReportKind: string := "html"
  /** What the output name has in its place. */
  const OutputKind: string := "csv"

  /** The comparison table of one report: the reference row, the report record and the flags. */
  datatype Output = Output(name: string, csvRow: seq<string>, htmlRow: seq<string>, flags: seq<nat>)

  /** The outputs written so far and, when the run stopped early, what stopped it. */
  datatype Progress = Progress(written: seq<Output>, failure: Option<Failure>)

  /** The name of the output file of a report: every "html" in its name replaced by "csv". */
  function OutputName(fileName: string): (name: string)
    ensures !Contains(name, ReportKind)
  {
    ReplaceRemovesPattern(fileName, ReportKind, OutputKind);
    Replace(fileName, ReportKind, OutputKind)
  }

  /** A report named `<base>.html`, with no other "html" in it, has the output `<base>.csv`. */
  lemma OutputNameOfReport(base: string)
    requires !Contains(base, ReportKind)
    ensures OutputName(base + ".html") == base + ".csv"
  {
    var x := base + ".html";
    var i := |base| + 1;
    assert OccursAt(x, ReportKind, i) by {
      assert x[i..i + 4] == ReportKind;
    }
    assert ReportKind[1..] == "tml";
    NoEarlyOccurrence(base, ".html", ReportKind);
    forall j: nat | j < i ensures !OccursAt(x, ReportKind, j) {
      if j == |base| {
        assert x[j] == '.';
      }
    }
    FindIsFirst(x, ReportKind, i);
    assert x[..i] == base + ".";
    assert x[i + 4..] == [];
    assert Split([], ReportKind) == [[]];
    assert Split(x, ReportKind) == [base + ".", []];
  }

  /** The rows of the reference table whose identifier cell holds the case identifier, in table order. */
  function ReferenceRows(table: seq<seq<string>>, caseId: string): (rows: seq<seq<string>>)
    ensures |rows| <= |table|
    ensures forall r :: r in rows <==> r in table && |r| > 0 && r[0] == caseId
  {
    if table == [] then []
    else
      var last := table[|table| - 1];
      ReferenceRows(table[..|table| - 1], caseId) + if |last| > 0 && last[0] == caseId then [last] else []
  }

  /**
   * Each table row whose identifier cell holds the case identifier is
   * selected as often as the table holds it, and no other row is selected.
   */
  lemma {:induction false} ReferenceRowsCount(table: seq<seq<string>>, caseId: string, r: seq<string>)
    ensures multiset(ReferenceRows(table, caseId))[r] ==
            if |r| > 0 && r[0] == caseId then multiset(table)[r] else 0
  {
    if table != [] {
      var init, last := table[..|table| - 1], table[|table| - 1];
      assert table == init + [last];
      ReferenceRowsCount(init, caseId, r);
    }
  }

  /**
   * The reference row of a case: there must be one and only one, with a
   * cell for every column.
   */
  function SelectRow(table: seq<seq<string>>, caseId: string, columns: nat): (r: Result<seq<string>>)
    ensures r.Err? ==> r.error.NoReferenceRow? || r.error.ReferenceRowTooShort? || r.error.AmbiguousReferenceRow?
    ensures r.Err? && r.error.NoReferenceRow? <==> forall row :: row in table ==> |row| == 0 || row[0] != caseId
    ensures r.Ok? <==> |ReferenceRows(table, caseId)| == 1 && columns <= |ReferenceRows(table, caseId)[0]|
    ensures r.Ok? ==> r.value in table && |r.value| > 0 && r.value[0] == caseId && columns <= |r.value|
  {
    var rows := ReferenceRows(table, caseId);
    if rows == [] then Err(NoReferenceRow(caseId))
    else if |rows[0]| < columns then Err(ReferenceRowTooShort(caseId, |rows[0]|, columns))
    else if |rows| > 1 then Err(AmbiguousReferenceRow(caseId, |rows|))
    else Ok(rows[0])
  }

  /** The whole treatment of one report whose page text is `text`. */
  function ProcessReport(fileName: string, text: string, href: seq<string>, cref: seq<string>,
                         table: seq<seq<string>>, same: (string, string) -> bool): (r: Result<Output>)
    ensures r.Ok? ==> r.value.name == OutputName(fileName)
    ensures r.Ok? ==> |r.value.flags| == |r.value.htmlRow| == |cref| && 0 < |cref| <= |r.value.csvRow|
    ensures r.Ok? ==> r.value.csvRow in table && r.value.csvRow[0] == r.value.htmlRow[0] == CaseId(fileName)
  {
    match RecordOf(fileName, text, href, |cref|)
    case Err(e) => Err(e)
    case Ok(record) =>
      match SelectRow(table, record[0], |cref|)
      case Err(e) => Err(e)
      case Ok(row) =>
        Ok(Output(OutputName(fileName), row, record, MismatchVector(row, record, |cref|, same)))
  }

  /**
   * An output names the report's output file, holds the reference row of the
   * report's case and a record with the report's case identifier followed
   * by the extracted value of every compared label, and flags exactly the
   * columns after the first whose cells mismatch, each flag 0 or 1.
   */
  lemma ProcessReportOutput(fileName: string, text: string, href: seq<string>, cref: seq<string>,
                            table: seq<seq<string>>, same: (string, string) -> bool)
    ensures var r := ProcessReport(fileName, text, href, cref, table, same);
      r.Ok? ==>
        && r.value.name == OutputName(fileName)
        && |r.value.htmlRow| == |cref| && r.value.htmlRow[0] == CaseId(fileName)
        && r.value.csvRow in table && r.value.csvRow[0] == CaseId(fileName)
        && |Compared(href)| + 1 == |cref|
        && (forall k :: 0 <= k < |Compared(href)| ==> ExtractField(text, Compared(href)[k]) == Ok(r.value.htmlRow[k + 1]))
        && |cref| <= |r.value.csvRow|
        && r.value.flags == MismatchVector(r.value.csvRow, r.value.htmlRow, |cref|, same)
        && |r.value.flags| == |cref|
        && (|cref| > 0 ==> r.value.flags[0] == 0)
        && (forall k :: 0 <= k < |cref| ==> r.value.flags[k] <= 1)
        && forall k :: 1 <= k < |cref| ==>
             (r.value.flags[k] == 1 <==> Mismatch(r.value.csvRow[k], r.value.htmlRow[k], same))
  {
    if RecordOf(fileName, text, href, |cref|).Ok? {
      RecordLayout(fileName, text, href, |cref|);
    }
  }

  /**
   * A report fails exactly when its record is not built or no single
   * reference row can be selected for its case, and then with that failure:
   * the record's first, the selection's otherwise.
   */
  lemma ProcessReportFailure(fileName: string, text: string, href: seq<string>, cref: seq<string>,
                             table: seq<seq<string>>, same: (string, string) -> bool)
    ensures var r, record, row :=
        ProcessReport(fileName, text, href, cref, table, same),
        RecordOf(fileName, text, href, |cref|),
        SelectRow(table, CaseId(fileName), |cref|);
      && (r.Ok? <==> record.Ok? && row.Ok?)
      && (record.Err? ==> r == Err(record.error))
      && (record.Ok? && row.Err? ==> r == Err(row.error))
  {
  }

  /** The treatment of a report by its file name, its page text being `pageOf` that name. */
  function Treatment(pageOf: string -> string, href: seq<string>, cref: seq<string>,
                     table: seq<seq<string>>, same: (string, string) -> bool): string -> Result<Output>
  {
    file => ProcessReport(file, pageOf(file), href, cref, table, same)
  }

  /** The reports treated in order until the first failure. */
  function Process(files: seq<string>, treat: string -> Result<Output>): (p: Progress)
    ensures |p.written| <= |files|
  {
    if files == [] then Progress([], None)
    else
      var p := Process(files[..|files| - 1], treat);
      if p.failure.Some? then p
      else
        match treat(files[|files| - 1])
        case Err(e) => Progress(p.written, Some(e))
        case Ok(o) => Progress(p.written + [o], None)
  }

  /**
   * Every report before the first failing one has its output written, in
   * report order; the run stops at the first failure, or has written an
   * output for every report.
   */
  lemma {:induction false} ProcessSpec(files: seq<string>, treat: string -> Result<Output>)
    ensures var p := Process(files, treat);
      && |p.written| <= |files|
      && (forall k :: 0 <= k < |p.written| ==> treat(files[k]) == Ok(p.written[k]))
      && (p.failure.None? ==> |p.written| == |files|)
      && (p.failure.Some? ==> |p.written| < |files| && treat(files[|p.written|]) == Err(p.failure.value))
  {
    if files != [] {
      var init := files[..|files| - 1];
      ProcessSpec(init, treat);
      assert forall k :: 0 <= k < |init| ==> files[k] == init[k];
    }
  }

  /** Once a report has failed, the reports after it change nothing. */
  lemma {:induction false} ProcessFailureStays(files: seq<string>, treat: string -> Result<Output>, n: nat)
    requires n <= |files| && Process(files[..n], treat).failure.Some?
    ensures Process(files, treat) == Process(files[..n], treat)
    decreases |files| - n
  {
    if n < |files| {
      assert files[..n + 1][..n] == files[..n];
      ProcessFailureStays(files, treat, n + 1);
    } else {
      assert files[..n] == files;
    }
  }

  /**
   * The body of the main loop for one report: build its record, select the
   * reference row of its case, compare the two and name the output.
   */
  method ProcessOne(el: string, text: string, href: seq<string>, cref: seq<string>,
                    table: seq<seq<string>>, same: (string, string) -> bool)
    returns (out: Result<Output>)
    ensures out == ProcessReport(el, text, href, cref, table, same)
  {
    var record := BuildRecord(el, text, href, |cref|);
    if record.Err? {
      return Err(record.error);
    }
    var hdf := record.value;
    var subCdf := SelectRow(table, hdf[0], |cref|);
    if subCdf.Err? {
      return Err(subCdf.error);
    }
    var misdata := CompareDataFrames(subCdf.value, hdf, |cref|, same);
    return Ok(Output(OutputName(el), subCdf.value, hdf, misdata));
  }

  /**
   * The main loop over the discovered reports, in order; the first failure
   * ends it.
   */
  method ProcessAll(fileLs: seq<string>, pageOf: string -> string, href: seq<string>, cref: seq<string>,
                    table: seq<seq<string>>, same: (string, string) -> bool)
    returns (progress: Progress)
    ensures progress == Process(fileLs, Treatment(pageOf, href, cref, table, same))
  {
    ghost var treat := Treatment(pageOf, href, cref, table, same);
    var written: seq<Output> := [];
    for k := 0 to |fileLs|
      invariant Process(fileLs[..k], treat) == Progress(written, None)
    {
      assert fileLs[..k + 1][..k] == fileLs[..k];
      var el := fileLs[k];
      var out := ProcessOne(el, pageOf(el), href, cref, table, same);
      if out.Err? {
        ProcessFailureStays(fileLs, treat, k + 1);
        return Progress(written, Some(out.error));
      }
      written := written + [out.value];
    }
    assert fileLs[..|fileLs|] == fileLs;
    return Progress(written, None);
  }

  /**
   * A whole run: discovery and its verdict, then, unless no report was
   * found, the reports in discovery order until the first failure. The page
   * text of a report is `pageOf` its file name.
   */
  method Run(folder: seq<string>, ids: seq<string>, href: seq<string>, cref: seq<string>,
             table: seq<seq<string>>, pageOf: string -> string, same: (string, string) -> bool)
    returns (verdict: Verdict, progress: Progress)
    ensures var ms := Matches(folder, ids);
      verdict == DiscoveryVerdict(FilesOf(ms), MissingIds(ids, CaseIdsOf(ms)))
    ensures verdict.NoReportsFound? ==> progress == Progress([], None)
    ensures !verdict.NoReportsFound? ==>
              progress == Process(FilesOf(Matches(folder, ids)), Treatment(pageOf, href, cref, table, same))
  {
    var fileLs, caseCor := Discover(folder, ids);
    var missing := CollectMissing(ids, caseCor);
    verdict := DiscoveryVerdict(fileLs, missing);
    if verdict.NoReportsFound? {
      return verdict, Progress([], None);
    }
    progress := ProcessAll(fileLs, pageOf, href, cref, table, same);
  }
}
