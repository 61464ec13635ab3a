/**
 * Field extraction from the flattened text of one report page, and the
 * report record built from it: the case identifier taken from the file
 * name, then one value per compared field label.
 */
module Extraction {
  import opened PyText
  import opened Failures

  /** Follows a field label in the page text. */
  const TypeMarker: string := "\nTypeSCALAR"
  /** Precedes a field's value in the page text. */
  const ValueMarker: string := "\nValue"
  /** Ends a field's value. */
  const LineBreak: string := "\n"
  /** Ends the case identifier in a report file name. */
  const SummarySuffix: string := "_Summary.html"
  /** The label of the identifier column, which is not extracted from the page. */
  const IdColumn: string := "CASESTR"

  /**
   * Piece `[1]` of `text.split(field + '\nTypeSCALAR')`, the part of the page
   * that belongs to the field.
   */
  function FieldBlock(text: string, field: string): string
    requires Contains(text, field + TypeMarker)
  {
    Split(text, field + TypeMarker)[1]
  }

  /**
   * The block of a field is the text after the first occurrence of the
   * field's marker, up to its next occurrence or the end of the page: no
   * occurrence of the marker starts inside it.
   */
  lemma FieldBlockBounds(text: string, field: string)
    requires Contains(text, field + TypeMarker)
    ensures var m, block := field + TypeMarker, FieldBlock(text, field);
      var i := Find(text, m).value;
      && OccursAt(text, m + block, i)
      && !Contains(block, m)
      && EndsOrOccurs(text, m, i + |m| + |block|)
      && forall p: nat :: i + |m| <= p < i + |m| + |block| ==> !OccursAt(text, m, p)
  {
    var i, block := SplitSecondPiece(text, field + TypeMarker);
    SecondPieceHasNoOccurrence(text, field + TypeMarker);
  }

  /**
   * The value line that follows the first value marker of a block: it holds
   * no line break, stands right after the marker, and ends at a line break
   * or at the end of the block.
   */
  lemma ValueLine(block: string)
    requires Contains(block, ValueMarker)
    ensures var j := Find(block, ValueMarker).value;
      var v := Split(Split(block, ValueMarker)[1], LineBreak)[0];
      && '\n' !in v
      && OccursAt(block, ValueMarker + v, j)
      && EndsAtLineBreak(block, j + |ValueMarker| + |v|)
  {
    var j, t := SplitSecondPiece(block, ValueMarker);
    var v := Split(t, LineBreak)[0];
    SplitHead(t, LineBreak);
    ContainsChar(v, '\n');
    LineInBlock(block, j, t, v);
  }

  /** Position `e` is the end of `s` or holds a line break. */
  predicate EndsAtLineBreak(s: string, e: nat)
  {
    e == |s| || (e < |s| && s[e] == '\n')
  }

  /**
   * A prefix `v` of the text `t` after a value marker, cut at a line break
   * of `t` or at its end, ends at a line break of the block or at its end.
   */
  lemma LineInBlock(block: string, j: nat, t: string, v: string)
    requires OccursAt(block, ValueMarker + t, j)
    requires EndsOrOccurs(block, ValueMarker, j + |ValueMarker| + |t|)
    requires |v| <= |t| && t[..|v|] == v && (v == t || OccursAt(t, LineBreak, |v|))
    ensures OccursAt(block, ValueMarker + v, j)
    ensures EndsAtLineBreak(block, j + |ValueMarker| + |v|)
  {
    var e := j + |ValueMarker| + |v|;
    assert block[j..j + |ValueMarker| + |t|] == ValueMarker + t;
    assert block[j..e] == (ValueMarker + t)[..|ValueMarker| + |v|];
    if v != t {
      assert t[|v|] == t[|v|..|v| + 1][0];
      assert block[e] == (ValueMarker + t)[|ValueMarker| + |v|];
    } else if e != |block| {
      assert block[e] == block[e..e + |ValueMarker|][0];
    }
  }

  /**
   * The value of one field: the page text split on the field's marker, piece
   * [1]; that split on the value marker, piece [1]; that split on line
   * breaks, piece [0]. A missing piece [1] is the error of its step.
   */
  function ExtractField(text: string, field: string): (r: Result<string>)
    ensures r.Err? ==> r.error == MissingLabel(field) || r.error == MissingValue(field)
    ensures r == Err(MissingLabel(field)) <==> !Contains(text, field + TypeMarker)
    ensures r == Err(MissingValue(field)) <==>
            Contains(text, field + TypeMarker) && !Contains(FieldBlock(text, field), ValueMarker)
  {
    var afterLabel := Split(text, field + TypeMarker);
    if |afterLabel| < 2 then Err(MissingLabel(field))
    else
      var afterValue := Split(afterLabel[1], ValueMarker);
      if |afterValue| < 2 then Err(MissingValue(field))
      else Ok(Split(afterValue[1], LineBreak)[0])
  }

  /**
   * An extracted value holds no line break; it stands right after the first
   * value marker of the field's block and runs to the next line break or the
   * end of the block.
   */
  lemma ExtractedValue(text: string, field: string)
    requires ExtractField(text, field).Ok?
    ensures var v := ExtractField(text, field).value;
      && '\n' !in v
      && Contains(text, field + TypeMarker)
      && var block := FieldBlock(text, field);
         && Contains(block, ValueMarker)
         && var j := Find(block, ValueMarker).value;
            OccursAt(block, ValueMarker + v, j) && EndsAtLineBreak(block, j + |ValueMarker| + |v|)
  {
    ValueLine(FieldBlock(text, field));
  }

  /**
   * The case identifier of a report: its file name cut at the first
   * "_Summary.html", or the whole name when that suffix is absent.
   */
  function CaseId(fileName: string): (id: string)
    ensures |id| <= |fileName| && fileName[..|id|] == id
    ensures !Contains(id, SummarySuffix)
    ensures id == fileName <==> !Contains(fileName, SummarySuffix)
    ensures id != fileName ==> OccursAt(fileName, SummarySuffix, |id|)
  {
    SplitHead(fileName, SummarySuffix);
    Split(fileName, SummarySuffix)[0]
  }

  /** A report named `<id>_Summary.html` has the case identifier `<id>`. */
  lemma CaseIdOfSummaryName(base: string)
    requires !Contains(base, SummarySuffix)
    ensures CaseId(base + SummarySuffix) == base
  {
    var name := base + SummarySuffix;
    assert SummarySuffix[1..] == "Summary.html";
    NoEarlyOccurrence(base, SummarySuffix, SummarySuffix);
    assert OccursAt(name, SummarySuffix, |base|) by {
      assert name[|base|..|base| + |SummarySuffix|] == SummarySuffix;
    }
    var id := CaseId(name);
    assert id != name;
    assert |id| == |base|;
    assert name[..|base|] == base;
  }

  // ---------------------------------------------------------------------
  // The report record
  // ---------------------------------------------------------------------

  /** The field labels that are extracted from the page, in order: all but the identifier column. */
  function Compared(labels: seq<string>): seq<string>
  {
    if labels == [] then []
    else
      var last := labels[|labels| - 1];
      Compared(labels[..|labels| - 1]) + (if last != IdColumn then [last] else [])
  }

  /** The extraction of any field from one page text. */
  function Extractor(text: string): string -> Result<string>
  {
    field => ExtractField(text, field)
  }

  /** The extracted values, label by label; the first extraction that fails ends it. */
  function FieldValues(labels: seq<string>, extract: string -> Result<string>): (r: Result<seq<string>>)
    ensures r.Ok? ==> |r.value| <= |labels|
  {
    if labels == [] then Ok([])
    else
      match FieldValues(labels[..|labels| - 1], extract)
      case Err(e) => Err(e)
      case Ok(values) =>
        var last := labels[|labels| - 1];
        if last == IdColumn then Ok(values)
        else
          match extract(last)
          case Err(e) => Err(e)
          case Ok(v) => Ok(values + [v])
  }

  /** When every compared label yields a value, the values line up with the compared labels. */
  lemma {:induction false} FieldValuesOk(labels: seq<string>, extract: string -> Result<string>)
    requires FieldValues(labels, extract).Ok?
    ensures var fields, values := Compared(labels), FieldValues(labels, extract).value;
      |values| == |fields| && forall k :: 0 <= k < |fields| ==> extract(fields[k]) == Ok(values[k])
  {
    if labels != [] {
      var init := labels[..|labels| - 1];
      FieldValuesOk(init, extract);
      var before := Compared(init);
      assert Compared(labels)[..|before|] == before;
    }
  }

  /** A failure is that of the first compared label whose extraction fails. */
  lemma {:induction false} FieldValuesErr(labels: seq<string>, extract: string -> Result<string>)
    requires FieldValues(labels, extract).Err?
    ensures var fields, e := Compared(labels), FieldValues(labels, extract).error;
      exists k :: 0 <= k < |fields| && extract(fields[k]) == Err(e) &&
        forall j :: 0 <= j < k ==> extract(fields[j]).Ok?
  {
    var init, last := labels[..|labels| - 1], labels[|labels| - 1];
    var before := Compared(init);
    assert Compared(labels)[..|before|] == before;
    if FieldValues(init, extract).Err? {
      FieldValuesErr(init, extract);
      var e := FieldValues(init, extract).error;
      var k :| 0 <= k < |before| && extract(before[k]) == Err(e) &&
        forall j :: 0 <= j < k ==> extract(before[j]).Ok?;
      assert Compared(labels)[k] == before[k];
    } else {
      FieldValuesOk(init, extract);
      assert Compared(labels)[|before|] == last;
    }
  }

  /** Once an extraction has failed, the labels after it change nothing. */
  lemma {:induction false} FieldValuesErrorStays(labels: seq<string>, extract: string -> Result<string>, n: nat)
    requires n <= |labels| && FieldValues(labels[..n], extract).Err?
    ensures FieldValues(labels, extract) == FieldValues(labels[..n], extract)
    decreases |labels| - n
  {
    if n < |labels| {
      assert labels[..n + 1][..n] == labels[..n];
      FieldValuesErrorStays(labels, extract, n + 1);
    } else {
      assert labels[..n] == labels;
    }
  }

  /**
   * The record of one report: its case identifier, then the extracted
   * values. The table built from it must have one cell per column, or the
   * construction fails.
   */
  function RecordOf(fileName: string, text: string, labels: seq<string>, columns: nat): (r: Result<seq<string>>)
    ensures r.Ok? ==> |r.value| == columns > 0 && r.value[0] == CaseId(fileName)
  {
    match FieldValues(labels, Extractor(text))
    case Err(e) => Err(e)
    case Ok(values) =>
      var record := [CaseId(fileName)] + values;
      if |record| == columns then Ok(record) else Err(ShapeMismatch(|record|, columns))
  }

  /**
   * A record is built exactly when every compared label yields a value and
   * there is one column more than compared labels.
   */
  lemma RecordBuilt(fileName: string, text: string, labels: seq<string>, columns: nat)
    ensures var fields := Compared(labels);
      RecordOf(fileName, text, labels, columns).Ok? <==>
        (forall k :: 0 <= k < |fields| ==> ExtractField(text, fields[k]).Ok?) && columns == |fields| + 1
  {
    var fields := Compared(labels);
    if FieldValues(labels, Extractor(text)).Ok? {
      FieldValuesOk(labels, Extractor(text));
    } else {
      FieldValuesErr(labels, Extractor(text));
      var e := FieldValues(labels, Extractor(text)).error;
      var k :| 0 <= k < |fields| && Extractor(text)(fields[k]) == Err(e);
      assert !ExtractField(text, fields[k]).Ok?;
    }
  }

  /**
   * A record that is not built fails with the error of the first compared
   * label whose extraction fails, or, when every label extracts, with the
   * shape mismatch of a record whose length differs from the columns.
   */
  lemma RecordFailure(fileName: string, text: string, labels: seq<string>, columns: nat)
    ensures var fields, r := Compared(labels), RecordOf(fileName, text, labels, columns);
      r.Err? ==>
        || (exists k :: 0 <= k < |fields| && ExtractField(text, fields[k]) == Err(r.error) &&
              forall j :: 0 <= j < k ==> ExtractField(text, fields[j]).Ok?)
        || (&& r.error == ShapeMismatch(|fields| + 1, columns) && columns != |fields| + 1
            && forall k :: 0 <= k < |fields| ==> ExtractField(text, fields[k]).Ok?)
  {
    var fields := Compared(labels);
    if FieldValues(labels, Extractor(text)).Ok? {
      FieldValuesOk(labels, Extractor(text));
    } else {
      FieldValuesErr(labels, Extractor(text));
      var e := FieldValues(labels, Extractor(text)).error;
      var k :| 0 <= k < |fields| && Extractor(text)(fields[k]) == Err(e) &&
        forall j :: 0 <= j < k ==> Extractor(text)(fields[j]).Ok?;
      assert ExtractField(text, fields[k]) == Err(e);
    }
  }

  /**
   * A built record holds the case identifier at position 0 and the value of
   * the k-th compared label at position k + 1.
   */
  lemma RecordLayout(fileName: string, text: string, labels: seq<string>, columns: nat)
    requires RecordOf(fileName, text, labels, columns).Ok?
    ensures var fields, record := Compared(labels), RecordOf(fileName, text, labels, columns).value;
      && |record| == columns == |fields| + 1
      && record[0] == CaseId(fileName)
      && forall k :: 0 <= k < |fields| ==> ExtractField(text, fields[k]) == Ok(record[k + 1])
  {
    FieldValuesOk(labels, Extractor(text));
  }

  /**
   * The record-building loop: for each label other than the identifier
   * column, extract the field's value and append it; then put the case
   * identifier in front and give the record its columns.
   */
  method BuildRecord(fileName: string, text: string, labels: seq<string>, columns: nat)
    returns (r: Result<seq<string>>)
    ensures r == RecordOf(fileName, text, labels, columns)
  {
    var hdata: seq<string> := [];
    for i := 0 to |labels|
      invariant FieldValues(labels[..i], Extractor(text)) == Ok(hdata)
    {
      assert labels[..i + 1][..i] == labels[..i];
      var l := labels[i];
      if l != IdColumn {
        var hdatum := ExtractField(text, l);
        if hdatum.Err? {
          FieldValuesErrorStays(labels, Extractor(text), i + 1);
          return Err(hdatum.error);
        }
        hdata := hdata + [hdatum.value];
      }
    }
    assert labels[..|labels|] == labels;
    hdata := [CaseId(fileName)] + hdata;
    if |hdata| != columns {
      return Err(ShapeMismatch(|hdata|, columns));
    }
    return Ok(hdata);
  }
}
