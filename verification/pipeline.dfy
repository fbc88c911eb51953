/**
 * The conversion the upload handler runs, without the UI: force blank lines
 * after the summary header, isolate Part I, extract the records, and rewrite
 * the columns.
 */
module Pipeline {
  import opened Wrappers
  import opened PyText
  import opened Layout
  import opened Normalizer
  import opened Sections
  import opened Extractor
  import opened Assembler

  /**
   * The text the extractor reads: the input after both normalisation
   * passes. It fails, with the missing-section error, exactly when the
   * upload lacks the marker.
   */
  function Prepared(content: string): (r: Result<string, Error>)
    ensures r.Failure? <==> !Contains(content, Marker)
    ensures r.Failure? ==> r.error == MissingSection
  {
    SingleLineLiterals();
    AddEmptyLineKeepsOccurrences(content, TargetLine, Marker);
    AddLineBreaker(AddEmptyLine(content, TargetLine))
  }

  /**
   * The whole conversion, from the uploaded text to the final table: a
   * table only when every pass succeeds, starting with the fresh serial
   * column numbered 1..N.
   */
  function Convert(content: string): (r: Result<Table, Error>)
    ensures r.Success? ==> Prepared(content).Success? && ReadData(Prepared(content).value).Success?
    ensures r.Success? ==> IsRectangular(r.value) && |r.value.columns| >= 1 && r.value.columns[0] == SerialColumn
    ensures r.Success? ==> forall i :: 0 <= i < |r.value.rows| ==> r.value.rows[i][0] == Serial(i + 1)
  {
    var modified :- Prepared(content);
    var extracted :- ReadData(modified);
    RecordsFitHeader(extracted.records, extracted.header);
    var frame :- CreateFrame(extracted.header, extracted.records);
    Success(InsertSerial(Drop(frame, DropColumns), SerialColumn))
  }

  /**
   * The conversion fails with the missing-section error exactly when the
   * marker is absent, and otherwise only with the missing-header error or
   * the error of a repeated numeric column.
   */
  lemma ConvertErrors(content: string)
    ensures Convert(content).Failure? ==> Convert(content).error in {MissingSection, MissingHeader, NumericSelection}
    ensures Convert(content) == Failure(MissingSection) <==> !Contains(content, Marker)
  {
    SingleLineLiterals();
    AddEmptyLineKeepsOccurrences(content, TargetLine, Marker);
    var prepared := Prepared(content);
    if prepared.Failure? {
      assert prepared.error == MissingSection;
      assert Convert(content) == Failure(MissingSection);
    } else {
      PreparedHasMarker(content);
      var extracted := ReadData(prepared.value);
      assert extracted != Failure(SectionIndex);
      if extracted.Failure? {
        assert extracted.error == MissingHeader;
        assert Convert(content) == Failure(MissingHeader);
      } else {
        RecordsFitHeader(extracted.value.records, extracted.value.header);
        var frame := CreateFrame(extracted.value.header, extracted.value.records);
        if frame.Failure? {
          assert Convert(content) == Failure(NumericSelection);
        } else {
          assert Convert(content).Success?;
        }
      }
    }
  }

  /**
   * Once the records are read, the conversion fails exactly when the
   * extracted header carries one of the numeric labels more than once.
   */
  lemma ConvertRejectsRepeatedNumeric(content: string)
    requires Prepared(content).Success? && ReadData(Prepared(content).value).Success?
    ensures var header := ReadData(Prepared(content).value).value.header;
      Convert(content).Failure? <==> exists k :: 0 <= k < |NumericColumns| && Repeated(header, NumericColumns[k])
  {
    var extracted := ReadData(Prepared(content).value).value;
    RecordsFitHeader(extracted.records, extracted.header);
    var frame := CreateFrame(extracted.header, extracted.records);
    if frame.Success? {
      assert Convert(content) == Success(InsertSerial(Drop(frame.value, DropColumns), SerialColumn));
    }
  }

  /**
   * A table starts with the fresh `Sr. No.` column numbered 1..N in row
   * order, then the deductor's name and TAN, and carries neither
   * `Deductor Number` nor the extracted `Sr. No.`. It is the column rewrite
   * of exactly the extracted header and records, so N is the number of
   * records and the kept cells are unchanged.
   */
  lemma ConvertTableShape(content: string)
    requires Convert(content).Success?
    ensures var t := Convert(content).value;
      && IsRectangular(t)
      && |t.columns| >= 3 && t.columns[..3] == [SerialColumn, IdentityColumns[1], IdentityColumns[2]]
      && (forall i :: 0 <= i < |t.rows| ==> t.rows[i][0] == Serial(i + 1))
      && (forall j :: 1 <= j < |t.columns| ==> t.columns[j] !in DropColumns)
    ensures var e := ReadData(Prepared(content).value).value;
      forall i :: 0 <= i < |e.records| ==> |e.records[i]| == |e.header|
    ensures var e := ReadData(Prepared(content).value).value;
      Convert(content).value == Renumber(e.header, e.records)
  {
    var extracted := ReadData(Prepared(content).value).value;
    RecordsFitHeader(extracted.records, extracted.header);
    assert CreateFrame(extracted.header, extracted.records) == Success(Frame(extracted.header, extracted.records));
    assert Convert(content).value == Renumber(extracted.header, extracted.records);
    LeadingColumns(extracted.header, extracted.records);
  }

  /** Behind the fresh serial column come the deductor's name and TAN. */
  lemma LeadingColumns(header: seq<string>, records: seq<seq<string>>)
    requires forall i :: 0 <= i < |records| ==> |records[i]| == |header|
    requires |header| >= 3 && header[..3] == IdentityColumns
    ensures var t := Renumber(header, records);
      |t.columns| >= 3 && t.columns[..3] == [SerialColumn, IdentityColumns[1], IdentityColumns[2]]
  {
    var t := Renumber(header, records);
    IdentityColumnsKept(header);
    var ks := KeptFrom(header, DropColumns, 0);
    assert ks[0] == 1 && ks[1] == 2;
    assert t.columns[1] == header[1] == IdentityColumns[1];
    assert t.columns[2] == header[2] == IdentityColumns[2];
  }

  /** The prepared text always holds the marker, so the extractor never fails on a missing section. */
  lemma PreparedHasMarker(content: string)
    requires Prepared(content).Success?
    ensures Contains(Prepared(content).value, Marker)
  {
    var normalized := AddEmptyLine(content, TargetLine);
    var pre := Split(normalized, Marker)[0];
    var body := Join(InsertBreaker(SectionLines(normalized), false), "\n");
    ContainsInfix(pre, Marker, body);
  }

  /** Of the three identity columns only `Deductor Number` is dropped; the other two come first. */
  lemma IdentityColumnsKept(header: seq<string>)
    requires |header| >= 3 && header[..3] == IdentityColumns
    ensures |KeptFrom(header, DropColumns, 0)| >= 2
    ensures KeptFrom(header, DropColumns, 0)[..2] == [1, 2]
  {
    assert header[0] == "Deductor Number" && header[1] == "Name of Deductor" && header[2] == "TAN of Deductor";
    assert KeptFrom(header, DropColumns, 0) == KeptFrom(header, DropColumns, 1);
    assert KeptFrom(header, DropColumns, 1) == [1] + KeptFrom(header, DropColumns, 2);
    assert KeptFrom(header, DropColumns, 2) == [2] + KeptFrom(header, DropColumns, 3);
  }

  /**
   * An upload that has the Part I heading but no `Sr. No.` in its Part I
   * (from the first heading up to the next one, or to the end) fails with
   * "Header not found".
   */
  lemma NoSerialMeansMissingHeader(content: string)
    requires Contains(content, Marker) && !Contains(Split(content, Marker)[1], SerialColumn)
    ensures Convert(content) == Failure(MissingHeader)
  {
    SingleLineLiterals();
    PreparedKeepsOut(content, SerialColumn);
    NoSerialNoHeader(Prepared(content).value);
  }

  /**
   * Text that spans no line end and is longer than the breaker is in the
   * prepared Part I only when the upload's Part I has it.
   */
  lemma PreparedKeepsOut(content: string, t: string)
    requires Contains(content, Marker) && !Contains(Split(content, Marker)[1], t)
    requires |t| > |Breaker| && '\n' !in t
    ensures Prepared(content).Success?
    ensures Contains(Prepared(content).value, Marker)
    ensures !Contains(Split(Prepared(content).value, Marker)[1], t)
  {
    var normalized := AddEmptyLine(content, TargetLine);
    SingleLineLiterals();
    AddEmptyLineKeepsSection(content, TargetLine, Marker, t);
    SectionKeepsOut(normalized, t);
    RebuiltHasOneMarker(normalized);
    PreparedHasMarker(content);
  }
}
