/**
 * The column rewrite at the end of the conversion: build the table from the
 * header and records, drop `Deductor Number` and the extracted `Sr. No.`
 * (ignoring names that are absent), then insert a fresh `Sr. No.` column
 * numbered from 1 in front.
 */
module Assembler {
  import opened Wrappers
  import opened Layout

  /** A table cell: extracted text, or a number of the regenerated serial column. */
  datatype Cell = Text(text: string) | Serial(n: int)

  /** A data frame: column labels and rows of cells. */
  datatype Table = Table(columns: seq<string>, rows: seq<seq<Cell>>)

  /** Every row has one cell per column. */
  predicate IsRectangular(t: Table) {
    forall i :: 0 <= i < |t.rows| ==> |t.rows[i]| == |t.columns|
  }

  /** One record as a row of text cells. */
  function TextRow(rec: seq<string>): (r: seq<Cell>)
    ensures |r| == |rec| && forall k :: 0 <= k < |rec| ==> r[k] == Text(rec[k])
  {
    if |rec| == 0 then [] else [Text(rec[0])] + TextRow(rec[1..])
  }

  /** The records as rows of text cells. */
  function TextRows(records: seq<seq<string>>): (r: seq<seq<Cell>>)
    ensures |r| == |records| && forall i :: 0 <= i < |records| ==> r[i] == TextRow(records[i])
  {
    if |records| == 0 then [] else [TextRow(records[0])] + TextRows(records[1..])
  }

  /** `pd.DataFrame(records, columns=header)`: every cell holds its text. */
  function Frame(header: seq<string>, records: seq<seq<string>>): (t: Table)
    requires forall i :: 0 <= i < |records| ==> |records[i]| == |header|
    ensures IsRectangular(t) && t.columns == header && |t.rows| == |records|
    ensures forall i :: 0 <= i < |records| ==> t.rows[i] == TextRow(records[i])
  {
    Table(header, TextRows(records))
  }

  /** More than one column carries the label `name`. */
  predicate Repeated(labels: seq<string>, name: string) {
    exists i, j :: 0 <= i < j < |labels| && labels[i] == name && labels[j] == name
  }

  /**
   * The coercion loop of `create_dataframe` over `names`: the first name
   * that labels several columns, where selecting it yields a frame instead
   * of a column; `None` when every name labels at most one column.
   */
  function FirstRepeated(labels: seq<string>, names: seq<string>): (r: Option<string>)
    ensures r.None? <==> forall k :: 0 <= k < |names| ==> !Repeated(labels, names[k])
    ensures r.Some? ==> r.value in names && Repeated(labels, r.value)
  {
    if |names| == 0 then None
    else if Repeated(labels, names[0]) then Some(names[0])
    else FirstRepeated(labels, names[1..])
  }

  /**
   * `create_dataframe`: the frame of the records, or the TypeError
   * `pd.to_numeric` raises when a numeric label is repeated in the header.
   */
  function CreateFrame(header: seq<string>, records: seq<seq<string>>): (r: Result<Table, Error>)
    requires forall i :: 0 <= i < |records| ==> |records[i]| == |header|
    ensures r.Failure? <==> exists k :: 0 <= k < |NumericColumns| && Repeated(header, NumericColumns[k])
    ensures r.Failure? ==> r.error == NumericSelection
    ensures r.Success? ==> r.value == Frame(header, records)
  {
    if FirstRepeated(header, NumericColumns).Some? then Failure(NumericSelection)
    else Success(Frame(header, records))
  }

  /** The elements of `xs` at positions `ks`, in the order of `ks`. */
  function Pick<T>(xs: seq<T>, ks: seq<nat>): (r: seq<T>)
    requires forall j :: 0 <= j < |ks| ==> ks[j] < |xs|
    ensures |r| == |ks| && forall j :: 0 <= j < |ks| ==> r[j] == xs[ks[j]]
  {
    if |ks| == 0 then [] else [xs[ks[0]]] + Pick(xs, ks[1..])
  }

  /** `Pick` applied to every row. */
  function PickRows(rows: seq<seq<Cell>>, ks: seq<nat>, width: nat): (r: seq<seq<Cell>>)
    requires forall i :: 0 <= i < |rows| ==> |rows[i]| == width
    requires forall j :: 0 <= j < |ks| ==> ks[j] < width
    ensures |r| == |rows| && forall i :: 0 <= i < |rows| ==> r[i] == Pick(rows[i], ks)
  {
    if |rows| == 0 then [] else [Pick(rows[0], ks)] + PickRows(rows[1..], ks, width)
  }

  /** Each row behind its serial number, counting from `first`. */
  function Number(rows: seq<seq<Cell>>, first: int): (r: seq<seq<Cell>>)
    ensures |r| == |rows| && forall i :: 0 <= i < |rows| ==> r[i] == [Serial(first + i)] + rows[i]
  {
    if |rows| == 0 then [] else [[Serial(first)] + rows[0]] + Number(rows[1..], first + 1)
  }

  /** The positions from `from` on whose name is not one of `names`, ascending. */
  function KeptFrom(labels: seq<string>, names: seq<string>, from: nat): (ks: seq<nat>)
    requires from <= |labels|
    ensures forall j :: 0 <= j < |ks| ==> from <= ks[j] < |labels| && labels[ks[j]] !in names
    ensures forall j, j' :: 0 <= j < j' < |ks| ==> ks[j] < ks[j']
    decreases |labels| - from
  {
    if from == |labels| then []
    else if labels[from] in names then KeptFrom(labels, names, from + 1)
    else [from] + KeptFrom(labels, names, from + 1)
  }

  /** No column that should stay is lost: every position whose label is not dropped is kept. */
  lemma {:induction false} KeptFromComplete(labels: seq<string>, names: seq<string>, from: nat)
    requires from <= |labels|
    ensures forall k :: from <= k < |labels| && labels[k] !in names ==> k in KeptFrom(labels, names, from)
    decreases |labels| - from
  {
    if from < |labels| {
      KeptFromComplete(labels, names, from + 1);
    }
  }

  /** `df.drop(columns=names, errors='ignore')`: every column labelled with one of `names` goes, the rest stay in order. */
  function Drop(t: Table, names: seq<string>): (r: Table)
    requires IsRectangular(t)
    ensures IsRectangular(r)
    ensures |r.rows| == |t.rows|
    ensures forall j :: 0 <= j < |r.columns| ==> r.columns[j] !in names
    ensures
      var ks := KeptFrom(t.columns, names, 0);
      && r.columns == Pick(t.columns, ks)
      && (forall i :: 0 <= i < |t.rows| ==> r.rows[i] == Pick(t.rows[i], ks))
  {
    var ks := KeptFrom(t.columns, names, 0);
    Table(Pick(t.columns, ks), PickRows(t.rows, ks, |t.columns|))
  }

  /** `df.insert(0, name, range(1, len(df) + 1))`. */
  function InsertSerial(t: Table, name: string): (r: Table)
    requires IsRectangular(t)
    ensures IsRectangular(r)
    ensures r.columns == [name] + t.columns
    ensures |r.rows| == |t.rows|
    ensures forall i :: 0 <= i < |t.rows| ==> r.rows[i] == [Serial(i + 1)] + t.rows[i]
  {
    Table([name] + t.columns, Number(t.rows, 1))
  }

  /**
   * The final table: a fresh `Sr. No.` column holding exactly 1..N in row
   * order, then every column of the records except `Deductor Number` and
   * `Sr. No.`, in their original order and with their cells unchanged.
   */
  function Renumber(header: seq<string>, records: seq<seq<string>>): (t: Table)
    requires forall i :: 0 <= i < |records| ==> |records[i]| == |header|
    ensures IsRectangular(t)
    ensures |t.rows| == |records|
    ensures |t.columns| >= 1 && t.columns[0] == SerialColumn
    ensures forall j :: 1 <= j < |t.columns| ==> t.columns[j] !in DropColumns
    ensures forall i :: 0 <= i < |records| ==> t.rows[i][0] == Serial(i + 1)
    ensures
      var ks := KeptFrom(header, DropColumns, 0);
      && |t.columns| == 1 + |ks|
      && (forall j :: 0 <= j < |ks| ==> t.columns[j + 1] == header[ks[j]])
      && (forall i, j :: 0 <= i < |records| && 0 <= j < |ks| ==> t.rows[i][j + 1] == Text(records[i][ks[j]]))
  {
    RebuiltShape(header, records, DropColumns, SerialColumn);
    InsertSerial(Drop(Frame(header, records), DropColumns), SerialColumn)
  }

  /** `Renumber`'s promises, for any dropped names and any serial label. */
  lemma RebuiltShape(header: seq<string>, records: seq<seq<string>>, names: seq<string>, name: string)
    requires forall i :: 0 <= i < |records| ==> |records[i]| == |header|
    ensures var t := InsertSerial(Drop(Frame(header, records), names), name);
      && IsRectangular(t)
      && |t.rows| == |records|
      && |t.columns| >= 1 && t.columns[0] == name
      && (forall j :: 1 <= j < |t.columns| ==> t.columns[j] !in names)
      && (forall i :: 0 <= i < |records| ==> t.rows[i][0] == Serial(i + 1))
      && var ks := KeptFrom(header, names, 0);
      && |t.columns| == 1 + |ks|
      && (forall j :: 0 <= j < |ks| ==> t.columns[j + 1] == header[ks[j]])
      && (forall i, j :: 0 <= i < |records| && 0 <= j < |ks| ==> t.rows[i][j + 1] == Text(records[i][ks[j]]))
  {
    var frame := Frame(header, records);
    var dropped := Drop(frame, names);
    var t := InsertSerial(dropped, name);
    assert forall j :: 1 <= j < |t.columns| ==> t.columns[j] == dropped.columns[j - 1];
  }

  /** When neither dropped name is present, the table is the records behind a fresh serial column. */
  lemma NothingToDrop(header: seq<string>, records: seq<seq<string>>)
    requires forall i :: 0 <= i < |records| ==> |records[i]| == |header|
    requires forall k :: 0 <= k < |header| ==> header[k] !in DropColumns
    ensures Renumber(header, records).columns == [SerialColumn] + header
    ensures forall i, k :: 0 <= i < |records| && 0 <= k < |header| ==>
      Renumber(header, records).rows[i][k + 1] == Text(records[i][k])
  {
    AllKept(header, DropColumns, 0);
    KeepAllColumns(header, records);
    KeepAllCells(header, records);
  }

  /** With every column kept, the column labels are the header behind the serial label. */
  lemma KeepAllColumns(header: seq<string>, records: seq<seq<string>>)
    requires forall i :: 0 <= i < |records| ==> |records[i]| == |header|
    requires |KeptFrom(header, DropColumns, 0)| == |header|
    requires forall j :: 0 <= j < |header| ==> KeptFrom(header, DropColumns, 0)[j] == j
    ensures Renumber(header, records).columns == [SerialColumn] + header
  {
    var cols := Renumber(header, records).columns;
    assert cols[1..] == header;
    assert cols == [SerialColumn] + cols[1..];
  }

  /** With every column kept, each row is its record behind the row's serial number. */
  lemma KeepAllCells(header: seq<string>, records: seq<seq<string>>)
    requires forall i :: 0 <= i < |records| ==> |records[i]| == |header|
    requires |KeptFrom(header, DropColumns, 0)| == |header|
    requires forall j :: 0 <= j < |header| ==> KeptFrom(header, DropColumns, 0)[j] == j
    ensures forall i, k :: 0 <= i < |records| && 0 <= k < |header| ==>
      Renumber(header, records).rows[i][k + 1] == Text(records[i][k])
  {
  }

  /** With no name to drop from `from` on, every position from `from` on is kept. */
  lemma {:induction false} AllKept(labels: seq<string>, names: seq<string>, from: nat)
    requires from <= |labels|
    requires forall k :: from <= k < |labels| ==> labels[k] !in names
    ensures |KeptFrom(labels, names, from)| == |labels| - from
    ensures forall j :: 0 <= j < |labels| - from ==> KeptFrom(labels, names, from)[j] == from + j
    decreases |labels| - from
  {
    if from < |labels| {
      AllKept(labels, names, from + 1);
      var rest := KeptFrom(labels, names, from + 1);
      assert labels[from] !in names;
      assert KeptFrom(labels, names, from) == [from] + rest;
    }
  }
}
