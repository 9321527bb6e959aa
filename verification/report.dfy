/**
 * The spreadsheet step of `process_pdf_folder`: the collected records become
 * a table with the fixed `EXCEL_COLUMNS`, whose qualifications column has
 * every ';' turned into a line break. Writing the file is left to the caller;
 * when there is no record, no table is produced at all.
 */
module Report {
  import opened Wrappers
  import opened Json
  import opened Text

  /** `EXCEL_COLUMNS`, in sheet order. */
  const ExcelColumns: seq<string> := [
    "Raison sociale", "Sigle", "Responsabilit\U{E9} l\U{E9}gale", "Adresse",
    "T\U{E9}l\U{E9}phone", "Portable", "E-mail", "Site Internet", "SIRET",
    "Code NACE", "Assurance Travaux", "Assurance Civile", "Effectif moyen",
    "Chiffre d\U{2019}affaires H.T.", "Qualifications professionnelles"
  ]

  /** The column whose separators are rewritten. */
  const Qualifications: string := "Qualifications professionnelles"

  /** One sheet row: (column, cell) pairs in column order. */
  type Row = seq<(string, Value)>

  /** The columns are fifteen distinct names, the qualifications column last. */
  lemma ColumnsShape()
    ensures |ExcelColumns| == 15
    ensures ExcelColumns[14] == Qualifications
    ensures forall i, j :: 0 <= i < j < |ExcelColumns| ==> ExcelColumns[i] != ExcelColumns[j]
  {
  }

  /** The cell a record gives a column: its value, or an empty cell when the key is missing. */
  function Cell(rec: Record, column: string): Value {
    if column in rec then rec[column] else Null
  }

  /** One DataFrame row built from a record with `columns=EXCEL_COLUMNS`. */
  function FrameRow(rec: Record): Row {
    seq(|ExcelColumns|, i requires 0 <= i < |ExcelColumns| => (ExcelColumns[i], Cell(rec, ExcelColumns[i])))
  }

  /**
   * `.str.replace(";", "\n")` on one cell: a string has its separators
   * replaced; any other cell comes out empty, as pandas gives NaN there.
   */
  function SplitLines(v: Value): (r: Value)
    ensures v.Str? ==> r.Str? && |r.text| == |v.text| && ';' !in r.text
    ensures v.Str? ==> forall k :: 0 <= k < |v.text| ==>
      r.text[k] == (if v.text[k] == ';' then '\n' else v.text[k])
    ensures !v.Str? ==> r == Null
  {
    match v
    case Str(s) => Str(ReplaceChar(s, ';', '\n'))
    case _ => Null
  }

  /** `df[column] = f(df[column])`: every cell of that column rewritten, the others kept. */
  function MapColumn(rows: seq<Row>, column: string, f: Value -> Value): (r: seq<Row>)
  {
    seq(|rows|, k requires 0 <= k < |rows| =>
      seq(|rows[k]|, i requires 0 <= i < |rows[k]| =>
        if rows[k][i].0 == column then (column, f(rows[k][i].1)) else rows[k][i]))
  }

  /**
   * The table `process_pdf_folder` writes for its records: none when there is
   * no record; otherwise one row per record, in order, holding exactly the
   * fifteen columns in sheet order, each cell the record's value for that
   * column (empty when missing, extra keys ignored), except that the
   * qualifications cell has its ';' turned into line breaks.
   */
  function Export(records: seq<Record>): (table: Option<seq<Row>>)
    ensures table.None? <==> records == []
    ensures table.Some? ==> |table.value| == |records|
    ensures table.Some? ==> forall k :: 0 <= k < |records| ==> |table.value[k]| == |ExcelColumns|
    ensures table.Some? ==> forall k, i :: 0 <= k < |records| && 0 <= i < |ExcelColumns| ==>
      table.value[k][i].0 == ExcelColumns[i]
    ensures table.Some? ==> forall k, i :: 0 <= k < |records| && 0 <= i < |ExcelColumns| - 1 ==>
      table.value[k][i].1 == Cell(records[k], ExcelColumns[i])
    ensures table.Some? ==> forall k :: 0 <= k < |records| ==>
      table.value[k][14].1 == SplitLines(Cell(records[k], Qualifications))
  {
    ColumnsShape();
    if records == [] then None
    else
      var frame := seq(|records|, k requires 0 <= k < |records| => FrameRow(records[k]));
      Some(MapColumn(frame, Qualifications, SplitLines))
  }

  /** No qualifications cell of the table holds a ';'. */
  lemma NoSeparatorLeft(records: seq<Record>, k: nat)
    requires records != [] && k < |records|
    ensures Export(records).value[k][14].1.Str? ==> ';' !in Export(records).value[k][14].1.text
  {
  }

  /** Only the fifteen columns of a record matter: records that agree on them give the same table. */
  lemma OnlyColumnsMatter(r1: seq<Record>, r2: seq<Record>)
    requires |r1| == |r2|
    requires forall k, i :: 0 <= k < |r1| && 0 <= i < |ExcelColumns| ==>
      Cell(r1[k], ExcelColumns[i]) == Cell(r2[k], ExcelColumns[i])
    ensures Export(r1) == Export(r2)
  {
    if r1 != [] {
      var t1: seq<Row> := Export(r1).value;
      var t2: seq<Row> := Export(r2).value;
      forall k | 0 <= k < |r1|
        ensures t1[k] == t2[k]
      {
        assert Cell(r1[k], ExcelColumns[14]) == Cell(r2[k], ExcelColumns[14]);
        forall i | 0 <= i < |ExcelColumns|
          ensures t1[k][i] == t2[k][i]
        {
          if i < 14 {
            assert t1[k][i].1 == t2[k][i].1;
          }
        }
      }
      assert t1 == t2;
    }
  }

  /** Reading a row back: the record that maps each column to its cell. */
  function RowRecord(row: Row): Record {
    if row == [] then map[] else RowRecord(row[..|row| - 1])[row[|row| - 1].0 := row[|row| - 1].1]
  }

  predicate DistinctKeys(row: Row) {
    forall i, j :: 0 <= i < j < |row| ==> row[i].0 != row[j].0
  }

  /** A row with distinct columns reads back to exactly its cells. */
  lemma {:induction false} RowRecordCells(row: Row)
    requires DistinctKeys(row)
    ensures forall c :: c in RowRecord(row) <==> exists i :: 0 <= i < |row| && row[i].0 == c
    ensures forall i :: 0 <= i < |row| ==> RowRecord(row)[row[i].0] == row[i].1
    decreases |row|
  {
    if row != [] {
      var init := row[..|row| - 1];
      assert DistinctKeys(init);
      RowRecordCells(init);
      RowKeysStep(row);
      RowValuesStep(row);
    }
  }

  /** The keys of a read-back row: those of all but the last cell, and the last. */
  lemma RowKeysStep(row: Row)
    requires row != []
    requires var init := row[..|row| - 1];
      forall c :: c in RowRecord(init) <==> exists i :: 0 <= i < |init| && init[i].0 == c
    ensures forall c :: c in RowRecord(row) <==> exists i :: 0 <= i < |row| && row[i].0 == c
  {
    var init := row[..|row| - 1];
    var last := row[|row| - 1];
    assert RowRecord(row) == RowRecord(init)[last.0 := last.1];
    forall c | c in RowRecord(row)
      ensures exists i :: 0 <= i < |row| && row[i].0 == c
    {
      if c != last.0 {
        var i :| 0 <= i < |init| && init[i].0 == c;
        assert row[i].0 == c;
      }
    }
    forall c | exists i :: 0 <= i < |row| && row[i].0 == c
      ensures c in RowRecord(row)
    {
      var i :| 0 <= i < |row| && row[i].0 == c;
      if i < |row| - 1 {
        assert init[i].0 == c;
      }
    }
  }

  /** The values of a read-back row: the last cell's column is not overwritten by the others. */
  lemma RowValuesStep(row: Row)
    requires row != [] && DistinctKeys(row)
    requires var init := row[..|row| - 1];
      forall c :: c in RowRecord(init) <==> exists i :: 0 <= i < |init| && init[i].0 == c
    requires forall c :: c in RowRecord(row) <==> exists i :: 0 <= i < |row| && row[i].0 == c
    requires var init := row[..|row| - 1];
      forall i :: 0 <= i < |init| ==> RowRecord(init)[init[i].0] == init[i].1
    ensures forall i :: 0 <= i < |row| ==> RowRecord(row)[row[i].0] == row[i].1
  {
    var init := row[..|row| - 1];
    var last := row[|row| - 1];
    assert RowRecord(row) == RowRecord(init)[last.0 := last.1];
    forall i | 0 <= i < |row| - 1
      ensures RowRecord(row)[row[i].0] == row[i].1
    {
      assert row[i] == init[i];
      assert row[i].0 != last.0;
    }
  }

  /** The record holds a string for every one of the fifteen columns and no other key. */
  ghost predicate FullRecord(rec: Record) {
    && (forall c :: c in rec <==> c in ExcelColumns)
    && (forall c :: c in rec ==> rec[c].Str?)
  }

  /**
   * A record with a string in each of the fifteen columns survives the
   * sheet: reading its row back gives the record, with the ';' of its
   * qualifications turned into line breaks.
   */
  lemma RoundTrip(rec: Record)
    requires FullRecord(rec)
    ensures Export([rec]).Some?
    ensures RowRecord(Export([rec]).value[0]) == rec[Qualifications := SplitLines(rec[Qualifications])]
  {
    ColumnsShape();
    var row := Export([rec]).value[0];
    assert DistinctKeys(row);
    RowRecordCells(row);
    var back := RowRecord(row);
    var want := rec[Qualifications := SplitLines(rec[Qualifications])];
    forall c
      ensures c in back <==> c in want
    {
      if c in want {
        var i :| 0 <= i < |ExcelColumns| && ExcelColumns[i] == c;
        assert row[i].0 == c;
      }
    }
    forall c | c in back
      ensures back[c] == want[c]
    {
      var i :| 0 <= i < |row| && row[i].0 == c;
      assert back[row[i].0] == row[i].1;
    }
  }
}
