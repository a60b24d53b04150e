/**
  The table `Data` of src/snip_tsv.py and its reader `read_file` and writer
  `write_records`, at the level of already-split rows: the `csv` module's
  tokenising and quoting is not part of this model.
*/
module Table {
  import opened Results
  import opened Coercion

  /** `Data(records, header, filename)`: an immutable named tuple. */
  datatype Data = Data(records: seq<seq<Value>>, header: Option<seq<string>>, filename: Option<string>)

  /** `row[col]` does not raise: Python also accepts negative positions, counted from the end. */
  predicate ValidIndex<T>(row: seq<T>, col: int)
  {
    -|row| <= col < |row|
  }

  /** `row[col]` */
  function Cell<T>(row: seq<T>, col: int): (c: T)
    requires ValidIndex(row, col)
    ensures col >= 0 ==> c == row[col]
    ensures col < 0 ==> c == row[|row| + col]
  {
    if col >= 0 then row[col] else row[|row| + col]
  }

  /** Every row can be indexed at `col`. */
  predicate Indexable<T>(rows: seq<seq<T>>, col: int)
  {
    forall i :: 0 <= i < |rows| ==> ValidIndex(rows[i], col)
  }

  /** Cell `i` is the first of `cells` whose coercion raises, and it raises `e`. */
  ghost predicate FirstCellFailure(eval: Evaluator, cells: seq<string>, i: int, e: Error)
  {
    && 0 <= i < |cells|
    && Coerce(eval, Some(cells[i])) == Failure(e)
    && forall j :: 0 <= j < i ==> Coerce(eval, Some(cells[j])).Success?
  }

  /** `[coerce(c) for c in row]`, raising the first cell's exception. */
  function CoerceCells(eval: Evaluator, cells: seq<string>): (r: Result<seq<Value>, Error>)
    ensures r.Success? <==> forall i :: 0 <= i < |cells| ==> Coerce(eval, Some(cells[i])).Success?
    ensures r.Success? ==> |r.value| == |cells|
    ensures r.Success? ==> forall i :: 0 <= i < |cells| ==> Success(r.value[i]) == Coerce(eval, Some(cells[i]))
    ensures r.Failure? ==> exists i :: FirstCellFailure(eval, cells, i, r.error)
    decreases |cells|
  {
    if cells == [] then Success([])
    else
      match Coerce(eval, Some(cells[0]))
      case Failure(e) =>
        assert FirstCellFailure(eval, cells, 0, e);
        Failure(e)
      case Success(v) =>
        match CoerceCells(eval, cells[1..])
        case Failure(e) =>
          ghost var k :| FirstCellFailure(eval, cells[1..], k, e);
          assert FirstCellFailure(eval, cells, k + 1, e);
          Failure(e)
        case Success(vs) => Success([v] + vs)
  }

  /** Row `i` is the first row holding a cell whose coercion raises, and its first such cell raises `e`. */
  ghost predicate FirstRowFailure(eval: Evaluator, rows: seq<seq<string>>, i: int, e: Error)
  {
    && 0 <= i < |rows|
    && CoerceCells(eval, rows[i]) == Failure(e)
    && forall j :: 0 <= j < i ==> CoerceCells(eval, rows[j]).Success?
  }

  /** `[[coerce(c) for c in row] for row in rows]`: rows in order, cells in order. */
  function CoerceRows(eval: Evaluator, rows: seq<seq<string>>): (r: Result<seq<seq<Value>>, Error>)
    ensures r.Success? <==> forall i :: 0 <= i < |rows| ==> CoerceCells(eval, rows[i]).Success?
    ensures r.Success? ==> |r.value| == |rows|
    ensures r.Success? ==> forall i :: 0 <= i < |rows| ==> Success(r.value[i]) == CoerceCells(eval, rows[i])
    ensures r.Failure? ==> exists i :: FirstRowFailure(eval, rows, i, r.error)
    decreases |rows|
  {
    if rows == [] then Success([])
    else
      match CoerceCells(eval, rows[0])
      case Failure(e) =>
        assert FirstRowFailure(eval, rows, 0, e);
        Failure(e)
      case Success(row) =>
        match CoerceRows(eval, rows[1..])
        case Failure(e) =>
          ghost var k :| FirstRowFailure(eval, rows[1..], k, e);
          assert FirstRowFailure(eval, rows, k + 1, e);
          Failure(e)
        case Success(rest) => Success([row] + rest)
  }

  /** The number of leading rows `read_file` takes as the header. */
  function HeaderRows(hasHeader: bool): nat
  {
    if hasHeader then 1 else 0
  }

  /**
    `read_file(file, delimiter, has_header)` on the rows the CSV reader yields:
    the first row is the header only when `has_header` is set (and `next`
    raises StopIteration when there is none); every other row becomes a
    record of coerced cells; the filename is left unset.
  */
  function ReadFile(eval: Evaluator, rows: seq<seq<string>>, hasHeader: bool): (r: Result<Data, Error>)
    ensures hasHeader && rows == [] ==> r == Failure(StopIteration)
    ensures r.Failure? && !(hasHeader && rows == []) ==>
      exists i :: FirstRowFailure(eval, rows[HeaderRows(hasHeader)..], i, r.error)
    ensures r.Success? <==>
      && !(hasHeader && rows == [])
      && forall i, j :: HeaderRows(hasHeader) <= i < |rows| && 0 <= j < |rows[i]| ==>
           Coerce(eval, Some(rows[i][j])).Success?
    ensures r.Success? ==> r.value.header == (if hasHeader then Some(rows[0]) else None)
    ensures r.Success? ==> r.value.filename == None
    ensures r.Success? ==> |r.value.records| == |rows| - HeaderRows(hasHeader)
    ensures r.Success? ==> forall i :: 0 <= i < |r.value.records| ==>
      |r.value.records[i]| == |rows[i + HeaderRows(hasHeader)]|
    ensures r.Success? ==> forall i, j :: 0 <= i < |r.value.records| && 0 <= j < |r.value.records[i]| ==>
      Success(r.value.records[i][j]) == Coerce(eval, Some(rows[i + HeaderRows(hasHeader)][j]))
  {
    if hasHeader && rows == [] then Failure(StopIteration)
    else
      var body := rows[HeaderRows(hasHeader)..];
      match CoerceRows(eval, body)
      case Failure(e) =>
        ghost var k :| FirstRowFailure(eval, body, k, e);
        ghost var m :| FirstCellFailure(eval, body[k], m, e);
        assert Coerce(eval, Some(rows[k + HeaderRows(hasHeader)][m])).Failure?;
        Failure(e)
      case Success(recs) =>
        assert forall i :: 0 <= i < |recs| ==> Success(recs[i]) == CoerceCells(eval, body[i]);
        Success(Data(recs, if hasHeader then Some(rows[0]) else None, None))
  }

  /** One row handed to the CSV writer. */
  datatype OutRow = HeaderRow(names: seq<string>) | RecordRow(cells: seq<Value>)

  /** What `write_records` emits and the status it returns. */
  datatype Written = Written(rows: seq<OutRow>, status: int)

  /** `writer.writerows(records)` */
  function RecordRows(records: seq<seq<Value>>): (out: seq<OutRow>)
    ensures |out| == |records|
    ensures forall i :: 0 <= i < |records| ==> out[i] == RecordRow(records[i])
    decreases |records|
  {
    if records == [] then [] else [RecordRow(records[0])] + RecordRows(records[1..])
  }

  /**
    `write_records(data, out_file, delimiter)`: the header, when there is one,
    comes first, then every record in order; the status is 0.
  */
  function WriteRecords(data: Data): (w: Written)
    ensures w.status == 0
    ensures |w.rows| == |data.records| + (if data.header.Some? then 1 else 0)
    ensures data.header.Some? ==> w.rows[0] == HeaderRow(data.header.value)
    ensures forall i :: 0 <= i < |data.records| ==>
      w.rows[i + (if data.header.Some? then 1 else 0)] == RecordRow(data.records[i])
  {
    var head := if data.header.Some? then [HeaderRow(data.header.value)] else [];
    Written(head + RecordRows(data.records), 0)
  }

  /** The text cells a written row becomes, given how each value is printed. */
  function Render(row: OutRow, show: Value -> string): (text: seq<string>)
    ensures row.HeaderRow? ==> text == row.names
    ensures row.RecordRow? ==> |text| == |row.cells|
    ensures row.RecordRow? ==> forall j :: 0 <= j < |row.cells| ==> text[j] == show(row.cells[j])
  {
    match row
    case HeaderRow(names) => names
    case RecordRow(cells) => seq(|cells|, j requires 0 <= j < |cells| => show(cells[j]))
  }

  function RenderAll(rows: seq<OutRow>, show: Value -> string): (text: seq<seq<string>>)
    ensures |text| == |rows|
    ensures forall i :: 0 <= i < |rows| ==> text[i] == Render(rows[i], show)
  {
    seq(|rows|, i requires 0 <= i < |rows| => Render(rows[i], show))
  }

  /** Coercing the printed form of each value of the record gives that value back. */
  ghost predicate RecordInverts(eval: Evaluator, show: Value -> string, record: seq<Value>)
  {
    forall j :: 0 <= j < |record| ==> Coerce(eval, Some(show(record[j]))) == Success(record[j])
  }

  /** Coercing the printed form of each value in the records gives that value back. */
  ghost predicate RecordsInvert(eval: Evaluator, show: Value -> string, records: seq<seq<Value>>)
  {
    forall i :: 0 <= i < |records| ==> RecordInverts(eval, show, records[i])
  }

  /** Coercing the printed cells of a record gives the record back. */
  lemma ReadRenderedRecord(eval: Evaluator, show: Value -> string, record: seq<Value>)
    requires RecordInverts(eval, show, record)
    ensures CoerceCells(eval, Render(RecordRow(record), show)) == Success(record)
  {
    var text := Render(RecordRow(record), show);
    var r := CoerceCells(eval, text);
    forall j | 0 <= j < |text| ensures Coerce(eval, Some(text[j])) == Success(record[j]) {
      assert text[j] == show(record[j]);
    }
    assert r.value == record;
  }

  /** Coercing the printed rows of the records gives the records back. */
  lemma ReadRenderedRecords(eval: Evaluator, show: Value -> string, records: seq<seq<Value>>)
    requires RecordsInvert(eval, show, records)
    ensures CoerceRows(eval, RenderAll(RecordRows(records), show)) == Success(records)
  {
    var text := RenderAll(RecordRows(records), show);
    forall i | 0 <= i < |text| ensures CoerceCells(eval, text[i]) == Success(records[i]) {
      ReadRenderedRecord(eval, show, records[i]);
    }
    var r := CoerceRows(eval, text);
    assert r.value == records;
  }

  /**
    Reading back what `write_records` wrote gives the same header and
    records (the filename is not written), provided coercing the printed
    form of each value in the table gives that value back.
  */
  lemma ReadAfterWrite(eval: Evaluator, show: Value -> string, data: Data)
    requires RecordsInvert(eval, show, data.records)
    ensures ReadFile(eval, RenderAll(WriteRecords(data).rows, show), data.header.Some?) ==
      Success(Data(data.records, data.header, None))
  {
    var text := RenderAll(WriteRecords(data).rows, show);
    var off := HeaderRows(data.header.Some?);
    assert text[off..] == RenderAll(RecordRows(data.records), show);
    ReadRenderedRecords(eval, show, data.records);
    if data.header.Some? {
      assert text[0] == data.header.value;
    }
  }
}
