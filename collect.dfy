/**
 * The row-collecting loops of `get_all_csv_records_in_file` and
 * `get_all_xlsx_records_in_file`. The CSV and spreadsheet readers are
 * abstracted to what they hand to the loop: one deserialisation result per
 * data row, in file order.
 */
module Collectors {
  import opened Wrappers
  import opened Records

  /** The `--record-type` flag: which source shape every row of the run is read as. */
  datatype RecordType = SchildRows | GastschuelerRows

  /** An error reported by the CSV or spreadsheet reader (I/O, header mismatch, missing field). */
  datatype ReadError = ReadError(message: string)

  /** The deserialisation results a reader yields for one table, when asked for each source shape. */
  datatype Rows = Rows(
    asSchild: seq<Result<RecordSchild, ReadError>>,
    asGastschueler: seq<Result<RecordGastschueler, ReadError>>)

  function TagSchild(s: RecordSchild): Record { Schild(s) }
  function TagGastschueler(g: RecordGastschueler): Record { Gastschueler(g) }

  /**
   * What the loop `for row in rows { let record = row?; records.push(tag(record)); }`
   * followed by `Ok(records)` returns.
   */
  function Collect<T>(rows: seq<Result<T, ReadError>>, tag: T -> Record): Result<seq<Record>, ReadError> {
    if |rows| == 0 then Ok([])
    else if rows[0].Err? then Err(rows[0].error)
    else
      match Collect(rows[1..], tag)
      case Ok(rest) => Ok([tag(rows[0].value)] + rest)
      case Err(e) => Err(e)
  }

  /**
   * The collection is all or nothing: it succeeds exactly when every row was
   * read, and then holds one record per row in row order; otherwise it
   * returns the error of the first bad row.
   */
  lemma {:induction false} CollectCharacterised<T>(rows: seq<Result<T, ReadError>>, tag: T -> Record)
    ensures Collect(rows, tag).Ok? <==> forall k :: 0 <= k < |rows| ==> rows[k].Ok?
    ensures Collect(rows, tag).Ok? ==>
              |Collect(rows, tag).value| == |rows| &&
              forall k :: 0 <= k < |rows| ==> Collect(rows, tag).value[k] == tag(rows[k].value)
    ensures Collect(rows, tag).Err? ==>
              exists k :: 0 <= k < |rows| && rows[k] == Err(Collect(rows, tag).error) &&
                          forall j :: 0 <= j < k ==> rows[j].Ok?
  {
    if |rows| > 0 && rows[0].Ok? {
      var tail := rows[1..];
      CollectCharacterised(tail, tag);
      assert forall k :: 1 <= k < |rows| ==> rows[k] == tail[k - 1];
      match Collect(tail, tag)
      case Ok(rest) =>
      case Err(e) =>
        var k :| 0 <= k < |tail| && tail[k] == Err(e) && forall j :: 0 <= j < k ==> tail[j].Ok?;
        assert rows[k + 1] == Err(e);
    }
  }

  /** The loop of both collectors, proved against `Collect`. */
  method PushRows<T>(rows: seq<Result<T, ReadError>>, tag: T -> Record) returns (res: Result<seq<Record>, ReadError>)
    ensures res.Ok? <==> forall k :: 0 <= k < |rows| ==> rows[k].Ok?
    ensures res.Ok? ==> |res.value| == |rows| && forall k :: 0 <= k < |rows| ==> res.value[k] == tag(rows[k].value)
    ensures res.Err? ==> exists k :: 0 <= k < |rows| && rows[k] == Err(res.error) && forall j :: 0 <= j < k ==> rows[j].Ok?
    ensures res == Collect(rows, tag)
  {
    var records: seq<Record> := [];
    for i := 0 to |rows|
      invariant |records| == i
      invariant forall k :: 0 <= k < i ==> rows[k].Ok? && records[k] == tag(rows[k].value)
    {
      if rows[i].Err? {
        res := Err(rows[i].error);
        CollectFirstError(rows, tag, i);
        return;
      }
      records := records + [tag(rows[i].value)];
    }
    res := Ok(records);
    CollectCharacterised(rows, tag);
    assert Collect(rows, tag).value == records;
  }

  /** The first bad row decides the error. */
  lemma {:induction false} CollectFirstError<T>(rows: seq<Result<T, ReadError>>, tag: T -> Record, i: nat)
    requires i < |rows| && rows[i].Err?
    requires forall k :: 0 <= k < i ==> rows[k].Ok?
    ensures Collect(rows, tag) == Err(rows[i].error)
  {
    if i > 0 {
      CollectFirstError(rows[1..], tag, i - 1);
    }
  }

  /** What a collector returns for the chosen record type. */
  function CollectAs(rows: Rows, recordType: RecordType): Result<seq<Record>, ReadError> {
    match recordType
    case SchildRows => Collect(rows.asSchild, TagSchild)
    case GastschuelerRows => Collect(rows.asGastschueler, TagGastschueler)
  }

  /** Every record of a successful collection has the variant the record type selects. */
  lemma {:induction false} CollectAsTagged(rows: Rows, recordType: RecordType)
    ensures CollectAs(rows, recordType).Ok? ==>
              forall k :: 0 <= k < |CollectAs(rows, recordType).value| ==>
                (CollectAs(rows, recordType).value[k].Schild? <==> recordType == SchildRows)
  {
    match recordType
    case SchildRows => CollectCharacterised(rows.asSchild, TagSchild);
    case GastschuelerRows => CollectCharacterised(rows.asGastschueler, TagGastschueler);
  }

  /**
   * `get_all_csv_records_in_file` after the file is opened and decoded: the
   * rows of the chosen shape, tagged, or the first reader error.
   */
  method GetAllCsvRecords(rows: Rows, recordType: RecordType) returns (res: Result<seq<Record>, ReadError>)
    ensures res == CollectAs(rows, recordType)
  {
    match recordType
    case SchildRows =>
      res := PushRows(rows.asSchild, TagSchild);
    case GastschuelerRows =>
      res := PushRows(rows.asGastschueler, TagGastschueler);
  }

  /**
   * `get_all_xlsx_records_in_file`: `sheet` is the outcome of opening the
   * workbook, taking its first sheet and reading its header row; any error
   * there is returned before a single row is read.
   */
  method GetAllXlsxRecords(sheet: Result<Rows, ReadError>, recordType: RecordType) returns (res: Result<seq<Record>, ReadError>)
    ensures sheet.Err? ==> res == Err(sheet.error)
    ensures sheet.Ok? ==> res == CollectAs(sheet.value, recordType)
  {
    if sheet.Err? {
      return Err(sheet.error);
    }
    match recordType
    case SchildRows =>
      res := PushRows(sheet.value.asSchild, TagSchild);
    case GastschuelerRows =>
      res := PushRows(sheet.value.asGastschueler, TagGastschueler);
  }
}
