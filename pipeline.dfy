/**
 * The logic of `main`: read the records with the collector for the file
 * type, and when that succeeded convert every record, in order, into an
 * IServ record. Writing the output file and printing errors are I/O and
 * are not part of this model; `Run` returns what would be written or the
 * error that would be printed.
 */
module Pipeline {
  import opened Wrappers
  import opened Passphrase
  import opened Records
  import opened Collectors

  /** The `--file-type` flag together with what the chosen reader yields. */
  datatype Source = Csv(rows: Rows) | Excel(sheet: Result<Rows, ReadError>)

  /** The records `main` obtains from the collector for the file type. */
  function ReadRecords(source: Source, recordType: RecordType): Result<seq<Record>, ReadError> {
    match source
    case Csv(rows) => CollectAs(rows, recordType)
    case Excel(sheet) => if sheet.Err? then Err(sheet.error) else CollectAs(sheet.value, recordType)
  }

  /**
   * The records can all be converted without a panic, and there is one
   * valid password draw per record, in record order.
   */
  predicate Ready(records: seq<Record>, wordFile: string, draws: seq<Draw>) {
    |draws| == |records| &&
    (forall k :: 0 <= k < |records| ==> Convertible(records[k])) &&
    (forall k :: 0 <= k < |draws| ==> ValidDraw(WordList(wordFile), draws[k]))
  }

  /** `r.into_iter().map(|r| r.into()).collect()`: one IServ record per record, same order. */
  function ConvertAll(records: seq<Record>, wordFile: string, draws: seq<Draw>): (out: seq<RecordIserv>)
    requires Ready(records, wordFile, draws)
    ensures |out| == |records|
    ensures forall k :: 0 <= k < |records| ==> out[k] == FromRecord(records[k], wordFile, draws[k])
  {
    if |records| == 0 then []
    else
      assert Ready(records[1..], wordFile, draws[1..]);
      [FromRecord(records[0], wordFile, draws[0])] + ConvertAll(records[1..], wordFile, draws[1..])
  }

  /**
   * `main` up to writing: the collector's error is passed on unchanged;
   * otherwise every record is converted, in order.
   */
  method Run(source: Source, recordType: RecordType, wordFile: string, draws: seq<Draw>)
    returns (res: Result<seq<RecordIserv>, ReadError>)
    requires ReadRecords(source, recordType).Ok? ==> Ready(ReadRecords(source, recordType).value, wordFile, draws)
    ensures res.Err? <==> ReadRecords(source, recordType).Err?
    ensures res.Err? ==> res.error == ReadRecords(source, recordType).error
    ensures res.Ok? ==> res.value == ConvertAll(ReadRecords(source, recordType).value, wordFile, draws)
  {
    var records: Result<seq<Record>, ReadError>;
    match source {
      case Csv(rows) =>
        records := GetAllCsvRecords(rows, recordType);
      case Excel(sheet) =>
        records := GetAllXlsxRecords(sheet, recordType);
    }
    match records {
      case Ok(r) =>
        res := Ok(ConvertAll(r, wordFile, draws));
      case Err(e) =>
        res := Err(e);
    }
  }

  /**
   * A run over SchILD rows that were all read: one IServ record per row,
   * in row order, names and GUID passed through and the class bucketed.
   */
  lemma {:induction false} SchildRunPreservesRows(rows: seq<Result<RecordSchild, ReadError>>, wordFile: string, draws: seq<Draw>)
    requires forall k :: 0 <= k < |rows| ==> rows[k].Ok?
    requires |draws| == |rows| && forall k :: 0 <= k < |draws| ==> ValidDraw(WordList(wordFile), draws[k])
    ensures Collect(rows, TagSchild).Ok?
    ensures Ready(Collect(rows, TagSchild).value, wordFile, draws)
    ensures var out := ConvertAll(Collect(rows, TagSchild).value, wordFile, draws);
            |out| == |rows| &&
            forall k :: 0 <= k < |rows| ==>
              out[k].nachname == rows[k].value.nachname && out[k].vorname == rows[k].value.vorname &&
              out[k].klasse == GradeBucket(rows[k].value.klasse) && out[k].importId == rows[k].value.guid &&
              IsPassphrase(out[k].password, WordList(wordFile))
  {
    CollectCharacterised(rows, TagSchild);
  }

  /**
   * A run over guest-student rows that were all read and whose names are
   * convertible: one IServ record per row, in row order, each the
   * conversion of its row.
   */
  lemma {:induction false} GastschuelerRunPreservesRows(rows: seq<Result<RecordGastschueler, ReadError>>, wordFile: string, draws: seq<Draw>)
    requires forall k :: 0 <= k < |rows| ==> rows[k].Ok? && ConvertibleName(rows[k].value.name)
    requires |draws| == |rows| && forall k :: 0 <= k < |draws| ==> ValidDraw(WordList(wordFile), draws[k])
    ensures Collect(rows, TagGastschueler).Ok?
    ensures Ready(Collect(rows, TagGastschueler).value, wordFile, draws)
    ensures var out := ConvertAll(Collect(rows, TagGastschueler).value, wordFile, draws);
            |out| == |rows| &&
            forall k :: 0 <= k < |rows| ==>
              out[k] == FromGastschueler(rows[k].value, wordFile, draws[k]) &&
              out[k].klasse == rows[k].value.klasse && out[k].importId == rows[k].value.schuelernr
  {
    CollectCharacterised(rows, TagGastschueler);
  }

  /** One unreadable row anywhere makes the whole run fail: no record is converted. */
  lemma {:induction false} BadRowAbortsRun(rows: Rows, recordType: RecordType, i: nat)
    requires recordType == SchildRows ==> i < |rows.asSchild| && rows.asSchild[i].Err?
    requires recordType == GastschuelerRows ==> i < |rows.asGastschueler| && rows.asGastschueler[i].Err?
    ensures ReadRecords(Csv(rows), recordType).Err?
    ensures ReadRecords(Excel(Ok(rows)), recordType).Err?
  {
    match recordType
    case SchildRows => CollectCharacterised(rows.asSchild, TagSchild);
    case GastschuelerRows => CollectCharacterised(rows.asGastschueler, TagGastschueler);
  }
}
