/**
 * The `/upload/` endpoint: a semicolon-separated file of measurement rows
 * becomes one dataset named after the file.
 *
 * Refuse a name already in use; create the dataset; skip the header row;
 * parse the data rows in order, stopping at the first bad one; insert all
 * records in one batch. A row that does not parse and a refused batch remove
 * the new dataset again; a row with too few cells and an empty file do not.
 *
 * `UploadSpec` states the outcome and the new store as a function of the old
 * store; the method `Upload` runs the endpoint's steps against a
 * `DatasetStore` object, with the row loop in `ReadRows`, and is proved to
 * agree with it. `AtomicUploadSpec` and `AtomicUpload` are the variant in
 * which every failure after the creation removes the new dataset.
 */
module Upload {
  import opened Wrappers
  import opened Rows
  import opened Store

  datatype ErrorKind =
    | DuplicateName      // a dataset with the file's name exists
    | EmptyFile          // no header row to skip
    | ShortRow           // a data row with fewer than 14 cells
    | BadRow(row: seq<string>)  // a date, time or number that does not convert
    | InsertFailed       // the database refused the batch

  /** What the endpoint answers: a success message, or an error kind and its detail text. */
  datatype UploadResult = Uploaded(message: string) | Failed(kind: ErrorKind, detail: string)

  const SuccessMessage := "Successfully uploaded file."
  const DuplicateMessage := "Error, dataset with same name already uploaded, please rename your dataset"
  const ShortRowMessage :=
    "Error during upload, file does not conform to standard (missing columns), please format accordingly."
  const BadRowPrefix := "Error when parsing row, sequence of data is wrong, row in question ("
  const InsertMessage := "Unable to create dataset, error with database, please contact repository maintainer"

  // ---------------------------------------------------------------------------
  // The detail text of a bad row

  /**
   * A cell between single quotes, as Python prints a plain string inside a
   * list. Python's escaping of quotes, backslashes, control and non-printable
   * characters, and its switch to double quotes, are not modelled.
   */
  function CellRepr(cell: string): string
  {
    "'" + cell + "'"
  }

  function JoinReprs(cells: seq<string>): string
  {
    if |cells| == 0 then ""
    else if |cells| == 1 then CellRepr(cells[0])
    else JoinReprs(cells[..|cells| - 1]) + ", " + CellRepr(cells[|cells| - 1])
  }

  /** A row as Python prints a list of strings: `['a', 'b']`. */
  function RowRepr(row: seq<string>): string
  {
    "[" + JoinReprs(row) + "]"
  }

  function BadRowMessage(row: seq<string>): (m: string)
    ensures |m| > |BadRowPrefix| && m[..|BadRowPrefix|] == BadRowPrefix && m[|m| - 1] == ')'
  {
    BadRowPrefix + RowRepr(row) + ")"
  }

  /** t occurs in s starting at position i. */
  predicate OccursAt(t: string, s: string, i: int)
  {
    0 <= i <= |s| - |t| && s[i..i + |t|] == t
  }

  /** t occurs in s as a contiguous piece. */
  ghost predicate Occurs(t: string, s: string)
  {
    exists i :: OccursAt(t, s, i)
  }

  lemma OccursLeft(t: string, a: string, b: string)
    requires Occurs(t, a)
    ensures Occurs(t, a + b)
  {
    var i :| OccursAt(t, a, i);
    assert (a + b)[i..i + |t|] == a[i..i + |t|];
    assert OccursAt(t, a + b, i);
  }

  lemma OccursRight(t: string, a: string, b: string)
    requires Occurs(t, b)
    ensures Occurs(t, a + b)
  {
    var i :| OccursAt(t, b, i);
    assert (a + b)[|a| + i..|a| + i + |t|] == b[i..i + |t|];
    assert OccursAt(t, a + b, |a| + i);
  }

  lemma Whole(t: string)
    ensures Occurs(t, t)
  {
    assert t[0..|t|] == t;
    assert OccursAt(t, t, 0);
  }

  lemma {:induction false} JoinShowsCell(cells: seq<string>, k: nat)
    requires k < |cells|
    ensures Occurs(CellRepr(cells[k]), JoinReprs(cells))
  {
    var c := CellRepr(cells[k]);
    if |cells| == 1 {
      Whole(c);
    } else if k == |cells| - 1 {
      Whole(c);
      OccursRight(c, JoinReprs(cells[..|cells| - 1]) + ", ", c);
    } else {
      var init := cells[..|cells| - 1];
      assert init[k] == cells[k];
      JoinShowsCell(init, k);
      OccursLeft(c, JoinReprs(init), ", " + CellRepr(cells[|cells| - 1]));
      assert JoinReprs(init) + ", " + CellRepr(cells[|cells| - 1])
          == JoinReprs(init) + (", " + CellRepr(cells[|cells| - 1]));
    }
  }

  /** The detail of a bad row shows every one of its cells. */
  lemma BadRowMessageShowsRow(row: seq<string>, k: nat)
    requires k < |row|
    ensures Occurs(CellRepr(row[k]), BadRowMessage(row))
  {
    var c := CellRepr(row[k]);
    JoinShowsCell(row, k);
    OccursRight(c, BadRowPrefix + "[", JoinReprs(row));
    OccursLeft(c, BadRowPrefix + "[" + JoinReprs(row), "])");
    assert BadRowMessage(row) == BadRowPrefix + "[" + JoinReprs(row) + "])";
  }

  // ---------------------------------------------------------------------------
  // The endpoint as a function of the store

  /**
   * The answer and the new store for an upload of `file` (its rows already
   * split into cells) under `filename`, when the database's verdict on the
   * batch insert is `accepted`.
   */
  function UploadSpec(s: StoreState, filename: string, file: seq<seq<string>>, accepted: bool)
    : (r: (UploadResult, StoreState))
    ensures NameTaken(s, filename) <==> r.0 == Failed(DuplicateName, DuplicateMessage)
    ensures r.0.Uploaded? ==> r.0.message == SuccessMessage
    ensures r.1.nextId == if NameTaken(s, filename) then s.nextId else s.nextId + 1
  {
    if NameTaken(s, filename) then (Failed(DuplicateName, DuplicateMessage), s)
    else
      var id := s.nextId;
      var created := Created(s, filename);
      if |file| == 0 then (Failed(EmptyFile, ""), created)
      else AfterParse(created, id, ParseRows(file[1..], id), accepted)
  }

  /**
   * The answer and the store once the data rows of the file have been read
   * into `parsed`, with the new dataset `id` already in `created`.
   */
  function AfterParse(created: StoreState, id: DatasetId, parsed: Result<seq<Record>, RowError>, accepted: bool)
    : (r: (UploadResult, StoreState))
    ensures r.0.Uploaded? <==> parsed.Ok? && accepted
    ensures r.0.Failed? ==> r.0.kind != DuplicateName && r.0.kind != EmptyFile
    ensures r.1.nextId == created.nextId
    ensures r.1.datasets.Keys <= created.datasets.Keys
  {
    match parsed
    case Err(MissingColumns) => (Failed(ShortRow, ShortRowMessage), created)
    case Err(Unparsable(row)) => (Failed(BadRow(row), BadRowMessage(row)), Removed(created, id))
    case Ok(records) =>
      if accepted then (Uploaded(SuccessMessage), Inserted(created, records))
      else (Failed(InsertFailed, InsertMessage), Removed(created, id))
  }

  /**
   * The endpoint's loop over the data rows: each row is checked for width and
   * converted, in file order, until the first one that fails.
   */
  method ReadRows(body: seq<seq<string>>, id: DatasetId) returns (parsed: Result<seq<Record>, RowError>)
    ensures parsed == ParseRows(body, id)
  {
    var rows: seq<Record> := [];
    var i := 0;
    while i < |body|
      invariant 0 <= i <= |body|
      invariant ParseRows(body[..i], id) == Ok(rows)
    {
      var row := body[i];
      assert body[..i + 1][..i] == body[..i];
      if |row| < RowWidth {
        ParseRowsFailFast(body, i + 1, id);
        return Err(MissingColumns);
      }
      var record := ParseRow(row, id);
      if record.Err? {
        ParseRowsFailFast(body, i + 1, id);
        return Err(Unparsable(row));
      }
      rows := rows + [record.value];
      i := i + 1;
    }
    assert body[..i] == body;
    return Ok(rows);
  }

  /** The endpoint's control flow, run against the store object. */
  method Upload(store: DatasetStore, filename: string, file: seq<seq<string>>, accepted: bool)
    returns (result: UploadResult)
    requires store.Valid()
    modifies store
    ensures store.Valid()
    ensures (result, store.State()) == UploadSpec(old(store.State()), filename, file, accepted)
  {
    var existing := store.GetByName(filename);
    if existing.Some? {
      return Failed(DuplicateName, DuplicateMessage);
    }
    var id := store.Create(filename);
    if |file| == 0 {
      return Failed(EmptyFile, "");
    }
    var parsed := ReadRows(file[1..], id);
    match parsed {
      case Err(MissingColumns) =>
        return Failed(ShortRow, ShortRowMessage);
      case Err(Unparsable(row)) =>
        store.Remove(id);
        return Failed(BadRow(row), BadRowMessage(row));
      case Ok(rows) =>
        ParsedRecordsStamped(file[1..], id);
        var ok := store.BatchInsert(rows, accepted);
        if !ok {
          store.Remove(id);
          return Failed(InsertFailed, InsertMessage);
        }
        return Uploaded(SuccessMessage);
    }
  }

  // ---------------------------------------------------------------------------
  // What an upload does to the store

  /** A name already in use is refused before anything is created or any row is read. */
  lemma DuplicateRejected(s: StoreState, filename: string, file: seq<seq<string>>, accepted: bool)
    requires NameTaken(s, filename)
    ensures UploadSpec(s, filename, file, accepted) == (Failed(DuplicateName, DuplicateMessage), s)
  {
  }

  /** The first row is skipped unread: any header gives the same outcome. */
  lemma HeaderNeverValidated(s: StoreState, filename: string, h1: seq<string>, h2: seq<string>,
                             rows: seq<seq<string>>, accepted: bool)
    ensures UploadSpec(s, filename, [h1] + rows, accepted) == UploadSpec(s, filename, [h2] + rows, accepted)
  {
    assert ([h1] + rows)[1..] == rows;
    assert ([h2] + rows)[1..] == rows;
  }

  /**
   * An upload succeeds exactly when the name is free, there is a header, every
   * data row parses and the database accepts the batch.
   */
  lemma SucceedsIff(s: StoreState, filename: string, file: seq<seq<string>>, accepted: bool)
    ensures UploadSpec(s, filename, file, accepted).0.Uploaded? <==>
      && !NameTaken(s, filename)
      && |file| > 0
      && (forall i | 1 <= i < |file| :: ParseRow(file[i], s.nextId).Ok?)
      && accepted
  {
    if |file| > 0 {
      var body := file[1..];
      ParseRowsOkIffAllRows(body, s.nextId);
      assert forall i | 1 <= i < |file| :: body[i - 1] == file[i];
    }
  }

  /**
   * After a successful upload the store holds one new dataset, named after the
   * file, whose records are the parsed data rows stamped with its identifier;
   * every other dataset is as it was.
   */
  lemma SuccessAddsOneDataset(s: StoreState, filename: string, file: seq<seq<string>>, accepted: bool)
    requires Consistent(s)
    requires UploadSpec(s, filename, file, accepted).0.Uploaded?
    ensures |file| > 0 && ParseRows(file[1..], s.nextId).Ok?
    ensures var t := UploadSpec(s, filename, file, accepted).1;
      && Consistent(t)
      && s.nextId !in s.datasets
      && t.datasets == s.datasets[s.nextId := Dataset(filename, ParseRows(file[1..], s.nextId).value)]
  {
    var records := SuccessShape(s, filename, file, accepted);
    ParsedRecordsStamped(file[1..], s.nextId);
    CreatedThenInserted(s, filename, records);
  }

  /** A successful upload is the creation of the dataset followed by the insertion of the parsed rows. */
  lemma SuccessShape(s: StoreState, filename: string, file: seq<seq<string>>, accepted: bool)
    returns (records: seq<Record>)
    requires UploadSpec(s, filename, file, accepted).0.Uploaded?
    ensures !NameTaken(s, filename) && |file| > 0 && accepted
    ensures ParseRows(file[1..], s.nextId) == Ok(records)
    ensures UploadSpec(s, filename, file, accepted).1 == Inserted(Created(s, filename), records)
  {
    records := ParseRows(file[1..], s.nextId).value;
  }

  /** The new dataset keeps every data row, in file order. */
  lemma SuccessKeepsRowOrder(s: StoreState, filename: string, file: seq<seq<string>>, accepted: bool)
    requires Consistent(s)
    requires UploadSpec(s, filename, file, accepted).0.Uploaded?
    ensures var t := UploadSpec(s, filename, file, accepted).1;
      && s.nextId in t.datasets
      && |t.datasets[s.nextId].records| == |file| - 1
      && forall i | 1 <= i < |file| ::
           ParseRow(file[i], s.nextId).Ok? &&
           t.datasets[s.nextId].records[i - 1] == ParseRow(file[i], s.nextId).value
  {
    SuccessAddsOneDataset(s, filename, file, accepted);
    forall i | 1 <= i < |file|
      ensures ParseRow(file[i], s.nextId).Ok?
      ensures ParseRows(file[1..], s.nextId).value[i - 1] == ParseRow(file[i], s.nextId).value
    {
      DataRowInOrder(file, s.nextId, i);
    }
  }

  /** Data row i of the file (row 0 being the header) becomes record i - 1. */
  lemma DataRowInOrder(file: seq<seq<string>>, id: DatasetId, i: nat)
    requires 1 <= i < |file| && ParseRows(file[1..], id).Ok?
    ensures ParseRow(file[i], id).Ok?
    ensures ParseRows(file[1..], id).value[i - 1] == ParseRow(file[i], id).value
  {
    assert file[1..][i - 1] == file[i];
    ParseRowsInOrder(file[1..], id, i - 1);
  }

  /**
   * A data row that does not convert removes the new dataset: the store's
   * datasets are as before, and the answer names the first bad row.
   */
  lemma BadRowRollsBack(s: StoreState, filename: string, file: seq<seq<string>>, accepted: bool, k: nat)
    requires Consistent(s) && !NameTaken(s, filename) && |file| > 0
    requires IsFirstFailure(file[1..], s.nextId, k) && |file[k + 1]| >= RowWidth
    ensures UploadSpec(s, filename, file, accepted).0 == Failed(BadRow(file[k + 1]), BadRowMessage(file[k + 1]))
    ensures UploadSpec(s, filename, file, accepted).1.datasets == s.datasets
  {
    ParseRowsAtFirstFailure(file[1..], s.nextId, k);
    var t := UploadSpec(s, filename, file, accepted).1;
    assert t == Removed(Created(s, filename), s.nextId);
    assert t.datasets == s.datasets;
  }

  /** A refused batch removes the new dataset: the store's datasets are as before. */
  lemma InsertFailureRollsBack(s: StoreState, filename: string, file: seq<seq<string>>)
    requires Consistent(s) && !NameTaken(s, filename) && |file| > 0
    requires forall i | 1 <= i < |file| :: ParseRow(file[i], s.nextId).Ok?
    ensures UploadSpec(s, filename, file, false).0 == Failed(InsertFailed, InsertMessage)
    ensures UploadSpec(s, filename, file, false).1.datasets == s.datasets
  {
    SucceedsIff(s, filename, file, true);
    var t := UploadSpec(s, filename, file, false).1;
    assert t == Removed(Created(s, filename), s.nextId);
    assert t.datasets == s.datasets;
  }

  /**
   * A data row with fewer than 14 cells fails the upload but leaves the new
   * dataset behind, empty, under the file's name.
   */
  lemma ShortRowLeavesDataset(s: StoreState, filename: string, file: seq<seq<string>>, accepted: bool, k: nat)
    requires Consistent(s) && !NameTaken(s, filename) && |file| > 0
    requires IsFirstFailure(file[1..], s.nextId, k) && |file[k + 1]| < RowWidth
    ensures UploadSpec(s, filename, file, accepted).0 == Failed(ShortRow, ShortRowMessage)
    ensures UploadSpec(s, filename, file, accepted).1.datasets == s.datasets[s.nextId := Dataset(filename, [])]
  {
    ParseRowsAtFirstFailure(file[1..], s.nextId, k);
  }

  /** An empty file fails the upload but leaves the new dataset behind, empty. */
  lemma EmptyFileLeavesDataset(s: StoreState, filename: string, accepted: bool)
    requires !NameTaken(s, filename)
    ensures UploadSpec(s, filename, [], accepted).0.kind == EmptyFile
    ensures UploadSpec(s, filename, [], accepted).1.datasets == s.datasets[s.nextId := Dataset(filename, [])]
  {
  }

  /**
   * Whatever happens, datasets that existed before are untouched, at most the
   * new identifier is added, and the store stays consistent.
   */
  lemma UploadFrame(s: StoreState, filename: string, file: seq<seq<string>>, accepted: bool)
    requires Consistent(s)
    ensures var t := UploadSpec(s, filename, file, accepted).1;
      && Consistent(t)
      && t.datasets.Keys <= s.datasets.Keys + {s.nextId}
      && (forall id | id in s.datasets :: id in t.datasets && t.datasets[id] == s.datasets[id])
  {
    if UploadSpec(s, filename, file, accepted).0.Uploaded? {
      SuccessAddsOneDataset(s, filename, file, accepted);
    }
  }

  /** Once a file is uploaded, a second upload under the same name is refused, whatever it holds. */
  lemma SecondUploadRefused(s: StoreState, filename: string, first: seq<seq<string>>, accepted: bool,
                            second: seq<seq<string>>, accepted2: bool)
    requires Consistent(s)
    requires UploadSpec(s, filename, first, accepted).0.Uploaded?
    ensures var t := UploadSpec(s, filename, first, accepted).1;
      UploadSpec(t, filename, second, accepted2) == (Failed(DuplicateName, DuplicateMessage), t)
  {
    SuccessAddsOneDataset(s, filename, first, accepted);
    var t := UploadSpec(s, filename, first, accepted).1;
    assert t.datasets[s.nextId].name == filename;
  }

  /**
   * The dataset a short row leaves behind blocks the corrected file: uploading
   * it again under the same name is refused as a duplicate.
   */
  lemma ShortRowBlocksRetry(s: StoreState, filename: string, file: seq<seq<string>>, accepted: bool, k: nat,
                            retry: seq<seq<string>>, accepted2: bool)
    requires Consistent(s) && !NameTaken(s, filename) && |file| > 0
    requires IsFirstFailure(file[1..], s.nextId, k) && |file[k + 1]| < RowWidth
    ensures var t := UploadSpec(s, filename, file, accepted).1;
      UploadSpec(t, filename, retry, accepted2).0 == Failed(DuplicateName, DuplicateMessage)
  {
    ShortRowLeavesDataset(s, filename, file, accepted, k);
    var t := UploadSpec(s, filename, file, accepted).1;
    assert t.datasets[s.nextId].name == filename;
  }

  /** A concrete case: a header and one three-cell row, on an empty store, leave dataset 0 behind. */
  lemma ShortRowExample()
    ensures var t := UploadSpec(StoreState(map[], 0), "weather.csv", [["date"], ["2023-05-01", "12:00:00", "21,5"]], true);
      && t.0 == Failed(ShortRow, ShortRowMessage)
      && t.1.datasets == map[0 := Dataset("weather.csv", [])]
  {
    var body: seq<seq<string>> := [["2023-05-01", "12:00:00", "21,5"]];
    assert [["date"], ["2023-05-01", "12:00:00", "21,5"]][1..] == body;
    assert IsFirstFailure(body, 0, 0);
    ParseRowsAtFirstFailure(body, 0, 0);
  }

  // ---------------------------------------------------------------------------
  // All-or-nothing uploads

  /**
   * The upload with every failure after the dataset is created removing it
   * again, the empty file and the short row included.
   */
  function AtomicUploadSpec(s: StoreState, filename: string, file: seq<seq<string>>, accepted: bool)
    : (r: (UploadResult, StoreState))
    ensures NameTaken(s, filename) <==> r.0 == Failed(DuplicateName, DuplicateMessage)
    ensures r.1.nextId == if NameTaken(s, filename) then s.nextId else s.nextId + 1
  {
    if NameTaken(s, filename) then (Failed(DuplicateName, DuplicateMessage), s)
    else
      var id := s.nextId;
      var created := Created(s, filename);
      if |file| == 0 then (Failed(EmptyFile, ""), Removed(created, id))
      else
        var parsed := ParseRows(file[1..], id);
        if parsed == Err(MissingColumns) then (Failed(ShortRow, ShortRowMessage), Removed(created, id))
        else AfterParse(created, id, parsed, accepted)
  }

  /** The endpoint with a removal added on the empty-file and short-row paths. */
  method AtomicUpload(store: DatasetStore, filename: string, file: seq<seq<string>>, accepted: bool)
    returns (result: UploadResult)
    requires store.Valid()
    modifies store
    ensures store.Valid()
    ensures (result, store.State()) == AtomicUploadSpec(old(store.State()), filename, file, accepted)
  {
    var existing := store.GetByName(filename);
    if existing.Some? {
      return Failed(DuplicateName, DuplicateMessage);
    }
    var id := store.Create(filename);
    if |file| == 0 {
      store.Remove(id);
      return Failed(EmptyFile, "");
    }
    var parsed := ReadRows(file[1..], id);
    match parsed {
      case Err(MissingColumns) =>
        store.Remove(id);
        return Failed(ShortRow, ShortRowMessage);
      case Err(Unparsable(row)) =>
        store.Remove(id);
        return Failed(BadRow(row), BadRowMessage(row));
      case Ok(rows) =>
        ParsedRecordsStamped(file[1..], id);
        var ok := store.BatchInsert(rows, accepted);
        if !ok {
          store.Remove(id);
          return Failed(InsertFailed, InsertMessage);
        }
        return Uploaded(SuccessMessage);
    }
  }

  /**
   * An atomic upload leaves the store's datasets exactly as they were if and
   * only if it fails.
   */
  lemma AtomicUploadAllOrNothing(s: StoreState, filename: string, file: seq<seq<string>>, accepted: bool)
    requires Consistent(s)
    ensures AtomicUploadSpec(s, filename, file, accepted).1.datasets == s.datasets <==>
      AtomicUploadSpec(s, filename, file, accepted).0.Failed?
  {
    var r := AtomicUploadSpec(s, filename, file, accepted);
    if !NameTaken(s, filename) {
      var created := Created(s, filename);
      var t := Removed(created, s.nextId);
      assert t.datasets == s.datasets;
      if r.0.Uploaded? {
        var records := ParseRows(file[1..], s.nextId).value;
        assert r.1 == Inserted(created, records);
        assert s.nextId in r.1.datasets && s.nextId !in s.datasets;
      }
    }
  }

  /**
   * The two give the same answers, and the same store except after an empty
   * file or a short row.
   */
  lemma AtomicAgreesWithUpload(s: StoreState, filename: string, file: seq<seq<string>>, accepted: bool)
    ensures AtomicUploadSpec(s, filename, file, accepted).0 == UploadSpec(s, filename, file, accepted).0
    ensures !(UploadSpec(s, filename, file, accepted).0.Failed? &&
              UploadSpec(s, filename, file, accepted).0.kind in {EmptyFile, ShortRow}) ==>
      AtomicUploadSpec(s, filename, file, accepted) == UploadSpec(s, filename, file, accepted)
  {
  }
}
