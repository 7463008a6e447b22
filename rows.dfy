/**
 * The fixed-position row layout of the upload endpoint: a data row of at
 * least 14 cells becomes a measurement record; cells past index 13 are
 * ignored.
 *
 *   0 date `YYYY-MM-DD`   1 time `HH:MM:SS`   2 nuts3   3 nuts2
 *   4..13 optional numbers: temperature_air, relative_humidity, precipitation,
 *   wind_speed, wind_direction, wind_gust, atmospheric_pressure,
 *   relative_humidity_canopy, temperature_canopy, solar_irradiance_copernicus
 */
module Rows {
  import opened Wrappers
  import opened Numbers
  import opened Timestamps

  /** Identifier of a dataset; every record is stamped with its owner's. */
  type DatasetId = nat

  /** The number of cells a data row must have. */
  const RowWidth: nat := 14

  /** A parsed measurement row (the endpoint's `CreateData`). */
  datatype Record = Record(
    date: Date,
    time: Time,
    nuts3: string,
    nuts2: string,
    temperatureAir: Option<real>,
    relativeHumidity: Option<real>,
    precipitation: Option<real>,
    windSpeed: Option<real>,
    windDirection: Option<real>,
    windGust: Option<real>,
    atmosphericPressure: Option<real>,
    relativeHumidityCanopy: Option<real>,
    temperatureCanopy: Option<real>,
    solarIrradianceCopernicus: Option<real>,
    datasetId: DatasetId)

  /** Why a row was refused: too few cells, or a cell that could not be converted. */
  datatype RowError = MissingColumns | Unparsable(row: seq<string>)

  /** The ten optional measurements of a record, in column order (cells 4 to 13). */
  function Measurements(r: Record): (m: seq<Option<real>>)
    ensures |m| == 10
  {
    [r.temperatureAir, r.relativeHumidity, r.precipitation, r.windSpeed, r.windDirection,
     r.windGust, r.atmosphericPressure, r.relativeHumidityCanopy, r.temperatureCanopy,
     r.solarIrradianceCopernicus]
  }

  /** Every cell of a row of the required width converts: the date, the time and the ten numbers. */
  predicate CellsConvert(row: seq<string>)
    requires |row| >= RowWidth
  {
    ParseDate(row[0]).Some? && ParseTime(row[1]).Some? &&
    forall k | 4 <= k < RowWidth :: ConvertCell(row[k]).Ok?
  }

  /** The numeric cells converted one by one; the first cell that fails fails them all. */
  function ConvertCells(cells: seq<string>): (r: Result<seq<Option<real>>, ()>)
    ensures r.Ok? ==> |r.value| == |cells|
  {
    if cells == [] then Ok([])
    else
      match ConvertCells(cells[1..])
      case Err(_) => Err(())
      case Ok(rest) =>
        match ConvertCell(cells[0])
        case Err(_) => Err(())
        case Ok(v) => Ok([v] + rest)
  }

  /** The cells convert exactly when each one does, and value k is the conversion of cell k. */
  lemma {:induction false} ConvertCellsEach(cells: seq<string>)
    ensures ConvertCells(cells).Ok? <==> forall k | 0 <= k < |cells| :: ConvertCell(cells[k]).Ok?
    ensures ConvertCells(cells).Ok? ==>
      forall k | 0 <= k < |cells| :: ConvertCells(cells).value[k] == ConvertCell(cells[k]).value
  {
    if cells != [] {
      ConvertCellsEach(cells[1..]);
      assert forall k | 1 <= k < |cells| :: cells[1..][k - 1] == cells[k];
    }
  }

  /** The record with the given fields and the ten measurements in column order. */
  function MakeRecord(date: Date, time: Time, nuts3: string, nuts2: string, m: seq<Option<real>>, id: DatasetId): (r: Record)
    requires |m| == 10
    ensures Measurements(r) == m
    ensures r.date == date && r.time == time && r.nuts3 == nuts3 && r.nuts2 == nuts2 && r.datasetId == id
  {
    var r := Record(date, time, nuts3, nuts2, m[0], m[1], m[2], m[3], m[4], m[5], m[6], m[7], m[8], m[9], id);
    assert Measurements(r) == m by {
      assert Measurements(r)[0] == m[0] && Measurements(r)[1] == m[1] && Measurements(r)[2] == m[2];
      assert Measurements(r)[3] == m[3] && Measurements(r)[4] == m[4] && Measurements(r)[5] == m[5];
      assert Measurements(r)[6] == m[6] && Measurements(r)[7] == m[7] && Measurements(r)[8] == m[8];
      assert Measurements(r)[9] == m[9];
    }
    r
  }

  /** One data row, stamped with the dataset id; a conversion failure carries the raw row. */
  function ParseRow(row: seq<string>, id: DatasetId): (r: Result<Record, RowError>)
    ensures |row| < RowWidth <==> r == Err(MissingColumns)
    ensures r.Err? ==> r.error == MissingColumns || r.error == Unparsable(row)
    ensures r.Ok? <==> |row| >= RowWidth && ParseDate(row[0]).Some? && ParseTime(row[1]).Some?
                       && ConvertCells(row[4..RowWidth]).Ok?
    ensures r.Ok? ==>
      && r.value.date == ParseDate(row[0]).value
      && r.value.time == ParseTime(row[1]).value
      && r.value.nuts3 == row[2]
      && r.value.nuts2 == row[3]
      && r.value.datasetId == id
      && Measurements(r.value) == ConvertCells(row[4..RowWidth]).value
  {
    if |row| < RowWidth then Err(MissingColumns)
    else
      var date, time, m := ParseDate(row[0]), ParseTime(row[1]), ConvertCells(row[4..RowWidth]);
      if date.Some? && time.Some? && m.Ok? then
        Ok(MakeRecord(date.value, time.value, row[2], row[3], m.value, id))
      else
        Err(Unparsable(row))
  }

  /**
   * Cell by cell: a row of the required width parses exactly when its date,
   * its time and each of its ten numeric cells convert, and measurement k - 4
   * of the record is the conversion of cell k.
   */
  lemma ParseRowCells(row: seq<string>, id: DatasetId)
    requires |row| >= RowWidth
    ensures ParseRow(row, id).Ok? <==> CellsConvert(row)
    ensures ParseRow(row, id).Ok? ==>
      forall k | 4 <= k < RowWidth :: Measurements(ParseRow(row, id).value)[k - 4] == ConvertCell(row[k]).value
  {
    var cells := row[4..RowWidth];
    ConvertCellsEach(cells);
    assert forall k | 4 <= k < RowWidth :: cells[k - 4] == row[k];
  }

  /** Cells after index 13 play no part: a row parses exactly as its first 14 cells do. */
  lemma ExtraCellsIgnored(row: seq<string>, id: DatasetId)
    requires |row| >= RowWidth
    ensures ParseRow(row, id).Ok? == ParseRow(row[..RowWidth], id).Ok?
    ensures ParseRow(row, id).Ok? ==> ParseRow(row, id).value == ParseRow(row[..RowWidth], id).value
  {
    var head := row[..RowWidth];
    assert head[0] == row[0] && head[1] == row[1] && head[2] == row[2] && head[3] == row[3];
    assert head[4..RowWidth] == row[4..RowWidth];
  }

  /** An empty region code is kept as the empty string, never turned into None. */
  lemma RegionCodesVerbatim(row: seq<string>, id: DatasetId)
    requires |row| >= RowWidth && CellsConvert(row)
    requires row[2] == "" && row[3] == ""
    ensures ParseRow(row, id).Ok?
    ensures ParseRow(row, id).value.nuts3 == "" && ParseRow(row, id).value.nuts2 == ""
  {
    ParseRowCells(row, id);
  }

  // ---------------------------------------------------------------------------
  // The data rows of a file, fail-fast

  /** Row k is the first row of rows that does not parse. */
  predicate IsFirstFailure(rows: seq<seq<string>>, id: DatasetId, k: nat)
  {
    k < |rows| && ParseRow(rows[k], id).Err? &&
    forall i | 0 <= i < k :: ParseRow(rows[i], id).Ok?
  }

  /**
   * The rows parsed in file order, stopping at the first row that does not
   * parse: the accumulation done by the endpoint's `for row in csv_reader` loop.
   */
  function ParseRows(rows: seq<seq<string>>, id: DatasetId): (r: Result<seq<Record>, RowError>)
    ensures r.Ok? ==> |r.value| == |rows|
  {
    if rows == [] then Ok([])
    else
      match ParseRows(rows[..|rows| - 1], id)
      case Err(e) => Err(e)
      case Ok(records) =>
        match ParseRow(rows[|rows| - 1], id)
        case Err(e) => Err(e)
        case Ok(rec) => Ok(records + [rec])
  }

  /** The file parses exactly when every row does. */
  lemma {:induction false} ParseRowsOkIffAllRows(rows: seq<seq<string>>, id: DatasetId)
    ensures ParseRows(rows, id).Ok? <==> forall i | 0 <= i < |rows| :: ParseRow(rows[i], id).Ok?
  {
    if rows != [] {
      var init := rows[..|rows| - 1];
      ParseRowsOkIffAllRows(init, id);
      assert forall i | 0 <= i < |init| :: init[i] == rows[i];
    }
  }

  /** Record i of a parsed file is the parse of row i: the records keep the file order. */
  lemma {:induction false} ParseRowsInOrder(rows: seq<seq<string>>, id: DatasetId, i: nat)
    requires ParseRows(rows, id).Ok? && i < |rows|
    ensures ParseRow(rows[i], id).Ok? && ParseRows(rows, id).value[i] == ParseRow(rows[i], id).value
  {
    var init := rows[..|rows| - 1];
    assert ParseRows(init, id).Ok? && ParseRow(rows[|rows| - 1], id).Ok?;
    var earlier, last := ParseRows(init, id).value, ParseRow(rows[|rows| - 1], id).value;
    assert ParseRows(rows, id) == Ok(earlier + [last]);
    if i < |init| {
      ParseRowsInOrder(init, id, i);
      assert init[i] == rows[i];
      assert (earlier + [last])[i] == earlier[i];
    } else {
      assert (earlier + [last])[i] == last;
    }
  }

  /** When parsing fails, it fails with the error of the first row that does not parse. */
  lemma {:induction false} ParseRowsFirstFailure(rows: seq<seq<string>>, id: DatasetId)
    requires ParseRows(rows, id).Err?
    ensures exists k: nat :: IsFirstFailure(rows, id, k) && ParseRows(rows, id).error == ParseRow(rows[k], id).error
  {
    var init := rows[..|rows| - 1];
    assert forall i | 0 <= i < |init| :: init[i] == rows[i];
    if ParseRows(init, id).Err? {
      ParseRowsFirstFailure(init, id);
      var k: nat :| IsFirstFailure(init, id, k) && ParseRows(init, id).error == ParseRow(init[k], id).error;
      assert IsFirstFailure(rows, id, k);
    } else {
      ParseRowsOkIffAllRows(init, id);
      assert IsFirstFailure(rows, id, |rows| - 1);
    }
  }

  /**
   * The file fails with the error of its first bad row, whatever the rows
   * after it hold.
   */
  lemma ParseRowsAtFirstFailure(rows: seq<seq<string>>, id: DatasetId, k: nat)
    requires IsFirstFailure(rows, id, k)
    ensures ParseRows(rows, id) == Err(ParseRow(rows[k], id).error)
  {
    var prefix := rows[..k + 1];
    assert prefix[..k] == rows[..k];
    ParseRowsOkIffAllRows(rows[..k], id);
    ParseRowsFailFast(rows, k + 1, id);
  }

  /** Once a prefix fails, no later row is examined: the whole file fails as the prefix does. */
  lemma {:induction false} ParseRowsFailFast(rows: seq<seq<string>>, n: nat, id: DatasetId)
    requires n <= |rows|
    requires ParseRows(rows[..n], id).Err?
    ensures ParseRows(rows, id) == ParseRows(rows[..n], id)
  {
    if n < |rows| {
      var init := rows[..|rows| - 1];
      assert init[..n] == rows[..n];
      ParseRowsFailFast(init, n, id);
    } else {
      assert rows[..n] == rows;
    }
  }

  /** Every record parsed from a file is stamped with the dataset it was parsed for. */
  lemma ParsedRecordsStamped(rows: seq<seq<string>>, id: DatasetId)
    requires ParseRows(rows, id).Ok?
    ensures forall r | r in ParseRows(rows, id).value :: r.datasetId == id
  {
    var recs := ParseRows(rows, id).value;
    forall r | r in recs ensures r.datasetId == id {
      var i :| 0 <= i < |recs| && recs[i] == r;
      ParseRowsInOrder(rows, id, i);
    }
  }
}
