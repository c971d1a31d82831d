/**
  The two batch scripts run one after the other: the table the generator
  writes is read back as `csv.DictReader` rows and converted to display
  records.
 */
module Pipeline {

  import opened Wrappers
  import Strip
  import ZeroPad
  import Deeplink
  import opened Records
  import DeeplinkAutomate
  import CsvToJson

  /** A `csv.DictReader` row: each column name maps to the field in its
      position, a later duplicate name wins, and the columns past the end
      of a short record are `None`. */
  function DictRow(header: seq<string>, fields: seq<string>): (r: CsvToJson.Row)
    ensures forall key :: key in r <==> key in header
  {
    if header == [] then map[]
    else
      var n := |header| - 1;
      assert header == header[..n] + [header[n]];
      DictRow(header[..n], fields)[header[n] := if n < |fields| then Some(fields[n]) else None]
  }

  /** The records after the header, turned into rows, skipping empty records. */
  function DictRows(header: seq<string>, records: seq<seq<string>>): seq<CsvToJson.Row> {
    if records == [] then []
    else
      var n := |records| - 1;
      DictRows(header, records[..n]) + (if records[n] == [] then [] else [DictRow(header, records[n])])
  }

  /** `csv.DictReader` over a table whose first record is the header. */
  function ReadCsv(table: seq<seq<string>>): seq<CsvToJson.Row> {
    if table == [] then [] else DictRows(table[0], table[1..])
  }

  /** The row the reader yields for a full record under a three-column header. */
  lemma DictRowOfThree(k1: string, k2: string, k3: string, a: string, b: string, c: string)
    ensures DictRow([k1, k2, k3], [a, b, c]) == map[k1 := Some(a)][k2 := Some(b)][k3 := Some(c)]
  {
    var h := [k1, k2, k3];
    var fields := [a, b, c];
    assert h[..2] == [k1, k2];
    assert h[..2][..1] == [k1];
    assert h[..2][..1][..0] == [];
    assert DictRow([k1], fields) == map[k1 := Some(a)];
    assert DictRow([k1, k2], fields) == map[k1 := Some(a)][k2 := Some(b)];
  }

  /** A non-empty record after the others adds its row at the end. */
  lemma DictRowsSnoc(header: seq<string>, records: seq<seq<string>>, r: seq<string>)
    requires r != []
    ensures DictRows(header, records + [r]) == DictRows(header, records) + [DictRow(header, r)]
  {
    var all := records + [r];
    assert all[..|all| - 1] == records;
  }

  /** When no record is empty, the reader yields one row per record, in order. */
  lemma {:induction false} DictRowsOfRecords(header: seq<string>, records: seq<seq<string>>)
    requires forall k :: 0 <= k < |records| ==> records[k] != []
    ensures |DictRows(header, records)| == |records|
    ensures forall k :: 0 <= k < |records| ==> DictRows(header, records)[k] == DictRow(header, records[k])
  {
    if records != [] {
      var n := |records| - 1;
      var front := records[..n];
      assert records == front + [records[n]];
      DictRowsOfRecords(header, front);
      DictRowsSnoc(header, front, records[n]);
    }
  }

  /** A row whose name and deeplink need no trimming converts to a record
      holding them as they are. */
  lemma RecordOfFields(id: string, name: string, link: string)
    requires name != [] && !Strip.IsSpace(name[0]) && Strip.Strip(name) == name
    requires link != [] && !Strip.IsSpace(link[0]) && Strip.Strip(link) == link
    ensures var row := map["SOURCE_ID" := Some(id)]["BUS_STATION_NAME" := Some(name)]["DEEPLINK" := Some(link)];
      CsvToJson.HasDeeplink(row)
      && CsvToJson.RowToObject(row) == DisplayRecord(name, link, CsvToJson.DEFAULT_SIZE, CsvToJson.DEFAULT_ECL)
  {
    var row := map["SOURCE_ID" := Some(id)]["BUS_STATION_NAME" := Some(name)]["DEEPLINK" := Some(link)];
    assert CsvToJson.Field(row, "BUS_STATION_NAME") == name;
    assert CsvToJson.Field(row, "DEEPLINK") == link;
    assert !Strip.AllSpace(name) && !Strip.AllSpace(link);
  }

  lemma StationNameNormal(id: string)
    requires id != [] && ZeroPad.IsDigit(id[|id| - 1])
    ensures var name := "Station " + id;
      name != [] && !Strip.IsSpace(name[0]) && Strip.Strip(name) == name
  {
    var name := "Station " + id;
    assert name[0] == 'S' && name[|name| - 1] == id[|id| - 1];
    Strip.StripKeeps(name);
  }

  lemma LinkNormal(id: string)
    ensures var link := DeeplinkAutomate.BuildDeeplink(id);
      link != [] && !Strip.IsSpace(link[0]) && Strip.Strip(link) == link
  {
    Deeplink.BuildStripped(DeeplinkAutomate.CONFIG, id);
    Deeplink.BuildSplit(DeeplinkAutomate.CONFIG, id);
  }

  /** Reading the generated table back gives one row per station. */
  lemma ReadTable(start: int, end: int)
    ensures var rows := ReadCsv([DeeplinkAutomate.HEADER] + DeeplinkAutomate.DataRows(start, end));
      |rows| == DeeplinkAutomate.RangeLength(start, end)
      && forall k :: 0 <= k < |rows| ==>
        rows[k] == DictRow(DeeplinkAutomate.HEADER, DeeplinkAutomate.DataRows(start, end)[k])
  {
    var records := DeeplinkAutomate.DataRows(start, end);
    var table := [DeeplinkAutomate.HEADER] + records;
    assert table[0] == DeeplinkAutomate.HEADER && table[1..] == records;
    DictRowsOfRecords(DeeplinkAutomate.HEADER, records);
  }

  /** The row read back for station `start + k` is kept and converts to
      that station's record. */
  lemma RowOfTable(start: int, end: int, k: int)
    requires 0 <= k < DeeplinkAutomate.RangeLength(start, end)
    ensures var rows := ReadCsv([DeeplinkAutomate.HEADER] + DeeplinkAutomate.DataRows(start, end));
      |rows| == DeeplinkAutomate.RangeLength(start, end)
      && CsvToJson.HasDeeplink(rows[k])
      && CsvToJson.RowToObject(rows[k]) == StationRecord(start + k)
  {
    var rows := ReadCsv([DeeplinkAutomate.HEADER] + DeeplinkAutomate.DataRows(start, end));
    ReadTable(start, end);
    var row := DictRow(DeeplinkAutomate.HEADER, DeeplinkAutomate.DataRows(start, end)[k]);
    RecordOfTableRecord(start, end, k);
    assert rows[k] == row;
  }

  /** The row for the `k`-th generated record converts to station `start + k`'s record. */
  lemma RecordOfTableRecord(start: int, end: int, k: int)
    requires 0 <= k < DeeplinkAutomate.RangeLength(start, end)
    ensures var row := DictRow(DeeplinkAutomate.HEADER, DeeplinkAutomate.DataRows(start, end)[k]);
      CsvToJson.HasDeeplink(row) && CsvToJson.RowToObject(row) == StationRecord(start + k)
  {
    var fields := DeeplinkAutomate.DataRows(start, end)[k];
    DeeplinkAutomate.RowFields(start, end, k);
    RecordOfFieldsOf(fields, start + k);
  }

  /** A record holding the id, name and deeplink of station `i` converts to its record. */
  lemma RecordOfFieldsOf(fields: seq<string>, i: int)
    requires |fields| == 3
    requires var id := ZeroPad.Format04(i);
      fields[0] == id && fields[1] == DeeplinkAutomate.StationNameFor(id)
      && fields[2] == DeeplinkAutomate.BuildDeeplink(id)
    ensures var row := DictRow(DeeplinkAutomate.HEADER, fields);
      CsvToJson.HasDeeplink(row) && CsvToJson.RowToObject(row) == StationRecord(i)
  {
    assert fields == DeeplinkAutomate.DataRow(i);
    RecordOfDataRow(i);
  }

  /** The row for the generator's record of station `i`. */
  lemma DictRowOfDataRow(i: int)
    ensures var id := ZeroPad.Format04(i);
      DictRow(DeeplinkAutomate.HEADER, DeeplinkAutomate.DataRow(i))
        == map["SOURCE_ID" := Some(id)]["BUS_STATION_NAME" := Some("Station " + id)]
              ["DEEPLINK" := Some(DeeplinkAutomate.BuildDeeplink(id))]
  {
    var id := ZeroPad.Format04(i);
    DictRowOfThree("SOURCE_ID", "BUS_STATION_NAME", "DEEPLINK",
                   id, "Station " + id, DeeplinkAutomate.BuildDeeplink(id));
  }

  /** The record for a generated row: the station's generic name, its
      deeplink unchanged, and the batch presets. */
  lemma RecordOfDataRow(i: int)
    ensures var row := DictRow(DeeplinkAutomate.HEADER, DeeplinkAutomate.DataRow(i));
      CsvToJson.HasDeeplink(row) && CsvToJson.RowToObject(row) == StationRecord(i)
  {
    var id := ZeroPad.Format04(i);
    ZeroPad.Format04Shape(i);
    StationNameNormal(id);
    LinkNormal(id);
    DictRowOfDataRow(i);
    RecordOfFields(id, "Station " + id, DeeplinkAutomate.BuildDeeplink(id));
  }

  /** The record expected for station number `i`. */
  function StationRecord(i: int): DisplayRecord {
    var id := ZeroPad.Format04(i);
    DisplayRecord("Station " + id, DeeplinkAutomate.BuildDeeplink(id), CsvToJson.DEFAULT_SIZE, CsvToJson.DEFAULT_ECL)
  }

  /** The rows read back from the generated table, one per station. */
  lemma RowsOfTable(start: int, end: int)
    ensures var rows := ReadCsv([DeeplinkAutomate.HEADER] + DeeplinkAutomate.DataRows(start, end));
      |rows| == DeeplinkAutomate.RangeLength(start, end)
      && forall k :: 0 <= k < |rows| ==>
        CsvToJson.HasDeeplink(rows[k]) && CsvToJson.RowToObject(rows[k]) == StationRecord(start + k)
  {
    var rows := ReadCsv([DeeplinkAutomate.HEADER] + DeeplinkAutomate.DataRows(start, end));
    ReadTable(start, end);
    forall k | 0 <= k < |rows|
      ensures CsvToJson.HasDeeplink(rows[k]) && CsvToJson.RowToObject(rows[k]) == StationRecord(start + k)
    {
      RowOfTable(start, end, k);
    }
  }

  /** Generating stations `start` to `end` and converting the table gives
      one record per station, in order, each with the station's generic
      name, its deeplink and the batch presets. */
  lemma GenerateThenConvert(start: int, end: int)
    ensures var records := CsvToJson.Converted(ReadCsv([DeeplinkAutomate.HEADER] + DeeplinkAutomate.DataRows(start, end)));
      |records| == DeeplinkAutomate.RangeLength(start, end)
      && forall k :: 0 <= k < |records| ==> records[k] == StationRecord(start + k)
  {
    var rows := ReadCsv([DeeplinkAutomate.HEADER] + DeeplinkAutomate.DataRows(start, end));
    RowsOfTable(start, end);
    CsvToJson.ConvertedAllKept(rows);
  }
}
