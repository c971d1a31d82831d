/**
  The CSV-to-JSON converter: each row of the generated table becomes a
  display record for a 256-pixel QR code at level L, and rows without a
  deeplink are skipped.
 */
module CsvToJson {

  import opened Wrappers
  import Strip
  import opened Records

  /** A row as `csv.DictReader` yields it: column name to field, where a
      short row leaves the missing columns `None`. */
  type Row = map<string, Option<string>>

  const DEFAULT_SIZE := 256
  const DEFAULT_ECL := L

  /** `row.get(key) or ""` */
  function Field(row: Row, key: string): (r: string)
    ensures key !in row || row[key].None? ==> r == []
    ensures key in row && row[key].Some? ==> r == row[key].value
  {
    if key in row && row[key].Some? then row[key].value else []
  }

  /** `row_to_object` */
  function RowToObject(row: Row): (r: DisplayRecord)
    ensures Strip.AllSpace(Field(row, "BUS_STATION_NAME")) ==> r.name == UNNAMED_STATION
    ensures !Strip.AllSpace(Field(row, "BUS_STATION_NAME")) ==> r.name == Strip.Strip(Field(row, "BUS_STATION_NAME"))
    ensures r.text == Strip.Strip(Field(row, "DEEPLINK"))
    ensures r.size == DEFAULT_SIZE && r.ecl == DEFAULT_ECL
  {
    DisplayRecord(DisplayName(Field(row, "BUS_STATION_NAME")), Strip.Strip(Field(row, "DEEPLINK")), DEFAULT_SIZE, DEFAULT_ECL)
  }

  /** The rows `main` keeps: those whose deeplink is not all whitespace,
      so that it is not empty once trimmed. */
  predicate HasDeeplink(row: Row) {
    !Strip.AllSpace(Field(row, "DEEPLINK"))
  }

  /** The records `main` collects from `rows`, written from the last row back. */
  function Converted(rows: seq<Row>): seq<DisplayRecord> {
    if rows == [] then []
    else
      var last := rows[|rows| - 1];
      Converted(rows[..|rows| - 1]) + (if HasDeeplink(last) then [RowToObject(last)] else [])
  }

  /** The positions of the kept rows, in increasing order. */
  function KeptIndices(rows: seq<Row>): seq<nat> {
    if rows == [] then []
    else
      var n := |rows| - 1;
      KeptIndices(rows[..n]) + (if HasDeeplink(rows[n]) then [n] else [])
  }

  /** One more row adds its record, if it has one, at the end. */
  lemma ConvertedStep(rows: seq<Row>, i: nat)
    requires i < |rows|
    ensures Converted(rows[..i + 1])
         == Converted(rows[..i]) + (if HasDeeplink(rows[i]) then [RowToObject(rows[i])] else [])
  {
    assert rows[..i + 1][..i] == rows[..i];
  }

  /** The loop of `main` over the rows of the reader. */
  method ConvertRows(rows: seq<Row>) returns (items: seq<DisplayRecord>)
    ensures items == Converted(rows)
  {
    items := [];
    var i := 0;
    while i < |rows|
      invariant 0 <= i <= |rows|
      invariant items == Converted(rows[..i])
    {
      var row := rows[i];
      ConvertedStep(rows, i);
      Strip.StripEmptyIff(Field(row, "DEEPLINK"));
      i := i + 1;
      if Strip.Strip(Field(row, "DEEPLINK")) == [] {
        continue;
      }
      items := items + [RowToObject(row)];
    }
    assert rows[..|rows|] == rows;
  }

  /** As many records as rows with a deeplink. */
  lemma {:induction false} KeptLength(rows: seq<Row>)
    ensures |KeptIndices(rows)| == |Converted(rows)|
  {
    if rows != [] {
      KeptLength(rows[..|rows| - 1]);
    }
  }

  /** Every kept position holds a row with a deeplink. */
  lemma {:induction false} KeptHaveDeeplinks(rows: seq<Row>)
    ensures forall j :: 0 <= j < |KeptIndices(rows)| ==>
      KeptIndices(rows)[j] < |rows| && HasDeeplink(rows[KeptIndices(rows)[j]])
  {
    if rows != [] {
      var n := |rows| - 1;
      var front := rows[..n];
      var ks := KeptIndices(front);
      KeptHaveDeeplinks(front);
      assert forall i :: 0 <= i < n ==> front[i] == rows[i];
      if HasDeeplink(rows[n]) {
        assert KeptIndices(rows) == ks + [n];
      } else {
        assert KeptIndices(rows) == ks;
      }
    }
  }

  /** Record `j` is the conversion of the row at kept position `j`. */
  lemma {:induction false} KeptRecords(rows: seq<Row>)
    ensures |KeptIndices(rows)| == |Converted(rows)|
    ensures forall j :: 0 <= j < |KeptIndices(rows)| ==>
      KeptIndices(rows)[j] < |rows| && Converted(rows)[j] == RowToObject(rows[KeptIndices(rows)[j]])
  {
    if rows != [] {
      var n := |rows| - 1;
      var front := rows[..n];
      var ks := KeptIndices(front);
      var cs := Converted(front);
      KeptRecords(front);
      var ks' := KeptIndices(rows);
      var cs' := Converted(rows);
      if HasDeeplink(rows[n]) {
        assert ks' == ks + [n];
        assert cs' == cs + [RowToObject(rows[n])];
      } else {
        assert ks' == ks;
        assert cs' == cs;
      }
      forall j | 0 <= j < |ks'|
        ensures ks'[j] < |rows| && cs'[j] == RowToObject(rows[ks'[j]])
      {
        if j < |ks| {
          assert ks'[j] == ks[j] && cs'[j] == cs[j];
          assert rows[ks[j]] == front[ks[j]];
        }
      }
    }
  }

  /** Every record has a non-empty text. */
  lemma RecordsHaveText(rows: seq<Row>)
    ensures forall j :: 0 <= j < |Converted(rows)| ==> Converted(rows)[j].text != []
  {
    KeptRecords(rows);
    KeptHaveDeeplinks(rows);
    forall j | 0 <= j < |Converted(rows)| ensures Converted(rows)[j].text != [] {
      var row := rows[KeptIndices(rows)[j]];
      Strip.StripEmptyIff(Field(row, "DEEPLINK"));
    }
  }

  /** The kept positions increase, so the records keep the rows' order. */
  lemma {:induction false} KeptIncreasing(rows: seq<Row>)
    ensures forall j :: 0 <= j < |KeptIndices(rows)| ==> KeptIndices(rows)[j] < |rows|
    ensures forall j, k :: 0 <= j < k < |KeptIndices(rows)| ==> KeptIndices(rows)[j] < KeptIndices(rows)[k]
  {
    if rows != [] {
      var n := |rows| - 1;
      var ks := KeptIndices(rows[..n]);
      KeptIncreasing(rows[..n]);
      if HasDeeplink(rows[n]) {
        assert KeptIndices(rows) == ks + [n];
      } else {
        assert KeptIndices(rows) == ks;
      }
    }
  }

  /** Every row with a deeplink is kept. */
  lemma {:induction false} KeptComplete(rows: seq<Row>)
    ensures forall i :: 0 <= i < |rows| && HasDeeplink(rows[i]) ==> i in KeptIndices(rows)
  {
    if rows != [] {
      var n := |rows| - 1;
      var front := rows[..n];
      var ks := KeptIndices(front);
      KeptComplete(front);
      forall i | 0 <= i < |rows| && HasDeeplink(rows[i]) ensures i in KeptIndices(rows) {
        if i < n {
          assert front[i] == rows[i];
          assert i in ks;
        }
        if HasDeeplink(rows[n]) {
          assert KeptIndices(rows) == ks + [n];
        } else {
          assert KeptIndices(rows) == ks;
        }
      }
    }
  }

  /** When every row has a deeplink, nothing is dropped. */
  lemma {:induction false} ConvertedAllKept(rows: seq<Row>)
    requires forall i :: 0 <= i < |rows| ==> HasDeeplink(rows[i])
    ensures |Converted(rows)| == |rows|
    ensures forall k :: 0 <= k < |rows| ==> Converted(rows)[k] == RowToObject(rows[k])
  {
    if rows != [] {
      var n := |rows| - 1;
      var front := rows[..n];
      forall i | 0 <= i < n ensures HasDeeplink(front[i]) {
        assert front[i] == rows[i];
      }
      ConvertedAllKept(front);
      var cs := Converted(front);
      assert Converted(rows) == cs + [RowToObject(rows[n])];
      forall k | 0 <= k < |rows| ensures Converted(rows)[k] == RowToObject(rows[k]) {
        if k < n {
          assert Converted(rows)[k] == cs[k];
          assert cs[k] == RowToObject(front[k]);
          assert front[k] == rows[k];
        }
      }
    }
  }
}
