/**
  The batch generator: the fixed deeplink configuration of the Ahmedabad
  BRTS mini-app, the generic station name, and the loop that produces the
  CSV table of one row per station id in an inclusive range.
 */
module DeeplinkAutomate {

  import opened Wrappers
  import ZeroPad
  import Deeplink

  const AID := "77a7aa36c00e469482a6219004fde717"
  const MERCHANT_CITY_KEY := "ahmedabad_brts"
  const PATH := "/city-bus/getSourceDetails"
  const CONFIG := Deeplink.Config(AID, MERCHANT_CITY_KEY, PATH)

  /** `build_deeplink` with this script's configuration. */
  function BuildDeeplink(sourceId: string): string {
    Deeplink.Build(CONFIG, sourceId)
  }

  /** The station id is read back from the deeplink built for it. */
  lemma BuildDeeplinkRecovers(sourceId: string)
    ensures Deeplink.ExtractSourceId(CONFIG, BuildDeeplink(sourceId)) == Some(sourceId)
  {
    Deeplink.SourceIdRoundTrip(CONFIG, sourceId);
  }

  /** The generic name of a station: "Station " followed by its id. */
  function StationNameFor(sourceId: string): (r: string)
    ensures |r| == 8 + |sourceId|
    ensures r[..8] == "Station " && r[8..] == sourceId
  {
    "Station " + sourceId
  }

  const HEADER: seq<string> := ["SOURCE_ID", "BUS_STATION_NAME", "DEEPLINK"]

  /** The row written for station number `i`. */
  function DataRow(i: int): (row: seq<string>)
    ensures |row| == 3
  {
    var id := ZeroPad.Format04(i);
    [id, StationNameFor(id), BuildDeeplink(id)]
  }

  /** The number of ids in `range(start, end + 1)`. */
  function RangeLength(start: int, end: int): nat {
    if start <= end then end - start + 1 else 0
  }

  /** The data rows for the ids `start` to `end`, each appended after the
      rows of the smaller ids. */
  function DataRows(start: int, end: int): (rows: seq<seq<string>>)
    ensures |rows| == RangeLength(start, end)
    ensures forall k :: 0 <= k < |rows| ==> |rows[k]| == 3
    decreases RangeLength(start, end)
  {
    if start > end then [] else DataRows(start, end - 1) + [DataRow(end)]
  }

  /** Row `k` of the table is the row of id `start + k`. */
  lemma {:induction false} DataRowAt(start: int, end: int, k: int)
    requires 0 <= k < RangeLength(start, end)
    ensures DataRows(start, end)[k] == DataRow(start + k)
    decreases RangeLength(start, end)
  {
    var front := DataRows(start, end - 1);
    if k < |front| {
      DataRowAt(start, end - 1, k);
      IndexFront(front, [DataRow(end)], k);
    }
  }

  /** Indexing into the front of a concatenation, stated over an abstract
      element type so that the rows' contents stay out of the proof. */
  lemma IndexFront<T>(a: seq<T>, b: seq<T>, k: int)
    requires 0 <= k < |a|
    ensures (a + b)[k] == a[k]
  {
  }

  /** The data rows are exactly those of `start` to `end`, in increasing order. */
  lemma DataRowsInOrder(start: int, end: int)
    ensures |DataRows(start, end)| == RangeLength(start, end)
    ensures forall k :: 0 <= k < RangeLength(start, end) ==> DataRows(start, end)[k] == DataRow(start + k)
  {
    forall k | 0 <= k < RangeLength(start, end)
      ensures DataRows(start, end)[k] == DataRow(start + k)
    {
      DataRowAt(start, end, k);
    }
  }

  /** The loop of `main`: the header, then one row per id. */
  method GenerateRows(start: int, end: int) returns (rows: seq<seq<string>>)
    ensures rows == [HEADER] + DataRows(start, end)
  {
    rows := [HEADER];
    var i := start;
    while i <= end
      invariant start <= i <= end + 1 || (i == start && start > end)
      invariant rows == [HEADER] + DataRows(start, i - 1)
      decreases end - i
    {
      var sourceId := ZeroPad.Format04(i);
      var name := StationNameFor(sourceId);
      var deeplink := BuildDeeplink(sourceId);
      AppendRow(start, i, rows, sourceId, name, deeplink);
      rows := rows + [[sourceId, name, deeplink]];
      i := i + 1;
    }
  }

  /** Appending the row of station `i` extends the table by that station. */
  lemma AppendRow(start: int, i: int, rows: seq<seq<string>>, sourceId: string, name: string, deeplink: string)
    requires start <= i && rows == [HEADER] + DataRows(start, i - 1)
    requires sourceId == ZeroPad.Format04(i) && name == StationNameFor(sourceId) && deeplink == BuildDeeplink(sourceId)
    ensures rows + [[sourceId, name, deeplink]] == [HEADER] + DataRows(start, i)
  {
    var row := [sourceId, name, deeplink];
    assert row == DataRow(i);
    assert DataRows(start, i) == DataRows(start, i - 1) + [row];
  }

  /** `main` with its own range: stations 1 to 210. */
  method GenerateStationTable() returns (rows: seq<seq<string>>)
    ensures rows == [HEADER] + DataRows(1, 210)
    ensures |rows| == 211
  {
    var start, end := 1, 210;
    rows := GenerateRows(start, end);
  }

  /** The fields of row `k`: the id `f"{i:04d}"` of its number `i = start + k`,
      the station's generic name and its deeplink. */
  lemma RowFields(start: int, end: int, k: int)
    requires 0 <= k < RangeLength(start, end)
    ensures var id := ZeroPad.Format04(start + k);
      var row := DataRows(start, end)[k];
      row[0] == id && row[1] == StationNameFor(id) && row[2] == BuildDeeplink(id)
  {
    DataRowAt(start, end, k);
  }

  lemma RowIdFourDigits(start: int, end: int, k: int)
    requires 0 <= k < RangeLength(start, end) && 0 <= start + k <= 9999
    ensures var id := DataRows(start, end)[k][0];
      |id| == 4 && ZeroPad.AllDigits(id) && ZeroPad.DecimalValue(id) == start + k
  {
    RowFields(start, end, k);
    ZeroPad.Format04FourDigits(start + k);
  }

  /** For the numbers 0 to 9999 the id is exactly four decimal digits
      whose value is the number. */
  lemma RowIdsFourDigits(start: int, end: int)
    ensures forall k :: 0 <= k < RangeLength(start, end) && 0 <= start + k <= 9999 ==>
      var id := DataRows(start, end)[k][0];
      |id| == 4 && ZeroPad.AllDigits(id) && ZeroPad.DecimalValue(id) == start + k
  {
    forall k | 0 <= k < RangeLength(start, end) && 0 <= start + k <= 9999
      ensures var id := DataRows(start, end)[k][0];
        |id| == 4 && ZeroPad.AllDigits(id) && ZeroPad.DecimalValue(id) == start + k
    {
      RowIdFourDigits(start, end, k);
    }
  }
}
