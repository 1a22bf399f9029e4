/**
 * The timetable server (server.js): extraction of the timetable section
 * from the cell values of a sheet, the fetch of a sheet chosen by its gid,
 * and the gid guard of the `/api/sheet-data` route.
 */
module SheetServer {
  import opened Wrappers
  import opened Text
  import opened SeqSearch
  import opened Sheets

  const Weekdays: seq<string> := ["monday", "tuesday", "wednesday", "thursday", "friday"]

  /** `rows[i] && rows[i][0] && rows[i][0].toLowerCase().includes('time')`:
      an empty row or an empty first cell is falsy. */
  predicate IsHeader(row: Row) {
    |row| > 0 && row[0] != "" && Contains(Lower(row[0]), "time")
  }

  /** `row` followed by `''` cells up to `width`; a longer row is unchanged. */
  function Pad(row: Row, width: nat): (r: Row)
    ensures |r| == if |row| < width then width else |row|
    ensures r[..|row|] == row
    ensures forall i :: |row| <= i < |r| ==> r[i] == ""
  {
    if |row| < width then row + seq(width - |row|, _ => "") else row
  }

  /** `rows.slice(start, start + 6)`: JavaScript clamps the end to the length. */
  function Section(rows: seq<Row>, start: nat): (r: seq<Row>)
    requires start < |rows|
    ensures |r| == if start + 6 <= |rows| then 6 else |rows| - start
  {
    rows[start..if start + 6 <= |rows| then start + 6 else |rows|]
  }

  /** Every row padded to `width`. */
  function PadAll(rows: seq<Row>, width: nat): (r: seq<Row>)
    ensures |r| == |rows| && forall k :: 0 <= k < |rows| ==> r[k] == Pad(rows[k], width)
  {
    seq(|rows|, k requires 0 <= k < |rows| => Pad(rows[k], width))
  }

  /** What `processTimetableData` returns: the header row and the five rows
      after it, each padded to the header's width, or `[]` when there is no
      header, fewer than six rows from it, or the first day is not a weekday. */
  function ProcessedTimetable(rows: seq<Row>): seq<Row> {
    match FindFirst(rows, IsHeader)
    case None => []
    case Some(h) =>
      var section := Section(rows, h);
      var formatted := PadAll(section, |section[0]|);
      if |formatted| != 6 then []
      else if !Contains(Lower(formatted[0][0]), "time") then []
      else if Lower(formatted[1][0]) !in Weekdays then []
      else formatted
  }

  /** `processTimetableData(rows)`: a `for` loop that breaks at the first
      header row, the slice, a `while` loop padding each row with `''`, then
      the three checks. */
  method ProcessTimetableData(rows: seq<Row>) returns (r: seq<Row>)
    ensures r == ProcessedTimetable(rows)
  {
    var startRow := -1;
    var i := 0;
    while i < |rows|
      invariant 0 <= i <= |rows|
      invariant startRow == -1
      invariant forall j :: 0 <= j < i ==> !IsHeader(rows[j])
    {
      if IsHeader(rows[i]) {
        startRow := i;
        break;
      }
      i := i + 1;
    }
    if startRow == -1 {
      return [];
    }
    FirstMatchIsFindFirst(rows, IsHeader, startRow);
    var timetableRows := Section(rows, startRow);
    var formattedData := PadRows(timetableRows, |timetableRows[0]|);
    if |formattedData| != 6 {
      return [];
    }
    if !Contains(Lower(formattedData[0][0]), "time") {
      return [];
    }
    var firstDay := Lower(formattedData[1][0]);
    if firstDay !in Weekdays {
      return [];
    }
    return formattedData;
  }

  /** The padding `while` loop, once per row. */
  method PadRows(rows: seq<Row>, width: nat) returns (formatted: seq<Row>)
    ensures formatted == PadAll(rows, width)
  {
    formatted := [];
    var k := 0;
    while k < |rows|
      invariant 0 <= k <= |rows|
      invariant formatted == PadAll(rows[..k], width)
    {
      var paddedRow := PadRow(rows[k], width);
      assert PadAll(rows[..k + 1], width) == PadAll(rows[..k], width) + [paddedRow];
      formatted := formatted + [paddedRow];
      k := k + 1;
    }
    assert rows[..k] == rows;
  }

  /** `while (paddedRow.length < width) paddedRow.push('')`. */
  method PadRow(row: Row, width: nat) returns (paddedRow: Row)
    ensures paddedRow == Pad(row, width)
  {
    paddedRow := row;
    while |paddedRow| < width
      invariant paddedRow[..|row|] == row
      invariant |row| <= |paddedRow| <= if |row| < width then width else |row|
      invariant forall c :: |row| <= c < |paddedRow| ==> paddedRow[c] == ""
      decreases width - |paddedRow|
    {
      paddedRow := paddedRow + [""];
    }
  }

  /** Without a header row the result is empty. */
  lemma NoHeaderNoTimetable(rows: seq<Row>)
    requires forall i :: 0 <= i < |rows| ==> !IsHeader(rows[i])
    ensures ProcessedTimetable(rows) == []
  {
    assert FindFirst(rows, IsHeader).None?;
  }

  /** With the first header at `h`: fewer than six rows from it give `[]`;
      otherwise a non-empty result is exactly those six rows, each its input
      row followed by nothing but `''` up to the header's width, and it is
      non-empty exactly when the row after the header names a weekday.
      The header re-check never fails. */
  lemma ProcessedFromHeader(rows: seq<Row>, h: nat)
    requires h < |rows| && IsHeader(rows[h])
    requires forall j :: 0 <= j < h ==> !IsHeader(rows[j])
    ensures h + 6 > |rows| ==> ProcessedTimetable(rows) == []
    ensures h + 6 <= |rows| ==>
      (ProcessedTimetable(rows) != [] <==> Lower(Pad(rows[h + 1], |rows[h]|)[0]) in Weekdays)
    ensures ProcessedTimetable(rows) != [] ==>
      h + 6 <= |rows| && |ProcessedTimetable(rows)| == 6
      && forall k :: 0 <= k < 6 ==> ProcessedTimetable(rows)[k] == Pad(rows[h + k], |rows[h]|)
  {
    FirstMatchIsFindFirst(rows, IsHeader, h);
    var section := Section(rows, h);
    assert section[0] == rows[h];
    assert Pad(section[0], |section[0]|) == rows[h];
    if h + 6 <= |rows| {
      assert forall k :: 0 <= k < 6 ==> section[k] == rows[h + k];
    }
  }

  /** Every row of a result has the header's width or more, and the first
      cell of its second row, lower-cased, is a weekday. */
  lemma ProcessedShape(rows: seq<Row>)
    ensures var r := ProcessedTimetable(rows);
      r != [] ==> |r| == 6 && |r[0]| > 0 && IsHeader(r[0])
                  && (forall k :: 0 <= k < 6 ==> |r[k]| >= |r[0]|)
                  && Lower(r[1][0]) in Weekdays
  {
    match FindFirst(rows, IsHeader)
    case None =>
    case Some(h) =>
      ProcessedFromHeader(rows, h);
      assert Pad(rows[h], |rows[h]|) == rows[h];
  }

  /** `fetchSheetData(gid)` with the two API calls as inputs: the spreadsheet's
      sheet list (or the message of the error it threw) and the values of a
      range (or an error message). Every failure is returned, none thrown. */
  method FetchSheetData(gid: string, meta: Result<seq<SheetProperties>, string>,
                        values: string -> Result<Option<seq<Row>>, string>)
    returns (r: Result<seq<Row>, string>)
    ensures meta.Failure? ==> r == Failure(meta.error)
    ensures meta.Success? && FindSheetByGid(meta.value, gid).None? ==>
      r == Failure("Sheet with GID " + gid + " not found")
    ensures meta.Success? && FindSheetByGid(meta.value, gid).Some? ==>
      var range := FindSheetByGid(meta.value, gid).value.title + "!A1:Z50";
      match values(range)
      case Failure(e) => r == Failure(e)
      case Success(None) => r == Failure("No data found in sheet")
      case Success(Some(rows)) =>
        r == if rows == [] then Failure("No data found in sheet") else Success(ProcessedTimetable(rows))
  {
    if meta.Failure? {
      return Failure(meta.error);
    }
    var targetSheet := FindSheetByGid(meta.value, gid);
    if targetSheet.None? {
      return Failure("Sheet with GID " + gid + " not found");
    }
    var response := values(targetSheet.value.title + "!A1:Z50");
    if response.Failure? {
      return Failure(response.error);
    }
    if response.value.None? || response.value.value == [] {
      return Failure("No data found in sheet");
    }
    var processed := ProcessTimetableData(response.value.value);
    return Success(processed);
  }

  /** A JSON reply of `/api/sheet-data`: HTTP status and body. */
  datatype SheetResponse = SheetResponse(status: nat, body: Result<seq<Row>, string>)

  /** `GET /api/sheet-data?gid=...`: a missing or empty gid is answered 400
      before any fetch; otherwise the fetch's result is sent with status 200. */
  method SheetDataRoute(gid: string, meta: Result<seq<SheetProperties>, string>,
                        values: string -> Result<Option<seq<Row>>, string>)
    returns (resp: SheetResponse)
    ensures gid == "" ==> resp == SheetResponse(400, Failure("GID parameter is required"))
    ensures gid != "" ==> resp.status == 200
    ensures gid != "" && meta.Failure? ==> resp.body == Failure(meta.error)
    ensures gid != "" && meta.Success? && FindSheetByGid(meta.value, gid).None? ==>
      resp.body == Failure("Sheet with GID " + gid + " not found")
    ensures gid != "" && meta.Success? && FindSheetByGid(meta.value, gid).Some? ==>
      var range := FindSheetByGid(meta.value, gid).value.title + "!A1:Z50";
      match values(range)
      case Failure(e) => resp.body == Failure(e)
      case Success(None) => resp.body == Failure("No data found in sheet")
      case Success(Some(rows)) =>
        resp.body == if rows == [] then Failure("No data found in sheet") else Success(ProcessedTimetable(rows))
    ensures resp.body.Success? ==> gid != "" && meta.Success? && FindSheetByGid(meta.value, gid).Some?
  {
    if gid == "" {
      return SheetResponse(400, Failure("GID parameter is required"));
    }
    var result := FetchSheetData(gid, meta, values);
    return SheetResponse(200, result);
  }
}
