/**
 * The backend server (backend/server.js): the module-level cache of the
 * target sheet's values, its `/api/sheet-data` route, and the SQL built by
 * the `/students` and `/faculty` routes.
 */
module BackendServer {
  import opened Wrappers
  import opened Text
  import opened Sheets
  import opened Sql

  const TargetGid: string := "268947963"

  /** What one fetch of the target sheet yields, given the spreadsheet's sheet
      list (or the error it threw) and the values of a range (or an error):
      the values of columns A to Z of the first sheet with the target gid,
      `[]` when the response has none. */
  function FetchOutcome(meta: Result<seq<SheetProperties>, string>,
                        values: string -> Result<Option<seq<Row>>, string>): (r: Result<seq<Row>, string>)
    ensures r.Success? <==> meta.Success? && FindSheetByGid(meta.value, TargetGid).Some?
                            && values(FindSheetByGid(meta.value, TargetGid).value.title + "!A:Z").Success?
    ensures meta.Success? && FindSheetByGid(meta.value, TargetGid).None? ==>
              r == Failure("Sheet with GID " + TargetGid + " not found")
    ensures r.Success? ==> r.value == values(FindSheetByGid(meta.value, TargetGid).value.title + "!A:Z").value.GetOr([])
  {
    if meta.Failure? then Failure(meta.error)
    else
      match FindSheetByGid(meta.value, TargetGid)
      case None => Failure("Sheet with GID " + TargetGid + " not found")
      case Some(sheet) =>
        match values(sheet.title + "!A:Z")
        case Failure(e) => Failure(e)
        case Success(v) => Success(v.GetOr([]))
  }

  /** The `/api/sheet-data` reply: 200 with the data, the time of the fetch
      and the gid, or 500 with the error details only in development mode. */
  datatype SheetReply =
    | SheetOk(data: seq<Row>, lastUpdated: int, gid: string)
    | SheetError(status: nat, error: string, details: Option<string>)

  /** `cachedSheetData` and `lastFetchTime`, reassigned by `fetchSheetData`. */
  class SheetCache {
    var cachedSheetData: seq<Row>
    var lastFetchTime: Option<int>

    /** The state at start-up: `[]` and `null`. */
    constructor ()
      ensures cachedSheetData == [] && lastFetchTime == None
    {
      cachedSheetData := [];
      lastFetchTime := None;
    }

    /** `fetchSheetData()` at time `now`: a success replaces both fields and
        returns the new data; a failure is passed on and changes nothing. */
    method FetchSheetData(meta: Result<seq<SheetProperties>, string>,
                          values: string -> Result<Option<seq<Row>>, string>, now: int)
      returns (r: Result<seq<Row>, string>)
      modifies this
      ensures r == FetchOutcome(meta, values)
      ensures r.Success? ==> cachedSheetData == r.value && lastFetchTime == Some(now)
      ensures r.Failure? ==> cachedSheetData == old(cachedSheetData) && lastFetchTime == old(lastFetchTime)
    {
      if meta.Failure? {
        return Failure(meta.error);
      }
      var targetSheet := FindSheetByGid(meta.value, TargetGid);
      if targetSheet.None? {
        return Failure("Sheet with GID " + TargetGid + " not found");
      }
      var sheetName := targetSheet.value.title;
      var response := values(sheetName + "!A:Z");
      if response.Failure? {
        return Failure(response.error);
      }
      cachedSheetData := response.value.GetOr([]);
      lastFetchTime := Some(now);
      return Success(cachedSheetData);
    }

    /** `GET /api/sheet-data`: fetch, then answer with the fresh data, or 500. */
    method SheetDataRoute(meta: Result<seq<SheetProperties>, string>,
                          values: string -> Result<Option<seq<Row>>, string>, now: int, development: bool)
      returns (reply: SheetReply)
      modifies this
      ensures FetchOutcome(meta, values).Success? ==>
        reply == SheetOk(FetchOutcome(meta, values).value, now, TargetGid) && cachedSheetData == reply.data
      ensures FetchOutcome(meta, values).Failure? ==>
        reply == SheetError(500, "Failed to fetch sheet data",
                            if development then Some(FetchOutcome(meta, values).error) else None)
        && cachedSheetData == old(cachedSheetData) && lastFetchTime == old(lastFetchTime)
    {
      var result := FetchSheetData(meta, values, now);
      if result.Failure? {
        return SheetError(500, "Failed to fetch sheet data", if development then Some(result.error) else None);
      }
      return SheetOk(result.value, lastFetchTime.value, TargetGid);
    }
  }

  /** The sheet a successful fetch reads is one whose id is 268947963. */
  lemma FetchedSheetIsTarget(meta: Result<seq<SheetProperties>, string>,
                             values: string -> Result<Option<seq<Row>>, string>)
    requires FetchOutcome(meta, values).Success?
    ensures FindSheetByGid(meta.value, TargetGid).value.sheetId == 268947963
  {
    TargetGidRendersId();
    FoundSheetHasId(meta.value, 268947963);
  }

  lemma TargetGidRendersId()
    ensures NatToString(268947963) == TargetGid
  {
    assert NatToString(2) == "2";
    assert NatToString(26) == "26";
    assert NatToString(268) == "268";
    assert NatToString(2689) == "2689";
    assert NatToString(26894) == "26894";
    assert NatToString(268947) == "268947";
    assert NatToString(2689479) == "2689479";
    assert NatToString(26894796) == "26894796";
  }

  // ------------------------------------------------------------------
  // SQL of /students and /faculty
  // ------------------------------------------------------------------

  const StudentsSelect: string := "SELECT * FROM students WHERE 1=1"
  const StudentsOrder: string := " ORDER BY enrollment_no ASC"

  /** The optional filters of `GET /students`, in the order they are
      appended; each is on when its query value is non-empty. */
  function StudentFilters(enrollment: string, name: string, className: string): (r: seq<Filter>)
    ensures forall i :: 0 <= i < |r| ==> Balanced(r[i].fragment)
  {
    [Filter(enrollment != "", ColumnIs("enrollment_no", enrollment)), Filter(name != "", ColumnLike("name", name)),
     Filter(className != "", ColumnIs("class", className))]
  }

  /** The `GET /students` handler: `query += ...` and `params.push(...)` for each
      non-empty filter; the enrollment and class are bound as given, the name
      as `%name%`. */
  method StudentsQuery(enrollment: string, name: string, className: string)
    returns (query: string, params: seq<string>)
    ensures query == Appended(StudentsSelect, StudentFilters(enrollment, name, className)) + StudentsOrder
    ensures params == AppendedArgs([], StudentFilters(enrollment, name, className))
    ensures params == (if enrollment != "" then [enrollment] else [])
                      + (if name != "" then ["%" + name + "%"] else [])
                      + (if className != "" then [className] else [])
    ensures Count(query, '?') == |params|
  {
    ghost var fs := StudentFilters(enrollment, name, className);
    AppendedThree(StudentsSelect, [], fs[0], fs[1], fs[2]);
    query := StudentsSelect;
    params := [];
    if enrollment != "" {
      query := query + Render(ColumnIs("enrollment_no", enrollment));
      params := params + [enrollment];
    }
    if name != "" {
      query := query + Render(ColumnLike("name", name));
      params := params + ["%" + name + "%"];
    }
    if className != "" {
      query := query + Render(ColumnIs("class", className));
      params := params + [className];
    }
    query := query + StudentsOrder;
    StudentsPlaceholders(enrollment, name, className);
    StudentsParams(enrollment, name, className);
  }

  /** The parameters of the `GET /students` query: each non-empty filter's value, in order. */
  lemma StudentsParams(enrollment: string, name: string, className: string)
    ensures AppendedArgs([], StudentFilters(enrollment, name, className))
            == (if enrollment != "" then [enrollment] else [])
               + (if name != "" then ["%" + name + "%"] else [])
               + (if className != "" then [className] else [])
  {
    var fs := StudentFilters(enrollment, name, className);
    AppendedThree(StudentsSelect, [], fs[0], fs[1], fs[2]);
  }

  /** The `GET /students` query has one `?` per parameter. */
  lemma StudentsPlaceholders(enrollment: string, name: string, className: string)
    ensures Count(Appended(StudentsSelect, StudentFilters(enrollment, name, className)) + StudentsOrder, '?')
            == |AppendedArgs([], StudentFilters(enrollment, name, className))|
  {
    var fs := StudentFilters(enrollment, name, className);
    NoPlaceholder(StudentsSelect);
    AppendedCount(StudentsSelect, [], fs);
    AppendTextKeepsCount(Appended(StudentsSelect, fs), AppendedArgs([], fs), StudentsOrder);
  }

  const FacultySelect: string := "SELECT * FROM faculty WHERE 1=1"
  const FacultyOrder: string := " ORDER BY full_name ASC"

  /** The optional filters of `GET /faculty`, in the order they are appended. */
  function FacultyFilters(employeeId: string, shortName: string, fullName: string): (r: seq<Filter>)
    ensures forall i :: 0 <= i < |r| ==> Balanced(r[i].fragment)
  {
    [Filter(employeeId != "", ColumnIs("employee_id", employeeId)), Filter(shortName != "", ColumnLike("short_name", shortName)),
     Filter(fullName != "", ColumnLike("full_name", fullName))]
  }

  /** The `GET /faculty` handler: the employee id matches exactly, the names
      anywhere (`%x%`). */
  method FacultyQuery(employeeId: string, shortName: string, fullName: string)
    returns (query: string, params: seq<string>)
    ensures query == Appended(FacultySelect, FacultyFilters(employeeId, shortName, fullName)) + FacultyOrder
    ensures params == AppendedArgs([], FacultyFilters(employeeId, shortName, fullName))
    ensures params == (if employeeId != "" then [employeeId] else [])
                      + (if shortName != "" then ["%" + shortName + "%"] else [])
                      + (if fullName != "" then ["%" + fullName + "%"] else [])
    ensures Count(query, '?') == |params|
  {
    ghost var fs := FacultyFilters(employeeId, shortName, fullName);
    AppendedThree(FacultySelect, [], fs[0], fs[1], fs[2]);
    query := FacultySelect;
    params := [];
    if employeeId != "" {
      query := query + Render(ColumnIs("employee_id", employeeId));
      params := params + [employeeId];
    }
    if shortName != "" {
      query := query + Render(ColumnLike("short_name", shortName));
      params := params + ["%" + shortName + "%"];
    }
    if fullName != "" {
      query := query + Render(ColumnLike("full_name", fullName));
      params := params + ["%" + fullName + "%"];
    }
    query := query + FacultyOrder;
    FacultyPlaceholders(employeeId, shortName, fullName);
    FacultyParams(employeeId, shortName, fullName);
  }

  /** The parameters of the `GET /faculty` query: each non-empty filter's value, in order. */
  lemma FacultyParams(employeeId: string, shortName: string, fullName: string)
    ensures AppendedArgs([], FacultyFilters(employeeId, shortName, fullName))
            == (if employeeId != "" then [employeeId] else [])
               + (if shortName != "" then ["%" + shortName + "%"] else [])
               + (if fullName != "" then ["%" + fullName + "%"] else [])
  {
    var fs := FacultyFilters(employeeId, shortName, fullName);
    AppendedThree(FacultySelect, [], fs[0], fs[1], fs[2]);
  }

  /** The `GET /faculty` query has one `?` per parameter. */
  lemma FacultyPlaceholders(employeeId: string, shortName: string, fullName: string)
    ensures Count(Appended(FacultySelect, FacultyFilters(employeeId, shortName, fullName)) + FacultyOrder, '?')
            == |AppendedArgs([], FacultyFilters(employeeId, shortName, fullName))|
  {
    var fs := FacultyFilters(employeeId, shortName, fullName);
    NoPlaceholder(FacultySelect);
    AppendedCount(FacultySelect, [], fs);
    AppendTextKeepsCount(Appended(FacultySelect, fs), AppendedArgs([], fs), FacultyOrder);
  }

  /** The outcome of `POST /faculty` before the database is reached. */
  datatype FacultyPost =
    | MissingFields(status: nat, error: string)
    | InsertFaculty(statement: Fragment)

  /** `INSERT INTO faculty (short_name, employee_id, full_name, email_id) VALUES (?, ?, ?, ?)`,
      with the line break and indentation of the source. */
  const FacultyInsert0: string := "INSERT INTO faculty ("
  const FacultyInsert1: string := "short_name, employee_id, "
  const FacultyInsert2: string := "full_name, email_id) \n       VALUES ("
  const FacultyInsert: seq<string> := [FacultyInsert0 + FacultyInsert1 + FacultyInsert2, ", ", ", ", ", ", ")"]

  lemma FacultyInsert0HasNoPlaceholder() ensures '?' !in FacultyInsert0 {
    assert forall i :: 0 <= i < |FacultyInsert0| ==> FacultyInsert0[i] != '?';
  }

  lemma FacultyInsert1HasNoPlaceholder() ensures '?' !in FacultyInsert1 {
    assert forall i :: 0 <= i < |FacultyInsert1| ==> FacultyInsert1[i] != '?';
  }

  lemma FacultyInsert2HasNoPlaceholder() ensures '?' !in FacultyInsert2 {
    assert forall i :: 0 <= i < |FacultyInsert2| ==> FacultyInsert2[i] != '?';
  }

  /** The insert's `?` are exactly its four separators. */
  lemma FacultyInsertHasNoPlaceholder()
    ensures forall i :: 0 <= i < |FacultyInsert| ==> '?' !in FacultyInsert[i]
  {
    FacultyInsert0HasNoPlaceholder();
    FacultyInsert1HasNoPlaceholder();
    FacultyInsert2HasNoPlaceholder();
    assert '?' !in FacultyInsert0 + FacultyInsert1 + FacultyInsert2;
  }

  /** `POST /faculty`: 400 unless all four fields are non-empty; otherwise the
      insert binds them in column order. */
  function AddFaculty(shortName: string, employeeId: string, fullName: string, emailId: string): (r: FacultyPost)
    ensures r.MissingFields? <==> shortName == "" || employeeId == "" || fullName == "" || emailId == ""
    ensures r.MissingFields? ==> r == MissingFields(400, "Missing required fields")
    ensures r.InsertFaculty? ==> Balanced(r.statement) && r.statement.args == [shortName, employeeId, fullName, emailId]
    ensures r.InsertFaculty? ==>
              Render(r.statement) == FacultyInsert0 + FacultyInsert1 + FacultyInsert2
                                     + "?" + ", " + "?" + ", " + "?" + ", " + "?" + ")"
  {
    FacultyInsertHasNoPlaceholder();
    JoinFive(FacultyInsert, "?");
    if shortName == "" || employeeId == "" || fullName == "" || emailId == "" then
      MissingFields(400, "Missing required fields")
    else
      InsertFaculty(Fragment(FacultyInsert, [shortName, employeeId, fullName, emailId]))
  }
}
