# Attendance and timetable logic, modelled in Dafny

This project models the deterministic logic of a college attendance and
timetable application. The application is made of a React client, two
Express servers over MySQL and Google Sheets, and three Flask/OpenCV face
services. The model covers these parts:

- **Class timetable view** (`src/components/Timetable.js`). Lectures are
  de-duplicated through a `Map` keyed by `time + subject + batch`, then
  sorted in place by a minutes-since-midnight key parsed from the
  `"start - end"` label. The key uses AM/PM handling and an afternoon
  heuristic. The view then finds the lecture whose window holds the current
  minute and picks the day it opens on. JavaScript's `Number()` can give
  NaN, so every parsed field is an `Option<int>`.
- **Timetable server** (`server.js`). `processTimetableData` finds the
  header row, takes it and the five rows after it, pads them and validates
  them. The sheet is chosen by its gid, and `/api/sheet-data` refuses a
  request without a gid.
- **Backend server** (`backend/server.js`). A class holds the module-level
  cache (`cachedSheetData`, `lastFetchTime`). A successful fetch replaces
  it wholesale and a failed one leaves it alone. The SQL of `/students` and
  `/faculty` is built as text plus a parameter list, and POST `/faculty`
  is validated.
- **Student routes** (`src/students.js`). These are the list query with its
  search and individual filters, the class-group parsing
  (`6IT-A(6IT-A-2)` gives `6IT-A`) with its condition assembly, and the
  face-status answer.
- **Face services** (`face_verify_service.py`, `fast_face_recognition.py`,
  `backend/face_verify_service.py`). Each service builds a label map from
  the known-faces listing and uses its own file-name rule. Marking
  attendance appends a row to a CSV file unless the name is already on
  record for the date. In `fast_face_recognition.py` that test is a
  substring test on the lines read back, which a name holding a line break
  escapes. The services also hold the
  registration and verification handlers. Face counts, the recognizer's
  predicted label and the confidence are inputs.
- **Client lists**. These are the query string and class list of the
  students component (`src/components/Students.js`), the search filter of
  the student page (`src/pages/student.js`), and the append-only session
  and submission lists of the attendance context
  (`src/context/AttendanceContext.js`).

Every SQL statement is a `Sql.Fragment`: the text between placeholders and
the values bound to them. This states "one `?` per parameter" once
(`Sql.AppendedCount`, `Sql.JoinedCount`), and each route's lemma uses it.

Some behaviour one might expect is absent from the code, and the model
follows the code:

- time labels are split only on `" - "`; a label written with `"to"` has no
  window and sort key 0;
- no sentinel stands for "no teaching load";
- class groups are split on `,` and cut at `(`, never split on hyphens;
- rows shorter than the header are padded with `''`, not rejected;
- the sheet cache keeps only the last successful fetch: there is no stale
  fallback, no coalescing of concurrent fetches and no per-gid entry;
- the attendance context appends every session it receives; no session
  replaces another.

## Model

| member | source | states |
|---|---|---|
| Timetable.InitialDay | src/components/Timetable.js:43-44 | the opening day is today when today is Monday to Saturday, otherwise "Monday" |
| Timetable.ConcatenatedKeysCollide | src/components/Timetable.js:72-74 | the key has no delimiter, so two lectures whose subject and batch split the same text differently collide, and only the later one survives |
| MapDedup.FirstKeys | src/components/Timetable.js:72-74 | the Map's keys, each once, no longer than the input, exactly the keys some input item has |
| MapDedup.LastWithKey | src/components/Timetable.js:72-74 | the value the Map holds for a key is an input item with that key (the last one) |
| MapDedup.FirstIndex | src/components/Timetable.js:72-74 | the first input position carrying a key; no earlier item has it |
| MapDedup.Deduplicated | src/components/Timetable.js:72-74 | one value per distinct key |
| MapDedup.Deduplicate | src/components/Timetable.js:72-74 | the pass over the items followed by `values()` yields the de-duplicated list |
| MapDedup.SetEntries | src/components/Timetable.js:72-73 | after setting every item, the Map holds each key's last item, keys in first-insertion order |
| MapDedup.MapValues | src/components/Timetable.js:72-74 | `values()` lists the value of each key in key order |
| MapDedup.MapOfSnoc | src/components/Timetable.js:72-73 | setting one more entry overwrites an existing key in place or appends a new key |
| MapDedup.MapEntrySnoc | src/components/Timetable.js:72-73 | a later item with the same key replaces the held value; other keys keep theirs |
| MapDedup.DeduplicatedKeysDistinct | src/components/Timetable.js:72-74 | no two kept lectures share a key, each comes from the input, and the output is no longer than the input |
| MapDedup.DeduplicatedKeepsLast | src/components/Timetable.js:72-74 | every input key survives, held by the last input item carrying it |
| MapDedup.FirstKeysInFirstOccurrenceOrder | src/components/Timetable.js:72-74 | kept items appear in the order of their key's first occurrence in the input |
| Text.SignedValue | src/components/Timetable.js:85 | trimmed text is a number iff it is digits, or digits after one `+` or `-`; its value is the digits' value, negated after `-` |
| Text.JsNumber | src/components/Timetable.js:85 | `Number()` on a field: blank is 0; after trimming, exactly the signed digit strings are numbers, with `SignedValue`'s value; every other field is NaN (`None`) |
| Timetable.HourMinute | src/components/Timetable.js:85 | hours and minutes are defined exactly when both `Number()` conversions succeed and a minutes field exists |
| Timetable.AdjustSortHour | src/components/Timetable.js:87-95 | the hour every marker combination gives: `pm` moves an hour below 12 to the afternoon, then `am` turns 12 into 0 (so both markers turn 0 and 12 into 0); with neither, an hour below 8 moves to the afternoon unless Morning/Breakfast appears; an hour of the day stays one |
| Timetable.SortKey | src/components/Timetable.js:78-97 | a label without `" - "` gets key 0; otherwise the key exists iff the start's fields are numbers, and is the adjusted start hour, with `pm`/`am` looked for case-insensitively in the whole label, times 60 plus the minutes |
| Timetable.SortKeyNaN | src/components/Timetable.js:85-97 | a NaN start field makes the whole key NaN |
| KeySort.Insert | src/components/Timetable.js:77-101 | one insertion step adds exactly one element |
| KeySort.InsertionSort | src/components/Timetable.js:77-101 | the sorted list has the input's length |
| KeySort.InsertPermutes | src/components/Timetable.js:77-101 | an insertion step adds exactly the inserted element to the multiset |
| KeySort.InsertionSortPermutes | src/components/Timetable.js:77-101 | the sorted list is a permutation of the input |
| KeySort.InsertBounded | src/components/Timetable.js:77-101 | inserting keeps every key under a bound that the input respects |
| KeySort.InsertSorted | src/components/Timetable.js:77-101 | inserting into a sorted all-numeric list keeps it sorted |
| KeySort.InsertionSortSorted | src/components/Timetable.js:77-101 | when every key is numeric, the result is in non-decreasing key order |
| KeySort.InsertStable | src/components/Timetable.js:77-101 | insertion keeps the relative order of equal-key elements |
| KeySort.InsertionSortStable | src/components/Timetable.js:77-101 | elements sharing a key keep their input order |
| KeySort.SortInPlace | src/components/Timetable.js:77-101 | the in-place sort with comparator `key(a) - key(b)` leaves the array equal to the insertion-sort order of its old contents |
| KeySort.InsertAt | src/components/Timetable.js:77-101 | one pass moves `a[i]` left into the sorted prefix and leaves the rest of the array unchanged |
| Timetable.LoadTimetable | src/components/Timetable.js:71-103 | the stored timetable is a permutation of the de-duplicated rows; when every label is numeric it is sorted by key and stable |
| Timetable.Window | src/components/Timetable.js:122-134 | a window exists iff the label is present, has `" - "` and both clocks are numeric; it starts at the marker-adjusted start and ends at the end clock as written |
| Timetable.WindowHour | src/components/Timetable.js:130-131 | for every marker combination: `PM` moves an hour below 12 to the afternoon, then `AM` turns 12 into 0; no marker leaves the hour |
| SeqSearch.FindFirst | src/components/Timetable.js:121 | the position of the first element satisfying the predicate, and none only when no element satisfies it |
| SeqSearch.Find | src/components/Timetable.js:121-142 | `find` returns the first element satisfying the predicate, and none when there is none |
| SeqSearch.FirstMatchIsFindFirst | server.js:146-152 | a match with no match before it is the first match |
| Timetable.CurrentLecture | src/components/Timetable.js:116-144 | the current lecture is the first with start ≤ now < end in minutes, and null when no lecture qualifies |
| Timetable.UnseparatedNeverCurrent | src/components/Timetable.js:125-140 | a label without `" - "` is never current, because the exception makes the predicate false |
| Timetable.SortAndWindowDisagree | src/components/Timetable.js:85-134 | an unmarked start hour below 8 is afternoon for the sort but morning for the current-lecture window |
| Timetable.PmAnywhereMovesStart | src/components/Timetable.js:81-86 | `pm` after the end clock still moves the start: `"hs:ms - hs2:ms2 PM"` with hour below 12 sorts at hour + 12, and its NaN end minutes keep it from ever being current |
| Timetable.PmExample | src/components/Timetable.js:81-96 | `"11:00 - 12:00 PM"` has key 1380 |
| Sheets.HasGid | server.js:106-108 | a sheet matches when its id, written in decimal, equals the gid |
| Sheets.FindSheetByGid | server.js:106-108 | the target is the first sheet whose `sheetId.toString()` equals the gid, and none when no sheet's id does |
| Sheets.NonCanonicalGidFindsNothing | server.js:106-108 | an empty gid, or one with a sign, letter or leading zero, finds no sheet |
| Sheets.FoundSheetHasId | backend/server.js:59-61 | the sheet found for an id's rendering has that id |
| SheetServer.Pad | server.js:164-171 | a padded row is its input row followed only by `''` up to the width; a longer row is unchanged |
| SheetServer.Section | server.js:160 | the slice has 6 rows, or fewer when the data ends first |
| SheetServer.PadAll | server.js:164-171 | every row of the section is padded to the header's width |
| SheetServer.ProcessTimetableData | server.js:141-192 | the loop with `break`, the slice, the padding loop and the three checks compute the processed timetable |
| SheetServer.PadRows | server.js:164-171 | the per-row loop pads every row |
| SheetServer.PadRow | server.js:166-169 | the `while` loop appends `''` until the row reaches the width |
| SheetServer.NoHeaderNoTimetable | server.js:145-157 | with no row whose first cell contains `time` case-insensitively, the result is `[]` |
| SheetServer.ProcessedFromHeader | server.js:158-188 | fewer than 6 rows from the header give `[]`; a result is the header and the next 5 rows padded; it is non-empty iff the first day row is monday–friday |
| SheetServer.ProcessedShape | server.js:173-191 | a non-empty result has 6 rows, a header row first, every row at least the header's width, and a weekday second |
| SheetServer.FetchSheetData | server.js:97-138 | an unknown gid or a failed call gives `{success:false}` with its message; empty values give "No data found in sheet"; otherwise the processed rows |
| SheetServer.SheetDataRoute | server.js:195-206 | a missing gid answers 400 before any fetch; otherwise status 200 with the fetch's outcome in each of its cases: metadata error, unknown gid, values error, no data, processed rows |
| BackendServer.FetchOutcome | backend/server.js:50-76 | a fetch succeeds iff the target gid's sheet exists and its values call succeeds; the data is the values, or `[]` when absent |
| BackendServer.SheetCache.constructor | backend/server.js:46-47 | the cache starts as `[]` and `null` |
| BackendServer.SheetCache.FetchSheetData | backend/server.js:50-85 | a success replaces `cachedSheetData` and `lastFetchTime`; a failure is rethrown and changes neither |
| BackendServer.SheetCache.SheetDataRoute | backend/server.js:113-129 | the route answers the fresh data with the fetch time and gid, or 500 with details only in development |
| BackendServer.FetchedSheetIsTarget | backend/server.js:59-65 | the sheet a successful fetch reads has id 268947963 |
| BackendServer.StudentFilters | backend/server.js:170-182 | every optional `/students` clause has one placeholder per bound value |
| BackendServer.StudentsQuery | backend/server.js:163-187 | clauses come in the order enrollment, name, class, each only when given; enrollment and class match exactly, name as `%name%`; placeholders = params |
| BackendServer.StudentsParams | backend/server.js:170-182 | the params are the given filters' values in order, the name wrapped in `%` |
| BackendServer.StudentsPlaceholders | backend/server.js:167-184 | the `/students` query has as many `?` as params |
| BackendServer.FacultyFilters | backend/server.js:206-219 | every optional `/faculty` clause has one placeholder per bound value |
| BackendServer.FacultyQuery | backend/server.js:199-224 | `employee_id` matches exactly, short and full name as `%x%` LIKE, each only when given; placeholders = params |
| BackendServer.FacultyParams | backend/server.js:206-219 | the params are the given filters' values in order, names wrapped in `%` |
| BackendServer.FacultyPlaceholders | backend/server.js:203-221 | the `/faculty` query has as many `?` as params |
| BackendServer.FacultyInsertHasNoPlaceholder | backend/server.js:245-246 | the insert's only placeholders are its four value slots |
| BackendServer.AddFaculty | backend/server.js:236-248 | POST `/faculty` answers 400 iff any of the four fields is missing; otherwise the statement is `INSERT INTO faculty (short_name, employee_id, full_name, email_id) VALUES (?, ?, ?, ?)`, with the source's line break, bound to the four fields in that order |
| Sql.BalancedCount | backend/server.js:167-184 | a fragment with one value per placeholder renders with that many `?` |
| Sql.AppendedCount | src/students.js:28-82 | appending optional balanced clauses keeps placeholders equal to params |
| Sql.JoinedCount | src/students.js:150-155 | balanced conditions joined by a separator without `?` have one `?` per param |
| StudentRoutes.Anywhere | src/students.js:57 | `%term%` is the term framed by `%` |
| StudentRoutes.SearchAny | src/students.js:50-58 | the clause is ` AND (enrollment_no LIKE ? OR name LIKE ? OR class LIKE ? OR batch LIKE ?)`, with `%search%` bound to each of the four placeholders |
| Sql.ColumnLike | src/students.js:61-68 | ` AND <column> LIKE ?` with one placeholder bound to `%term%` |
| Sql.ColumnIs | backend/server.js:170-182 | ` AND <column> = ?` with one placeholder bound to the value |
| StudentRoutes.ClassOrBatch | src/students.js:69-72 | the clause is ` AND (class = ? OR batch = ?)`, with the class bound to both placeholders |
| StudentRoutes.ListFilters | src/students.js:50-73 | every clause the list query may append is balanced |
| StudentRoutes.ListQuery | src/students.js:24-82 | with `search`, four `%search%` params and no other filter; without it, `%enrollment%`, `%name%`, and the class twice unless it is `All Classes`; placeholders = params |
| StudentRoutes.ListParams | src/students.js:50-73 | the params of the list query, case by case |
| StudentRoutes.ListPlaceholders | src/students.js:28-82 | the list query has as many `?` as params |
| StudentRoutes.SearchIgnoresFilters | src/students.js:50-59 | with a search term the individual filters do not affect the query |
| StudentRoutes.Before | src/students.js:134 | the text before the first `(`, holding no `(` |
| StudentRoutes.GroupName | src/students.js:132-136 | a piece is trimmed and cut before its first `(`, then trimmed again; with nothing before `(` it stays the whole trimmed piece |
| StudentRoutes.ClassGroups | src/students.js:132-136 | one group per `,`-separated piece, in order |
| StudentRoutes.GroupNameOfParenthesised | src/students.js:133-135 | `name(rest)` names the group `name` |
| StudentRoutes.SplitGroupExample | src/students.js:133 | `6IT-A(6IT-A-2)` names the group `6IT-A` |
| StudentRoutes.GroupCondition | src/students.js:151-152 | each group condition is `(class = ? OR batch = ? OR batch LIKE ?)` bound to `group, group, group%` |
| StudentRoutes.GroupConditions | src/students.js:150-153 | one condition per group, in order |
| StudentRoutes.PushConditions | src/students.js:150-153 | the `forEach` pushes each group's condition text and its three params, in order |
| StudentRoutes.GroupQuery | src/students.js:126-156 | the conditions are joined by `' OR '` between select and order; placeholders = params |
| StudentRoutes.GroupPlaceholders | src/students.js:138-156 | the class-group query has as many `?` as params |
| StudentRoutes.GroupArgs | src/students.js:150-153 | n groups give 3n params, `group, group, group%` for each, in order |
| StudentRoutes.FaceStatusOf | src/students.js:223-228 | `isRegistered` iff a row is returned; `faceData` is the first row, or null |
| FaceLabels.Labelled | face_verify_service.py:133-141 | labels are listing positions of readable image files, in increasing order, named by the service's rule |
| FaceLabels.LabelledComplete | face_verify_service.py:133-141 | every readable image file gets a label |
| FaceLabels.LoadFacesAndLabels | face_verify_service.py:129-142 | the loop's faces, labels and label map agree with one another and with the listing |
| FaceLabels.FirstWithName | face_verify_service.py:184-187 | the label chosen is the first key in map order whose name is the student id; none when no name matches |
| FaceLabels.FindLabel | face_verify_service.py:183-187 | the loop with `break` finds that label |
| FaceLabels.NameAt | fast_face_recognition.py:75 | `label_map.get` gives the name of the label, or the fallback when the label is absent |
| FaceLabels.SplitextRoot | fast_face_recognition.py:32 | `splitext` removes the last extension, unless the name starts with dots only |
| FaceLabels.SplitextRootOf | fast_face_recognition.py:32 | `base.ext` with no dot in `ext` gives `base` |
| FaceLabels.FirstDotPiece | face_verify_service.py:141 | the text before the first `.`, holding no `.` |
| FaceLabels.FirstDotPieceOf | face_verify_service.py:141 | a name without a dot is the label of `name.ext` |
| FaceLabels.JpgIsImage | face_verify_service.py:134 | a `.jpg` file name passes the case-insensitive image filter |
| FaceVerify.AfterMark | face_verify_service.py:108-126 | after marking, the name is recorded on the date, and the file is unchanged or has one row appended |
| FaceVerify.MarkIdempotent | face_verify_service.py:114-126 | a second mark of the same name on the same date leaves the file unchanged |
| FaceVerify.MarkIndependent | face_verify_service.py:114-120 | marking one name and date does not change whether another name or date is already marked |
| FaceVerify.Records | face_verify_service.py:227-240 | at most one record per row |
| FaceVerify.RecordsContent | face_verify_service.py:233-240 | every record is fields 0–3 of a row with at least four fields, and every such row gives a record |
| FaceVerify.RecordsAppend | face_verify_service.py:233-240 | rows read one after another give their records in the same order, so records follow file order |
| FaceVerify.RecordsOfFullRows | face_verify_service.py:233-240 | when every row is full, record i maps fields 0–3 of row i |
| FaceVerify.MarkThenRead | face_verify_service.py:122-126 | a successful mark reads back as one more record at the end |
| FaceVerify.AttendanceFile.constructor | face_verify_service.py:227-228 | a missing file has no rows |
| FaceVerify.AttendanceFile.MarkAttendance | face_verify_service.py:108-126 | returns False and writes nothing when a full row has the name and date; otherwise appends `[name, date, time, status]` and returns True |
| FaceVerify.AttendanceFile.GetAttendance | face_verify_service.py:223-240 | the loop returns the records of the file |
| FaceVerify.StripBase64Prefix | face_verify_service.py:83-86 | text without `base64,` is kept; otherwise the result is `split("base64,")[1]`: the text after the first `base64,`, up to the next one or the end |
| FaceVerify.StripDataUrl | face_verify_service.py:85-86 | `<header>base64,<payload>` strips to the payload when neither the header nor the payload has a comma (so any `data:image/<type>;` header) |
| FaceVerify.AfterFirstComma | face_verify_service.py:173 | `split(',')[1]` exists iff the image text has a comma |
| FaceVerify.TrainRecognizer | face_verify_service.py:145-149 | training returns the label map of the listing, labels being the text before the first dot |
| FaceVerify.FaceService.constructor | face_verify_service.py:152-153 | the start-up label map is the listing's |
| FaceVerify.FaceService.Verify | face_verify_service.py:165-199 | a missing `image` or `student_id` gives 400; an image without a comma gives 500 (`IndexError`), a decode error 500 with its message, no face 400 `No face detected`; no label for the id gives 404; otherwise `verified` iff `pred_label` is that label and confidence < 60 |
| FaceVerify.FaceService.Register | face_verify_service.py:201-221 | missing fields give 400; a decode error gives 500 with its message, no face 400 `No face detected`; success saves `<student_id>.jpg` and reloads the label map; failure leaves it unchanged |
| FaceVerify.RegisteredFileLabelled | face_verify_service.py:215-218 | after registration the reloaded map labels the saved file with the id, so verify finds a label, when the id has no `.` |
| FaceVerify.SavedNameReloads | face_verify_service.py:215 | the saved name is an image file whose label is the id |
| FastFace.CsvField | fast_face_recognition.py:56-57 | the written field contains the value when it has no quote, and has no line break when the value has neither |
| FastFace.RecordText | fast_face_recognition.py:55-57 | `writerow` ends every record with a line break |
| FastFace.RecordTextOfFour | fast_face_recognition.py:57 | a four-field record is its fields joined by `,` and ended by `\r\n` |
| FastFace.Newlines | fast_face_recognition.py:51 | reading in text mode leaves no `\r`, changes text without `\r` not at all, and keeps a final line break |
| FastFace.NewlinesAppend | fast_face_recognition.py:51 | translation works piece by piece when the first piece does not end in `\r` |
| FastFace.FirstLineLength | fast_face_recognition.py:52 | the first line runs up to and including the first `\n`, or to the end |
| FastFace.LinesOfFlatten | fast_face_recognition.py:52 | the lines run together give back the text |
| FastFace.LinesOfAppend | fast_face_recognition.py:52 | text ending in a line break is read as its lines, then those of what follows |
| FastFace.ReadLinesAppend | fast_face_recognition.py:51-52 | appending to a file that ends in a line break appends lines when it is read |
| FastFace.RecordFirstLine | fast_face_recognition.py:51-57 | the first line read back from a record holds its name and date when neither has a quote or a line break |
| FastFace.LineBreakNameMarkedAgain | fast_face_recognition.py:51-57 | a name with a line break is written over two lines, neither holding the name, so it is not refused afterwards and is marked again |
| FastFace.LineBreakRecordLines | fast_face_recognition.py:51-57 | such a record reads back as exactly two lines |
| FastFace.RefusedPersists | fast_face_recognition.py:50-58 | the file is only appended to, so a refusal stays a refusal |
| FastFace.MarkedThenRefused | fast_face_recognition.py:50-58 | after a True call, the same name on the same date is refused, when neither has a quote or a line break |
| FastFace.ContainedNameRefused | fast_face_recognition.py:53 | a name contained in a name already recorded that day is refused too |
| FastFace.AttendanceLog.MarkAttendance | fast_face_recognition.py:45-58 | returns False without writing when some line read back contains both name and date; otherwise appends the record of `[name, date, time, 'Present']` and returns True; the file keeps ending in a line break |
| FastFace.TrainRecognizer | fast_face_recognition.py:36-40 | labels are the file names minus their last extension |
| FastFace.ImageLabel | fast_face_recognition.py:32 | an image `base.ext` is labelled `base` |
| FastFace.FaceMark | fast_face_recognition.py:73-79 | a face is marked iff the prediction succeeded and confidence < 60, under its label's name or `Unknown` |
| FastFace.FaceText | fast_face_recognition.py:73-79 | one face's effect on the file: it only grows, stays empty or ending in a line break, and is unchanged for an unconfident face |
| FastFace.ProcessFace | fast_face_recognition.py:73-79 | the file becomes `FaceText` of what it held: a confident face calls `mark_attendance`, and only then can the file change, by one record |
| FastFace.FrameText | fast_face_recognition.py:70-79 | the faces of a frame applied in detection order, each at the clock reading `mark_attendance` takes for it: the file only grows and stays empty or ending in a line break |
| FastFace.ProcessFrame | fast_face_recognition.py:70-79 | the loop over the detected faces, each marked at its own date and time, leaves exactly `FrameText` of the old file |
| FastFace.FrameOnRecord | fast_face_recognition.py:70-79 | after a frame, every confidently recognised name without a quote or line break is on record for the date its face was handled on |
| FastFace.UnconfidentFrameWritesNothing | fast_face_recognition.py:74-79 | a frame with no confident face leaves the file unchanged |
| BackendFace.StudentLabel | backend/face_verify_service.py:47 | the label is the file name's root (last extension removed) up to its first `_`, or the whole root when it has none |
| BackendFace.SavedNameLabel | backend/face_verify_service.py:47-90 | `<id>_<stamp>.jpg` is an image and retraining labels it `id` when the id has no `_` |
| BackendFace.StripDataUrl | backend/face_verify_service.py:67 | the text changes iff the pattern matches: it starts `data:image/` and a `;base64,` follows at least one character of that line; then everything up to the last such marker is removed, as the greedy `.+` does |
| BackendFace.StripDataUrlPayload | backend/face_verify_service.py:67 | `data:image/<type>;base64,<payload>` strips to the payload |
| BackendFace.Recognizer.constructor | backend/face_verify_service.py:33-37 | nothing is trained at first |
| BackendFace.Recognizer.Train | backend/face_verify_service.py:33-52 | the label map of the listing; the recognizer is retrained only when it has faces |
| BackendFace.Recognizer.RegisterFace | backend/face_verify_service.py:54-106 | a missing image or id gives 400; a decode error gives 500 with its message, an undecodable frame 400 `Failed to decode image`; 0 or more than 1 face is rejected; only exactly one face saves `<studentId>_<stamp>.jpg` and retrains |
| BackendFace.RegisteredFileTrained | backend/face_verify_service.py:90-97 | after registration the recognizer is trained with the saved file labelled with the id |
| BackendFace.VerifyFace | backend/face_verify_service.py:108-183 | missing images give 400; a decode error gives 500 with its message; 0 registered faces, 0 current faces or more than 1 current face give 400, each with its own message; success iff confidence < 60 |
| StudentsPage.Get | src/components/Students.js:26-31 | the value of the first pair with a name, or none when no pair has it |
| StudentsPage.QueryOf | src/components/Students.js:26-31 | `enrollment` and `name` only when non-empty; `class` only when non-empty and not `All Classes` |
| StudentsPage.BuildQuery | src/components/Students.js:26-31 | the conditional appends build that query |
| StudentsPage.QueryString | src/components/Students.js:33 | the query string is empty iff there are no pairs |
| StudentsPage.StudentsUrl | src/components/Students.js:33 | `?` and the query are added only when the query string is non-empty |
| StudentsPage.InsertSorted | src/components/Students.js:43 | inserting a new class into a sorted list keeps it strictly sorted and adds exactly that class |
| StudentsPage.SortDistinct | src/components/Students.js:43 | sorting distinct classes gives a strictly sorted permutation |
| StudentsPage.StrictlySortedUnique | src/components/Students.js:43 | any two strictly sorted lists with the same elements are equal, so the sort result is determined |
| StudentsPage.NonEmpty | src/components/Students.js:42 | `filter(Boolean)` keeps exactly the non-empty classes |
| StudentsPage.ClassList | src/components/Students.js:42-43 | `All Classes` first, then the distinct non-empty `class` or `batch` values, sorted |
| StudentsPage.StudentsView.constructor | src/components/Students.js:6-15 | the initial state of the component |
| StudentsPage.StudentsView.FetchData | src/components/Students.js:22-57 | the URL follows the filters; success stores the students and class list; on an error `filteredStudents` becomes empty and the error is recorded |
| StudentsPage.StudentsView.HandleSearch | src/components/Students.js:67-69 | search fetches with the form's filters and leaves the state that fetch's outcome gives: students, class list, error and loading |
| StudentsPage.StudentsView.HandleRefresh | src/components/Students.js:71-88 | refresh and clear reset the form to `{'', '', 'All Classes'}`, fetch with no filters and leave the state that outcome gives |
| StudentSearch.Filtered | src/pages/student.js:27-32 | every kept student matches the lower-cased term |
| StudentSearch.Kept | src/pages/student.js:27 | the kept students sit at strictly increasing input positions, so the result is an order-preserving sublist |
| StudentSearch.KeptExactly | src/pages/student.js:27-32 | a student is kept iff its lower-cased name, enrollment number, batch or class contains the lower-cased term |
| StudentSearch.EmptyTermKeepsFielded | src/pages/student.js:28-31 | an empty term keeps exactly the students with at least one of the four fields |
| StudentSearch.CaseInsensitive | src/pages/student.js:28-31 | changing only the letter case of the term does not change the result |
| AttendanceContext.SessionsOf | src/context/AttendanceContext.js:14-16 | a payload is listed iff it arrived in a `new_attendance_session` event (the `NewSession` kind), and there are no more sessions than events |
| AttendanceContext.SubmissionsOf | src/context/AttendanceContext.js:18-20 | a payload is listed iff it arrived in an `attendance_submitted` event (the `Submitted` kind), and there are no more submissions than events |
| AttendanceContext.SessionsCounted | src/context/AttendanceContext.js:15 | a session received k times appears k times: nothing is de-duplicated or replaced |
| AttendanceContext.SubmissionsCounted | src/context/AttendanceContext.js:19 | a submission received k times appears k times |
| AttendanceContext.SessionsAppend | src/context/AttendanceContext.js:14-16 | later events extend the session list at its end, so sessions keep arrival order |
| AttendanceContext.SubmissionsAppend | src/context/AttendanceContext.js:18-20 | later events extend the submission list at its end, so submissions keep arrival order |
| AttendanceContext.Context.constructor | src/context/AttendanceContext.js:6-7 | both lists start empty |
| AttendanceContext.Context.OnNewSession | src/context/AttendanceContext.js:14-16 | a session is appended at the end; earlier entries and the submissions are unchanged |
| AttendanceContext.Context.OnSubmitted | src/context/AttendanceContext.js:18-20 | a submission is appended to `studentSubmissions` only |
| AttendanceContext.Context.Dispatch | src/context/AttendanceContext.js:14-20 | one event reaches the handler for its kind: with a socket it appends its payload to that list only, without one nothing changes |
| AttendanceContext.Context.Receive | src/context/AttendanceContext.js:11-26 | a run of events appends exactly the sessions and the submissions it carries, in arrival order, and nothing without a socket |
| AttendanceContext.Context.StartSession | src/context/AttendanceContext.js:28-34 | `start_attendance` is emitted only when a socket exists |
| AttendanceContext.Context.SubmitAttendance | src/context/AttendanceContext.js:36-42 | `submit_attendance` is emitted only when a socket exists |
| Timetable.LectureKey | src/components/Timetable.js:71-73 | JavaScript `+` on the three columns: the texts run together with NULL written `null`, except that NULL time and subject add to the number 0, so three NULLs key as 0 and NULL, NULL, batch as `"0" + batch` |
| Timetable.JsPlus | src/components/Timetable.js:72 | `+` concatenates iff either side is a string; otherwise it adds the numbers, NULL counting as 0 |
| Timetable.NullTimeCollides | src/components/Timetable.js:72 | a NULL time keys like the time text `null` |
| Timetable.NullPairCollides | src/components/Timetable.js:72 | NULL time and subject key like the time text `"0" + batch` with empty subject and batch |
| Text.Split | src/components/Timetable.js:125 | `split` always yields at least one piece |
| Text.JoinSplit | src/components/Timetable.js:125 | joining the pieces of `split(sep)` with `sep` gives back the original text |
| Text.Trim | src/students.js:134-135 | the trimmed text is no longer than the input and neither starts nor ends with whitespace |
| Text.TrimIdempotent | src/students.js:135 | trimming an already trimmed group name changes nothing |
| Text.Lower | src/pages/student.js:28-31 | lower-casing keeps the length and maps every character |
| Text.LowerIdempotent | src/pages/student.js:28-31 | lower-casing twice is lower-casing once |
| Text.NatToString | server.js:107 | `sheetId.toString()` is non-empty decimal digits without a leading zero |
| Text.NatToStringRoundTrip | server.js:107 | reading the decimal rendering back gives the id |
| Text.NatToStringInjective | server.js:106-108 | distinct sheet ids render distinctly, so at most one id matches a gid |
| Text.NatToStringNumber | server.js:107 | `Number()` of an id's rendering is the id |
| BackendServer.TargetGidRendersId | backend/server.js:45 | the target gid `268947963` is the rendering of sheet id 268947963 |
| StudentsPage.BelowIrreflexive | src/components/Students.js:43 | the default `sort()` order never puts a class before itself |
| StudentsPage.BelowTransitive | src/components/Students.js:43 | the default `sort()` order is transitive |
| StudentsPage.BelowTotal | src/components/Students.js:43 | any two distinct classes are ordered one way or the other |
| FaceVerify.NameFound | face_verify_service.py:183-187 | when some label carries the student id, the lookup finds a label |
| FastFace.AttendanceLog.constructor | fast_face_recognition.py:50 | a missing attendance file reads as empty |

## Left out

- I/O and foreign code are inputs, not models. This covers the Google Sheets
  API calls, SQL execution (including the `ORDER BY` clauses), HTTP routing,
  file system reads and writes, OpenCV detection and LBPH prediction, and
  base64 and image decoding. Each becomes a parameter: a sheet list, a
  values function, a directory listing, a face count, a predicted label,
  a confidence, or a decode error.
- Clocks: the current date, time, minute and weekday are parameters. In
  fast_face_recognition.py every face carries its own date and time, since
  `mark_attendance` reads `datetime.now()` once per face. The
  `setInterval` polling of backend/server.js and the minute ticker of the
  timetable view are timer plumbing and are not modelled.
- Socket.IO rebroadcast (server.js), the socket client set-up and the
  listeners of other components are network fan-out. The attendance
  context's `socket.off` cleanup is not modelled.
- `compare_faces` in face_verify_service.py is floating-point pixel
  similarity and is not modelled.
- test_face_recognition.py, the camera and UI components, the dashboards,
  routing and the authentication stubs are not part of this model.
- Text.JsNumber: models `Number()` on integers only. Fractions, exponents,
  hexadecimal and `Infinity` all give `None`, where JavaScript gives a
  number.
- Text.Lower: folds only the ASCII letters A–Z, where `toLowerCase()` and
  `lower()` fold all of Unicode.
- KeySort.SortInPlace: models `Array.prototype.sort` as a stable insertion
  sort with comparator `key(a) - key(b)`. A NaN result counts as 0. When
  every key is numeric this agrees with any stable sort. With NaN keys,
  JavaScript's order depends on the engine.
- StudentsPage.QueryString: does not percent-encode values as
  `URLSearchParams.toString()` does.
- StudentRoutes.ListQuery: the multi-line SQL text of src/students.js is
  written with single spaces. Only the placement of the `?` placeholders
  matters to the model.
- Falsy HTTP query and body values (`undefined`, `null`, `''`) are all
  modelled as the empty string.
- backend/server.js declares a second `/api/sheet-data` route (line 334).
  Express dispatches to the first one (line 113), so the second is not
  modelled.
- FastFace.MarkedThenRefused: proved only when the name and the date hold
  no `"` and no line break. The CSV writer doubles quotes, so a quoted name
  need not appear verbatim in the line; a name with a line break is split
  over two lines and is marked again (FastFace.LineBreakNameMarkedAgain).
- FastFace.ContainedNameRefused: same restriction as
  FastFace.MarkedThenRefused: proved only for names and dates without a
  `"` or a line break.
- FastFace.FrameOnRecord: promises a record only for names without a `"` or
  a line break, for the same reason.
- StudentsPage.Below: compares Unicode scalar values, where JavaScript's
  `sort` compares UTF-16 code units; the two orders differ only between
  characters above U+FFFF and those from U+E000 to U+FFFF.
- The recognizer's numeric label for a prediction is an `int`, and the
  confidence is a `real`. Python's float rounding is not modelled.
