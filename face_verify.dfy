/**
 * The Flask face service at the top of the repository: the attendance CSV
 * (mark once per name per day, read back as records), the data-URL prefix
 * of submitted images, the label map built from the known-faces directory,
 * and the `/verify` and `/register` handlers. Face detection, decoding and
 * the recognizer's prediction are inputs.
 */
module FaceVerify {
  import opened Wrappers
  import opened Text
  import opened FaceLabels

  type Row = seq<string>

  /** One element of the `/attendance` response. */
  datatype Record = Record(userId: string, date: string, time: string, status: string)

  /** Some row with at least four fields records `name` on `date`. */
  predicate AlreadyMarked(rows: seq<Row>, name: string, date: string) {
    exists i :: 0 <= i < |rows| && |rows[i]| >= 4 && rows[i][0] == name && rows[i][1] == date
  }

  /** The file after `mark_attendance(name)` at `date`/`time`. */
  function AfterMark(rows: seq<Row>, name: string, date: string, time: string, status: string): (r: seq<Row>)
    ensures AlreadyMarked(r, name, date)
    ensures r == rows || r == rows + [[name, date, time, status]]
  {
    if AlreadyMarked(rows, name, date) then rows
    else
      var r := rows + [[name, date, time, status]];
      assert r[|rows|] == [name, date, time, status];
      r
  }

  /** Marking twice on the same day is marking once: the second call finds
      the first call's row and leaves the file as it was. */
  lemma MarkIdempotent(rows: seq<Row>, name: string, date: string,
                       time: string, status: string, time2: string, status2: string)
    ensures AfterMark(AfterMark(rows, name, date, time, status), name, date, time2, status2)
            == AfterMark(rows, name, date, time, status)
  {
  }

  /** Marking one name on one date does not decide whether another name or
      another date is already marked. */
  lemma {:induction false} MarkIndependent(rows: seq<Row>, name: string, date: string,
                                          time: string, status: string, other: string, day: string)
    requires other != name || day != date
    ensures AlreadyMarked(AfterMark(rows, name, date, time, status), other, day)
            == AlreadyMarked(rows, other, day)
  {
    var r := AfterMark(rows, name, date, time, status);
    if AlreadyMarked(r, other, day) {
      var i :| 0 <= i < |r| && |r[i]| >= 4 && r[i][0] == other && r[i][1] == day;
      if i < |rows| {
        assert rows[i] == r[i];
      }
    } else {
      assert forall i :: 0 <= i < |rows| ==> r[i] == rows[i];
    }
  }

  function RecordOf(row: Row): Record
    requires |row| >= 4
  {
    Record(row[0], row[1], row[2], row[3])
  }

  /** The records `/attendance` returns: rows with at least four fields, in
      file order. */
  function Records(rows: seq<Row>): (r: seq<Record>)
    ensures |r| <= |rows|
  {
    if rows == [] then []
    else
      var n := |rows| - 1;
      Records(rows[..n]) + (if |rows[n]| >= 4 then [RecordOf(rows[n])] else [])
  }

  /** Every record comes from a row with four fields, and every such row
      gives a record. */
  lemma {:induction false} RecordsContent(rows: seq<Row>)
    ensures forall k :: 0 <= k < |Records(rows)| ==>
              exists i :: 0 <= i < |rows| && |rows[i]| >= 4 && Records(rows)[k] == RecordOf(rows[i])
    ensures forall i :: 0 <= i < |rows| && |rows[i]| >= 4 ==> RecordOf(rows[i]) in Records(rows)
  {
    if rows != [] {
      var n := |rows| - 1;
      var init := rows[..n];
      RecordsContent(init);
      var prev := Records(init);
      var r := Records(rows);
      assert r == prev + (if |rows[n]| >= 4 then [RecordOf(rows[n])] else []);
      assert forall i :: 0 <= i < n ==> init[i] == rows[i];
      forall k | 0 <= k < |r|
        ensures exists i :: 0 <= i < |rows| && |rows[i]| >= 4 && Records(rows)[k] == RecordOf(rows[i])
      {
        if k < |prev| {
          assert r[k] == prev[k];
          var i :| 0 <= i < |init| && |init[i]| >= 4 && prev[k] == RecordOf(init[i]);
          assert rows[i] == init[i];
          assert 0 <= i < |rows| && |rows[i]| >= 4 && Records(rows)[k] == RecordOf(rows[i]);
        } else {
          assert 0 <= n < |rows| && |rows[n]| >= 4 && Records(rows)[k] == RecordOf(rows[n]);
        }
      }
    } else {
      assert Records(rows) == [];
    }
  }

  /** Reading two runs of rows one after the other keeps the records of each,
      in order. */
  lemma {:induction false} RecordsAppend(a: seq<Row>, b: seq<Row>)
    ensures Records(a + b) == Records(a) + Records(b)
    decreases |b|
  {
    if b == [] {
      assert a + b == a;
    } else {
      var n := |b| - 1;
      assert (a + b)[..|a + b| - 1] == a + b[..n];
      assert (a + b)[|a + b| - 1] == b[n];
      RecordsAppend(a, b[..n]);
    }
  }

  /** When every row has four fields, there is one record per row, field by field. */
  lemma {:induction false} RecordsOfFullRows(rows: seq<Row>)
    requires forall i :: 0 <= i < |rows| ==> |rows[i]| >= 4
    ensures |Records(rows)| == |rows|
    ensures forall i :: 0 <= i < |rows| ==> Records(rows)[i] == RecordOf(rows[i])
  {
    if rows != [] {
      var n := |rows| - 1;
      RecordsOfFullRows(rows[..n]);
      assert forall i :: 0 <= i < n ==> Records(rows)[i] == Records(rows[..n])[i];
    }
  }

  /** A successful mark is read back as one more record at the end. */
  lemma MarkThenRead(rows: seq<Row>, name: string, date: string, time: string, status: string)
    requires !AlreadyMarked(rows, name, date)
    ensures Records(AfterMark(rows, name, date, time, status))
            == Records(rows) + [Record(name, date, time, status)]
  {
    var r := rows + [[name, date, time, status]];
    assert r[..|rows|] == rows;
  }

  /** The attendance CSV file, as the rows `csv.reader` yields. A missing
      file reads as no rows. */
  class AttendanceFile {
    var rows: seq<Row>

    constructor ()
      ensures rows == []
    {
      rows := [];
    }

    /** `mark_attendance(name, status)` at the given date and time of day:
        refuse when a row already records `name` on `date`, else append one row. */
    method MarkAttendance(name: string, date: string, time: string, status: string := "Present")
      returns (marked: bool)
      modifies this
      ensures marked == !AlreadyMarked(old(rows), name, date)
      ensures rows == AfterMark(old(rows), name, date, time, status)
      ensures marked ==> rows == old(rows) + [[name, date, time, status]]
      ensures !marked ==> rows == old(rows)
    {
      var i := 0;
      while i < |rows|
        invariant 0 <= i <= |rows|
        invariant !AlreadyMarked(rows[..i], name, date)
      {
        var row := rows[i];
        if |row| >= 4 && row[0] == name && row[1] == date {
          assert rows[..i + 1][i] == row;
          return false;
        }
        assert forall k :: 0 <= k < i ==> rows[..i + 1][k] == rows[..i][k];
        i := i + 1;
      }
      assert rows[..i] == rows;
      rows := rows + [[name, date, time, status]];
      marked := true;
    }

    /** `get_attendance`: the records of the rows with at least four fields. */
    method GetAttendance() returns (attendance: seq<Record>)
      ensures attendance == Records(rows)
    {
      attendance := [];
      var i := 0;
      while i < |rows|
        invariant 0 <= i <= |rows|
        invariant attendance == Records(rows[..i])
      {
        assert rows[..i + 1][..i] == rows[..i];
        if |rows[i]| >= 4 {
          attendance := attendance + [RecordOf(rows[i])];
        }
        i := i + 1;
      }
      assert rows[..i] == rows;
    }
  }

  const Base64Marker := "base64,"

  /** `decode_base64_image`'s prefix handling: keep the text after the first
      `base64,`, up to a second one if there is one. */
  function StripBase64Prefix(s: string): (r: string)
    ensures !Contains(s, Base64Marker) ==> r == s
    ensures Contains(s, Base64Marker) ==> !Contains(r, Base64Marker) && |r| < |s|
    ensures Contains(s, Base64Marker) ==>
              var rest := s[IndexOf(s, Base64Marker).value + |Base64Marker|..];
              |r| <= |rest| && rest[..|r|] == r
              && (forall j :: 0 <= j < |r| ==> !OccursAt(rest, Base64Marker, j))
              && (|r| == |rest| || OccursAt(rest, Base64Marker, |r|))
  {
    if Contains(s, Base64Marker) then
      SplitHead(s, Base64Marker);
      SplitPiecesLackSeparator(s, Base64Marker);
      var i := IndexOf(s, Base64Marker).value;
      var rest := s[i + |Base64Marker|..];
      SplitStep(s, Base64Marker, i);
      assert Split(s, Base64Marker)[1] == Split(rest, Base64Marker)[0];
      SplitHead(rest, Base64Marker);
      Split(s, Base64Marker)[1]
    else s
  }

  /** A data URL `data:image/<type>;base64,<payload>` strips to its payload:
      neither the header nor a base64 payload has a `,`. */
  lemma StripDataUrl(header: string, payload: string)
    requires ',' !in header && ',' !in payload
    ensures StripBase64Prefix(header + Base64Marker + payload) == payload
  {
    assert Base64Marker[|Base64Marker| - 1] == ',';
    assert ',' !in Base64Marker[..|Base64Marker| - 1];
    SplitAfterLastCharFree(header, Base64Marker, payload);
    CharAbsent(payload, Base64Marker, 6);
    SplitWithoutSeparator(payload, Base64Marker);
    ContainsInfix(header, Base64Marker, payload);
  }

  /** The JSON body of `/verify`, by key presence. */
  datatype VerifyRequest = VerifyRequest(image: Option<string>, studentId: Option<string>)

  datatype VerifyReply =
    | VerifyError(status: nat, message: string)
    | Verdict(verified: bool, confidence: real)

  datatype RegisterReply = RegisterReply(status: nat, success: bool, message: string)

  const Threshold: real := 60.0

  /** `data['image'].split(',')[1]`, or `None` where Python raises IndexError. */
  function AfterFirstComma(image: string): (r: Option<string>)
    ensures r.None? <==> ',' !in image
  {
    if Contains(image, ",") then
      SplitHead(image, ",");
      var i :| 0 <= i <= |image| - 1 && OccursAt(image, ",", i);
      assert image[i] == image[i..i + 1][0];
      Some(Split(image, ",")[1])
    else
      assert ',' !in image by {
        forall i | 0 <= i < |image| ensures image[i] != ',' { CharContained(image, i); }
      }
      None
  }

  /** `train_recognizer()`: the label map of the current listing, labels
      being the text before the first dot. */
  method TrainRecognizer(listing: seq<Entry>) returns (labelMap: seq<Label>)
    ensures labelMap == Labelled(listing, FirstDotPiece)
  {
    var faces, labels;
    faces, labels, labelMap := LoadFacesAndLabels(listing, FirstDotPiece);
  }

  /** The service state: the module-global `label_map`. */
  class FaceService {
    var labelMap: seq<Label>

    /** Start-up training on the directory listing. */
    constructor (listing: seq<Entry>)
      ensures labelMap == Labelled(listing, FirstDotPiece)
    {
      labelMap := Labelled(listing, FirstDotPiece);
    }

    /** `/verify`. `decodeError` is the message of the exception decoding
        raises, if any; `faceFound`, `predLabel` and `confidence` are what
        detection and the recognizer return. */
    method Verify(data: Option<VerifyRequest>, decodeError: Option<string>, faceFound: bool,
                  predLabel: int, confidence: real) returns (reply: VerifyReply)
      ensures (data.None? || data.value.image.None? || data.value.studentId.None?)
              <==> reply == VerifyError(400, "Missing required data")
      ensures reply.Verdict? <==>
                data.Some? && data.value.image.Some? && data.value.studentId.Some?
                && ',' in data.value.image.value && decodeError.None? && faceFound
                && FirstWithName(labelMap, data.value.studentId.value).Some?
      ensures reply.Verdict? ==>
                reply.confidence == confidence
                && (reply.verified <==>
                      predLabel == FirstWithName(labelMap, data.value.studentId.value).value
                      && confidence < Threshold)
      ensures data.Some? && data.value.image.Some? && data.value.studentId.Some? ==>
                (',' !in data.value.image.value ==> reply == VerifyError(500, "list index out of range"))
                && (',' in data.value.image.value && decodeError.Some? ==> reply == VerifyError(500, decodeError.value))
                && (',' in data.value.image.value && decodeError.None? && !faceFound
                    ==> reply == VerifyError(400, "No face detected"))
      ensures reply == VerifyError(404, "No registered face for this student") <==>
                data.Some? && data.value.image.Some? && data.value.studentId.Some?
                && ',' in data.value.image.value && decodeError.None? && faceFound
                && FirstWithName(labelMap, data.value.studentId.value).None?
    {
      if data.None? || data.value.image.None? || data.value.studentId.None? {
        return VerifyError(400, "Missing required data");
      }
      var payload := AfterFirstComma(data.value.image.value);
      if payload.None? {
        return VerifyError(500, "list index out of range");
      }
      if decodeError.Some? {
        return VerifyError(500, decodeError.value);
      }
      if !faceFound {
        return VerifyError(400, "No face detected");
      }
      var key := FindLabel(labelMap, data.value.studentId.value);
      if key.None? {
        return VerifyError(404, "No registered face for this student");
      }
      if predLabel == key.value && confidence < Threshold {
        reply := Verdict(true, confidence);
      } else {
        reply := Verdict(false, confidence);
      }
    }

    /** `/register`. `studentId` and `image` are `""` when absent or falsy;
        `listing` is the directory listing after the image is written. */
    method Register(studentId: string, image: string, decodeError: Option<string>,
                    faceFound: bool, listing: seq<Entry>)
      returns (reply: RegisterReply, saved: Option<string>)
      modifies this
      ensures (studentId == "" || image == "") <==> reply == RegisterReply(400, false, "Missing student_id or image")
      ensures reply.success <==> studentId != "" && image != "" && decodeError.None? && faceFound
      ensures reply.success ==> reply == RegisterReply(200, true, "Face registered")
                                && saved == Some(studentId + ".jpg")
                                && labelMap == Labelled(listing, FirstDotPiece)
      ensures studentId != "" && image != "" && decodeError.Some?
              ==> reply == RegisterReply(500, false, decodeError.value)
      ensures studentId != "" && image != "" && decodeError.None? && !faceFound
              ==> reply == RegisterReply(400, false, "No face detected")
      ensures !reply.success ==> saved.None? && labelMap == old(labelMap)
    {
      saved := None;
      if studentId == "" || image == "" {
        return RegisterReply(400, false, "Missing student_id or image"), saved;
      }
      if decodeError.Some? {
        return RegisterReply(500, false, decodeError.value), saved;
      }
      if !faceFound {
        return RegisterReply(400, false, "No face detected"), saved;
      }
      saved := Some(studentId + ".jpg");
      labelMap := TrainRecognizer(listing);
      reply := RegisterReply(200, true, "Face registered");
    }
  }

  /** After `/register` writes `<id>.jpg` and the listing shows it readable,
      the reloaded map labels that file `id`, so `/verify` finds a label for
      `id`, when the id has no dot. */
  lemma RegisteredFileLabelled(listing: seq<Entry>, id: string, k: nat)
    requires '.' !in id
    requires k < |listing| && listing[k] == Entry(id + ".jpg", true)
    ensures exists i :: 0 <= i < |Labelled(listing, FirstDotPiece)|
                        && Labelled(listing, FirstDotPiece)[i] == Label(k, id)
    ensures FirstWithName(Labelled(listing, FirstDotPiece), id).Some?
  {
    SavedNameReloads(id);
    var m := Labelled(listing, FirstDotPiece);
    LabelledComplete(listing, FirstDotPiece, k);
    var i :| 0 <= i < |m| && m[i].index == k;
    assert m[i] == Label(k, id);
    NameFound(m, i, id);
  }

  /** The file `/register` writes is an image whose label is the id. */
  lemma SavedNameReloads(id: string)
    requires '.' !in id
    ensures IsImageName(id + ".jpg") && FirstDotPiece(id + ".jpg") == id
  {
    JpgIsImage(id);
    FirstDotPieceOf(id, "jpg");
    assert id + "." + "jpg" == id + ".jpg";
  }

  lemma NameFound(labelMap: seq<Label>, i: nat, name: string)
    requires i < |labelMap| && labelMap[i].name == name
    ensures FirstWithName(labelMap, name).Some?
  {
  }
}
