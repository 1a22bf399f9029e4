/**
 * The face service under `backend/`: labels are the file name, last
 * extension removed, up to the first `_`; `/register-face` validates the
 * request and the detected face count, strips a `data:image/...;base64,`
 * header and writes `<studentId>_<timestamp>.jpg`; `/verify-face` compares a
 * registered image with a current one. Decoding, detection and the
 * recognizer's confidence are inputs.
 */
module BackendFace {
  import opened Wrappers
  import opened Text
  import opened FaceLabels

  const Threshold: real := 60.0

  /** `os.path.splitext(filename)[0].split('_')[0]`: the root's text before
      its first `_`, or all of the root when it has none. */
  function StudentLabel(filename: string): (r: string)
    ensures '_' !in r
    ensures var root := SplitextRoot(filename);
            |r| <= |root| && root[..|r|] == r && (|r| == |root| || root[|r|] == '_')
    ensures |r| <= |filename| && filename[..|r|] == r
  {
    var root := SplitextRoot(filename);
    SplitHead(root, "_");
    assert |Split(root, "_")[0]| < |root| ==> root[|Split(root, "_")[0]|] == '_' by {
      if IndexOf(root, "_").Some? {
        var i := IndexOf(root, "_").value;
        assert root[i..i + 1] == "_";
      }
    }
    SplitPiecesLackSeparator(root, "_");
    var r := Split(root, "_")[0];
    assert '_' !in r by {
      forall i | 0 <= i < |r| ensures r[i] != '_' { CharContained(r, i); }
    }
    assert filename[..|r|] == root[..|r|];
    r
  }

  /** The name `/register-face` saves under. */
  function SavedName(studentId: string, stamp: string): string {
    studentId + "_" + stamp + ".jpg"
  }

  /** Retraining labels the saved file with the student id, when the id has
      no `_` and the timestamp no dot. */
  lemma SavedNameLabel(studentId: string, stamp: string)
    requires '_' !in studentId && '.' !in stamp
    ensures IsImageName(SavedName(studentId, stamp))
    ensures StudentLabel(SavedName(studentId, stamp)) == studentId
  {
    var base := studentId + "_" + stamp;
    JpgIsImage(base);
    assert base[|studentId|] == '_';
    SplitextRootOf(base, "jpg");
    assert base + "." + "jpg" == SavedName(studentId, stamp);
    SplitAfterSeparatorFree(studentId, "_", stamp);
  }

  const DataUrlHeader := "data:image/"
  const Base64Marker := ";base64,"

  /** The last position in `lo..hi` where `sub` occurs. */
  function LastOccurrence(s: string, sub: string, lo: nat, hi: nat): (r: Option<nat>)
    ensures r.Some? ==> lo <= r.value <= hi && OccursAt(s, sub, r.value)
                        && forall j :: r.value < j <= hi ==> !OccursAt(s, sub, j)
    ensures r.None? ==> forall j :: lo <= j <= hi ==> !OccursAt(s, sub, j)
    decreases hi
  {
    if hi < lo then None
    else if OccursAt(s, sub, hi) then Some(hi)
    else if hi == 0 then None
    else LastOccurrence(s, sub, lo, hi - 1)
  }

  /** The end of the run of characters `.` matches from position 11: the
      first line break after the header, or the end of the text. */
  function LineEnd(s: string): (r: nat)
    requires |DataUrlHeader| <= |s|
    ensures |DataUrlHeader| <= r <= |s|
    ensures forall j :: |DataUrlHeader| <= j < r ==> s[j] != '\n'
    ensures r < |s| ==> s[r] == '\n'
  {
    match IndexFrom(s, "\n", |DataUrlHeader|)
    case None =>
      assert forall j :: |DataUrlHeader| <= j < |s| ==> s[j] != '\n' by {
        forall j | |DataUrlHeader| <= j < |s| ensures s[j] != '\n' {
          assert s[j] == '\n' ==> OccursAt(s, "\n", j) by { assert s[j..j + 1] == [s[j]]; }
        }
      }
      |s|
    case Some(e) =>
      assert forall j :: |DataUrlHeader| <= j < e ==> s[j] != '\n' by {
        forall j | |DataUrlHeader| <= j < e ensures s[j] != '\n' {
          assert s[j] == '\n' ==> OccursAt(s, "\n", j) by { assert s[j..j + 1] == [s[j]]; }
        }
      }
      assert s[e..e + 1] == "\n";
      e
  }

  /** `re.sub('^data:image/.+;base64,', '', s)`: the greedy `.+` runs to the
      last `;base64,` that starts after at least one character of the line
      the header is on, and everything up to that marker is removed. */
  function StripDataUrl(s: string): (r: string)
    ensures (exists m: nat :: MarkerOnLine(s, m)) <==> r != s
    ensures r != s ==> exists m: nat :: MarkerOnLine(s, m) && r == s[m + |Base64Marker|..]
                                   && forall j: nat :: m < j ==> !MarkerOnLine(s, j)
  {
    if StartsWith(s, DataUrlHeader) then
      match LastOccurrence(s, Base64Marker, |DataUrlHeader| + 1, LineEnd(s))
      case None => s
      case Some(m) =>
        assert MarkerOnLine(s, m);
        s[m + |Base64Marker|..]
    else s
  }

  /** The pattern matches with its `;base64,` at `m`: the text starts with
      the header, and `.+` covers at least one character and no line break
      between the header and `m`. */
  predicate MarkerOnLine(s: string, m: nat) {
    StartsWith(s, DataUrlHeader) && |DataUrlHeader| < m <= LineEnd(s) && OccursAt(s, Base64Marker, m)
  }

  /** A data URL `data:image/<type>;base64,<payload>` with a one-line,
      non-empty type strips to its payload, which base64 writes without `;`. */
  lemma StripDataUrlPayload(kind: string, payload: string)
    requires kind != [] && '\n' !in kind && ';' !in payload
    ensures StripDataUrl(DataUrlHeader + kind + Base64Marker + payload) == payload
  {
    var s := DataUrlHeader + kind + Base64Marker + payload;
    var m := |DataUrlHeader| + |kind|;
    assert s[..|DataUrlHeader|] == DataUrlHeader;
    assert s[m..m + |Base64Marker|] == Base64Marker;
    forall j | |DataUrlHeader| <= j < m ensures s[j] != '\n' {
      assert s[j] == kind[j - |DataUrlHeader|];
    }
    var e := LineEnd(s);
    assert m <= e;
    forall j | m < j ensures !OccursAt(s, Base64Marker, j) {
      if j + |Base64Marker| <= |s| {
        assert s[j] != ';' by {
          if j < m + |Base64Marker| {
            assert s[j] == Base64Marker[j - m];
          } else {
            assert s[j] == payload[j - m - |Base64Marker|];
          }
        }
        assert s[j..j + |Base64Marker|][0] == s[j];
        assert Base64Marker[0] == ';';
      }
    }
    assert OccursAt(s, Base64Marker, m);
    var r := LastOccurrence(s, Base64Marker, |DataUrlHeader| + 1, e);
    assert r.Some? && r.value == m;
    assert s[m + |Base64Marker|..] == payload;
  }

  /** A JSON reply: HTTP status, `success`, the `error`/`message` text and
      the reported confidence. */
  datatype Reply = Reply(status: nat, success: bool, message: string, confidence: Option<real>)

  function Error(status: nat, message: string): Reply {
    Reply(status, false, message, None)
  }

  const NoFace := "No face detected. Please ensure your face is clearly visible in the frame."

  function MultipleFaces(n: nat): string {
    "Multiple faces (" + NatToString(n) + ") detected. Please ensure only your face is visible."
  }

  /** The recognizer and the files it was trained on. */
  class Recognizer {
    /** The label map of the last training that had faces. */
    var trained: seq<Label>

    constructor ()
      ensures trained == []
    {
      trained := [];
    }

    /** `train_recognizer()`: the recognizer is retrained only when the
        listing has a usable image. */
    method Train(listing: seq<Entry>) returns (labelMap: seq<Label>)
      modifies this
      ensures labelMap == Labelled(listing, StudentLabel)
      ensures trained == if labelMap == [] then old(trained) else labelMap
    {
      var faces, labels;
      faces, labels, labelMap := LoadFacesAndLabels(listing, StudentLabel);
      if |faces| > 0 {
        trained := labelMap;
      }
    }

    /** `/register-face`. `image` and `studentId` are `""` when absent or
        falsy; `decodeError` is the message base64 decoding raises, if any;
        `frameDecoded` is whether OpenCV decodes the bytes; `faces` is the
        number of faces detected; `stamp` is the formatted time; `listing` is
        the directory listing after the write. */
    method RegisterFace(image: string, studentId: string, decodeError: Option<string>,
                        frameDecoded: bool, faces: nat, stamp: string, listing: seq<Entry>)
      returns (reply: Reply, payload: string, saved: Option<string>)
      modifies this
      ensures (image == "" || studentId == "") <==> reply == Error(400, "Missing image data or student ID")
      ensures image != "" && studentId != "" ==> payload == StripDataUrl(image)
      ensures reply.success <==> image != "" && studentId != "" && decodeError.None?
                                 && frameDecoded && faces == 1
      ensures image != "" && studentId != "" && decodeError.Some? ==> reply == Error(500, decodeError.value)
      ensures image != "" && studentId != "" && decodeError.None? && !frameDecoded
              ==> reply == Error(400, "Failed to decode image")
      ensures image != "" && studentId != "" && decodeError.None? && frameDecoded && faces == 0
              ==> reply == Error(400, NoFace)
      ensures image != "" && studentId != "" && decodeError.None? && frameDecoded && faces > 1
              ==> reply == Error(400, MultipleFaces(faces))
      ensures reply.success ==>
                reply == Reply(200, true, "Face registered successfully for student " + studentId, None)
                && saved == Some(SavedName(studentId, stamp))
                && trained == (if Labelled(listing, StudentLabel) == [] then old(trained)
                               else Labelled(listing, StudentLabel))
      ensures !reply.success ==> saved.None? && trained == old(trained)
    {
      payload, saved := "", None;
      if image == "" || studentId == "" {
        return Error(400, "Missing image data or student ID"), payload, saved;
      }
      payload := StripDataUrl(image);
      if decodeError.Some? {
        return Error(500, decodeError.value), payload, saved;
      }
      if !frameDecoded {
        return Error(400, "Failed to decode image"), payload, saved;
      }
      if faces == 0 {
        return Error(400, NoFace), payload, saved;
      } else if faces > 1 {
        return Error(400, MultipleFaces(faces)), payload, saved;
      }
      saved := Some(SavedName(studentId, stamp));
      var _ := Train(listing);
      reply := Reply(200, true, "Face registered successfully for student " + studentId, None);
    }
  }

  /** After a registration whose file the listing shows readable at `k`,
      the recognizer is trained with that file labelled with the student id. */
  lemma RegisteredFileTrained(listing: seq<Entry>, studentId: string, stamp: string, k: nat)
    requires '_' !in studentId && '.' !in stamp
    requires k < |listing| && listing[k] == Entry(SavedName(studentId, stamp), true)
    ensures Labelled(listing, StudentLabel) != []
    ensures exists i :: 0 <= i < |Labelled(listing, StudentLabel)|
                        && Labelled(listing, StudentLabel)[i] == Label(k, studentId)
  {
    SavedNameLabel(studentId, stamp);
    var m := Labelled(listing, StudentLabel);
    LabelledComplete(listing, StudentLabel, k);
    var i :| 0 <= i < |m| && m[i].index == k;
    assert m[i] == Label(k, studentId);
  }

  /** `/verify-face`. `decodeError` is the message decoding either image
      raises, if any; `registeredFaces` and `currentFaces` are the detected
      face counts; `comparison` is the recognizer's confidence, `None` when
      the comparison raises. */
  method VerifyFace(registeredImage: string, currentImage: string, decodeError: Option<string>,
                    registeredFaces: nat, currentFaces: nat, comparison: Option<real>)
    returns (reply: Reply)
    ensures (registeredImage == "" || currentImage == "") <==> reply == Error(400, "Missing image data")
    ensures reply.success <==>
              registeredImage != "" && currentImage != "" && decodeError.None?
              && registeredFaces > 0 && currentFaces == 1
              && comparison.Some? && comparison.value < Threshold
    ensures registeredImage != "" && currentImage != "" && decodeError.None?
            ==> (reply.status == 400 <==> registeredFaces == 0 || currentFaces != 1)
    ensures registeredImage != "" && currentImage != "" ==>
              (decodeError.Some? ==> reply == Error(500, decodeError.value))
              && (decodeError.None? && registeredFaces == 0
                  ==> reply == Error(400, "No face detected in registered image"))
              && (decodeError.None? && registeredFaces > 0 && currentFaces == 0
                  ==> reply == Error(400, "No face detected in current image"))
              && (decodeError.None? && registeredFaces > 0 && currentFaces > 1
                  ==> reply == Error(400, "Multiple faces detected in current image"))
    ensures reply.status == 200 ==> reply.confidence == comparison
    ensures reply.status == 200 && !reply.success ==>
              reply.message == (if comparison.None? then "Face comparison failed"
                                else "Face verification failed")
  {
    if registeredImage == "" || currentImage == "" {
      return Error(400, "Missing image data");
    }
    var registeredPayload := StripDataUrl(registeredImage);
    var currentPayload := StripDataUrl(currentImage);
    if decodeError.Some? {
      return Error(500, decodeError.value);
    }
    if registeredFaces == 0 {
      return Error(400, "No face detected in registered image");
    }
    if currentFaces == 0 {
      return Error(400, "No face detected in current image");
    }
    if currentFaces > 1 {
      return Error(400, "Multiple faces detected in current image");
    }
    match comparison
    case None =>
      reply := Reply(200, false, "Face comparison failed", None);
    case Some(confidence) =>
      if confidence < Threshold {
        reply := Reply(200, true, "", Some(confidence));
      } else {
        reply := Reply(200, false, "Face verification failed", Some(confidence));
      }
  }
}
