/**
 * The class timetable view (src/components/Timetable.js): the rows the
 * timetable endpoint returns are de-duplicated through a Map, sorted in place
 * by a minutes-since-midnight key parsed from the `"start - end"` label, and
 * the lecture whose window holds the current minute is picked out.
 *
 * JavaScript's `Number()` may yield NaN; every key and clock value here is an
 * `Option<int>` whose `None` stands for NaN.
 */
module Timetable {
  import opened Wrappers
  import opened Text
  import opened KeySort
  import opened MapDedup
  import opened SeqSearch

  /** A row of the timetable endpoint's `timetable` array. The text columns
      may be SQL NULL, which reaches the client as `null` (`None`); `id` is the
      key of the table and is never NULL. `faculty` and `room` are only carried. */
  datatype Lecture = Lecture(id: string, time: Option<string>, subject: Option<string>,
                             batch: Option<string>, faculty: Option<string>, room: Option<string>)

  const DaysOfWeek: seq<string> := ["Monday", "Tuesday", "Wednesday", "Thursday", "Friday", "Saturday"]

  /** The day selected when the view opens, given today's English weekday name. */
  function InitialDay(today: string): (r: string)
    ensures r in DaysOfWeek
    ensures r == today <==> today in DaysOfWeek
    ensures today !in DaysOfWeek ==> r == "Monday"
  {
    if today in DaysOfWeek then today else "Monday"
  }

  // ------------------------------------------------------------------
  // De-duplication: new Map(items.map(item => [key, item])).values()
  // ------------------------------------------------------------------

  /** A JavaScript primitive among those `+` meets here: `null`, a string, a number. */
  datatype JsValue = Null | Str(text: string) | Num(n: int)

  /** A nullable text column as a JavaScript value. */
  function Column(c: Option<string>): JsValue {
    if c.Some? then Str(c.value) else Null
  }

  /** `ToString` of a primitive: `null` is the text "null". */
  function JsText(v: JsValue): string {
    match v
    case Null => "null"
    case Str(t) => t
    case Num(n) => if n >= 0 then NatToString(n) else "-" + NatToString(0 - n)
  }

  /** `ToNumber` of a non-string primitive: `null` is 0. */
  function JsNum(v: JsValue): int
    requires !v.Str?
  {
    if v.Num? then v.n else 0
  }

  /** JavaScript's `a + b` on primitives: concatenation of the texts when
      either side is a string, numeric addition otherwise. */
  function JsPlus(a: JsValue, b: JsValue): (r: JsValue)
    ensures r.Str? <==> a.Str? || b.Str?
    ensures r.Str? ==> r.text == JsText(a) + JsText(b)
    ensures !r.Str? ==> r == Num(JsNum(a) + JsNum(b))
  {
    if a.Str? || b.Str? then Str(JsText(a) + JsText(b)) else Num(JsNum(a) + JsNum(b))
  }

  /** The text of a nullable column inside a string concatenation. */
  function NullText(c: Option<string>): string {
    if c.Some? then c.value else "null"
  }

  /** The Map key of a lecture, `item.time + item.subject + item.batch`: the
      three texts run together with a NULL written "null", except that two
      leading NULLs add up to the number 0. */
  function LectureKey(l: Lecture): (r: JsValue)
    ensures r.Num? <==> l.time.None? && l.subject.None? && l.batch.None?
    ensures r.Num? ==> r.n == 0
    ensures !(l.time.None? && l.subject.None?) ==>
              r == Str(NullText(l.time) + NullText(l.subject) + NullText(l.batch))
    ensures l.time.None? && l.subject.None? && l.batch.Some? ==> r == Str("0" + l.batch.value)
  {
    JsPlus(JsPlus(Column(l.time), Column(l.subject)), Column(l.batch))
  }

  /** The key is a concatenation without a delimiter, so two lectures of the
      same slot whose subject and batch split the same text differently
      collide, and only the later one is kept. */
  lemma ConcatenatedKeysCollide(time: string)
    ensures var l1 := Lecture("1", Some(time), Some("AB"), Some("C"), None, None);
            var l2 := Lecture("2", Some(time), Some("A"), Some("BC"), None, None);
            Deduplicated([l1, l2], LectureKey) == [l2]
  {
    var l1 := Lecture("1", Some(time), Some("AB"), Some("C"), None, None);
    var l2 := Lecture("2", Some(time), Some("A"), Some("BC"), None, None);
    var items := [l1, l2];
    assert LectureKey(l1) == LectureKey(l2) by {
      assert time + "AB" + "C" == time + "A" + "BC";
    }
    assert items[..1] == [l1];
    assert [l1][..0] == [];
    assert FirstKeys(items, LectureKey) == [LectureKey(l1)];
    assert LastWithKey(items, LectureKey(l1), LectureKey) == l2;
  }

  /** A NULL time is written "null" in the key, so it collides with the time
      text "null" for the same subject and batch. */
  lemma NullTimeCollides(subject: string, batch: string)
    ensures LectureKey(Lecture("1", None, Some(subject), Some(batch), None, None))
            == LectureKey(Lecture("2", Some("null"), Some(subject), Some(batch), None, None))
  {
  }

  /** NULL time and subject add up to 0, so the key of such a row is the
      batch behind a "0", the same as a row whose time is that text. */
  lemma NullPairCollides(batch: string)
    ensures LectureKey(Lecture("1", None, None, Some(batch), None, None))
            == LectureKey(Lecture("2", Some("0" + batch), Some(""), Some(""), None, None))
  {
    assert "0" + batch + "" + "" == "0" + batch;
  }

  // ------------------------------------------------------------------
  // Sort key: parseTime
  // ------------------------------------------------------------------

  /** `text.split(":").map(Number)` destructured into hours and minutes; `None`
      when either is NaN (a missing minutes field is `undefined`, also NaN). */
  function HourMinute(text: string): (r: Option<(int, int)>)
    ensures r.Some? <==> JsNumber(Split(text, ":")[0]).Some? && |Split(text, ":")| >= 2
                         && JsNumber(Split(text, ":")[1]).Some?
    ensures r.Some? ==> r == Some((JsNumber(Split(text, ":")[0]).value, JsNumber(Split(text, ":")[1]).value))
  {
    var fields := Split(text, ":");
    var hours := JsNumber(fields[0]);
    var minutes := if |fields| >= 2 then JsNumber(fields[1]) else None;
    if hours.Some? && minutes.Some? then Some((hours.value, minutes.value)) else None
  }

  /** The hour adjustment of the sort key: the two marker steps of the window
      (`WindowHour`), then, with neither marker, an hour below 8 counts as
      afternoon unless the label names Morning or Breakfast. The markers are
      applied one after the other, so with both an hour 0 becomes 12 and then 0. */
  function AdjustSortHour(h: int, hasPM: bool, hasAM: bool, morning: bool): (r: int)
    ensures hasPM && h < 12 && (h != 0 || !hasAM) ==> r == h + 12
    ensures hasAM && (h == 12 || (hasPM && h == 0)) ==> r == 0
    ensures (hasPM || hasAM) && h > 12 ==> r == h
    ensures hasPM && !hasAM && h == 12 ==> r == 12
    ensures hasAM && !hasPM && h != 12 ==> r == h
    ensures !hasPM && !hasAM && h < 8 && !morning ==> r == h + 12
    ensures !hasPM && !hasAM && (h >= 8 || morning) ==> r == h
    ensures 0 <= h < 24 ==> 0 <= r < 24
  {
    var h2 := WindowHour(h, hasPM, hasAM);
    if !hasAM && !hasPM && h2 < 8 && !morning then h2 + 12 else h2
  }

  /** The markers `parseTime` looks for: `pm`/`am` in any case, anywhere in
      the label; Morning/Breakfast as written. */
  predicate HasPm(timeStr: string) { Contains(Lower(timeStr), "pm") }
  predicate HasAm(timeStr: string) { Contains(Lower(timeStr), "am") }
  predicate NamesMorning(timeStr: string) { Contains(timeStr, "Morning") || Contains(timeStr, "Breakfast") }

  /** The hours and minutes of the label's start, `timeStr.split(" - ")[0]`. */
  function StartOf(timeStr: string): Option<(int, int)> {
    HourMinute(Split(timeStr, " - ")[0])
  }

  /** `parseTime(timeStr)`: minutes since midnight of the label's start, 0 for
      a label without `" - "`, `None` for NaN. The markers are looked for in
      the whole label, the end included. */
  function SortKey(timeStr: string): (r: Option<int>)
    ensures !Contains(timeStr, " - ") ==> r == Some(0)
    ensures Contains(timeStr, " - ") ==> (r.Some? <==> StartOf(timeStr).Some?)
    ensures Contains(timeStr, " - ") && StartOf(timeStr).Some? ==>
              r.value == AdjustSortHour(StartOf(timeStr).value.0, HasPm(timeStr), HasAm(timeStr),
                                        NamesMorning(timeStr)) * 60 + StartOf(timeStr).value.1
  {
    if timeStr == [] || !Contains(timeStr, " - ") then Some(0)
    else
      var hm := StartOf(timeStr);
      if hm.None? then None
      else Some(AdjustSortHour(hm.value.0, HasPm(timeStr), HasAm(timeStr), NamesMorning(timeStr)) * 60 + hm.value.1)
  }

  /** A start whose hours or minutes are NaN makes the whole key NaN. */
  lemma SortKeyNaN(timeStr: string)
    requires Contains(timeStr, " - ")
    requires StartOf(timeStr).None?
    ensures SortKey(timeStr).None?
  {
  }

  // ------------------------------------------------------------------
  // uniqueTimetable.sort((a, b) => parseTime(a.time) - parseTime(b.time))
  // ------------------------------------------------------------------

  /** The sort key of a lecture: `parseTime(a.time)`, where a NULL time is
      falsy and has key 0. */
  function LectureSortKey(l: Lecture): Option<int> {
    if l.time.None? then Some(0) else SortKey(l.time.value)
  }

  /** What `fetchTimetable` stores: the response rows, de-duplicated, then
      sorted; a permutation of the de-duplicated rows, in non-decreasing key
      order and stable when every label has a numeric key. */
  method LoadTimetable(rows: seq<Lecture>) returns (t: seq<Lecture>)
    ensures t == InsertionSort(Deduplicated(rows, LectureKey), LectureSortKey)
    ensures multiset(t) == multiset(Deduplicated(rows, LectureKey))
    ensures AllNumeric(Deduplicated(rows, LectureKey), LectureSortKey) ==>
              AllNumeric(t, LectureSortKey) && SortedBy(t, LectureSortKey)
              && forall k :: WithKey(t, k, LectureSortKey) == WithKey(Deduplicated(rows, LectureKey), k, LectureSortKey)
  {
    var unique := Deduplicate(rows, LectureKey);
    var a := new Lecture[|unique|](i requires 0 <= i < |unique| => unique[i]);
    assert a[..] == unique;
    SortInPlace(a, LectureSortKey);
    t := a[..];
    InsertionSortPermutes(unique, LectureSortKey);
    if AllNumeric(unique, LectureSortKey) {
      InsertionSortSorted(unique, LectureSortKey);
      forall k ensures WithKey(t, k, LectureSortKey) == WithKey(unique, k, LectureSortKey) {
        InsertionSortStable(unique, k, LectureSortKey);
      }
    }
  }

  // ------------------------------------------------------------------
  // Current lecture: timetable.find(lecture => start <= now < end)
  // ------------------------------------------------------------------

  /** The hours and minutes of the label's end, `timeStr.split(" - ")[1]`. */
  function EndOf(timeStr: string): Option<(int, int)> {
    var parts := Split(timeStr, " - ");
    if |parts| >= 2 then HourMinute(parts[1]) else None
  }

  /** The window `[start, end)` in minutes of a lecture, or `None` when the
      predicate cannot hold: a NULL or empty label, no `" - "` (reading
      `endTime` throws and the catch answers false), or a NaN field. Only the
      start hour is moved for `PM`/`AM` (case-sensitive, anywhere in the
      label); the end is used as written. */
  function Window(l: Lecture): (r: Option<(int, int)>)
    ensures r.Some? <==> l.time.Some? && Contains(l.time.value, " - ")
                         && StartOf(l.time.value).Some? && EndOf(l.time.value).Some?
    ensures r.Some? ==>
              var t := l.time.value;
              r.value.0 == WindowHour(StartOf(t).value.0, Contains(t, "PM"), Contains(t, "AM")) * 60 + StartOf(t).value.1
              && r.value.1 == EndOf(t).value.0 * 60 + EndOf(t).value.1
  {
    if l.time.None? || l.time.value == [] || !Contains(l.time.value, " - ") then None
    else
      var t := l.time.value;
      var start := StartOf(t);
      var end := EndOf(t);
      if start.None? || end.None? then None
      else
        var sh := WindowHour(start.value.0, Contains(t, "PM"), Contains(t, "AM"));
        Some((sh * 60 + start.value.1, end.value.0 * 60 + end.value.1))
  }

  /** The start hour of the window: `PM` moves an hour below 12 to the
      afternoon, then `AM` turns an hour of 12 into midnight; with both, an
      hour 0 becomes 12 and then 0. */
  function WindowHour(h: int, hasPM: bool, hasAM: bool): (r: int)
    ensures !hasPM && !hasAM ==> r == h
    ensures hasPM && h < 12 && (h != 0 || !hasAM) ==> r == h + 12
    ensures hasAM && (h == 12 || (hasPM && h == 0)) ==> r == 0
    ensures (hasPM || hasAM) && h > 12 ==> r == h
    ensures hasPM && !hasAM && h == 12 ==> r == 12
    ensures hasAM && !hasPM && h != 12 ==> r == h
  {
    var h1 := if hasPM && h < 12 then h + 12 else h;
    if hasAM && h1 == 12 then 0 else h1
  }

  /** The `find` predicate: start inclusive, end exclusive. */
  predicate IsCurrent(l: Lecture, now: int) {
    Window(l).Some? && Window(l).value.0 <= now < Window(l).value.1
  }

  /** The `find` callback for the minute `now`. */
  function CurrentAt(now: int): (p: Lecture -> bool)
    ensures forall l :: p(l) == IsCurrent(l, now)
  {
    l => IsCurrent(l, now)
  }

  /** `timetable.find(...) || null` for the minute of the day `hours * 60 + minutes`:
      the first lecture whose window holds that minute. */
  function CurrentLecture(timetable: seq<Lecture>, hours: int, minutes: int): (r: Option<Lecture>)
    ensures var p := CurrentAt(hours * 60 + minutes);
            (r.None? <==> forall i :: 0 <= i < |timetable| ==> !p(timetable[i]))
            && (r.Some? ==> exists i :: 0 <= i < |timetable| && timetable[i] == r.value && p(timetable[i])
                              && (forall j :: 0 <= j < i ==> !p(timetable[j])))
  {
    Find(timetable, CurrentAt(hours * 60 + minutes))
  }

  /** A lecture with a NULL time, or a label without `" - "`, is never current. */
  lemma UnseparatedNeverCurrent(l: Lecture, now: int)
    requires l.time.None? || !Contains(l.time.value, " - ")
    ensures !IsCurrent(l, now)
  {
  }

  /** Clock text: digits, `:`, space and `-` only. */
  predicate ClockText(s: string) {
    forall i :: 0 <= i < |s| ==> IsDigit(s[i]) || s[i] == ':' || s[i] == ' ' || s[i] == '-'
  }

  /** `h:m`, written without leading zeros. */
  function Clock(h: nat, m: nat): (r: string)
    ensures ClockText(r) && ' ' !in r
  {
    var r := NatToString(h) + ":" + NatToString(m);
    assert forall i :: 0 <= i < |NatToString(h)| ==> r[i] == NatToString(h)[i];
    assert forall i :: |NatToString(h)| + 1 <= i < |r| ==> r[i] == NatToString(m)[i - |NatToString(h)| - 1];
    r
  }

  /** `Number()` reads both fields of a clock back. */
  lemma ClockHourMinute(h: nat, m: nat)
    ensures HourMinute(Clock(h, m)).Some? && HourMinute(Clock(h, m)).value == (h, m)
  {
    var a := NatToString(h);
    var b := NatToString(m);
    assert ':' !in a && ':' !in b by {
      assert forall i :: 0 <= i < |a| ==> IsDigit(a[i]);
      assert forall i :: 0 <= i < |b| ==> IsDigit(b[i]);
    }
    SplitAfterSeparatorFree(a, ":", b);
    FirstCharAbsent(b, ":");
    SplitWithoutSeparator(b, ":");
    var fields := Split(Clock(h, m), ":");
    assert fields == [a, b];
    NatToStringNumber(h);
    NatToStringNumber(m);
    assert JsNumber(fields[0]) == Some(h as int) && JsNumber(fields[1]) == Some(m as int);
  }

  /** A label `start - end` whose start has no space splits into start and end. */
  lemma LabelParts(start: string, end: string)
    requires ' ' !in start && '-' !in end
    ensures Contains(start + " - " + end, " - ")
    ensures Split(start + " - " + end, " - ") == [start, end]
  {
    var t := start + " - " + end;
    assert OccursAt(t, " - ", |start|) by { assert t[|start|..|start| + 3] == " - "; }
    SplitAfterSeparatorFree(start, " - ", end);
    CharAbsent(end, " - ", 1);
    SplitWithoutSeparator(end, " - ");
  }

  /** No marker word starts with a clock character. */
  lemma ClockTextUnmarked(t: string)
    requires ClockText(t)
    ensures !HasPm(t) && !HasAm(t) && !Contains(t, "PM") && !Contains(t, "AM") && !NamesMorning(t)
  {
    assert Lower(t) == t;
    FirstCharAbsent(t, "pm");
    FirstCharAbsent(t, "am");
    FirstCharAbsent(t, "PM");
    FirstCharAbsent(t, "AM");
    FirstCharAbsent(t, "Morning");
    FirstCharAbsent(t, "Breakfast");
  }

  /** The sort key and the current-lecture window read the same label
      differently: without an AM/PM marker the sort puts an hour below 8 in
      the afternoon, the window keeps it in the morning. */
  lemma SortAndWindowDisagree(l: Lecture, h: nat, m: nat, h2: nat, m2: nat)
    requires h < 8
    requires l.time == Some(Clock(h, m) + " - " + Clock(h2, m2))
    ensures LectureSortKey(l).Some? && LectureSortKey(l).value == (h + 12) * 60 + m
    ensures Window(l).Some? && Window(l).value.0 == h * 60 + m && Window(l).value.1 == h2 * 60 + m2
  {
    ClockLabel(h, m, h2, m2);
    var t := l.time.value;
    assert SortKey(t).value == AdjustSortHour(h, false, false, false) * 60 + m;
  }

  /** The fields and markers of a label `h:m - h2:m2` written in clock text. */
  lemma ClockLabel(h: nat, m: nat, h2: nat, m2: nat)
    ensures var t := Clock(h, m) + " - " + Clock(h2, m2);
            Contains(t, " - ")
            && StartOf(t).Some? && StartOf(t).value.0 == h && StartOf(t).value.1 == m
            && EndOf(t).Some? && EndOf(t).value.0 == h2 && EndOf(t).value.1 == m2
            && !HasPm(t) && !HasAm(t) && !Contains(t, "PM") && !Contains(t, "AM") && !NamesMorning(t)
  {
    var a := Clock(h, m);
    var b := Clock(h2, m2);
    var t := a + " - " + b;
    assert '-' !in b;
    LabelParts(a, b);
    LabelClockText(a, b);
    ClockHourMinute(h, m);
    ClockHourMinute(h2, m2);
    ClockTextUnmarked(t);
    var parts := Split(t, " - ");
    assert parts[0] == a && parts[1] == b;
  }

  lemma LabelClockText(a: string, b: string)
    requires ClockText(a) && ClockText(b)
    ensures ClockText(a + " - " + b)
  {
    var t := a + " - " + b;
    assert forall i :: 0 <= i < |a| ==> t[i] == a[i];
    assert forall i :: |a| + 3 <= i < |t| ==> t[i] == b[i - |a| - 3];
  }

  /** `"pm"` anywhere in the label moves the start hour: a lecture labelled
      `"hs:ms - hs2:ms2 PM"` with hour `hs` below 12 sorts at `hs + 12`. Its
      end minutes read `"ms2 PM"`, which is NaN, so it is never the current
      lecture either. */
  lemma PmAnywhereMovesStart(l: Lecture, hs: string, ms: string, hs2: string, ms2: string, now: int)
    requires hs != [] && ms != [] && hs2 != [] && ms2 != []
    requires AllDigits(hs) && AllDigits(ms) && AllDigits(hs2) && AllDigits(ms2)
    requires DigitsValue(hs) < 12
    requires l.time == Some(hs + ":" + ms + " - " + hs2 + ":" + ms2 + " PM")
    ensures LectureSortKey(l).Some?
    ensures LectureSortKey(l).value == (DigitsValue(hs) + 12) * 60 + DigitsValue(ms)
    ensures !IsCurrent(l, now)
  {
    PmLabelFields(hs, ms, hs2, ms2);
    PmKey(l.time.value, DigitsValue(hs), DigitsValue(ms));
    assert Window(l).None?;
  }

  /** The example label `"11:00 - 12:00 PM"` sorts at 23:00, minute 1380. */
  lemma PmExample(l: Lecture)
    requires l.time == Some("11:00 - 12:00 PM")
    ensures LectureSortKey(l).Some? && LectureSortKey(l).value == 1380
  {
    assert "11" + ":" + "00" + " - " + "12" + ":" + "00" + " PM" == "11:00 - 12:00 PM";
    assert AllDigits("11") && AllDigits("00") && AllDigits("12");
    assert DigitsValue("11") == 11 && DigitsValue("00") == 0;
    PmAnywhereMovesStart(l, "11", "00", "12", "00", 0);
  }

  /** The key of a label whose start is `h:m`, `h` below 12, that carries `pm`. */
  lemma PmKey(t: string, h: nat, m: nat)
    requires h < 12
    requires Contains(t, " - ") && StartOf(t).Some? && StartOf(t).value.0 == h && StartOf(t).value.1 == m
    requires HasPm(t) && !HasAm(t)
    ensures SortKey(t).Some? && SortKey(t).value == (h + 12) * 60 + m
  {
    var r := SortKey(t);
    assert r.Some?;
    assert r.value == AdjustSortHour(h, true, false, NamesMorning(t)) * 60 + m;
  }

  /** Clock text written from digit strings. */
  lemma DigitClock(hs: string, ms: string)
    requires AllDigits(hs) && AllDigits(ms)
    ensures ClockText(hs + ":" + ms) && ' ' !in hs + ":" + ms && '-' !in hs + ":" + ms
  {
    var c := hs + ":" + ms;
    assert forall i :: 0 <= i < |hs| ==> c[i] == hs[i] && IsDigit(hs[i]);
    assert forall i :: |hs| + 1 <= i < |c| ==> c[i] == ms[i - |hs| - 1] && IsDigit(ms[i - |hs| - 1]);
  }

  /** The fields and markers of the label `"hs:ms - hs2:ms2 PM"`. */
  lemma PmLabelFields(hs: string, ms: string, hs2: string, ms2: string)
    requires hs != [] && ms != [] && hs2 != [] && ms2 != []
    requires AllDigits(hs) && AllDigits(ms) && AllDigits(hs2) && AllDigits(ms2)
    ensures var t := hs + ":" + ms + " - " + hs2 + ":" + ms2 + " PM";
            Contains(t, " - ") && StartOf(t).Some?
            && StartOf(t).value.0 == DigitsValue(hs) && StartOf(t).value.1 == DigitsValue(ms)
            && EndOf(t).None? && HasPm(t) && !HasAm(t) && !NamesMorning(t)
  {
    var a := hs + ":" + ms;
    var c := hs2 + ":" + ms2;
    RegroupLabel(hs, ":", ms, " - ", hs2, ms2, " PM");
    DigitClock(hs, ms);
    DigitClock(hs2, ms2);
    HourMinuteOf(hs, ms, DigitsValue(hs), DigitsValue(ms));
    PmEndNaN(hs2, ms2);
    PmLabelOf(a, c);
  }

  /** The label `"a - c PM"` of two clock texts: its start is `a`, its end
      `c PM`, and it carries `pm` and no other marker. */
  lemma RegroupLabel(hs: string, colon: string, ms: string, dash: string, hs2: string, ms2: string, pm: string)
    ensures hs + colon + ms + dash + hs2 + colon + ms2 + pm == (hs + colon + ms) + dash + (hs2 + colon + ms2) + pm
  {
  }

  lemma PmLabelOf(a: string, c: string)
    requires ClockText(a) && ClockText(c) && ' ' !in a && '-' !in c
    ensures var t := a + " - " + c + " PM";
            Contains(t, " - ") && StartOf(t) == HourMinute(a) && EndOf(t) == HourMinute(c + " PM")
            && HasPm(t) && !HasAm(t) && !NamesMorning(t)
  {
    var b := c + " PM";
    assert a + " - " + c + " PM" == a + " - " + b;
    assert '-' !in b by { assert b == c + " PM"; }
    LabelParts(a, b);
    LabelClockText(a, c);
    PmMarkers(a + " - " + c);
  }

  /** The end field `hs2:ms2 PM` has NaN minutes. */
  lemma PmEndNaN(hs: string, ds: string)
    requires hs != [] && ds != [] && AllDigits(hs) && AllDigits(ds)
    ensures HourMinute(hs + ":" + ds + " PM").None?
  {
    var ms := ds + " PM";
    assert hs + ":" + ds + " PM" == hs + ":" + ms;
    assert ':' !in hs by { assert forall i :: 0 <= i < |hs| ==> IsDigit(hs[i]); }
    assert ':' !in ms by {
      assert forall i :: 0 <= i < |ds| ==> ms[i] == ds[i] && IsDigit(ds[i]);
    }
    SplitAfterSeparatorFree(hs, ":", ms);
    FirstCharAbsent(ms, ":");
    SplitWithoutSeparator(ms, ":");
    MarkedNumberNaN(ds);
  }

  /** Digits followed by `" PM"` are not a number. */
  lemma MarkedNumberNaN(ds: string)
    requires ds != [] && AllDigits(ds)
    ensures JsNumber(ds + " PM").None?
  {
    var ms := ds + " PM";
    assert ms[0] == ds[0] && IsDigit(ms[0]);
    assert ms[|ms| - 1] == 'M';
    assert TrimStart(ms) == ms;
    assert TrimEnd(ms) == ms;
    assert !IsDigit(ms[|ms| - 3]);
  }

  /** A clock label followed by `" PM"` carries `pm` and no other marker. */
  lemma PmMarkers(c: string)
    requires ClockText(c)
    ensures HasPm(c + " PM") && !HasAm(c + " PM") && !NamesMorning(c + " PM")
  {
    var t := c + " PM";
    var lt := Lower(t);
    assert lt[|t| - 2..] == "pm";
    assert OccursAt(lt, "pm", |t| - 2);
    assert forall i :: 0 <= i < |c| ==> t[i] == c[i];
    assert 'a' !in lt;
    FirstCharAbsent(lt, "am");
    CharAbsent(t, "Morning", 1);
    FirstCharAbsent(t, "Breakfast");
  }

  /** `Number()` of two digit strings, as the hours and minutes of `h:m`. */
  lemma HourMinuteOf(hs: string, ms: string, h: nat, m: nat)
    requires hs != [] && ms != [] && AllDigits(hs) && AllDigits(ms)
    requires DigitsValue(hs) == h && DigitsValue(ms) == m
    ensures HourMinute(hs + ":" + ms) == Some((h, m))
  {
    assert ':' !in hs && ':' !in ms by {
      assert forall i :: 0 <= i < |hs| ==> IsDigit(hs[i]);
      assert forall i :: 0 <= i < |ms| ==> IsDigit(ms[i]);
    }
    SplitAfterSeparatorFree(hs, ":", ms);
    FirstCharAbsent(ms, ":");
    SplitWithoutSeparator(ms, ":");
    DigitsTrimmed(hs);
    DigitsTrimmed(ms);
  }

  /** Digits carry no white space to trim. */
  lemma DigitsTrimmed(s: string)
    requires s != [] && AllDigits(s)
    ensures Trim(s) == s
  {
    assert IsDigit(s[0]) && IsDigit(s[|s| - 1]);
    assert TrimStart(s) == s;
    assert TrimEnd(s) == s;
  }
}
