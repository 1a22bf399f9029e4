/**
 * The standalone recognition loop: labels from the known-faces directory
 * (file name minus its last extension), the per-face decision to mark
 * attendance, and the attendance file as its text: records are written by
 * the CSV writer and read back line by line in text mode, and the duplicate
 * check is a substring test on each line read. Detection and the
 * recognizer's prediction are inputs.
 */
module FastFace {
  import opened Wrappers
  import opened Text
  import opened FaceLabels

  const Threshold: real := 60.0

  /** Text without a carriage return or a line feed. */
  predicate NoBreak(s: string) {
    '\r' !in s && '\n' !in s
  }

  /** The text `csv.writer` writes for a field with the default dialect:
      quoted, with quotes doubled, when it holds a comma, a quote or a line break. */
  function CsvField(f: string): (r: string)
    ensures '"' !in f ==> Contains(r, f)
    ensures '"' !in f && NoBreak(f) ==> NoBreak(r)
  {
    if ',' in f || '"' in f || '\r' in f || '\n' in f then
      var q := "\"" + Doubled(f) + "\"";
      assert '"' !in f ==> Contains(q, f) && (NoBreak(f) ==> NoBreak(q)) by {
        if '"' !in f {
          DoubledWithoutQuotes(f);
          ContainsInfix("\"", f, "\"");
        }
      }
      q
    else
      ContainsSelf(f);
      f
  }

  /** Every `"` written twice. */
  function Doubled(f: string): string {
    if f == [] then [] else (if f[0] == '"' then "\"\"" else [f[0]]) + Doubled(f[1..])
  }

  lemma {:induction false} DoubledWithoutQuotes(f: string)
    requires '"' !in f
    ensures Doubled(f) == f
  {
    if f != [] {
      DoubledWithoutQuotes(f[1..]);
      assert f == [f[0]] + f[1..];
    }
  }

  lemma {:induction false} DoubledKeepsChars(f: string, c: char)
    requires c in f
    ensures c in Doubled(f)
  {
    if f[0] != c {
      assert c in f[1..];
      DoubledKeepsChars(f[1..], c);
    }
  }

  function CsvFields(fields: seq<string>): (r: seq<string>)
    ensures |r| == |fields| && forall k :: 0 <= k < |r| ==> r[k] == CsvField(fields[k])
  {
    seq(|fields|, k requires 0 <= k < |fields| => CsvField(fields[k]))
  }

  /** The text `writerow` appends to the file: the fields, comma-separated,
      and the dialect's `\r\n` terminator. */
  function RecordText(fields: seq<string>): (r: string)
    ensures r != [] && r[|r| - 1] == '\n'
  {
    Join(CsvFields(fields), ",") + "\r\n"
  }

  /** A row of four fields is written field by field. */
  lemma RecordTextOfFour(a: string, b: string, c: string, d: string)
    ensures RecordText([a, b, c, d])
            == CsvField(a) + "," + CsvField(b) + "," + CsvField(c) + "," + CsvField(d) + "\r\n"
  {
    var ca, cb, cc, cd := CsvField(a), CsvField(b), CsvField(c), CsvField(d);
    assert CsvFields([a, b, c, d]) == [ca, cb, cc, cd];
    var j2 := Join([cc, cd], ",");
    assert j2 == cc + "," + cd by {
      assert [cc, cd] == [cc] + [cd];
      JoinCons(cc, [cd], ",");
    }
    var j1 := Join([cb, cc, cd], ",");
    assert j1 == cb + "," + j2 by {
      assert [cb, cc, cd] == [cb] + [cc, cd];
      JoinCons(cb, [cc, cd], ",");
    }
    var j0 := Join([ca, cb, cc, cd], ",");
    assert j0 == ca + "," + j1 by {
      assert [ca, cb, cc, cd] == [ca] + [cb, cc, cd];
      JoinCons(ca, [cb, cc, cd], ",");
    }
    RegroupFour(ca, cb, cc, cd, ",", "\r\n");
  }

  lemma RegroupFour(ca: string, cb: string, cc: string, cd: string, comma: string, end: string)
    ensures ca + comma + (cb + comma + (cc + comma + cd)) + end
            == ca + comma + cb + comma + cc + comma + cd + end
  {
  }

  /** Reading a text file in Python's default text mode: `\r\n` and a lone
      `\r` both become `\n`. */
  function Newlines(s: string): (r: string)
    ensures '\r' !in r
    ensures '\r' !in s ==> r == s
    ensures s != [] && s[|s| - 1] == '\n' ==> r != [] && r[|r| - 1] == '\n'
    decreases |s|
  {
    if s == [] then []
    else [if s[0] == '\r' then '\n' else s[0]] + Newlines(AfterFirst(s))
  }

  /** What follows the first character, or the first `\r\n` pair. */
  function AfterFirst(s: string): (r: string)
    requires s != []
    ensures |r| < |s|
    ensures r == [] || r[|r| - 1] == s[|s| - 1]
  {
    if s[0] == '\r' && |s| >= 2 && s[1] == '\n' then s[2..] else s[1..]
  }

  /** Translation works piece by piece when the first piece does not end in
      the `\r` of a `\r\n` pair. */
  lemma {:induction false} NewlinesAppend(a: string, b: string)
    requires a == [] || a[|a| - 1] != '\r'
    ensures Newlines(a + b) == Newlines(a) + Newlines(b)
    decreases |a|
  {
    if a != [] {
      var rest := AfterFirst(a);
      NewlinesAppend(rest, b);
      NewlinesJoin(a, b, rest);
    } else {
      NewlinesEmpty(b);
    }
  }

  /** The base case of `NewlinesAppend`. */
  lemma NewlinesEmpty(b: string)
    ensures Newlines([] + b) == Newlines([]) + Newlines(b)
  {
    var e: string := [];
    assert e + b == b;
    assert Newlines(e) == [];
    assert Newlines(e) + Newlines(b) == Newlines(b);
  }

  /** The step case of `NewlinesAppend`, given the fact for what follows. */
  lemma NewlinesJoin(a: string, b: string, rest: string)
    requires a != [] && a[|a| - 1] != '\r' && rest == AfterFirst(a)
    requires Newlines(rest + b) == Newlines(rest) + Newlines(b)
    ensures Newlines(a + b) == Newlines(a) + Newlines(b)
  {
    AfterFirstAppend(a, b);
    var c := if a[0] == '\r' then '\n' else a[0];
    NewlinesStep(a + b, c, rest + b);
    NewlinesStep(a, c, rest);
    ConsAppend(c, Newlines(rest), Newlines(b));
  }

  /** One step of the translation, with its pieces named. */
  lemma NewlinesStep(s: string, c: char, rest: string)
    requires s != [] && c == (if s[0] == '\r' then '\n' else s[0]) && rest == AfterFirst(s)
    ensures Newlines(s) == [c] + Newlines(rest)
  {
  }

  /** A first piece not ending in `\r` keeps its first step when text follows. */
  lemma AfterFirstAppend(a: string, b: string)
    requires a != [] && a[|a| - 1] != '\r'
    ensures (a + b)[0] == a[0] && AfterFirst(a + b) == AfterFirst(a) + b
  {
    var s := a + b;
    if a[0] == '\r' {
      assert s[1] == a[1];
      if a[1] == '\n' {
        assert s[2..] == a[2..] + b;
      } else {
        assert s[1..] == a[1..] + b;
      }
    } else {
      assert s[1..] == a[1..] + b;
    }
  }

  /** The length of the first line of `u`: up to and including its first
      `\n`, or all of `u`. */
  function FirstLineLength(u: string): (k: nat)
    requires u != []
    ensures 0 < k <= |u|
    ensures '\n' !in u[..k - 1]
    ensures k < |u| ==> u[k - 1] == '\n'
  {
    match IndexOf(u, "\n")
    case Some(i) =>
      assert u[i] == '\n' by { assert u[i..i + 1] == "\n"; }
      assert forall j :: 0 <= j < i ==> u[j] != '\n' by {
        forall j | 0 <= j < i ensures u[j] != '\n' {
          assert !OccursAt(u, "\n", j);
          assert u[j..j + 1] == [u[j]];
        }
      }
      i + 1
    case None =>
      assert forall j :: 0 <= j < |u| ==> u[j] != '\n' by {
        forall j | 0 <= j < |u| ensures u[j] != '\n' {
          assert !OccursAt(u, "\n", j);
          assert u[j..j + 1] == [u[j]];
        }
      }
      |u|
  }

  /** `for line in f` over translated text: each line with its `\n`, the
      last one as it is when the text does not end in a line break. */
  function LinesOf(u: string): seq<string>
    decreases |u|
  {
    if u == [] then []
    else
      var k := FirstLineLength(u);
      [u[..k]] + LinesOf(u[k..])
  }

  /** The lines run together give back the text. */
  function Flatten(lines: seq<string>): string {
    if lines == [] then [] else lines[0] + Flatten(lines[1..])
  }

  lemma {:induction false} LinesOfFlatten(u: string)
    ensures Flatten(LinesOf(u)) == u
    decreases |u|
  {
    if u != [] {
      var k := FirstLineLength(u);
      LinesOfFlatten(u[k..]);
      assert ([u[..k]] + LinesOf(u[k..]))[1..] == LinesOf(u[k..]);
      assert u == u[..k] + u[k..];
    }
  }

  /** Text ending in a line break is read as its own lines, then those of
      what follows. */
  lemma {:induction false} LinesOfAppend(u: string, v: string)
    requires u == [] || u[|u| - 1] == '\n'
    ensures LinesOf(u + v) == LinesOf(u) + LinesOf(v)
    decreases |u|
  {
    if u == [] {
      assert u + v == v;
    } else {
      var k := FirstLineLength(u);
      var rest := u[k..];
      LinesOfLonger(u, v);
      assert rest == [] || rest[|rest| - 1] == '\n' by {
        if rest != [] {
          assert rest[|rest| - 1] == u[|u| - 1];
        }
      }
      LinesOfAppend(rest, v);
      ConsAppend(u[..k], LinesOf(rest), LinesOf(v));
    }
  }

  /** The first line of `u + v` is that of `u` when `u` ends in a line break. */
  lemma LinesOfLonger(u: string, v: string)
    requires u != [] && u[|u| - 1] == '\n'
    ensures var k := FirstLineLength(u);
            LinesOf(u + v) == [u[..k]] + LinesOf(u[k..] + v)
            && LinesOf(u) == [u[..k]] + LinesOf(u[k..])
  {
    var k := FirstLineLength(u);
    var w := u + v;
    FirstLineExtend(u, v);
    assert w[..k] == u[..k];
    assert w[k..] == u[k..] + v;
  }

  lemma ConsAppend<T>(x: T, a: seq<T>, b: seq<T>)
    ensures [x] + (a + b) == ([x] + a) + b
  {
  }

  /** A first line ending in a line break is unchanged by appending. */
  lemma FirstLineExtend(u: string, v: string)
    requires u != [] && u[|u| - 1] == '\n'
    ensures FirstLineLength(u + v) == FirstLineLength(u)
  {
    assert OccursAt(u, "\n", |u| - 1) by { assert u[|u| - 1..|u|] == "\n"; }
    IndexOfExtend(u, v, "\n");
  }

  /** The first line of text starting with a line-free `a` starts with `a`. */
  lemma FirstLineStartsWith(a: string, x: string)
    requires a != [] && '\n' !in a
    ensures LinesOf(a + x) != [] && StartsWith(LinesOf(a + x)[0], a)
  {
    var u := a + x;
    var k := FirstLineLength(u);
    assert forall j :: 0 <= j < |a| ==> u[j] == a[j];
    assert u[..k][..|a|] == a;
  }

  /** The lines a read of the file yields. */
  function ReadLines(text: string): seq<string> {
    LinesOf(Newlines(text))
  }

  /** A file ending in a line break is read as its lines, then those of
      what is appended to it. */
  lemma ReadLinesAppend(a: string, b: string)
    requires a == [] || a[|a| - 1] == '\n'
    ensures ReadLines(a + b) == ReadLines(a) + ReadLines(b)
  {
    NewlinesAppend(a, b);
    LinesOfAppend(Newlines(a), Newlines(b));
  }

  /** Some line contains both the name and the date. */
  predicate Refused(lines: seq<string>, name: string, date: string) {
    exists i :: 0 <= i < |lines| && Contains(lines[i], name) && Contains(lines[i], date)
  }

  /** The file is only appended to, so a refusal stays a refusal. */
  lemma RefusedPersists(text: string, more: string, name: string, date: string)
    requires text == [] || text[|text| - 1] == '\n'
    requires Refused(ReadLines(text), name, date)
    ensures Refused(ReadLines(text + more), name, date)
  {
    ReadLinesAppend(text, more);
    var lines := ReadLines(text);
    var i :| 0 <= i < |lines| && Contains(lines[i], name) && Contains(lines[i], date);
    assert ReadLines(text + more)[i] == lines[i];
  }

  /** The first line read back from a record holds its first two fields,
      when neither has a quote or a line break. */
  lemma RecordFirstLine(name: string, date: string, time: string, status: string)
    requires '"' !in name && '"' !in date && NoBreak(name) && NoBreak(date)
    ensures var lines := ReadLines(RecordText([name, date, time, status]));
            lines != [] && Contains(lines[0], name) && Contains(lines[0], date)
  {
    var c0, c1 := CsvField(name), CsvField(date);
    var rest := "," + CsvField(time) + "," + CsvField(status) + "\r\n";
    RecordTextOfFour(name, date, time, status);
    RegroupHead(c0, ",", c1, CsvField(time), CsvField(status), "\r\n");
    FieldsOnFirstLine(RecordText([name, date, time, status]), c0, c1, rest, name, date);
  }

  /** Text starting with two line-free fields and a comma is read with both
      fields, and whatever they contain, on its first line. */
  lemma FieldsOnFirstLine(text: string, c0: string, c1: string, rest: string, name: string, date: string)
    requires text == c0 + "," + c1 + rest
    requires NoBreak(c0) && NoBreak(c1) && Contains(c0, name) && Contains(c1, date)
    ensures var lines := ReadLines(text);
            lines != [] && Contains(lines[0], name) && Contains(lines[0], date)
  {
    var head := c0 + "," + c1;
    HeadFields(c0, c1);
    ReadFirstLine(head, rest);
    var line := ReadLines(head + rest)[0];
    PrefixContained(line, head);
    ContainsTransitive(line, head, c0);
    ContainsTransitive(line, head, c1);
    ContainsTransitive(line, c0, name);
    ContainsTransitive(line, c1, date);
  }

  /** The first line read from text starting with a line-free piece starts
      with that piece. */
  lemma ReadFirstLine(head: string, rest: string)
    requires head != [] && NoBreak(head)
    ensures ReadLines(head + rest) != [] && StartsWith(ReadLines(head + rest)[0], head)
  {
    NewlinesAppend(head, rest);
    FirstLineStartsWith(head, Newlines(rest));
  }

  /** Two fields joined by a comma: no line break, and both fields in it. */
  lemma HeadFields(c0: string, c1: string)
    requires NoBreak(c0) && NoBreak(c1)
    ensures var head := c0 + "," + c1;
            head != [] && NoBreak(head) && Contains(head, c0) && Contains(head, c1)
  {
    var head := c0 + "," + c1;
    assert head == c0 + [','] + c1;
    ContainsInfix([], c0, "," + c1);
    assert [] + c0 + ("," + c1) == head;
    ContainsInfix(c0 + ",", c1, []);
    assert c0 + "," + c1 + [] == head;
  }

  lemma PrefixContained(s: string, p: string)
    requires StartsWith(s, p)
    ensures Contains(s, p)
  {
    assert OccursAt(s, p, 0) by { assert s[0..|p|] == s[..|p|]; }
  }

  /** After a successful mark, the same name is refused on the same date,
      when neither holds a quote or a line break. */
  lemma MarkedThenRefused(text: string, name: string, date: string, time: string)
    requires text == [] || text[|text| - 1] == '\n'
    requires '"' !in name && '"' !in date && NoBreak(name) && NoBreak(date)
    ensures Refused(ReadLines(text + RecordText([name, date, time, "Present"])), name, date)
  {
    var record := RecordText([name, date, time, "Present"]);
    ReadLinesAppend(text, record);
    RecordFirstLine(name, date, time, "Present");
    assert ReadLines(text + record)[|ReadLines(text)|] == ReadLines(record)[0];
  }

  /** Because the test is by substring, a name contained in a name marked on
      that date is refused too. */
  lemma ContainedNameRefused(text: string, outer: string, inner: string, date: string, time: string)
    requires text == [] || text[|text| - 1] == '\n'
    requires '"' !in outer && '"' !in date && NoBreak(outer) && NoBreak(date) && Contains(outer, inner)
    ensures Refused(ReadLines(text + RecordText([outer, date, time, "Present"])), inner, date)
  {
    var record := RecordText([outer, date, time, "Present"]);
    ReadLinesAppend(text, record);
    RecordFirstLine(outer, date, time, "Present");
    var line := ReadLines(record)[0];
    ContainsTransitive(line, outer, inner);
    assert ReadLines(text + record)[|ReadLines(text)|] == line;
  }

  /** A name holding a line break is written quoted over two lines, and
      neither line holds the whole name: the same name on the same date is
      not refused, and a second call writes a second record. */
  lemma LineBreakNameMarkedAgain(a: string, b: string, date: string, time: string)
    requires b != [] && '"' !in a && '"' !in b && NoBreak(a) && NoBreak(b)
    requires '"' !in date && NoBreak(date) && '"' !in time && NoBreak(time)
    ensures !Refused(ReadLines(RecordText([a + "\n" + b, date, time, "Present"])), a + "\n" + b, date)
  {
    var name := a + "\n" + b;
    var first := "\"" + a + "\n";
    var tail := RecordTail(date, time);
    var second := b + "\"" + tail + "\n";
    FirstPieceMissesName(a, b);
    SecondPieceMissesName(a, b, tail);
    assert NoBreak(tail);
    LineBreakRecordLines(a, b, date, time);
    TwoLinesRefuseNot(ReadLines(RecordText([name, date, time, "Present"])), first, second, name, date);
  }

  /** Two lines neither of which holds the name do not refuse it. */
  lemma TwoLinesRefuseNot(lines: seq<string>, first: string, second: string, name: string, date: string)
    requires lines == [first, second] && !Contains(first, name) && !Contains(second, name)
    ensures !Refused(lines, name, date)
  {
  }

  /** The opening line of a quoted name with a line break misses the name. */
  lemma FirstPieceMissesName(a: string, b: string)
    requires b != [] && NoBreak(a)
    ensures !Contains("\"" + a + "\n", a + "\n" + b)
  {
    var first := "\"" + a + "\n";
    assert first[..|first| - 1] == "\"" + a;
    NotAcrossBreak(first, a, b);
  }

  /** The closing line of a quoted name with a line break misses the name. */
  lemma SecondPieceMissesName(a: string, b: string, tail: string)
    requires b != [] && NoBreak(b) && NoBreak(tail)
    ensures !Contains(b + "\"" + tail + "\n", a + "\n" + b)
  {
    var second := b + "\"" + tail + "\n";
    assert second[..|second| - 1] == b + "\"" + tail;
    NotAcrossBreak(second, a, b);
  }

  /** The fields after the first, as written after it. */
  function RecordTail(date: string, time: string): (r: string)
    ensures '"' !in date && NoBreak(date) && '"' !in time && NoBreak(time) ==> NoBreak(r)
  {
    assert NoBreak(CsvField("Present")) by { assert '"' !in "Present" && NoBreak("Present"); }
    "," + CsvField(date) + "," + CsvField(time) + "," + CsvField("Present")
  }

  /** The record of a name with a line break is read back as two lines. */
  lemma LineBreakRecordLines(a: string, b: string, date: string, time: string)
    requires '"' !in a && '"' !in b && NoBreak(a) && NoBreak(b)
    requires '"' !in date && NoBreak(date) && '"' !in time && NoBreak(time)
    ensures ReadLines(RecordText([a + "\n" + b, date, time, "Present"]))
            == ["\"" + a + "\n", b + "\"" + RecordTail(date, time) + "\n"]
  {
    var name := a + "\n" + b;
    var record := RecordText([name, date, time, "Present"]);
    var first := "\"" + a + "\n";
    var tail := RecordTail(date, time);
    var second := b + "\"" + tail;
    assert record == first + (second + "\r\n") by {
      var cd, ct, cp := CsvField(date), CsvField(time), CsvField("Present");
      assert record == CsvField(name) + tail + "\r\n" by {
        RecordTextOfFour(name, date, time, "Present");
        RegroupRecord(CsvField(name), ",", cd, ct, cp, "\r\n");
      }
      assert CsvField(name) == "\"" + name + "\"" by {
        assert '\n' in name && '"' !in name;
        DoubledWithoutQuotes(name);
      }
      RegroupQuoted("\"", a, "\n", b, tail, "\r\n");
    }
    assert first[..|first| - 1] == "\"" + a;
    SplitRead(first, second);
  }

  lemma RegroupRecord(c0: string, comma: string, c1: string, c2: string, c3: string, end: string)
    ensures c0 + comma + c1 + comma + c2 + comma + c3 + end
            == c0 + (comma + c1 + comma + c2 + comma + c3) + end
  {
  }

  lemma RegroupHead(c0: string, comma: string, c1: string, c2: string, c3: string, end: string)
    ensures c0 + comma + c1 + comma + c2 + comma + c3 + end
            == c0 + comma + c1 + (comma + c2 + comma + c3 + end)
  {
  }

  lemma RegroupQuoted(q: string, a: string, nl: string, b: string, tail: string, end: string)
    ensures q + (a + nl + b) + q + tail + end == (q + a + nl) + ((b + q + tail) + end)
  {
  }

  /** A line ending in a line break, then line-free text and a `\r\n`, are
      read as two lines. */
  lemma SplitRead(first: string, second: string)
    requires first != [] && first[|first| - 1] == '\n' && NoBreak(first[..|first| - 1])
    requires NoBreak(second)
    ensures ReadLines(first + (second + "\r\n")) == [first, second + "\n"]
  {
    SplitNewlines(first, second);
    SplitLines(first, second);
  }

  /** The translation step of `SplitRead`. */
  lemma SplitNewlines(first: string, second: string)
    requires first != [] && first[|first| - 1] == '\n' && NoBreak(first[..|first| - 1])
    requires NoBreak(second)
    ensures Newlines(first + (second + "\r\n")) == first + (second + "\n")
  {
    LineWithoutCr(first);
    NewlinesAppend(first, second + "\r\n");
    CrLfRead(second);
  }

  /** A line ended by `\n` and otherwise free of breaks holds no `\r`. */
  lemma LineWithoutCr(u: string)
    requires u != [] && u[|u| - 1] == '\n' && NoBreak(u[..|u| - 1])
    ensures '\r' !in u
  {
    assert u == u[..|u| - 1] + "\n";
  }

  /** The splitting step of `SplitRead`. */
  lemma SplitLines(first: string, second: string)
    requires first != [] && first[|first| - 1] == '\n' && NoBreak(first[..|first| - 1])
    requires NoBreak(second)
    ensures LinesOf(first + (second + "\n")) == [first, second + "\n"]
  {
    var last := second + "\n";
    assert last[..|last| - 1] == second;
    LastLine(last);
    LinesOfAppend(first, last);
    OneLine(first);
  }

  /** Line-free text and one `\n` are one line. */
  lemma LastLine(last: string)
    requires last != [] && last[|last| - 1] == '\n' && NoBreak(last[..|last| - 1])
    ensures LinesOf(last) == [last]
  {
    OneLine(last);
  }

  /** Line-free text ended by `\r\n` reads as that text and one `\n`. */
  lemma CrLfRead(s: string)
    requires NoBreak(s)
    ensures Newlines(s + "\r\n") == s + "\n"
  {
    NewlinesAppend(s, "\r\n");
    assert Newlines("\r\n") == "\n" + Newlines([]);
  }

  /** A line whose only line break is its last character does not hold a
      text with a line break before some other character. */
  lemma NotAcrossBreak(line: string, a: string, b: string)
    requires line != [] && '\n' !in line[..|line| - 1] && b != []
    ensures !Contains(line, a + "\n" + b)
  {
    var name := a + "\n" + b;
    forall i | 0 <= i <= |line| - |name| ensures !OccursAt(line, name, i) {
      assert name[|a|] == '\n';
      assert line[..|line| - 1][i + |a|] == line[i + |a|];
      assert line[i..i + |name|][|a|] == line[i + |a|];
    }
  }

  /** Text whose only line break is its last character is one line. */
  lemma OneLine(u: string)
    requires u != [] && u[|u| - 1] == '\n' && '\n' !in u[..|u| - 1]
    ensures LinesOf(u) == [u]
  {
    WholeFirstLine(u, FirstLineLength(u));
    LinesOfWhole(u);
  }

  /** A first line that ends before the last character would put a line
      break there. */
  lemma WholeFirstLine(u: string, k: nat)
    requires u != [] && '\n' !in u[..|u| - 1]
    requires 0 < k <= |u| && (k < |u| ==> u[k - 1] == '\n')
    ensures k == |u|
  {
    assert forall j :: 0 <= j < |u| - 1 ==> u[..|u| - 1][j] == u[j];
  }

  /** Text that is all first line is one line. */
  lemma LinesOfWhole(u: string)
    requires u != [] && FirstLineLength(u) == |u|
    ensures LinesOf(u) == [u]
  {
    assert u[..|u|] == u && u[|u|..] == [];
  }

  /** The attendance file as its text. A missing file is empty. */
  class AttendanceLog {
    var text: string

    /** Only `writerow` writes the file, so it is empty or ends in a line break. */
    predicate Valid()
      reads this
    {
      text == [] || text[|text| - 1] == '\n'
    }

    constructor ()
      ensures text == [] && Valid()
    {
      text := [];
    }

    /** `mark_attendance(name)` at the given date and time of day. */
    method MarkAttendance(name: string, date: string, time: string) returns (marked: bool)
      requires Valid()
      modifies this
      ensures Valid()
      ensures marked == !Refused(ReadLines(old(text)), name, date)
      ensures marked ==> text == old(text) + RecordText([name, date, time, "Present"])
      ensures !marked ==> text == old(text)
    {
      var lines := ReadLines(text);
      var i := 0;
      while i < |lines|
        invariant 0 <= i <= |lines|
        invariant !Refused(lines[..i], name, date)
      {
        if Contains(lines[i], name) && Contains(lines[i], date) {
          assert lines[..i + 1][i] == lines[i];
          return false;
        }
        assert forall k :: 0 <= k < i ==> lines[..i + 1][k] == lines[..i][k];
        i := i + 1;
      }
      assert lines[..i] == lines;
      text := text + RecordText([name, date, time, "Present"]);
      marked := true;
    }
  }

  /** `train_recognizer()` here: labels are `os.path.splitext(filename)[0]`. */
  method TrainRecognizer(listing: seq<Entry>) returns (labelMap: seq<Label>)
    ensures labelMap == Labelled(listing, SplitextRoot)
  {
    var faces, labels;
    faces, labels, labelMap := LoadFacesAndLabels(listing, SplitextRoot);
  }

  /** An image `<base>.<ext>` is labelled `<base>`. */
  lemma ImageLabel(listing: seq<Entry>, k: nat, base: string, ext: string)
    requires k < |listing| && listing[k].filename == base + "." + ext
    requires '.' !in ext && !AllDots(base)
    ensures forall i :: 0 <= i < |Labelled(listing, SplitextRoot)|
                        && Labelled(listing, SplitextRoot)[i].index == k
                        ==> Labelled(listing, SplitextRoot)[i].name == base
  {
    SplitextRootOf(base, ext);
  }

  /** A prediction is `(label, confidence)`; `None` stands for `predict` raising. */
  type Prediction = Option<(int, real)>

  /** The name one detected face is marked under, if any: a confident
      prediction is marked under its label, or `Unknown` when the label has no name. */
  function FaceMark(labelMap: seq<Label>, prediction: Prediction): (r: Option<string>)
    ensures r.Some? <==> prediction.Some? && prediction.value.1 < Threshold
    ensures r.Some? && (exists i :: 0 <= i < |labelMap| && labelMap[i].index == prediction.value.0)
            ==> exists i :: 0 <= i < |labelMap| && labelMap[i].index == prediction.value.0
                            && labelMap[i].name == r.value
    ensures r.Some? && (forall i :: 0 <= i < |labelMap| ==> labelMap[i].index != prediction.value.0)
            ==> r.value == "Unknown"
  {
    match prediction
    case None => None
    case Some(p) =>
      if p.1 < Threshold then
        Some(if p.0 < 0 then "Unknown" else NameAt(labelMap, p.0, "Unknown"))
      else None
  }

  /** The file after one face: a confident prediction marks its name unless
      a line already read back holds the name and the date. */
  function FaceText(text: string, labelMap: seq<Label>, prediction: Prediction,
                    date: string, time: string): (r: string)
    ensures |text| <= |r| && r[..|text|] == text
    ensures (text == [] || text[|text| - 1] == '\n') ==> (r == [] || r[|r| - 1] == '\n')
    ensures FaceMark(labelMap, prediction).None? ==> r == text
  {
    match FaceMark(labelMap, prediction)
    case None => text
    case Some(name) =>
      if Refused(ReadLines(text), name, date) then text
      else
        var more := RecordText([name, date, time, "Present"]);
        assert (text + more)[..|text|] == text;
        text + more
  }

  /** A detected face with the clock reading `mark_attendance` takes for it:
      the date and time of the moment that face is handled. */
  datatype Face = Face(prediction: Prediction, date: string, time: string)

  /** The file after a frame: each face in turn, in detection order, each
      at its own clock reading. */
  function FrameText(text: string, labelMap: seq<Label>, faces: seq<Face>): (r: string)
    ensures |text| <= |r| && r[..|text|] == text
    ensures (text == [] || text[|text| - 1] == '\n') ==> (r == [] || r[|r| - 1] == '\n')
    decreases |faces|
  {
    if faces == [] then text
    else
      var n := |faces| - 1;
      FaceText(FrameText(text, labelMap, faces[..n]), labelMap, faces[n].prediction, faces[n].date, faces[n].time)
  }

  /** The body of the per-face loop: mark attendance for a confident prediction. */
  method ProcessFace(log: AttendanceLog, labelMap: seq<Label>, prediction: Prediction,
                     date: string, time: string)
    requires log.Valid()
    modifies log
    ensures log.Valid()
    ensures log.text == FaceText(old(log.text), labelMap, prediction, date, time)
    ensures FaceMark(labelMap, prediction).None? ==> log.text == old(log.text)
    ensures FaceMark(labelMap, prediction).Some? ==>
              var name := FaceMark(labelMap, prediction).value;
              (Refused(ReadLines(old(log.text)), name, date) && log.text == old(log.text))
              || (!Refused(ReadLines(old(log.text)), name, date)
                  && log.text == old(log.text) + RecordText([name, date, time, "Present"]))
  {
    var name := FaceMark(labelMap, prediction);
    if name.Some? {
      var _ := log.MarkAttendance(name.value, date, time);
    }
  }

  /** One frame: every detected face in turn, each marked at its own clock
      reading. The file becomes `FrameText` of what it held. */
  method ProcessFrame(log: AttendanceLog, labelMap: seq<Label>, faces: seq<Face>)
    requires log.Valid()
    modifies log
    ensures log.Valid()
    ensures log.text == FrameText(old(log.text), labelMap, faces)
  {
    ghost var start := log.text;
    var k := 0;
    while k < |faces|
      invariant 0 <= k <= |faces|
      invariant log.Valid()
      invariant log.text == FrameText(start, labelMap, faces[..k])
    {
      ProcessFace(log, labelMap, faces[k].prediction, faces[k].date, faces[k].time);
      FrameTextSnoc(start, labelMap, faces, k);
      k := k + 1;
    }
    assert faces[..k] == faces;
  }

  /** One more face extends the frame by that face's step. */
  lemma FrameTextSnoc(text: string, labelMap: seq<Label>, faces: seq<Face>, k: nat)
    requires k < |faces|
    ensures FrameText(text, labelMap, faces[..k + 1])
            == FaceText(FrameText(text, labelMap, faces[..k]), labelMap, faces[k].prediction, faces[k].date, faces[k].time)
  {
    assert faces[..k + 1][..k] == faces[..k];
  }

  /** A frame ends with its last face's step. */
  lemma FrameTextLast(text: string, labelMap: seq<Label>, faces: seq<Face>)
    requires faces != []
    ensures var n := |faces| - 1;
            FrameText(text, labelMap, faces)
            == FaceText(FrameText(text, labelMap, faces[..n]), labelMap, faces[n].prediction, faces[n].date, faces[n].time)
  {
  }

  /** A non-empty sequence is its front followed by its last element. */
  lemma SnocOfInit<T>(xs: seq<T>)
    requires xs != []
    ensures xs[..|xs| - 1] + [xs[|xs| - 1]] == xs
  {
  }

  /** No face's date holds a quote or a line break. */
  predicate PlainDates(faces: seq<Face>) {
    forall k :: 0 <= k < |faces| ==> '"' !in faces[k].date && NoBreak(faces[k].date)
  }

  /** The faces before the last keep plain dates, and so does the last. */
  lemma PlainDatesInit(faces: seq<Face>)
    requires faces != [] && PlainDates(faces)
    ensures PlainDates(faces[..|faces| - 1])
    ensures '"' !in faces[|faces| - 1].date && NoBreak(faces[|faces| - 1].date)
  {
  }

  /** After a frame the file holds what it held, and each confidently
      recognised name without quotes or line breaks is on record for the
      date its face was handled on. */
  lemma {:induction false} FrameOnRecord(text: string, labelMap: seq<Label>, faces: seq<Face>)
    requires text == [] || text[|text| - 1] == '\n'
    requires PlainDates(faces)
    ensures AllOnRecord(FrameText(text, labelMap, faces), labelMap, faces)
    decreases |faces|
  {
    if faces != [] {
      var n := |faces| - 1;
      var init := faces[..n];
      PlainDatesInit(faces);
      FrameOnRecord(text, labelMap, init);
      var before := FrameText(text, labelMap, init);
      var f := faces[n];
      var after := FaceText(before, labelMap, f.prediction, f.date, f.time);
      FrameStep(before, after, labelMap, init, f);
      SnocOfInit(faces);
      FrameTextLast(text, labelMap, faces);
    }
  }

  /** Faces recognised without confidence write nothing. */
  lemma {:induction false} UnconfidentFrameWritesNothing(text: string, labelMap: seq<Label>, faces: seq<Face>)
    requires forall k :: 0 <= k < |faces| ==> FaceMark(labelMap, faces[k].prediction).None?
    ensures FrameText(text, labelMap, faces) == text
    decreases |faces|
  {
    if faces != [] {
      var n := |faces| - 1;
      assert forall j :: 0 <= j < n ==> faces[..n][j] == faces[j];
      UnconfidentFrameWritesNothing(text, labelMap, faces[..n]);
    }
  }

  /** One face of the frame: the faces so far and this one are on record. */
  lemma FrameStep(before: string, after: string, labelMap: seq<Label>, init: seq<Face>, f: Face)
    requires before == [] || before[|before| - 1] == '\n'
    requires '"' !in f.date && NoBreak(f.date)
    requires AllOnRecord(before, labelMap, init)
    requires after == FaceText(before, labelMap, f.prediction, f.date, f.time)
    ensures AllOnRecord(after, labelMap, init + [f])
  {
    var more := after[|before|..];
    PrefixThenRest(before, after);
    OnRecordPersists(before, more, labelMap, init);
    FaceOnRecord(before, after, labelMap, f.prediction, f.date, f.time);
    forall j | 0 <= j < |init + [f]|
      ensures OnRecord(after, labelMap, (init + [f])[j].prediction, (init + [f])[j].date)
    {
      if j < |init| {
        assert OnRecord(before + more, labelMap, init[j].prediction, init[j].date);
      }
    }
  }

  /** Every face's confidently recognised name is on record for its date. */
  predicate AllOnRecord(text: string, labelMap: seq<Label>, faces: seq<Face>) {
    forall k :: 0 <= k < |faces| ==> OnRecord(text, labelMap, faces[k].prediction, faces[k].date)
  }

  /** Text that starts with `a` is `a` followed by the rest. */
  lemma PrefixThenRest(a: string, b: string)
    requires |a| <= |b| && b[..|a|] == a
    ensures b == a + b[|a|..]
  {
  }

  /** The name a prediction confidently recognises, when it holds no quote or
      line break, is refused again on `date` by the file `text`. */
  predicate OnRecord(text: string, labelMap: seq<Label>, prediction: Prediction, date: string)
  {
    var m := FaceMark(labelMap, prediction);
    m.Some? && '"' !in m.value && NoBreak(m.value) ==> Refused(ReadLines(text), m.value, date)
  }

  /** Appending to the file keeps every face on record. */
  lemma OnRecordPersists(text: string, more: string, labelMap: seq<Label>, faces: seq<Face>)
    requires text == [] || text[|text| - 1] == '\n'
    requires AllOnRecord(text, labelMap, faces)
    ensures AllOnRecord(text + more, labelMap, faces)
  {
    forall j | 0 <= j < |faces|
      ensures OnRecord(text + more, labelMap, faces[j].prediction, faces[j].date)
    {
      var m := FaceMark(labelMap, faces[j].prediction);
      if m.Some? && '"' !in m.value && NoBreak(m.value) {
        RefusedPersists(text, more, m.value, faces[j].date);
      }
    }
  }

  /** After `ProcessFace`, the face it was given is on record. */
  lemma FaceOnRecord(before: string, after: string, labelMap: seq<Label>, prediction: Prediction,
                     date: string, time: string)
    requires before == [] || before[|before| - 1] == '\n'
    requires '"' !in date && NoBreak(date)
    requires after == FaceText(before, labelMap, prediction, date, time)
    ensures OnRecord(after, labelMap, prediction, date)
  {
    var m := FaceMark(labelMap, prediction);
    if m.Some? && '"' !in m.value && NoBreak(m.value) && after != before {
      MarkedThenRefused(before, m.value, date, time);
    }
  }

}
