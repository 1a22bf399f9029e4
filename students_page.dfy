/**
 * The student records component: the filters turned into a query string,
 * the class drop-down built from the fetched students, the error path of a
 * fetch, and the refresh and clear buttons that reset the filters. The
 * HTTP request is an input: each fetch receives its outcome as a parameter.
 */
module StudentsPage {
  import opened Wrappers
  import opened Text
  import opened MapDedup
  import opened StudentSearch

  const AllClasses := "All Classes"
  const StudentsEndpoint := "http://localhost:3001/students"

  /** The search form; `""` stands for an absent or empty field. */
  datatype SearchParams = SearchParams(enrollment: string, name: string, className: string)

  /** The form after refresh or clear. */
  const ResetParams := SearchParams("", "", AllClasses)

  /** `fetchData()` called without arguments. */
  const NoParams := SearchParams("", "", "")

  /** A `URLSearchParams` as its list of name/value pairs. */
  type Query = seq<(string, string)>

  /** The value of the first pair named `key`. */
  function Get(query: Query, key: string): (r: Option<string>)
    ensures r.None? <==> forall i :: 0 <= i < |query| ==> query[i].0 != key
  {
    if query == [] then None
    else if query[0].0 == key then Some(query[0].1)
    else
      assert forall i :: 1 <= i < |query| ==> query[i] == query[1..][i - 1];
      Get(query[1..], key)
  }

  /** The pairs the conditional `queryParams.append` calls add, in call order. */
  function QueryOf(params: SearchParams): (r: Query)
    ensures Get(r, "enrollment") == (if params.enrollment != "" then Some(params.enrollment) else None)
    ensures Get(r, "name") == (if params.name != "" then Some(params.name) else None)
    ensures Get(r, "class") ==
            (if params.className != "" && params.className != AllClasses then Some(params.className) else None)
    ensures forall i :: 0 <= i < |r| ==> r[i].0 in {"enrollment", "name", "class"} && r[i].1 != ""
  {
    var e := if params.enrollment != "" then [("enrollment", params.enrollment)] else [];
    var n := if params.name != "" then [("name", params.name)] else [];
    var c := if params.className != "" && params.className != AllClasses then [("class", params.className)] else [];
    GetConcat(e + n, c, "class");
    GetConcat(e, n, "class");
    GetConcat(e + n, c, "name");
    GetConcat(e, n, "name");
    GetConcat(e + n, c, "enrollment");
    GetConcat(e, n, "enrollment");
    e + n + c
  }

  lemma {:induction false} GetConcat(p: Query, q: Query, key: string)
    ensures Get(p + q, key) == if Get(p, key).Some? then Get(p, key) else Get(q, key)
  {
    if p != [] {
      assert (p + q)[0] == p[0] && (p + q)[1..] == p[1..] + q;
      GetConcat(p[1..], q, key);
    } else {
      assert p + q == q;
    }
  }

  /** `new URLSearchParams()` and the appends. */
  method BuildQuery(params: SearchParams) returns (query: Query)
    ensures query == QueryOf(params)
  {
    query := [];
    if params.enrollment != "" {
      query := query + [("enrollment", params.enrollment)];
    }
    if params.name != "" {
      query := query + [("name", params.name)];
    }
    if params.className != "" && params.className != AllClasses {
      query := query + [("class", params.className)];
    }
  }

  /** `queryParams.toString()`, values left as they are (no percent-encoding). */
  function QueryString(query: Query): (r: string)
    ensures r == "" <==> query == []
  {
    var pairs := seq(|query|, i requires 0 <= i < |query| => query[i].0 + "=" + query[i].1);
    var r := Join(pairs, "&");
    assert query != [] ==> r != "" by {
      if query != [] { JoinNonEmpty(pairs, "&"); }
    }
    r
  }

  lemma JoinNonEmpty(parts: seq<string>, sep: string)
    requires parts != [] && parts[0] != ""
    ensures Join(parts, sep) != ""
  {
  }

  /** The request URL: the endpoint, and `?` with the query only when the
      query string is not empty. */
  function StudentsUrl(query: Query): (r: string)
    ensures query == [] ==> r == StudentsEndpoint
    ensures query != [] ==> r == StudentsEndpoint + "?" + QueryString(query)
  {
    var q := QueryString(query);
    StudentsEndpoint + (if q != "" then "?" + q else "")
  }

  /** `student.class || student.batch`, with `""` for a falsy value. */
  function ClassOf(s: Student): string {
    if s.className.Some? && s.className.value != "" then s.className.value
    else if s.batch.Some? then s.batch.value
    else ""
  }

  /** Lexicographic order by character code, as JavaScript's default `sort`
      compares strings. Characters here are Unicode scalar values; JavaScript
      compares UTF-16 code units, which order the same way for characters
      below U+10000. */
  predicate Below(a: string, b: string) {
    b != [] && (a == [] || a[0] < b[0] || (a[0] == b[0] && Below(a[1..], b[1..])))
  }

  lemma {:induction false} BelowIrreflexive(a: string)
    ensures !Below(a, a)
  {
    if a != [] {
      BelowIrreflexive(a[1..]);
    }
  }

  lemma {:induction false} BelowTransitive(a: string, b: string, c: string)
    requires Below(a, b) && Below(b, c)
    ensures Below(a, c)
  {
    if a != [] && a[0] == b[0] && b[0] == c[0] {
      BelowTransitive(a[1..], b[1..], c[1..]);
    }
  }

  lemma {:induction false} BelowTotal(a: string, b: string)
    requires a != b
    ensures Below(a, b) || Below(b, a)
  {
    if a != [] && b != [] && a[0] == b[0] {
      assert a == [a[0]] + a[1..] && b == [b[0]] + b[1..];
      BelowTotal(a[1..], b[1..]);
    }
  }

  predicate StrictlySorted(s: seq<string>) {
    forall i, j :: 0 <= i < j < |s| ==> Below(s[i], s[j])
  }

  /** Insertion into a strictly sorted list of an element it does not hold. */
  function InsertSorted(s: seq<string>, x: string): (r: seq<string>)
    requires StrictlySorted(s) && x !in s
    ensures multiset(r) == multiset(s) + multiset{x}
    ensures StrictlySorted(r)
  {
    if s == [] then [x]
    else if Below(s[0], x) then
      SortedTail(s);
      var t := InsertSorted(s[1..], x);
      ConsSorted(s[0], s[1..], x, t);
      [s[0]] + t
    else
      BelowTotal(s[0], x);
      PrependSorted(x, s);
      [x] + s
  }

  /** The tail of a strictly sorted list is strictly sorted and above its head. */
  lemma SortedTail(s: seq<string>)
    requires s != [] && StrictlySorted(s)
    ensures StrictlySorted(s[1..])
    ensures forall y :: y in s[1..] ==> Below(s[0], y)
    ensures s == [s[0]] + s[1..]
  {
    var rest := s[1..];
    forall i, j | 0 <= i < j < |rest| ensures Below(rest[i], rest[j]) {
      assert rest[i] == s[i + 1] && rest[j] == s[j + 1];
    }
    forall y | y in rest ensures Below(s[0], y) {
      var m :| 0 <= m < |rest| && rest[m] == y;
      assert rest[m] == s[m + 1];
    }
  }

  /** A head below everything an insertion produced keeps the list sorted. */
  lemma ConsSorted(h: string, rest: seq<string>, x: string, t: seq<string>)
    requires Below(h, x) && forall y :: y in rest ==> Below(h, y)
    requires StrictlySorted(t) && multiset(t) == multiset(rest) + multiset{x}
    ensures StrictlySorted([h] + t)
    ensures multiset([h] + t) == multiset([h] + rest) + multiset{x}
  {
    HeadBelowAll(h, rest, x, t);
    ConsOrder(h, t);
    assert multiset([h] + t) == multiset{h} + multiset(t);
    assert multiset([h] + rest) == multiset{h} + multiset(rest);
  }

  /** A head below every element of a strictly sorted list keeps it sorted. */
  lemma ConsOrder(h: string, t: seq<string>)
    requires StrictlySorted(t) && forall k :: 0 <= k < |t| ==> Below(h, t[k])
    ensures StrictlySorted([h] + t)
  {
    var r := [h] + t;
    forall i, j | 0 <= i < j < |r| ensures Below(r[i], r[j]) {
      assert r[j] == t[j - 1];
      if i > 0 {
        assert r[i] == t[i - 1];
      }
    }
  }

  /** What an insertion produced lies above a head below its inputs. */
  lemma HeadBelowAll(h: string, rest: seq<string>, x: string, t: seq<string>)
    requires Below(h, x) && forall y :: y in rest ==> Below(h, y)
    requires multiset(t) == multiset(rest) + multiset{x}
    ensures forall k :: 0 <= k < |t| ==> Below(h, t[k])
  {
    forall k | 0 <= k < |t| ensures Below(h, t[k]) {
      assert t[k] in multiset(t);
      if t[k] != x {
        assert t[k] in multiset(rest);
        assert t[k] in rest;
      }
    }
  }

  /** An element below the head of a strictly sorted list goes in front. */
  lemma PrependSorted(x: string, s: seq<string>)
    requires s != [] && StrictlySorted(s) && Below(x, s[0])
    ensures StrictlySorted([x] + s)
  {
    var r := [x] + s;
    forall i, j | 0 <= i < j < |r| ensures Below(r[i], r[j]) {
      assert r[j] == s[j - 1];
      if i == 0 {
        if j > 1 { BelowTransitive(x, s[0], s[j - 1]); }
      } else {
        assert r[i] == s[i - 1];
      }
    }
  }

  /** The sort of a list without duplicates. */
  function SortDistinct(s: seq<string>): (r: seq<string>)
    requires forall i, j :: 0 <= i < j < |s| ==> s[i] != s[j]
    ensures multiset(r) == multiset(s)
    ensures StrictlySorted(r)
  {
    if s == [] then []
    else
      var n := |s| - 1;
      var init, last := s[..n], s[n];
      assert forall i :: 0 <= i < n ==> init[i] == s[i];
      var prev := SortDistinct(init);
      assert last !in prev by {
        assert last !in init;
        assert last !in multiset(init);
      }
      assert multiset(s) == multiset(init) + multiset{last} by {
        assert s == init + [last];
      }
      InsertSorted(prev, last)
  }

  /** Two strictly sorted lists with the same elements start alike. */
  lemma SortedHeadsAgree(a: seq<string>, b: seq<string>)
    requires a != [] && StrictlySorted(a) && StrictlySorted(b) && multiset(a) == multiset(b)
    ensures b != [] && a[0] == b[0]
  {
    assert a[0] in multiset(b) && b[0] in multiset(a) by { assert b[0] in multiset(b); }
    assert a[0] in b && b[0] in a;
    var i :| 0 <= i < |b| && b[i] == a[0];
    var j :| 0 <= j < |a| && a[j] == b[0];
    BelowIrreflexive(a[0]);
    if i > 0 && j > 0 {
      BelowTransitive(a[0], b[0], a[0]);
    }
  }

  /** Removing an equal head keeps the elements equal and the lists sorted. */
  lemma SortedTails(a: seq<string>, b: seq<string>)
    requires a != [] && b != [] && a[0] == b[0] && multiset(a) == multiset(b)
    requires StrictlySorted(a) && StrictlySorted(b)
    ensures multiset(a[1..]) == multiset(b[1..])
    ensures StrictlySorted(a[1..]) && StrictlySorted(b[1..])
  {
    SortedTail(a);
    SortedTail(b);
    HeadRemoved(a);
    HeadRemoved(b);
  }

  /** The elements of a tail are those of the list minus its head. */
  lemma HeadRemoved(a: seq<string>)
    requires a != []
    ensures multiset(a[1..]) == multiset(a) - multiset{a[0]}
  {
    assert a == [a[0]] + a[1..];
    assert multiset(a) == multiset{a[0]} + multiset(a[1..]);
  }

  /** There is one strict order of a set of strings: any sort yields it. */
  lemma {:induction false} StrictlySortedUnique(a: seq<string>, b: seq<string>)
    requires StrictlySorted(a) && StrictlySorted(b) && multiset(a) == multiset(b)
    ensures a == b
  {
    if a == [] {
      assert |b| == |multiset(b)| == 0;
    } else {
      SortedHeadsAgree(a, b);
      SortedTails(a, b);
      StrictlySortedUnique(a[1..], b[1..]);
      assert a == [a[0]] + a[1..] && b == [b[0]] + b[1..];
    }
  }

  /** `['All Classes', ...uniqueClasses.sort()]` for
      `[...new Set(students.map(s => s.class || s.batch))].filter(Boolean)`. */
  function ClassList(students: seq<Student>): (r: seq<string>)
    ensures |r| >= 1 && r[0] == AllClasses
    ensures StrictlySorted(r[1..])
    ensures forall c :: c in r[1..] <==> c != "" && HasKey(students, c, ClassOf)
  {
    var unique := FirstKeys(students, ClassOf);
    var truthy := NonEmpty(unique);
    var sorted := SortDistinct(truthy);
    assert forall c :: c in sorted <==> c in truthy by {
      forall c ensures c in sorted <==> c in truthy {
        assert c in sorted <==> c in multiset(sorted);
        assert c in truthy <==> c in multiset(truthy);
      }
    }
    var r := [AllClasses] + sorted;
    assert r[1..] == sorted;
    r
  }

  /** `filter(Boolean)` on strings. */
  function NonEmpty(s: seq<string>): (r: seq<string>)
    requires forall i, j :: 0 <= i < j < |s| ==> s[i] != s[j]
    ensures forall c :: c in r <==> c in s && c != ""
    ensures forall i, j :: 0 <= i < j < |r| ==> r[i] != r[j]
  {
    if s == [] then []
    else
      var rest := NonEmpty(s[1..]);
      assert s[0] !in s[1..] by {
        forall j | 0 <= j < |s| - 1 ensures s[1..][j] != s[0] {
          assert s[1..][j] == s[j + 1];
        }
      }
      assert s[0] !in rest;
      if s[0] == "" then rest else [s[0]] + rest
  }

  /** The outcome of `axios.get(url)`: a response body, or a rejected
      request with the server's `error` field (`""` when absent) and the
      error message. */
  datatype Outcome =
    | Response(success: bool, data: seq<Student>, message: string)
    | Rejected(serverError: string, message: string)

  /** The component state. */
  class StudentsView {
    var students: seq<Student>
    var filteredStudents: seq<Student>
    var loading: bool
    var error: Option<string>
    var classes: seq<string>
    var searchParams: SearchParams

    constructor ()
      ensures students == [] && filteredStudents == [] && loading && error.None?
      ensures classes == [AllClasses] && searchParams == ResetParams
    {
      students, filteredStudents, loading, error := [], [], true, None;
      classes, searchParams := [AllClasses], ResetParams;
    }

    /** `fetchData(params)`: the URL requested, then the state the outcome leaves. */
    method FetchData(params: SearchParams, outcome: Outcome) returns (url: string)
      modifies this
      ensures url == StudentsUrl(QueryOf(params))
      ensures !loading && searchParams == old(searchParams)
      ensures outcome.Response? && outcome.success ==>
                students == outcome.data && filteredStudents == outcome.data
                && classes == ClassList(outcome.data) && error == old(error)
      ensures outcome.Response? && !outcome.success ==>
                filteredStudents == [] && students == old(students) && classes == old(classes)
                && error == Some(if outcome.message != "" then outcome.message else "Failed to fetch students")
      ensures outcome.Rejected? ==>
                filteredStudents == [] && students == old(students) && classes == old(classes)
                && error == Some(if outcome.serverError != "" then outcome.serverError else outcome.message)
    {
      loading := true;
      var query := BuildQuery(params);
      url := StudentsUrl(query);
      match outcome {
      case Response(success, data, message) =>
        if success {
          students := data;
          filteredStudents := data;
          classes := ClassList(data);
        } else {
          error := Some(if message != "" then message else "Failed to fetch students");
          filteredStudents := [];
        }
      case Rejected(serverError, message) =>
        error := Some(if serverError != "" then serverError else message);
        filteredStudents := [];
      }
      loading := false;
    }

    /** `handleSearch`: fetch with the form's filters. */
    method HandleSearch(outcome: Outcome) returns (url: string)
      modifies this
      ensures url == StudentsUrl(QueryOf(old(searchParams)))
      ensures searchParams == old(searchParams)
      ensures !loading
      ensures outcome.Response? && outcome.success ==>
                students == outcome.data && filteredStudents == outcome.data
                && classes == ClassList(outcome.data) && error == old(error)
      ensures outcome.Response? && !outcome.success ==>
                filteredStudents == [] && students == old(students) && classes == old(classes)
                && error == Some(if outcome.message != "" then outcome.message else "Failed to fetch students")
      ensures outcome.Rejected? ==>
                filteredStudents == [] && students == old(students) && classes == old(classes)
                && error == Some(if outcome.serverError != "" then outcome.serverError else outcome.message)
    {
      url := FetchData(searchParams, outcome);
    }

    /** `handleRefresh` and `clearSearch`: reset the form and fetch every student. */
    method HandleRefresh(outcome: Outcome) returns (url: string)
      modifies this
      ensures searchParams == ResetParams
      ensures url == StudentsEndpoint
      ensures !loading
      ensures outcome.Response? && outcome.success ==>
                students == outcome.data && filteredStudents == outcome.data
                && classes == ClassList(outcome.data) && error == old(error)
      ensures outcome.Response? && !outcome.success ==>
                filteredStudents == [] && students == old(students) && classes == old(classes)
                && error == Some(if outcome.message != "" then outcome.message else "Failed to fetch students")
      ensures outcome.Rejected? ==>
                filteredStudents == [] && students == old(students) && classes == old(classes)
                && error == Some(if outcome.serverError != "" then outcome.serverError else outcome.message)
    {
      searchParams := ResetParams;
      url := FetchData(NoParams, outcome);
    }
  }
}
