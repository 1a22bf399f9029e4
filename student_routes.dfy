/**
 * The student routes (src/students.js): the filtered student list query of
 * `GET /`, the class-group query of `GET /class/:classGroup` and the
 * face-status answer of `GET /:studentId/face-status`.
 *
 * The SQL text is written with single spaces where the source's template
 * literals hold line breaks and indentation; the placeholders, the clause
 * order and the bound values are the source's.
 */
module StudentRoutes {
  import opened Wrappers
  import opened Text
  import opened Sql

  // ------------------------------------------------------------------
  // GET /: search across fields, or the individual filters
  // ------------------------------------------------------------------

  // The fixed SQL text is held in parts of at most forty characters, each
  // with a lemma that it holds no `?`.

  const ListSelect0: string := "SELECT id, enrollment_no, name, "
  const ListSelect1: string := "branch, hosteller_commuter, semester, "
  const ListSelect2: string := "gender, admission_type, student_phone, "
  const ListSelect3: string := "parent_phone, gnu_email, personal_email, "
  const ListSelect4: string := "batch, class FROM students WHERE 1=1"
  const ListSelect: string := ListSelect0 + ListSelect1 + ListSelect2 + ListSelect3 + ListSelect4

  lemma ListSelect0HasNoPlaceholder() ensures '?' !in ListSelect0 {
    assert forall i :: 0 <= i < |ListSelect0| ==> ListSelect0[i] != '?';
  }

  lemma ListSelect1HasNoPlaceholder() ensures '?' !in ListSelect1 {
    assert forall i :: 0 <= i < |ListSelect1| ==> ListSelect1[i] != '?';
  }

  lemma ListSelect2HasNoPlaceholder() ensures '?' !in ListSelect2 {
    assert forall i :: 0 <= i < |ListSelect2| ==> ListSelect2[i] != '?';
  }

  lemma ListSelect3HasNoPlaceholder() ensures '?' !in ListSelect3 {
    assert forall i :: 0 <= i < |ListSelect3| ==> ListSelect3[i] != '?';
  }

  lemma ListSelect4HasNoPlaceholder() ensures '?' !in ListSelect4 {
    assert forall i :: 0 <= i < |ListSelect4| ==> ListSelect4[i] != '?';
  }

  lemma ListSelectHasNoPlaceholder()
    ensures '?' !in ListSelect
  {
    ListSelect0HasNoPlaceholder();
    ListSelect1HasNoPlaceholder();
    ListSelect2HasNoPlaceholder();
    ListSelect3HasNoPlaceholder();
    ListSelect4HasNoPlaceholder();
  }

  const ListOrder0: string := " ORDER BY CASE WHEN class IS NOT NULL "
  const ListOrder1: string := "THEN class ELSE batch END ASC, "
  const ListOrder2: string := "enrollment_no ASC"
  const ListOrder: string := ListOrder0 + ListOrder1 + ListOrder2

  lemma ListOrder0HasNoPlaceholder() ensures '?' !in ListOrder0 {
    assert forall i :: 0 <= i < |ListOrder0| ==> ListOrder0[i] != '?';
  }

  lemma ListOrder1HasNoPlaceholder() ensures '?' !in ListOrder1 {
    assert forall i :: 0 <= i < |ListOrder1| ==> ListOrder1[i] != '?';
  }

  lemma ListOrder2HasNoPlaceholder() ensures '?' !in ListOrder2 {
    assert forall i :: 0 <= i < |ListOrder2| ==> ListOrder2[i] != '?';
  }

  lemma ListOrderHasNoPlaceholder()
    ensures '?' !in ListOrder
  {
    ListOrder0HasNoPlaceholder();
    ListOrder1HasNoPlaceholder();
    ListOrder2HasNoPlaceholder();
  }

  /** `%term%`: the term anywhere in the column. */
  function Anywhere(term: string): (r: string)
    ensures |r| == |term| + 2 && r[0] == '%' && r[|r| - 1] == '%' && r[1..|r| - 1] == term
  {
    "%" + term + "%"
  }

  /** ` AND (enrollment_no LIKE ? OR name LIKE ? OR class LIKE ? OR batch LIKE ?)`
      with `%search%` four times. */
  function SearchAny(search: string): (r: Fragment)
    ensures Balanced(r)
    ensures r.args == [Anywhere(search), Anywhere(search), Anywhere(search), Anywhere(search)]
    ensures Render(r) == " AND (enrollment_no LIKE " + "?" + " OR name LIKE " + "?" + " OR class LIKE " + "?"
                         + " OR batch LIKE " + "?" + ")"
  {
    var t := Anywhere(search);
    SearchPiecesHaveNoPlaceholder();
    JoinFive(SearchPieces, "?");
    Fragment(SearchPieces, [t, t, t, t])
  }

  const SearchPieces: seq<string> :=
    [" AND (enrollment_no LIKE ", " OR name LIKE ", " OR class LIKE ", " OR batch LIKE ", ")"]

  lemma SearchPiecesHaveNoPlaceholder()
    ensures forall i :: 0 <= i < |SearchPieces| ==> '?' !in SearchPieces[i]
  {
    var p0, p1, p2, p3 := SearchPieces[0], SearchPieces[1], SearchPieces[2], SearchPieces[3];
    assert forall i :: 0 <= i < |p0| ==> p0[i] != '?';
    assert forall i :: 0 <= i < |p1| ==> p1[i] != '?';
    assert forall i :: 0 <= i < |p2| ==> p2[i] != '?';
    assert forall i :: 0 <= i < |p3| ==> p3[i] != '?';
  }

  /** ` AND (class = ? OR batch = ?)` with the class twice. */
  function ClassOrBatch(className: string): (r: Fragment)
    ensures Balanced(r)
    ensures r.args == [className, className]
    ensures Render(r) == " AND (class = " + "?" + " OR batch = " + "?" + ")"
  {
    var pieces := [" AND (class = ", " OR batch = ", ")"];
    JoinThree(pieces, "?");
    Fragment(pieces, [className, className])
  }

  /** The class filter is on for a non-empty class other than `All Classes`. */
  predicate ClassFilterOn(className: string) {
    className != "" && className != "All Classes"
  }

  /** The optional filters of `GET /`: a non-empty `search` is the only one;
      otherwise enrollment, name and class, each on when given. */
  function ListFilters(search: string, enrollment: string, name: string, className: string): (r: seq<Filter>)
    ensures forall i :: 0 <= i < |r| ==> Balanced(r[i].fragment)
  {
    if search != "" then [Filter(true, SearchAny(search))]
    else [Filter(enrollment != "", ColumnLike("enrollment_no", enrollment)), Filter(name != "", ColumnLike("name", name)),
          Filter(ClassFilterOn(className), ClassOrBatch(className))]
  }

  /** The list query of `GET /`: with a search term, one clause of four
      `LIKE ?` bound to `%search%`; without, the enrollment and name matched
      anywhere and the class against both `class` and `batch`. */
  method ListQuery(search: string, enrollment: string, name: string, className: string)
    returns (query: string, params: seq<string>)
    ensures query == Appended(ListSelect, ListFilters(search, enrollment, name, className)) + ListOrder
    ensures params == AppendedArgs([], ListFilters(search, enrollment, name, className))
    ensures search != "" ==> params == [Anywhere(search), Anywhere(search), Anywhere(search), Anywhere(search)]
    ensures search == "" ==> params == (if enrollment != "" then [Anywhere(enrollment)] else [])
                                      + (if name != "" then [Anywhere(name)] else [])
                                      + (if ClassFilterOn(className) then [className, className] else [])
    ensures Count(query, '?') == |params|
  {
    ghost var fs := ListFilters(search, enrollment, name, className);
    query := ListSelect;
    params := [];
    if search != "" {
      AppendedOne(query, params, fs[0]);
      query := query + Render(SearchAny(search));
      var searchTerm := Anywhere(search);
      params := params + [searchTerm, searchTerm, searchTerm, searchTerm];
    } else {
      AppendedThree(query, params, fs[0], fs[1], fs[2]);
      if enrollment != "" {
        query := query + Render(ColumnLike("enrollment_no", enrollment));
        params := params + [Anywhere(enrollment)];
      }
      if name != "" {
        query := query + Render(ColumnLike("name", name));
        params := params + [Anywhere(name)];
      }
      if className != "" && className != "All Classes" {
        query := query + Render(ClassOrBatch(className));
        params := params + [className, className];
      }
    }
    query := query + ListOrder;
    ListPlaceholders(search, enrollment, name, className);
    ListParams(search, enrollment, name, className);
  }

  /** With a search term, `%search%` four times; without, `%enrollment%`,
      `%name%` and the class twice, each only when its filter is on. */
  lemma ListParams(search: string, enrollment: string, name: string, className: string)
    ensures search != "" ==> AppendedArgs([], ListFilters(search, enrollment, name, className))
                             == [Anywhere(search), Anywhere(search), Anywhere(search), Anywhere(search)]
    ensures search == "" ==> AppendedArgs([], ListFilters(search, enrollment, name, className))
                             == (if enrollment != "" then [Anywhere(enrollment)] else [])
                                + (if name != "" then [Anywhere(name)] else [])
                                + (if ClassFilterOn(className) then [className, className] else [])
  {
    var fs := ListFilters(search, enrollment, name, className);
    if search != "" {
      AppendedOne([], [], fs[0]);
    } else {
      AppendedThree([], [], fs[0], fs[1], fs[2]);
    }
  }

  /** The list query has one `?` per parameter. */
  lemma ListPlaceholders(search: string, enrollment: string, name: string, className: string)
    ensures Count(Appended(ListSelect, ListFilters(search, enrollment, name, className)) + ListOrder, '?')
            == |AppendedArgs([], ListFilters(search, enrollment, name, className))|
  {
    var fs := ListFilters(search, enrollment, name, className);
    ListSelectHasNoPlaceholder();
    ListOrderHasNoPlaceholder();
    NoPlaceholder(ListSelect);
    AppendedCount(ListSelect, [], fs);
    AppendTextKeepsCount(Appended(ListSelect, fs), AppendedArgs([], fs), ListOrder);
  }

  /** With a search term the individual filters are ignored. */
  lemma SearchIgnoresFilters(search: string, enrollment: string, name: string, className: string,
                             enrollment': string, name': string, className': string)
    requires search != ""
    ensures ListFilters(search, enrollment, name, className) == ListFilters(search, enrollment', name', className')
  {
  }

  // ------------------------------------------------------------------
  // GET /class/:classGroup
  // ------------------------------------------------------------------

  /** The text of `t` before its first `c` (all of `t` when there is none). */
  function Before(t: string, c: char): (r: string)
    ensures |r| <= |t| && r == t[..|r|] && c !in r
    ensures |r| < |t| ==> t[|r|] == c
  {
    if t == [] || t[0] == c then [] else [t[0]] + Before(t[1..], c)
  }

  /** One piece of the class-group parameter: trimmed, then the match of
      `/^([^(]+)/` trimmed, or the trimmed piece when nothing precedes `(`. */
  function GroupName(piece: string): (r: string)
    ensures Trim(r) == r
    ensures '(' !in Trim(piece) ==> r == Trim(piece)
    ensures Trim(piece) == [] || Trim(piece)[0] == '(' ==> r == Trim(piece)
    ensures Trim(piece) != [] && Trim(piece)[0] != '(' ==> '(' !in r && r == Trim(Before(Trim(piece), '('))
  {
    var t := Trim(piece);
    var m := Before(t, '(');
    TrimIdempotent(piece);
    if m == [] then t
    else
      TrimIdempotent(m);
      assert '(' !in t ==> m == t;
      TrimOfPrefix(m, '(');
      Trim(m)
  }

  /** Trimming keeps only characters of the input. */
  lemma TrimOfPrefix(m: string, c: char)
    requires c !in m
    ensures c !in Trim(m)
  {
    var s := TrimStart(m);
    var e := TrimEnd(s);
    forall i | 0 <= i < |e| ensures e[i] != c {
      assert e[i] == s[..|e|][i] == s[i];
      assert s[i] == m[|m| - |s|..][i] == m[|m| - |s| + i];
    }
  }

  /** `classGroup.split(',').map(...)`. */
  function ClassGroups(classGroup: string): (r: seq<string>)
    ensures |r| == |Split(classGroup, ",")| >= 1
    ensures forall i :: 0 <= i < |r| ==> r[i] == GroupName(Split(classGroup, ",")[i])
  {
    var pieces := Split(classGroup, ",");
    seq(|pieces|, i requires 0 <= i < |pieces| => GroupName(pieces[i]))
  }

  /** Text that neither starts nor ends with white space is its own trim. */
  lemma TrimmedAlready(s: string)
    requires s == [] || (!IsJsSpace(s[0]) && !IsJsSpace(s[|s| - 1]))
    ensures Trim(s) == s
  {
  }

  /** A piece `name(rest)` without surrounding white space names the group
      `name` when `name` has no `(` and no surrounding white space. */
  lemma GroupNameOfParenthesised(name: string, rest: string)
    requires name != [] && '(' !in name
    requires !IsJsSpace(name[0]) && !IsJsSpace(name[|name| - 1])
    requires rest == [] || !IsJsSpace(rest[|rest| - 1])
    ensures GroupName(name + "(" + rest) == name
  {
    var t := name + "(" + rest;
    assert t[0] == name[0];
    assert t[|t| - 1] == if rest == [] then '(' else rest[|rest| - 1];
    TrimmedAlready(t);
    TrimmedAlready(name);
    assert t[..|name|] == name;
    BeforeFirst(t, '(', |name|);
  }

  /** The text before the first `c` is the prefix up to its position. */
  lemma {:induction false} BeforeFirst(t: string, c: char, k: nat)
    requires k < |t| && t[k] == c && c !in t[..k]
    ensures Before(t, c) == t[..k]
  {
    if k > 0 {
      assert t[0] == t[..k][0];
      assert t[1..][..k - 1] == t[..k][1..];
      BeforeFirst(t[1..], c, k - 1);
      assert t[..k] == [t[0]] + t[1..][..k - 1];
    }
  }

  /** `6IT-A(6IT-A-2)` names the group `6IT-A`. */
  lemma SplitGroupExample()
    ensures GroupName("6IT-A(6IT-A-2)") == "6IT-A"
  {
    assert "6IT-A" + "(" + "6IT-A-2)" == "6IT-A(6IT-A-2)";
    assert forall i :: 0 <= i < |"6IT-A"| ==> "6IT-A"[i] != '(';
    GroupNameOfParenthesised("6IT-A", "6IT-A-2)");
  }

  const GroupSelect0: string := "SELECT id, enrollment_no as enrollment, "
  const GroupSelect1: string := "name, branch, class, batch "
  const GroupSelect2: string := "FROM students WHERE "
  const GroupSelect: string := GroupSelect0 + GroupSelect1 + GroupSelect2

  lemma GroupSelect0HasNoPlaceholder() ensures '?' !in GroupSelect0 {
    assert forall i :: 0 <= i < |GroupSelect0| ==> GroupSelect0[i] != '?';
  }

  lemma GroupSelect1HasNoPlaceholder() ensures '?' !in GroupSelect1 {
    assert forall i :: 0 <= i < |GroupSelect1| ==> GroupSelect1[i] != '?';
  }

  lemma GroupSelect2HasNoPlaceholder() ensures '?' !in GroupSelect2 {
    assert forall i :: 0 <= i < |GroupSelect2| ==> GroupSelect2[i] != '?';
  }

  lemma GroupSelectHasNoPlaceholder()
    ensures '?' !in GroupSelect
  {
    GroupSelect0HasNoPlaceholder();
    GroupSelect1HasNoPlaceholder();
    GroupSelect2HasNoPlaceholder();
  }

  const GroupOrder: string := " ORDER BY enrollment_no ASC"

  lemma GroupTextHasNoPlaceholder()
    ensures '?' !in GroupSelect && '?' !in GroupOrder
  {
    GroupSelectHasNoPlaceholder();
    assert forall i :: 0 <= i < |GroupOrder| ==> GroupOrder[i] != '?';
  }

  /** `(class = ? OR batch = ? OR batch LIKE ?)` with the group, the group
      and the group as a prefix. */
  function GroupCondition(group: string): (r: Fragment)
    ensures Balanced(r)
    ensures r.args == [group, group, group + "%"]
    ensures Render(r) == "(class = " + "?" + " OR batch = " + "?" + " OR batch LIKE " + "?" + ")"
  {
    GroupPiecesHaveNoPlaceholder();
    JoinFour(GroupPieces, "?");
    Fragment(GroupPieces, [group, group, group + "%"])
  }

  const GroupPieces: seq<string> := ["(class = ", " OR batch = ", " OR batch LIKE ", ")"]

  lemma GroupPiecesHaveNoPlaceholder()
    ensures forall i :: 0 <= i < |GroupPieces| ==> '?' !in GroupPieces[i]
  {
    var p0, p1, p2 := GroupPieces[0], GroupPieces[1], GroupPieces[2];
    assert forall i :: 0 <= i < |p0| ==> p0[i] != '?';
    assert forall i :: 0 <= i < |p1| ==> p1[i] != '?';
    assert forall i :: 0 <= i < |p2| ==> p2[i] != '?';
  }

  /** One condition per group, in order. */
  function GroupConditions(groups: seq<string>): (r: seq<Fragment>)
    ensures |r| == |groups| && forall i :: 0 <= i < |r| ==> r[i] == GroupCondition(groups[i])
  {
    seq(|groups|, i requires 0 <= i < |groups| => GroupCondition(groups[i]))
  }

  /** `groups.forEach(...)`: one condition and its three parameters pushed
      per group, in order. */
  method PushConditions(groups: seq<string>) returns (conditions: seq<string>, params: seq<string>)
    ensures conditions == Texts(GroupConditions(groups))
    ensures params == ArgsOf(GroupConditions(groups))
  {
    ghost var fs := GroupConditions(groups);
    conditions := [];
    params := [];
    var i := 0;
    while i < |groups|
      invariant 0 <= i <= |groups|
      invariant conditions == Texts(fs[..i])
      invariant params == ArgsOf(fs[..i])
    {
      GroupConditionStep(groups, i);
      conditions := conditions + [Render(GroupCondition(groups[i]))];
      params := params + [groups[i], groups[i], groups[i] + "%"];
      i := i + 1;
    }
    assert fs[..i] == fs;
  }

  /** `GET /class/:classGroup`: the conditions of the groups joined by ` OR `
      between the select and the order clause. */
  method GroupQuery(classGroup: string) returns (query: string, params: seq<string>)
    ensures query == GroupSelect + Join(Texts(GroupConditions(ClassGroups(classGroup))), " OR ") + GroupOrder
    ensures params == ArgsOf(GroupConditions(ClassGroups(classGroup)))
    ensures Count(query, '?') == |params|
  {
    var groups := ClassGroups(classGroup);
    var conditions;
    conditions, params := PushConditions(groups);
    query := GroupSelect;
    query := query + Join(conditions, " OR ");
    query := query + GroupOrder;
    GroupPlaceholders(classGroup);
  }

  /** Pushing the condition of group `i` extends the texts and parameters
      of the first `i` groups to those of the first `i + 1`. */
  lemma GroupConditionStep(groups: seq<string>, i: nat)
    requires i < |groups|
    ensures Texts(GroupConditions(groups)[..i + 1]) == Texts(GroupConditions(groups)[..i]) + [Render(GroupCondition(groups[i]))]
    ensures ArgsOf(GroupConditions(groups)[..i + 1]) == ArgsOf(GroupConditions(groups)[..i]) + [groups[i], groups[i], groups[i] + "%"]
  {
    var fs := GroupConditions(groups);
    assert fs[..i + 1] == fs[..i] + [fs[i]];
    TextsSnoc(fs[..i], fs[i]);
    ArgsOfSnoc(fs[..i], fs[i]);
  }

  /** The class-group query has one `?` per parameter: three per group. */
  lemma GroupPlaceholders(classGroup: string)
    ensures Count(GroupSelect + Join(Texts(GroupConditions(ClassGroups(classGroup))), " OR ") + GroupOrder, '?')
            == |ArgsOf(GroupConditions(ClassGroups(classGroup)))|
  {
    var fs := GroupConditions(ClassGroups(classGroup));
    GroupTextHasNoPlaceholder();
    assert '?' !in " OR ";
    JoinedCount(fs, " OR ");
    NoPlaceholder(GroupSelect);
    NoPlaceholder(GroupOrder);
    CountAppend(GroupSelect, Join(Texts(fs), " OR "), '?');
    CountAppend(GroupSelect + Join(Texts(fs), " OR "), GroupOrder, '?');
  }

  /** For `n` groups the parameters are `group, group, group%` for each, in order. */
  lemma {:induction false} GroupArgs(groups: seq<string>)
    ensures |ArgsOf(GroupConditions(groups))| == 3 * |groups|
    ensures forall i :: 0 <= i < |groups| ==>
              ArgsOf(GroupConditions(groups))[3 * i..3 * i + 3] == [groups[i], groups[i], groups[i] + "%"]
  {
    if groups != [] {
      GroupArgs(groups[1..]);
      var fs := GroupConditions(groups);
      assert fs[1..] == GroupConditions(groups[1..]);
      var rest := ArgsOf(fs[1..]);
      var all := ArgsOf(fs);
      assert all == [groups[0], groups[0], groups[0] + "%"] + rest;
      forall i | 0 <= i < |groups|
        ensures all[3 * i..3 * i + 3] == [groups[i], groups[i], groups[i] + "%"]
      {
        if i > 0 {
          assert all[3 * i..3 * i + 3] == rest[3 * (i - 1)..3 * (i - 1) + 3];
          assert groups[1..][i - 1] == groups[i];
        }
      }
    }
  }

  // ------------------------------------------------------------------
  // GET /:studentId/face-status
  // ------------------------------------------------------------------

  /** A row of `student_faces`. */
  datatype FaceRow = FaceRow(imagePath: string, classGroup: string)

  /** The `data` of the face-status answer. */
  datatype FaceStatus = FaceStatus(isRegistered: bool, faceData: Option<FaceRow>)

  /** `{ isRegistered: faces.length > 0, faceData: faces[0] || null }`. */
  function FaceStatusOf(faces: seq<FaceRow>): (r: FaceStatus)
    ensures r.isRegistered <==> r.faceData.Some?
    ensures r.isRegistered <==> |faces| > 0
    ensures r.faceData.Some? ==> r.faceData.value == faces[0]
  {
    FaceStatus(|faces| > 0, if |faces| > 0 then Some(faces[0]) else None)
  }
}
