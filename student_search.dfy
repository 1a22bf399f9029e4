/**
 * The search box of the student list page: a student is kept when its
 * name, enrollment number, batch or class, lower-cased, contains the
 * lower-cased search term. Fields are optional; a missing one never matches.
 */
module StudentSearch {
  import opened Wrappers
  import opened Text

  /** A student record as the client receives it; `className` is the `class` field. */
  datatype Student = Student(name: Option<string>, enrollmentNo: Option<string>,
                             batch: Option<string>, className: Option<string>)

  /** `field?.toLowerCase().includes(term.toLowerCase())`. */
  predicate FieldMatches(field: Option<string>, term: string) {
    field.Some? && Contains(Lower(field.value), Lower(term))
  }

  predicate Matches(s: Student, term: string) {
    FieldMatches(s.name, term) || FieldMatches(s.enrollmentNo, term)
    || FieldMatches(s.batch, term) || FieldMatches(s.className, term)
  }

  predicate HasSomeField(s: Student) {
    s.name.Some? || s.enrollmentNo.Some? || s.batch.Some? || s.className.Some?
  }

  /** `students.filter(...)`. */
  function Filtered(students: seq<Student>, term: string): (r: seq<Student>)
    ensures |r| <= |students|
    ensures forall k :: 0 <= k < |r| ==> Matches(r[k], term)
  {
    if students == [] then []
    else
      var n := |students| - 1;
      Filtered(students[..n], term) + (if Matches(students[n], term) then [students[n]] else [])
  }

  /** The positions `filter` keeps, in increasing order. */
  function Kept(students: seq<Student>, term: string): (r: seq<nat>)
    ensures |r| == |Filtered(students, term)|
    ensures forall k :: 0 <= k < |r| ==> r[k] < |students| && Filtered(students, term)[k] == students[r[k]]
    ensures forall k, l :: 0 <= k < l < |r| ==> r[k] < r[l]
  {
    if students == [] then []
    else
      var n := |students| - 1;
      var init := students[..n];
      var prev := Kept(init, term);
      var r := prev + (if Matches(students[n], term) then [n] else []);
      var f, fp := Filtered(students, term), Filtered(init, term);
      assert f == fp + (if Matches(students[n], term) then [students[n]] else []);
      assert forall k :: 0 <= k < |r| ==> r[k] < |students| && f[k] == students[r[k]] by {
        forall k | 0 <= k < |r| ensures r[k] < |students| && f[k] == students[r[k]] {
          if k < |prev| {
            assert r[k] == prev[k] && f[k] == fp[k] && fp[k] == init[prev[k]];
          }
        }
      }
      r
  }

  /** The result is an order-preserving sublist holding every matching student:
      a position is kept exactly when its student matches. */
  lemma {:induction false} KeptExactly(students: seq<Student>, term: string, i: nat)
    requires i < |students|
    ensures i in Kept(students, term) <==> Matches(students[i], term)
  {
    var n := |students| - 1;
    if i < n {
      KeptExactly(students[..n], term, i);
      assert students[..n][i] == students[i];
      assert i != n;
    } else {
      assert n !in Kept(students[..n], term);
    }
  }

  /** An empty term keeps exactly the students with at least one of the four fields. */
  lemma EmptyTermKeepsFielded(s: Student)
    ensures Matches(s, "") <==> HasSomeField(s)
  {
    forall t: string ensures Contains(t, "") {
      assert OccursAt(t, "", 0);
    }
  }

  /** Changing only the letter case of the term changes nothing. */
  lemma {:induction false} CaseInsensitive(students: seq<Student>, term: string, other: string)
    requires Lower(term) == Lower(other)
    ensures Filtered(students, term) == Filtered(students, other)
  {
    if students != [] {
      CaseInsensitive(students[..|students| - 1], term, other);
    }
  }
}
