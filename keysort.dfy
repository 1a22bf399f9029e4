/**
 * Sorting by a numeric key that may be NaN, with a JavaScript comparator
 * `(a, b) => key(a) - key(b)`: a NaN difference is read as 0, so an element
 * with a NaN key is never moved past another. The order is the one a stable
 * insertion sort produces; for keys that are all numbers it is the order of
 * every stable sort.
 */
module KeySort {
  import opened Wrappers

  /** The comparator is positive: both keys are numbers and `x`'s is larger. */
  predicate After<T>(x: T, y: T, key: T -> Option<int>) {
    key(x).Some? && key(y).Some? && key(x).value > key(y).value
  }

  predicate AllNumeric<T>(s: seq<T>, key: T -> Option<int>) {
    forall i :: 0 <= i < |s| ==> key(s[i]).Some?
  }

  predicate SortedBy<T>(s: seq<T>, key: T -> Option<int>)
    requires AllNumeric(s, key)
  {
    forall i, j :: 0 <= i < j < |s| ==> key(s[i]).value <= key(s[j]).value
  }

  /** Inserting `x` at the end of `s` and moving it left past every element
      the comparator puts after it. */
  function Insert<T>(s: seq<T>, x: T, key: T -> Option<int>): (r: seq<T>)
    ensures |r| == |s| + 1
  {
    if s == [] then [x]
    else if After(s[|s| - 1], x, key) then Insert(s[..|s| - 1], x, key) + [s[|s| - 1]]
    else s + [x]
  }

  /** The order a left-to-right insertion sort leaves the elements in. */
  function InsertionSort<T>(s: seq<T>, key: T -> Option<int>): (r: seq<T>)
    ensures |r| == |s|
  {
    if s == [] then [] else Insert(InsertionSort(s[..|s| - 1], key), s[|s| - 1], key)
  }

  lemma {:induction false} InsertPermutes<T>(s: seq<T>, x: T, key: T -> Option<int>)
    ensures multiset(Insert(s, x, key)) == multiset(s) + multiset{x}
  {
    if s != [] && After(s[|s| - 1], x, key) {
      InsertPermutes(s[..|s| - 1], x, key);
      assert s == s[..|s| - 1] + [s[|s| - 1]];
    }
  }

  /** The sorted sequence is a permutation of the input. */
  lemma {:induction false} InsertionSortPermutes<T>(s: seq<T>, key: T -> Option<int>)
    ensures multiset(InsertionSort(s, key)) == multiset(s)
  {
    if s != [] {
      InsertionSortPermutes(s[..|s| - 1], key);
      InsertPermutes(InsertionSort(s[..|s| - 1], key), s[|s| - 1], key);
      assert s == s[..|s| - 1] + [s[|s| - 1]];
    }
  }

  /** Inserting keeps every key below a bound that `s` and `x` respect. */
  lemma {:induction false} InsertBounded<T>(s: seq<T>, x: T, key: T -> Option<int>, b: int)
    requires AllNumeric(s, key) && key(x).Some? && key(x).value <= b
    requires forall i :: 0 <= i < |s| ==> key(s[i]).value <= b
    ensures AllNumeric(Insert(s, x, key), key)
    ensures forall i :: 0 <= i < |Insert(s, x, key)| ==> key(Insert(s, x, key)[i]).value <= b
  {
    if s != [] && After(s[|s| - 1], x, key) {
      InsertBounded(s[..|s| - 1], x, key, b);
    }
  }

  lemma {:induction false} InsertSorted<T>(s: seq<T>, x: T, key: T -> Option<int>)
    requires AllNumeric(s, key) && SortedBy(s, key) && key(x).Some?
    ensures AllNumeric(Insert(s, x, key), key) && SortedBy(Insert(s, x, key), key)
  {
    if s != [] && After(s[|s| - 1], x, key) {
      var init := s[..|s| - 1];
      var last := s[|s| - 1];
      InsertSorted(init, x, key);
      InsertBounded(init, x, key, key(last).value);
      var t := Insert(init, x, key);
      assert Insert(s, x, key) == t + [last];
    }
  }

  /** When every key is a number, the result is in non-decreasing key order. */
  lemma {:induction false} InsertionSortSorted<T>(s: seq<T>, key: T -> Option<int>)
    requires AllNumeric(s, key)
    ensures AllNumeric(InsertionSort(s, key), key) && SortedBy(InsertionSort(s, key), key)
  {
    if s != [] {
      assert AllNumeric(s[..|s| - 1], key);
      InsertionSortSorted(s[..|s| - 1], key);
      InsertSorted(InsertionSort(s[..|s| - 1], key), s[|s| - 1], key);
    }
  }

  /** The elements of `s` whose key is the number `k`, in order. */
  function WithKey<T>(s: seq<T>, k: int, key: T -> Option<int>): seq<T> {
    if s == [] then []
    else WithKey(s[..|s| - 1], k, key) + (if key(s[|s| - 1]) == Some(k) then [s[|s| - 1]] else [])
  }

  lemma {:induction false} InsertStable<T>(s: seq<T>, x: T, k: int, key: T -> Option<int>)
    requires AllNumeric(s, key) && SortedBy(s, key) && key(x).Some?
    ensures WithKey(Insert(s, x, key), k, key) == WithKey(s, k, key) + (if key(x) == Some(k) then [x] else [])
  {
    var both := Insert(s, x, key);
    if s == [] {
      assert both == [x];
      assert both[..0] == [];
    } else if After(s[|s| - 1], x, key) {
      var init := s[..|s| - 1];
      var last := s[|s| - 1];
      InsertStable(init, x, k, key);
      var t := Insert(init, x, key);
      assert both == t + [last];
      assert both[..|both| - 1] == t && both[|both| - 1] == last;
      assert key(x) == Some(k) ==> key(last) != Some(k);
    } else {
      assert both == s + [x];
      assert both[..|both| - 1] == s;
    }
  }

  /** The sort is stable: the elements sharing any one key keep their input order. */
  lemma {:induction false} InsertionSortStable<T>(s: seq<T>, k: int, key: T -> Option<int>)
    requires AllNumeric(s, key)
    ensures WithKey(InsertionSort(s, key), k, key) == WithKey(s, k, key)
  {
    if s != [] {
      var init := s[..|s| - 1];
      assert AllNumeric(init, key);
      InsertionSortStable(init, k, key);
      InsertionSortSorted(init, key);
      InsertStable(InsertionSort(init, key), s[|s| - 1], k, key);
    }
  }

  /** `Array.prototype.sort` with the comparator `key(a) - key(b)`, in place:
      each element in turn is moved left past the elements whose key
      difference with it is positive. */
  method SortInPlace<T>(a: array<T>, key: T -> Option<int>)
    modifies a
    ensures a[..] == InsertionSort(old(a[..]), key)
  {
    ghost var orig := a[..];
    var i := 0;
    while i < a.Length
      invariant 0 <= i <= a.Length
      invariant a[..i] == InsertionSort(orig[..i], key)
      invariant a[i..] == orig[i..]
    {
      ghost var before := a[..];
      InsertAt(a, i, key);
      assert orig[..i + 1][..i] == orig[..i];
      assert before[i] == orig[i] && before[..i] == InsertionSort(orig[..i], key);
      assert before[i + 1..] == before[i..][1..] == orig[i..][1..] == orig[i + 1..];
      i := i + 1;
    }
    assert a[..] == a[..a.Length] && orig == orig[..a.Length];
  }

  /** One step of the sort: `a[i]` is moved left into `a[..i]`. */
  method InsertAt<T>(a: array<T>, i: nat, key: T -> Option<int>)
    requires i < a.Length
    modifies a
    ensures a[..i + 1] == Insert(old(a[..i]), old(a[i]), key)
    ensures a[i + 1..] == old(a[i + 1..])
  {
    var x := a[i];
    ghost var p := a[..i];
    ghost var rest := a[i + 1..];
    var j := i;
    assert a[..] == Gap(p, i, x, rest);
    assert p[..i] == p && p[i..] == [];
    while j > 0 && After(a[j - 1], x, key)
      invariant 0 <= j <= i
      invariant a[..] == Gap(p, j, a[j], rest)
      invariant j > 0 ==> a[j - 1] == p[j - 1]
      invariant Insert(p, x, key) == Insert(p[..j], x, key) + p[j..]
    {
      InsertStepLeft(p, j, x, key);
      GapShift(p, j, a[j], rest);
      a[j] := a[j - 1];
      j := j - 1;
    }
    InsertStops(p, j, x, key);
    ghost var g := a[..];
    GapFill(p, j, g[j], rest, x);
    a[j] := x;
    assert a[..] == g[j := x];
  }

  /** The array while `x` moves left: `p` with an open slot at `j`, then `rest`. */
  ghost function Gap<T>(p: seq<T>, j: nat, y: T, rest: seq<T>): (r: seq<T>)
    requires j <= |p|
    ensures |r| == |p| + 1 + |rest| && r[j] == y
  {
    p[..j] + [y] + p[j..] + rest
  }

  /** Copying the element left of the slot into it moves the slot one place left. */
  lemma GapShift<T>(p: seq<T>, j: nat, y: T, rest: seq<T>)
    requires 0 < j <= |p|
    ensures Gap(p, j, y, rest)[j := p[j - 1]] == Gap(p, j - 1, p[j - 1], rest)
    ensures j > 1 ==> Gap(p, j - 1, p[j - 1], rest)[j - 2] == p[j - 2]
  {
    assert p[j - 1..] == [p[j - 1]] + p[j..];
    assert p[..j] == p[..j - 1] + [p[j - 1]];
  }

  /** Filling the slot with `x` leaves `p[..j] + [x] + p[j..]` followed by `rest`. */
  lemma GapFill<T>(p: seq<T>, j: nat, y: T, rest: seq<T>, x: T)
    requires j <= |p|
    ensures var r := Gap(p, j, y, rest)[j := x];
            r[..|p| + 1] == p[..j] + [x] + p[j..] && r[|p| + 1..] == rest
  {
    var r := Gap(p, j, y, rest)[j := x];
    assert r == p[..j] + [x] + p[j..] + rest;
  }

  lemma InsertStepLeft<T>(p: seq<T>, j: nat, x: T, key: T -> Option<int>)
    requires 0 < j <= |p| && After(p[j - 1], x, key)
    ensures Insert(p[..j], x, key) + p[j..] == Insert(p[..j - 1], x, key) + p[j - 1..]
  {
    assert p[..j][..j - 1] == p[..j - 1];
    assert p[j - 1..] == [p[j - 1]] + p[j..];
  }

  lemma InsertStops<T>(p: seq<T>, j: nat, x: T, key: T -> Option<int>)
    requires j <= |p| && (j == 0 || !After(p[j - 1], x, key))
    ensures Insert(p[..j], x, key) == p[..j] + [x]
  {
  }
}
