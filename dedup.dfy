/**
 * De-duplication through a JavaScript `Map`: `new Map(items.map(x => [key(x), x]))`
 * keeps one entry per key, at the position where the key was first set and
 * holding the value set last; `.values()` lists those entries in that order.
 */
module MapDedup {

  predicate HasKey<T(==), K(==,!new)>(items: seq<T>, k: K, key: T -> K) {
    exists i :: 0 <= i < |items| && key(items[i]) == k
  }

  /** The keys of `items` in the order the Map first sees them, each once. */
  function FirstKeys<T(==), K(==,!new)>(items: seq<T>, key: T -> K): (r: seq<K>)
    ensures |r| <= |items|
    ensures forall i, j :: 0 <= i < j < |r| ==> r[i] != r[j]
    ensures forall k :: k in r <==> HasKey(items, k, key)
  {
    if items == [] then []
    else
      var init := items[..|items| - 1];
      var k := key(items[|items| - 1]);
      assert forall k' :: HasKey(items, k', key) <==> HasKey(init, k', key) || k' == k by {
        forall k' | HasKey(items, k', key) ensures HasKey(init, k', key) || k' == k {
          var i :| 0 <= i < |items| && key(items[i]) == k';
          if i < |items| - 1 { assert init[i] == items[i]; }
        }
        forall k' | HasKey(init, k', key) ensures HasKey(items, k', key) {
          var i :| 0 <= i < |init| && key(init[i]) == k';
          assert items[i] == init[i];
        }
      }
      var prev := FirstKeys(init, key);
      if k in prev then prev else prev + [k]
  }

  /** The last item of `items` with key `k`: the value the Map ends up holding. */
  function LastWithKey<T(==), K(==,!new)>(items: seq<T>, k: K, key: T -> K): (r: T)
    requires HasKey(items, k, key)
    ensures key(r) == k
    ensures exists i :: 0 <= i < |items| && items[i] == r
                        && forall j :: i < j < |items| ==> key(items[j]) != k
  {
    var last := items[|items| - 1];
    if key(last) == k then last
    else
      var init := items[..|items| - 1];
      var i :| 0 <= i < |items| && key(items[i]) == k;
      assert init[i] == items[i];
      var r := LastWithKey(init, k, key);
      var i' :| 0 <= i' < |init| && init[i'] == r && forall j :: i' < j < |init| ==> key(init[j]) != k;
      assert items[i'] == r;
      r
  }

  /** The values of the Map, in the insertion order of their keys. */
  function Deduplicated<T(==), K(==,!new)>(items: seq<T>, key: T -> K): (r: seq<T>)
    ensures |r| == |FirstKeys(items, key)|
  {
    var keys := FirstKeys(items, key);
    seq(|keys|, i requires 0 <= i < |keys| => LastWithKey(items, keys[i], key))
  }

  /** The position of the first item with key `k`. */
  function FirstIndex<T(==), K(==,!new)>(items: seq<T>, k: K, key: T -> K): (r: nat)
    requires HasKey(items, k, key)
    ensures r < |items| && key(items[r]) == k
    ensures forall j :: 0 <= j < r ==> key(items[j]) != k
  {
    if key(items[0]) == k then 0
    else
      var i :| 0 <= i < |items| && key(items[i]) == k;
      assert items[1..][i - 1] == items[i];
      1 + FirstIndex(items[1..], k, key)
  }

  /** The state of the Map after the items `p` have been set: `keys` lists
      its keys in insertion order and `m` maps each to the value set last. */
  ghost predicate MapOf<T, K(!new)>(p: seq<T>, key: T -> K, keys: seq<K>, m: map<K, T>) {
    && keys == FirstKeys(p, key)
    && (forall k :: k in m <==> k in keys)
    && (forall k :: k in keys ==> HasKey(p, k, key) && m[k] == LastWithKey(p, k, key))
  }

  /** Setting the entry of `x` takes the Map of `p` to the Map of `p + [x]`. */
  lemma MapOfSnoc<T, K(!new)>(p: seq<T>, x: T, key: T -> K, keys: seq<K>, m: map<K, T>)
    requires MapOf(p, key, keys, m)
    ensures MapOf(p + [x], key, if key(x) in m then keys else keys + [key(x)], m[key(x) := x])
  {
    var q := p + [x];
    assert q[..|q| - 1] == p && q[|q| - 1] == x;
    var keys' := if key(x) in m then keys else keys + [key(x)];
    forall k | k in keys'
      ensures HasKey(q, k, key) && m[key(x) := x][k] == LastWithKey(q, k, key)
    {
      MapEntrySnoc(p, x, key, k);
    }
  }

  /** The last item of `p + [x]` with key `k`: `x` when it has that key, the
      last of `p` otherwise. */
  lemma MapEntrySnoc<T, K(!new)>(p: seq<T>, x: T, key: T -> K, k: K)
    requires HasKey(p, k, key) || key(x) == k
    ensures HasKey(p + [x], k, key)
    ensures key(x) == k ==> LastWithKey(p + [x], k, key) == x
    ensures key(x) != k ==> HasKey(p, k, key) && LastWithKey(p + [x], k, key) == LastWithKey(p, k, key)
  {
    var q := p + [x];
    assert q[..|q| - 1] == p && q[|q| - 1] == x;
    if key(x) == k {
      assert key(q[|p|]) == k;
    } else {
      var j :| 0 <= j < |p| && key(p[j]) == k;
      assert q[j] == p[j];
    }
  }

  /** The de-duplication as a program performs it: one pass that sets Map
      entries, then the Map's values in key-insertion order. */
  method Deduplicate<T(==), K(==,!new)>(items: seq<T>, key: T -> K) returns (r: seq<T>)
    ensures r == Deduplicated(items, key)
  {
    var keys, m := SetEntries(items, key);
    r := MapValues(keys, m);
    assert |r| == |Deduplicated(items, key)|;
    forall t | 0 <= t < |r| ensures r[t] == Deduplicated(items, key)[t] {
      assert keys[t] in keys;
    }
  }

  /** `new Map(items.map(x => [key(x), x]))`: each item in turn sets its
      entry; a new key is appended to the key order, an old key's value is
      overwritten. */
  method SetEntries<T, K(==,!new)>(items: seq<T>, key: T -> K) returns (keys: seq<K>, m: map<K, T>)
    ensures MapOf(items, key, keys, m)
  {
    keys := [];
    m := map[];
    var i := 0;
    while i < |items|
      invariant 0 <= i <= |items|
      invariant MapOf(items[..i], key, keys, m)
    {
      MapOfSnoc(items[..i], items[i], key, keys, m);
      assert items[..i + 1] == items[..i] + [items[i]];
      var k := key(items[i]);
      if k !in m {
        keys := keys + [k];
      }
      m := m[k := items[i]];
      i := i + 1;
    }
    assert items[..i] == items;
  }

  /** `map.values()`: the value of each key, in key order. */
  method MapValues<T, K(==,!new)>(keys: seq<K>, m: map<K, T>) returns (r: seq<T>)
    requires forall k :: k in keys ==> k in m
    ensures |r| == |keys| && forall t :: 0 <= t < |keys| ==> r[t] == m[keys[t]]
  {
    r := [];
    var j := 0;
    while j < |keys|
      invariant 0 <= j <= |keys|
      invariant |r| == j && forall t :: 0 <= t < j ==> r[t] == m[keys[t]]
    {
      r := r + [m[keys[j]]];
      j := j + 1;
    }
  }

  /** No two de-duplicated items share a key, each is an input item, and
      there are no more of them than inputs. */
  lemma DeduplicatedKeysDistinct<T, K(!new)>(items: seq<T>, key: T -> K)
    ensures forall i, j :: 0 <= i < j < |Deduplicated(items, key)| ==>
      key(Deduplicated(items, key)[i]) != key(Deduplicated(items, key)[j])
    ensures forall i :: 0 <= i < |Deduplicated(items, key)| ==> Deduplicated(items, key)[i] in items
    ensures |Deduplicated(items, key)| <= |items|
  {
    var keys := FirstKeys(items, key);
    var r := Deduplicated(items, key);
    forall i | 0 <= i < |r| ensures key(r[i]) == keys[i] && r[i] in items {
      assert keys[i] in keys;
      var l := LastWithKey(items, keys[i], key);
      var t :| 0 <= t < |items| && items[t] == l && forall j :: t < j < |items| ==> key(items[j]) != keys[i];
    }
  }

  /** Every key of the input survives, held by the last input item carrying it. */
  lemma DeduplicatedKeepsLast<T, K(!new)>(items: seq<T>, k: K, key: T -> K)
    requires HasKey(items, k, key)
    ensures exists i :: 0 <= i < |Deduplicated(items, key)| && Deduplicated(items, key)[i] == LastWithKey(items, k, key)
  {
    var keys := FirstKeys(items, key);
    assert k in keys;
    var i :| 0 <= i < |keys| && keys[i] == k;
    assert Deduplicated(items, key)[i] == LastWithKey(items, k, key);
  }

  /** A key that first occurs earlier in the input is held at an earlier position. */
  lemma {:induction false} FirstKeysInFirstOccurrenceOrder<T, K(!new)>(items: seq<T>, key: T -> K)
    ensures forall i, j :: 0 <= i < j < |FirstKeys(items, key)| ==>
      HasKey(items, FirstKeys(items, key)[i], key) && HasKey(items, FirstKeys(items, key)[j], key) &&
      FirstIndex(items, FirstKeys(items, key)[i], key) < FirstIndex(items, FirstKeys(items, key)[j], key)
  {
    if items != [] {
      var init := items[..|items| - 1];
      FirstKeysInFirstOccurrenceOrder(init, key);
      var keys := FirstKeys(items, key);
      var prev := FirstKeys(init, key);
      var last := key(items[|items| - 1]);
      assert keys == if last in prev then prev else prev + [last];
      forall i, j | 0 <= i < j < |keys|
        ensures HasKey(items, keys[i], key) && HasKey(items, keys[j], key)
        ensures FirstIndex(items, keys[i], key) < FirstIndex(items, keys[j], key)
      {
        assert keys[i] == prev[i] && prev[i] in prev;
        FirstIndexOfPrefix(items, keys[i], key);
        if j < |prev| {
          assert keys[j] == prev[j] && prev[j] in prev;
          FirstIndexOfPrefix(items, keys[j], key);
        } else {
          assert keys[j] == last && last !in prev;
          FirstIndexOfNewKey(items, key);
        }
      }
    } else {
      assert FirstKeys(items, key) == [];
    }
  }

  lemma FirstIndexOfPrefix<T, K(!new)>(items: seq<T>, k: K, key: T -> K)
    requires items != [] && HasKey(items[..|items| - 1], k, key)
    ensures HasKey(items, k, key) && FirstIndex(items, k, key) == FirstIndex(items[..|items| - 1], k, key)
  {
    var init := items[..|items| - 1];
    var f := FirstIndex(init, k, key);
    assert items[f] == init[f];
    assert forall j :: 0 <= j < |init| ==> init[j] == items[j];
  }

  lemma FirstIndexOfNewKey<T, K(!new)>(items: seq<T>, key: T -> K)
    requires items != []
    requires key(items[|items| - 1]) !in FirstKeys(items[..|items| - 1], key)
    ensures HasKey(items, key(items[|items| - 1]), key)
    ensures FirstIndex(items, key(items[|items| - 1]), key) == |items| - 1
  {
    var n := |items| - 1;
    var k := key(items[n]);
    var init := items[..n];
    assert HasKey(items, k, key);
    assert !HasKey(init, k, key);
    assert forall j :: 0 <= j < n ==> key(items[j]) != k by {
      forall j | 0 <= j < n ensures key(items[j]) != k {
        assert init[j] == items[j];
      }
    }
  }
}
