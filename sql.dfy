/**
 * Query text assembled from fragments, each carrying the values bound to
 * its `?` placeholders, as the Express routes do with `query += ...` and
 * `params.push(...)`. A fragment is written as the text between its
 * placeholders; execution of the statement is outside the model.
 */
module Sql {
  import opened Text

  /** SQL text `pieces[0] ? pieces[1] ? ... ? pieces[n]` and the parameters
      its placeholders take, in order. */
  datatype Fragment = Fragment(pieces: seq<string>, args: seq<string>)

  /** The fragment's text. */
  function Render(f: Fragment): string {
    Join(f.pieces, "?")
  }

  /** The text between placeholders holds no `?`, and there is one parameter
      per placeholder. */
  predicate Balanced(f: Fragment) {
    |f.pieces| == |f.args| + 1 && forall i :: 0 <= i < |f.pieces| ==> '?' !in f.pieces[i]
  }

  /** ` AND <column> = ?` with the value. */
  function ColumnIs(column: string, value: string): (r: Fragment)
    requires '?' !in column
    ensures Balanced(r) && r.args == [value]
    ensures Render(r) == " AND " + column + " = ?"
  {
    var head := " AND " + column + " = ";
    assert Join([head, ""], "?") == head + "?" + "";
    assert head + "?" + "" == " AND " + column + " = ?";
    Fragment([head, ""], [value])
  }

  /** ` AND <column> LIKE ?` with `%term%`: the column holds the term anywhere. */
  function ColumnLike(column: string, term: string): (r: Fragment)
    requires '?' !in column
    ensures Balanced(r) && r.args == ["%" + term + "%"]
    ensures Render(r) == " AND " + column + " LIKE ?"
  {
    var head := " AND " + column + " LIKE ";
    assert Join([head, ""], "?") == head + "?" + "";
    assert head + "?" + "" == " AND " + column + " LIKE ?";
    Fragment([head, ""], ["%" + term + "%"])
  }

  /** Text without `?` holds no placeholder. */
  lemma NoPlaceholder(s: string)
    requires '?' !in s
    ensures Count(s, '?') == 0
  {
    CountAbsent(s, '?');
  }

  lemma {:induction false} JoinCount(pieces: seq<string>)
    requires pieces != [] && forall i :: 0 <= i < |pieces| ==> '?' !in pieces[i]
    ensures Count(Join(pieces, "?"), '?') == |pieces| - 1
  {
    NoPlaceholder(pieces[0]);
    if |pieces| > 1 {
      JoinCount(pieces[1..]);
      assert Count("?", '?') == 1;
      CountAppend(pieces[0], "?", '?');
      CountAppend(pieces[0] + "?", Join(pieces[1..], "?"), '?');
    }
  }

  /** A balanced fragment has as many placeholders as parameters. */
  lemma BalancedCount(f: Fragment)
    requires Balanced(f)
    ensures Count(Render(f), '?') == |f.args|
  {
    JoinCount(f.pieces);
  }

  /** Appending a balanced fragment and its parameters keeps the number of
      placeholders equal to the number of parameters. */
  lemma AppendKeepsCount(query: string, params: seq<string>, f: Fragment)
    requires Count(query, '?') == |params| && Balanced(f)
    ensures Count(query + Render(f), '?') == |params + f.args|
  {
    BalancedCount(f);
    CountAppend(query, Render(f), '?');
  }

  /** Appending text without `?` keeps the count. */
  lemma AppendTextKeepsCount(query: string, params: seq<string>, text: string)
    requires Count(query, '?') == |params| && '?' !in text
    ensures Count(query + text, '?') == |params|
  {
    NoPlaceholder(text);
    CountAppend(query, text, '?');
  }

  /** An optional filter of a query: its fragment is appended when `on` holds. */
  datatype Filter = Filter(on: bool, fragment: Fragment)

  /** The query after the optional filters `fs` have been tried in order:
      each that is on appends its fragment's text. */
  function Appended(query: string, fs: seq<Filter>): string
    decreases |fs|
  {
    if fs == [] then query
    else Appended(if fs[0].on then query + Render(fs[0].fragment) else query, fs[1..])
  }

  /** The parameters after the optional filters `fs` have been tried in
      order: each that is on pushes its fragment's parameters. */
  function AppendedArgs(params: seq<string>, fs: seq<Filter>): seq<string>
    decreases |fs|
  {
    if fs == [] then params
    else AppendedArgs(if fs[0].on then params + fs[0].fragment.args else params, fs[1..])
  }

  /** Balanced optional filters keep the number of placeholders equal to the
      number of parameters. */
  lemma {:induction false} AppendedCount(query: string, params: seq<string>, fs: seq<Filter>)
    requires Count(query, '?') == |params|
    requires forall i :: 0 <= i < |fs| ==> Balanced(fs[i].fragment)
    ensures Count(Appended(query, fs), '?') == |AppendedArgs(params, fs)|
    decreases |fs|
  {
    if fs != [] {
      if fs[0].on {
        AppendKeepsCount(query, params, fs[0].fragment);
      }
      assert forall i :: 0 <= i < |fs[1..]| ==> fs[1..][i] == fs[i + 1];
      AppendedCount(if fs[0].on then query + Render(fs[0].fragment) else query,
                    if fs[0].on then params + fs[0].fragment.args else params, fs[1..]);
    }
  }

  /** Trying one last filter. */
  lemma AppendedOne(query: string, params: seq<string>, f: Filter)
    ensures Appended(query, [f]) == if f.on then query + Render(f.fragment) else query
    ensures AppendedArgs(params, [f]) == if f.on then params + f.fragment.args else params
  {
    assert [f][1..] == [];
  }

  /** Trying three filters one after the other. */
  lemma AppendedThree(query: string, params: seq<string>, f1: Filter, f2: Filter, f3: Filter)
    ensures var q1 := if f1.on then query + Render(f1.fragment) else query;
            var q2 := if f2.on then q1 + Render(f2.fragment) else q1;
            Appended(query, [f1, f2, f3]) == if f3.on then q2 + Render(f3.fragment) else q2
    ensures var p1 := if f1.on then params + f1.fragment.args else params;
            var p2 := if f2.on then p1 + f2.fragment.args else p1;
            AppendedArgs(params, [f1, f2, f3]) == if f3.on then p2 + f3.fragment.args else p2
  {
    assert [f1, f2, f3][1..] == [f2, f3];
    assert [f2, f3][1..] == [f3];
    var q1 := if f1.on then query + Render(f1.fragment) else query;
    var q2 := if f2.on then q1 + Render(f2.fragment) else q1;
    var p1 := if f1.on then params + f1.fragment.args else params;
    var p2 := if f2.on then p1 + f2.fragment.args else p1;
    AppendedOne(q2, p2, f3);
  }

  /** The texts of a list of fragments. */
  function Texts(fs: seq<Fragment>): seq<string> {
    seq(|fs|, i requires 0 <= i < |fs| => Render(fs[i]))
  }

  /** The parameters of a list of fragments, in order. */
  function ArgsOf(fs: seq<Fragment>): seq<string> {
    if fs == [] then [] else fs[0].args + ArgsOf(fs[1..])
  }

  lemma TextsSnoc(fs: seq<Fragment>, f: Fragment)
    ensures Texts(fs + [f]) == Texts(fs) + [Render(f)]
  {
  }

  lemma {:induction false} ArgsOfSnoc(fs: seq<Fragment>, f: Fragment)
    ensures ArgsOf(fs + [f]) == ArgsOf(fs) + f.args
  {
    if fs == [] {
      assert [] + [f] == [f];
      assert [f][1..] == [];
    } else {
      assert (fs + [f])[1..] == fs[1..] + [f];
      ArgsOfSnoc(fs[1..], f);
    }
  }

  /** Balanced fragments joined by a separator without `?` have one
      placeholder per parameter. */
  lemma {:induction false} JoinedCount(fs: seq<Fragment>, sep: string)
    requires '?' !in sep
    requires forall i :: 0 <= i < |fs| ==> Balanced(fs[i])
    ensures Count(Join(Texts(fs), sep), '?') == |ArgsOf(fs)|
  {
    if |fs| == 1 {
      BalancedCount(fs[0]);
      assert fs[1..] == [];
    } else if |fs| > 1 {
      assert Texts(fs)[1..] == Texts(fs[1..]);
      JoinedCount(fs[1..], sep);
      BalancedCount(fs[0]);
      NoPlaceholder(sep);
      CountAppend(Render(fs[0]), sep, '?');
      CountAppend(Render(fs[0]) + sep, Join(Texts(fs[1..]), sep), '?');
    }
  }
}
