/**
 * The known-faces directory of the Python face services: the directory
 * listing, the image-file filter, the label rules that turn a file name into
 * a student label, and the training loop that enumerates the listing into
 * numeric labels and a label map.
 */
module FaceLabels {
  import opened Wrappers
  import opened Text

  /** One name of the directory listing; `readable` is whether OpenCV's
      `imread` returns an image for that file. */
  datatype Entry = Entry(filename: string, readable: bool)

  /** An item of `label_map`: the file's position in the listing and its label. */
  datatype Label = Label(index: nat, name: string)

  /** `filename.lower().endswith(('.jpg', '.jpeg', '.png'))`. */
  predicate IsImageName(filename: string) {
    var l := Lower(filename);
    EndsWith(l, ".jpg") || EndsWith(l, ".jpeg") || EndsWith(l, ".png")
  }

  /** An entry the training loop loads: an image name that reads as an image. */
  predicate Usable(e: Entry) {
    IsImageName(e.filename) && e.readable
  }

  /** The label map the training loop builds, in insertion order: one item
      per usable entry, keyed by its position in the listing. */
  function Labelled(entries: seq<Entry>, rule: string -> string): (r: seq<Label>)
    ensures forall i :: 0 <= i < |r| ==>
              r[i].index < |entries| && Usable(entries[r[i].index])
              && r[i].name == rule(entries[r[i].index].filename)
    ensures forall i, j :: 0 <= i < j < |r| ==> r[i].index < r[j].index
  {
    if entries == [] then []
    else
      var n := |entries| - 1;
      Labelled(entries[..n], rule)
        + (if Usable(entries[n]) then [Label(n, rule(entries[n].filename))] else [])
  }

  /** Every usable entry gets a label. */
  lemma {:induction false} LabelledComplete(entries: seq<Entry>, rule: string -> string, k: nat)
    requires k < |entries| && Usable(entries[k])
    ensures exists i :: 0 <= i < |Labelled(entries, rule)| && Labelled(entries, rule)[i].index == k
  {
    var n := |entries| - 1;
    var init := entries[..n];
    var p := Labelled(init, rule);
    var r := Labelled(entries, rule);
    assert r == p + (if Usable(entries[n]) then [Label(n, rule(entries[n].filename))] else []);
    if k == n {
      assert r[|p|] == Label(n, rule(entries[n].filename));
    } else {
      assert init[k] == entries[k];
      LabelledComplete(init, rule, k);
      var i :| 0 <= i < |p| && p[i].index == k;
      assert r[i] == p[i];
    }
  }

  function Indices(labelMap: seq<Label>): (r: seq<nat>)
    ensures |r| == |labelMap| && forall i :: 0 <= i < |r| ==> r[i] == labelMap[i].index
  {
    seq(|labelMap|, i requires 0 <= i < |labelMap| => labelMap[i].index)
  }

  /** The training loop: enumerate the listing, skip names that are not
      images and files that do not read, and record the image, its position
      and its label. An image is modelled by its file name. */
  method LoadFacesAndLabels(entries: seq<Entry>, rule: string -> string)
    returns (faces: seq<string>, labels: seq<nat>, labelMap: seq<Label>)
    ensures labelMap == Labelled(entries, rule)
    ensures labels == Indices(labelMap)
    ensures |faces| == |labelMap|
    ensures forall i :: 0 <= i < |faces| ==> faces[i] == entries[labelMap[i].index].filename
  {
    faces, labels, labelMap := [], [], [];
    var idx := 0;
    while idx < |entries|
      invariant 0 <= idx <= |entries|
      invariant labelMap == Labelled(entries[..idx], rule)
      invariant labels == Indices(labelMap)
      invariant |faces| == |labelMap|
      invariant forall i :: 0 <= i < |faces| ==> faces[i] == entries[labelMap[i].index].filename
    {
      var e := entries[idx];
      assert entries[..idx + 1][..idx] == entries[..idx];
      if Usable(e) {
        faces := faces + [e.filename];
        labels := labels + [idx];
        labelMap := labelMap + [Label(idx, rule(e.filename))];
      }
      idx := idx + 1;
    }
    assert entries[..idx] == entries;
  }

  /** The first label-map item whose label is `name`, by position in the map. */
  function FirstWithName(labelMap: seq<Label>, name: string): (r: Option<nat>)
    ensures r.None? <==> forall i :: 0 <= i < |labelMap| ==> labelMap[i].name != name
    ensures r.Some? ==> exists i :: 0 <= i < |labelMap| && labelMap[i].name == name
                                    && labelMap[i].index == r.value
                                    && forall j :: 0 <= j < i ==> labelMap[j].name != name
  {
    if labelMap == [] then None
    else if labelMap[0].name == name then Some(labelMap[0].index)
    else
      var r := FirstWithName(labelMap[1..], name);
      assert forall j :: 1 <= j < |labelMap| ==> labelMap[j] == labelMap[1..][j - 1];
      r
  }

  /** `for label, name in label_map.items(): if name == student_id: break`. */
  method FindLabel(labelMap: seq<Label>, name: string) returns (found: Option<nat>)
    ensures found == FirstWithName(labelMap, name)
  {
    found := None;
    var i := 0;
    while i < |labelMap|
      invariant 0 <= i <= |labelMap|
      invariant FirstWithName(labelMap, name) == FirstWithName(labelMap[i..], name)
    {
      if labelMap[i].name == name {
        found := Some(labelMap[i].index);
        return;
      }
      assert labelMap[i..][1..] == labelMap[i + 1..];
      i := i + 1;
    }
  }

  /** `label_map.get(index, fallback)`. */
  function NameAt(labelMap: seq<Label>, index: nat, fallback: string): (r: string)
    ensures (forall i :: 0 <= i < |labelMap| ==> labelMap[i].index != index) ==> r == fallback
    ensures (exists i :: 0 <= i < |labelMap| && labelMap[i].index == index) ==>
              exists i :: 0 <= i < |labelMap| && labelMap[i].index == index && labelMap[i].name == r
  {
    if labelMap == [] then fallback
    else if labelMap[0].index == index then labelMap[0].name
    else
      var r := NameAt(labelMap[1..], index, fallback);
      assert forall j :: 1 <= j < |labelMap| ==> labelMap[j] == labelMap[1..][j - 1];
      r
  }

  /** The position of the last occurrence of `c`. */
  function LastIndexOfChar(s: string, c: char): (r: Option<nat>)
    ensures r.None? <==> c !in s
    ensures r.Some? ==> r.value < |s| && s[r.value] == c
                        && forall j :: r.value < j < |s| ==> s[j] != c
  {
    if s == [] then None
    else if s[|s| - 1] == c then Some(|s| - 1)
    else LastIndexOfChar(s[..|s| - 1], c)
  }

  predicate AllDots(s: string) {
    forall i :: 0 <= i < |s| ==> s[i] == '.'
  }

  /** `os.path.splitext(filename)[0]` for a name without a directory part:
      the text before the last dot, unless only dots precede that dot. */
  function SplitextRoot(filename: string): (r: string)
    ensures |r| <= |filename| && filename[..|r|] == r
    ensures r != filename ==> filename[|r|] == '.' && '.' !in filename[|r| + 1..] && !AllDots(r)
  {
    match LastIndexOfChar(filename, '.')
    case None => filename
    case Some(d) => if AllDots(filename[..d]) then filename else filename[..d]
  }

  /** The root of `base.ext` is `base` when `ext` has no dot and `base` is not all dots. */
  lemma SplitextRootOf(base: string, ext: string)
    requires '.' !in ext && !AllDots(base)
    ensures SplitextRoot(base + "." + ext) == base
  {
    var f := base + "." + ext;
    assert f[|base|] == '.';
    assert forall j :: |base| < j < |f| ==> f[j] == ext[j - |base| - 1];
    assert f[..|base|] == base;
  }

  /** `filename.split('.')[0]`. */
  function FirstDotPiece(filename: string): (r: string)
    ensures '.' !in r
    ensures Contains(filename, ".") ==> |r| < |filename| && filename[..|r|] == r && filename[|r|] == '.'
    ensures !Contains(filename, ".") ==> r == filename
  {
    SplitHead(filename, ".");
    SplitPiecesLackSeparator(filename, ".");
    var r := Split(filename, ".")[0];
    assert '.' !in r by {
      forall i | 0 <= i < |r| ensures r[i] != '.' {
        CharContained(r, i);
      }
    }
    r
  }

  lemma CharContained(s: string, i: nat)
    requires i < |s|
    ensures Contains(s, [s[i]])
  {
    assert OccursAt(s, [s[i]], i) by { assert s[i..i + 1] == [s[i]]; }
  }

  /** A name without a dot is the first dot-piece of `name.ext`. */
  lemma FirstDotPieceOf(name: string, ext: string)
    requires '.' !in name
    ensures FirstDotPiece(name + "." + ext) == name
  {
    SplitAfterSeparatorFree(name, ".", ext);
  }

  /** A `.jpg` name, in any case of the base, passes the image filter. */
  lemma JpgIsImage(base: string)
    ensures IsImageName(base + ".jpg")
  {
    var f := base + ".jpg";
    var l := Lower(f);
    assert l[|base|..] == ".jpg" by {
      forall i | 0 <= i < 4 ensures l[|base| + i] == ".jpg"[i] {
        assert f[|base| + i] == ".jpg"[i];
      }
    }
  }
}
