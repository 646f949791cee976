/** The label conversion of `training/convert.py`: counting images that
    cannot be found, naming the temporary JSON and the final text file,
    dropping labels of unwanted categories, and turning each remaining box
    into a YOLO record `class middle_x middle_y width height` in pixels. */
module ConvertPy {
  import opened Numeric
  import Text

  /** `box2d`: corners in pixels. */
  datatype Box2D = Box2D(x1: real, y1: real, x2: real, y2: real)

  /** One entry of a frame's `labels` list. A missing `category` or `box2d`
      key is `None`; reading it raises a KeyError. */
  datatype Label = Label(category: Option<string>, box2d: Option<Box2D>)

  /** A YOLO line before it is formatted: `f"{num} {middle_x} {middle_y} {width} {height}"`. */
  datatype YoloRecord = YoloRecord(num: int, middleX: real, middleY: real, width: real, height: real)

  /** `good_labels`, line 54. */
  const GoodLabels: seq<string> := ["car", "person", "bus", "truck", "bike", "train"]

  /** `num_to_class`, lines 70-77. */
  const NumToClass: map<string, int> :=
    map["car" := 1, "person" := 2, "bus" := 3, "truck" := 4, "bike" := 5, "train" := 6]

  /** Lines 27-50: one pass over the label entries, counting all of them and
      those whose image `found` does not contain. */
  method CountMissing(names: seq<string>, found: set<string>) returns (missing: nat, total: nat)
    ensures total == |names|
    ensures missing == |MissingOf(names, found)|
    ensures missing <= total
  {
    missing, total := 0, 0;
    for i := 0 to |names|
      invariant total == i
      invariant missing == |MissingOf(names[..i], found)|
      invariant missing <= total
    {
      total := total + 1;
      assert names[..i + 1][..i] == names[..i];
      if names[i] !in found {
        missing := missing + 1;
      }
    }
    assert names[..|names|] == names;
  }

  /** The names among `names` whose image is not found, in order. */
  function MissingOf(names: seq<string>, found: set<string>): (r: seq<string>)
    ensures |r| <= |names|
    ensures forall x :: x in r <==> x in names && x !in found
  {
    if |names| == 0 then []
    else
      var front := MissingOf(names[..|names| - 1], found);
      var last := names[|names| - 1];
      assert names == names[..|names| - 1] + [last];
      if last in found then front else front + [last]
  }

  /** Each missing name is counted as often as it occurs among the entries,
      and a found one not at all. */
  lemma {:induction false} MissingOfCounts(names: seq<string>, found: set<string>)
    ensures var r := MissingOf(names, found);
      forall x :: multiset(r)[x] == if x in found then 0 else multiset(names)[x]
    decreases |names|
  {
    if |names| > 0 {
      var front := names[..|names| - 1];
      var last := names[|names| - 1];
      MissingOfCounts(front, found);
      assert names == front + [last];
      assert multiset(names) == multiset(front) + multiset{last};
      if last !in found {
        var m := MissingOf(front, found);
        assert multiset(m + [last]) == multiset(m) + multiset{last};
      }
    }
  }

  /** Line 53 and the comprehension of lines 61-63: keep the labels whose
      category is a good one. A label without a category raises a
      KeyError. */
  function KeepGood(labels: seq<Label>): (r: Result<seq<Label>>)
  {
    if |labels| == 0 then Ok([])
    else
      match KeepGood(labels[..|labels| - 1])
      case Err(e) => Err(e)
      case Ok(front) =>
        var l := labels[|labels| - 1];
        if l.category.None? then Err(MissingKey)
        else if l.category.value in GoodLabels then Ok(front + [l])
        else Ok(front)
  }

  /** The filter fails exactly when some label has no category; otherwise a
      label is kept exactly when its category is good. */
  lemma {:induction false} KeepGoodSpec(labels: seq<Label>)
    ensures KeepGood(labels).Err? <==> exists i :: 0 <= i < |labels| && labels[i].category.None?
    ensures KeepGood(labels).Ok? ==>
      forall l :: l in KeepGood(labels).value <==> l in labels && l.category.value in GoodLabels
    decreases |labels|
  {
    if |labels| > 0 {
      var n := |labels| - 1;
      var front := labels[..n];
      KeepGoodSpec(front);
      assert labels == front + [labels[n]];
      if KeepGood(front).Err? {
        var i :| 0 <= i < |front| && front[i].category.None?;
        assert labels[i] == front[i];
      }
    }
  }

  /** Filtering respects concatenation, so the kept labels stay in their
      original order. */
  lemma {:induction false} KeepGoodAppend(a: seq<Label>, b: seq<Label>)
    requires KeepGood(a).Ok? && KeepGood(b).Ok?
    ensures KeepGood(a + b) == Ok(KeepGood(a).value + KeepGood(b).value)
    decreases |b|
  {
    if |b| == 0 {
      assert a + b == a;
      assert KeepGood(a).value + [] == KeepGood(a).value;
    } else {
      var n := |b| - 1;
      assert (a + b)[..|a + b| - 1] == a + b[..n];
      assert (a + b)[|a + b| - 1] == b[n];
      KeepGoodAppend(a, b[..n]);
      var ka, kb := KeepGood(a).value, KeepGood(b[..n]).value;
      assert KeepGood(a + b[..n]) == Ok(ka + kb);
      assert (ka + kb) + [b[n]] == ka + (kb + [b[n]]);
    }
  }

  /** Filtering twice is filtering once. */
  lemma {:induction false} KeepGoodIdempotent(labels: seq<Label>)
    requires KeepGood(labels).Ok?
    ensures KeepGood(KeepGood(labels).value) == KeepGood(labels)
    decreases |labels|
  {
    if |labels| > 0 {
      var n := |labels| - 1;
      var front := labels[..n];
      KeepGoodIdempotent(front);
      var kept := KeepGood(front).value;
      if labels[n].category.value in GoodLabels {
        assert (kept + [labels[n]])[..|kept|] == kept;
      }
    }
  }

  /** `num_to_class[category]`: defined on exactly the good categories, with
      distinct ids from 1 to 6. */
  lemma ClassIds(c: string, d: string)
    ensures c in NumToClass <==> c in GoodLabels
    ensures c in NumToClass ==> 1 <= NumToClass[c] <= 6
    ensures c in NumToClass && d in NumToClass && c != d ==> NumToClass[c] != NumToClass[d]
  {
  }

  /** Lines 86-94 for one label: its class id and its box as centre and
      size, in pixels. */
  function ToYolo(l: Label): (r: Result<YoloRecord>)
    ensures r.Err? <==> l.category.None? || l.category.value !in NumToClass || l.box2d.None?
    ensures r.Ok? ==>
      var b := l.box2d.value;
      r.value.num == NumToClass[l.category.value] &&
      r.value.width == b.x2 - b.x1 && r.value.height == b.y2 - b.y1 &&
      r.value.middleX == (b.x1 + b.x2) / 2.0 && r.value.middleY == (b.y1 + b.y2) / 2.0
  {
    if l.category.None? || l.category.value !in NumToClass || l.box2d.None? then Err(MissingKey)
    else
      var b := l.box2d.value;
      var height := b.y2 - b.y1;
      var width := b.x2 - b.x1;
      Ok(YoloRecord(NumToClass[l.category.value], b.x1 + width / 2.0, b.y1 + height / 2.0, width, height))
  }

  /** Lines 83-96: the loop that appends one record per label to `output`. A label that
      cannot be converted ends the conversion with its error. */
  method Convert(labels: seq<Label>) returns (r: Result<seq<YoloRecord>>)
    ensures r == MapResult(labels, ToYolo)
  {
    r := MapLoop(labels, ToYolo);
  }

  /** After the filter the class lookup cannot fail: a filtered list whose
      labels all carry a box converts, one record per kept label, with ids
      from 1 to 6. */
  lemma FilteredLabelsConvert(labels: seq<Label>)
    requires KeepGood(labels).Ok?
    requires forall i :: 0 <= i < |labels| ==> labels[i].box2d.Some?
    ensures var kept := KeepGood(labels).value;
      var r := MapResult(kept, ToYolo);
      r.Ok? && |r.value| == |kept| &&
      forall i :: 0 <= i < |kept| ==> 1 <= r.value[i].num <= 6
  {
    var kept := KeepGood(labels).value;
    forall i | 0 <= i < |kept|
      ensures ToYolo(kept[i]).Ok?
    {
      var l := kept[i];
      assert l in labels && l.category.value in GoodLabels by {
        KeepGoodSpec(labels);
        assert l in kept;
      }
      var j :| 0 <= j < |labels| && labels[j] == l;
      ClassIds(l.category.value, l.category.value);
    }
    MapResultSpec(kept, ToYolo);
    var r := MapResult(kept, ToYolo).value;
    forall i | 0 <= i < |kept|
      ensures 1 <= r[i].num <= 6
    {
      ClassIds(kept[i].category.value, kept[i].category.value);
    }
  }

  /** Line 101: the text of the file, the formatted lines joined by
      newlines. Splitting it on newlines gives the lines back, it holds one
      newline fewer than it has lines, and it has no trailing newline. */
  lemma LabelFileText(lines: seq<string>)
    requires |lines| >= 1
    requires forall k :: 0 <= k < |lines| ==> |lines[k]| > 0 && '\n' !in lines[k]
    ensures Text.Split(Text.Join(lines, "\n"), '\n') == lines
    ensures Text.Count(Text.Join(lines, "\n"), '\n') == |lines| - 1
    ensures var t := Text.Join(lines, "\n"); t[|t| - 1] != '\n'
  {
    Text.SplitJoin(lines, '\n');
    Text.NoTrailingSeparator(lines, '\n');
    Text.JoinEndsWithLastLine(lines, '\n');
  }

  /** `os.path.splitext`: the extension starts at the last dot after the
      last slash, unless everything between that slash and the dot is dots
      (a leading-dot name has no extension). */
  function SplitExt(p: string): (r: (string, string))
    ensures r.0 + r.1 == p
    ensures r.1 == "" || (r.1[0] == '.' && '.' !in r.1[1..] && '/' !in r.1)
    ensures var sep := Text.LastIndex(p, '/');
      (exists k, j :: sep < k < j < |p| && p[k] != '.' && p[j] == '.') ==> r.1 != ""
    ensures var sep := Text.LastIndex(p, '/');
      r.1 != "" ==> exists k :: sep < k < |r.0| && p[k] != '.'
  {
    var sepIndex := Text.LastIndex(p, '/');
    var dotIndex := Text.LastIndex(p, '.');
    if dotIndex > sepIndex && exists k :: sepIndex < k < dotIndex && p[k] != '.' then
      assert p[..dotIndex] + p[dotIndex..] == p;
      (p[..dotIndex], p[dotIndex..])
    else (p, "")
  }

  /** A root whose last path component holds something other than dots,
      followed by an extension of one dot and no further dots or slashes,
      splits back into that root and extension. */
  lemma SplitExtRoundTrip(root: string, ext: string)
    requires |ext| > 0 && ext[0] == '.' && '.' !in ext[1..] && '/' !in ext
    requires exists k :: Text.LastIndex(root, '/') < k < |root| && root[k] != '.'
    ensures SplitExt(root + ext) == (root, ext)
  {
    var p := root + ext;
    forall k | |root| < k < |p|
      ensures p[k] != '.'
    {
      assert p[k] == ext[1..][k - |root| - 1];
    }
    Text.LastIndexAt(p, |root|, '.');
    var s := Text.LastIndex(root, '/');
    forall k | s < k < |p|
      ensures p[k] != '/'
    {
      if k >= |root| {
        assert p[k] == ext[k - |root|];
      }
    }
    if s >= 0 {
      Text.LastIndexAt(p, s, '/');
    }
    assert Text.LastIndex(p, '/') == s;
    var k :| s < k < |root| && root[k] != '.';
    assert p[k] != '.';
    assert p[..|root|] == root && p[|root|..] == ext;
  }

  /** `s.replace(old, new)`: every non-overlapping occurrence, left to
      right. */
  function ReplaceAll(s: string, pat: string, rep: string): string
    requires |pat| > 0
    decreases |s|
  {
    if |s| < |pat| then s
    else if s[..|pat|] == pat then rep + ReplaceAll(s[|pat|..], pat, rep)
    else [s[0]] + ReplaceAll(s[1..], pat, rep)
  }

  /** Line 43: the temporary JSON written for image `filename`. */
  function TempName(filename: string): string
  {
    SplitExt(filename).0 + ".json"
  }

  /** Line 99: the text file a temporary JSON is converted into. */
  function TxtName(jsonName: string): string
  {
    ReplaceAll(jsonName, ".json", ".txt")
  }

  /** Whether ".json" occurs anywhere in `s`. */
  predicate ContainsJson(s: string)
    decreases |s|
  {
    |s| >= 5 && (s[..5] == ".json" || ContainsJson(s[1..]))
  }

  /** Text after a root that holds no ".json" is replaced only at the end,
      since no suffix of ".json" is also a prefix of it. */
  lemma {:induction false} ReplaceAtEnd(root: string)
    requires !ContainsJson(root)
    ensures ReplaceAll(root + ".json", ".json", ".txt") == root + ".txt"
    decreases |root|
  {
    var s := root + ".json";
    if |root| == 0 {
      assert s == ".json";
      assert s[5..] == "";
    } else {
      assert s[..5] != ".json" by {
        if |root| >= 5 {
          assert s[..5] == root[..5];
        } else {
          assert s[|root|] == '.';
          assert ".json"[|root|] != '.';
        }
      }
      assert s[1..] == root[1..] + ".json";
      ReplaceAtEnd(root[1..]);
    }
  }

  /** Lines 43 and 99: the label file of an image is its root with ".txt",
      as YOLO expects, whenever the root does not itself contain ".json". */
  lemma LabelFileMatchesImage(filename: string)
    requires !ContainsJson(SplitExt(filename).0)
    ensures TxtName(TempName(filename)) == SplitExt(filename).0 + ".txt"
  {
    ReplaceAtEnd(SplitExt(filename).0);
  }
}
