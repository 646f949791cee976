/** The label conversion of `training/convert/src/main.rs`: keeping the
    labels of wanted categories in place, turning each into a YOLO record
    normalised to a 1280 x 720 frame, and naming the temporary JSON and the
    label file after the image. A panic (`unwrap` on a missing value) is
    returned as `Err`. */
module ConvertRs {
  import opened Numeric
  import Text

  /** `box2d`: corners in pixels. */
  datatype Box2D = Box2D(x1: real, y1: real, x2: real, y2: real)

  /** One entry of a frame's `labels` array. `category` is `None` when the
      key is missing or its value is not a string; `box2d` is `None` when
      the box or one of its corners is missing or not a number. */
  datatype Label = Label(category: Option<string>, box2d: Option<Box2D>)

  /** A YOLO line before it is formatted: class, centre and size, each
      coordinate a fraction of the frame. */
  datatype YoloRecord = YoloRecord(num: int, middleX: real, middleY: real, width: real, height: real)

  /** `good_labels`, line 62. */
  const GoodLabels: seq<string> := ["car", "person", "rider", "bus", "truck", "bike"]

  /** `num_to_class`, lines 106-116. */
  const NumToClass: map<string, int> :=
    map["car" := 0, "person" := 1, "rider" := 2, "bus" := 3, "truck" := 4, "bike" := 5]

  /** Lines 146-147. */
  const ImageWidth: real := 1280.0
  const ImageHeight: real := 720.0

  /** The closure of lines 85-89: a label is kept when its category is a
      string among the good labels. */
  predicate IsGood(l: Label)
  {
    l.category.Some? && l.category.value in GoodLabels
  }

  /** The labels `retain` keeps, in their original order. */
  function Kept(labels: seq<Label>): (r: seq<Label>)
    ensures |r| <= |labels|
  {
    if |labels| == 0 then []
    else if IsGood(labels[|labels| - 1]) then Kept(labels[..|labels| - 1]) + [labels[|labels| - 1]]
    else Kept(labels[..|labels| - 1])
  }

  /** The kept labels are exactly the good labels of the input. */
  lemma {:induction false} KeptSpec(labels: seq<Label>)
    ensures forall l :: l in Kept(labels) <==> l in labels && IsGood(l)
    decreases |labels|
  {
    if |labels| > 0 {
      var n := |labels| - 1;
      KeptSpec(labels[..n]);
      assert labels == labels[..n] + [labels[n]];
    }
  }

  /** Keeping respects concatenation, so the relative order of the kept
      labels is that of the input. */
  lemma {:induction false} KeptAppend(a: seq<Label>, b: seq<Label>)
    ensures Kept(a + b) == Kept(a) + Kept(b)
    decreases |b|
  {
    if |b| == 0 {
      assert a + b == a;
    } else {
      var n := |b| - 1;
      assert (a + b)[..|a + b| - 1] == a + b[..n];
      assert (a + b)[|a + b| - 1] == b[n];
      KeptAppend(a, b[..n]);
    }
  }

  /** Keeping twice is keeping once. */
  lemma {:induction false} KeptIdempotent(labels: seq<Label>)
    ensures Kept(Kept(labels)) == Kept(labels)
    decreases |labels|
  {
    if |labels| > 0 {
      var n := |labels| - 1;
      KeptIdempotent(labels[..n]);
      if IsGood(labels[n]) {
        var k := Kept(labels[..n]);
        assert (k + [labels[n]])[..|k|] == k;
      }
    }
  }

  /** Lines 85-89: `Vec::retain` compacts the good labels to the front of
      the buffer, in order; the new length is `n`. */
  method Retain(a: array<Label>) returns (n: nat)
    modifies a
    ensures n <= a.Length
    ensures a[..n] == Kept(old(a[..]))
  {
    ghost var orig := a[..];
    var w := 0;
    var r := 0;
    while r < a.Length
      invariant w <= r <= a.Length
      invariant a[..w] == Kept(orig[..r])
      invariant forall k :: r <= k < a.Length ==> a[k] == orig[k]
    {
      assert orig[..r + 1] == orig[..r] + [orig[r]];
      if IsGood(a[r]) {
        a[w] := a[r];
        assert a[..w + 1] == Kept(orig[..r]) + [orig[r]];
        w := w + 1;
      }
      r := r + 1;
    }
    assert orig[..a.Length] == orig;
    return w;
  }

  /** Lines 138-139: the class of every label that survived the filter can
      be looked up, and distinct categories get distinct ids from 0 to 5. */
  lemma ClassIds(c: string, d: string)
    ensures c in NumToClass <==> c in GoodLabels
    ensures c in NumToClass ==> 0 <= NumToClass[c] <= 5
    ensures c in NumToClass && d in NumToClass && c != d ==> NumToClass[c] != NumToClass[d]
  {
  }

  /** Lines 137-163 for one label: a panic on a missing category, an
      unknown class or a missing corner, otherwise the record. */
  function ToYolo(l: Label): (r: Result<YoloRecord>)
    ensures r.Err? <==> l.category.None? || l.category.value !in NumToClass || l.box2d.None?
    ensures r.Ok? ==> r.value.num == NumToClass[l.category.value]
  {
    if l.category.None? || l.category.value !in NumToClass || l.box2d.None? then Err(MissingKey)
    else
      var b := l.box2d.value;
      Ok(YoloRecord(NumToClass[l.category.value],
                    (b.x2 + b.x1) / (2.0 * ImageWidth), (b.y2 + b.y1) / (2.0 * ImageHeight),
                    (b.x2 - b.x1) / ImageWidth, (b.y2 - b.y1) / ImageHeight))
  }

  /** Scaling a record back by the frame size gives the box's centre and
      size in pixels. */
  lemma Denormalise(l: Label)
    requires ToYolo(l).Ok?
    ensures var r := ToYolo(l).value; var b := l.box2d.value;
      r.middleX * ImageWidth == (b.x1 + b.x2) / 2.0 &&
      r.middleY * ImageHeight == (b.y1 + b.y2) / 2.0 &&
      r.width * ImageWidth == b.x2 - b.x1 &&
      r.height * ImageHeight == b.y2 - b.y1
  {
  }

  /** A box inside the frame becomes a record whose centre and size lie in
      [0, 1] and whose edges, centre plus or minus half the size, stay in
      the unit square. */
  lemma NormalisedInUnitSquare(l: Label)
    requires ToYolo(l).Ok?
    requires var b := l.box2d.value;
      0.0 <= b.x1 <= b.x2 <= ImageWidth && 0.0 <= b.y1 <= b.y2 <= ImageHeight
    ensures var r := ToYolo(l).value;
      0.0 <= r.width <= 1.0 && 0.0 <= r.height <= 1.0 &&
      0.0 <= r.middleX <= 1.0 && 0.0 <= r.middleY <= 1.0 &&
      0.0 <= r.middleX - r.width / 2.0 && r.middleX + r.width / 2.0 <= 1.0 &&
      0.0 <= r.middleY - r.height / 2.0 && r.middleY + r.height / 2.0 <= 1.0
  {
    var r := ToYolo(l).value;
    var b := l.box2d.value;
    assert r.middleX - r.width / 2.0 == b.x1 / ImageWidth;
    assert r.middleX + r.width / 2.0 == b.x2 / ImageWidth;
    assert r.middleY - r.height / 2.0 == b.y1 / ImageHeight;
    assert r.middleY + r.height / 2.0 == b.y2 / ImageHeight;
  }

  /** Lines 134-164: the loop that pushes one record per label onto
      `output_lines`. A label that
      cannot be converted ends the conversion with its error. */
  method Convert(labels: seq<Label>) returns (r: Result<seq<YoloRecord>>)
    ensures r == MapResult(labels, ToYolo)
  {
    r := MapLoop(labels, ToYolo);
  }

  /** The filter makes the class lookup safe: after `retain`, labels that
      all carry a box convert, with ids from 0 to 5. */
  lemma RetainedLabelsConvert(labels: seq<Label>)
    requires forall i :: 0 <= i < |labels| ==> labels[i].box2d.Some?
    ensures var kept := Kept(labels);
      var r := MapResult(kept, ToYolo);
      r.Ok? && |r.value| == |kept| &&
      forall i :: 0 <= i < |kept| ==> 0 <= r.value[i].num <= 5
  {
    var kept := Kept(labels);
    forall i | 0 <= i < |kept|
      ensures ToYolo(kept[i]).Ok?
    {
      var l := kept[i];
      assert l in labels && IsGood(l) by {
        KeptSpec(labels);
        assert l in kept;
      }
      var j :| 0 <= j < |labels| && labels[j] == l;
      ClassIds(l.category.value, l.category.value);
    }
    MapResultSpec(kept, ToYolo);
    var r := MapResult(kept, ToYolo).value;
    forall i | 0 <= i < |kept|
      ensures 0 <= r[i].num <= 5
    {
      ClassIds(kept[i].category.value, kept[i].category.value);
    }
  }

  /** Line 173: `writeln!` of the joined lines, so the text always ends
      with one newline, and splitting it on newlines gives the lines back
      followed by one empty piece. */
  function FileText(lines: seq<string>): string
  {
    Text.Join(lines, "\n") + "\n"
  }

  /** A frame without a `labels` array still gets a label file, holding
      a single newline. */
  lemma EmptyFrameFileText()
    ensures FileText([]) == "\n"
  {
    assert Text.Join([], "\n") == "";
  }

  lemma LabelFileText(lines: seq<string>)
    requires |lines| >= 1
    requires forall k :: 0 <= k < |lines| ==> '\n' !in lines[k]
    ensures var t := FileText(lines);
      t[|t| - 1] == '\n' &&
      Text.Count(t, '\n') == |lines| &&
      Text.Split(t, '\n') == lines + [""]
  {
    var lines2 := lines + [""];
    forall k | 0 <= k < |lines2|
      ensures '\n' !in lines2[k]
    {
      if k < |lines| {
        assert lines2[k] == lines[k];
      }
    }
    JoinSnocEmpty(lines);
    Text.SplitJoin(lines2, '\n');
  }

  /** Joining with one more, empty, line appends one separator. */
  lemma {:induction false} JoinSnocEmpty(lines: seq<string>)
    requires |lines| >= 1
    ensures Text.Join(lines + [""], "\n") == Text.Join(lines, "\n") + "\n"
    decreases |lines|
  {
    if |lines| == 1 {
      assert (lines + [""])[1..] == [""];
    } else {
      assert (lines + [""])[1..] == lines[1..] + [""];
      JoinSnocEmpty(lines[1..]);
    }
  }

  /** `Path::file_stem` for a single file name: none for "", "." and "..";
      the whole name when it has no dot or only a leading one; otherwise
      everything before the last dot. */
  function FileStem(name: string): (r: Option<string>)
    ensures r.None? <==> name == "" || name == "." || name == ".."
    ensures r.Some? ==> |r.value| > 0 && r.value <= name
    ensures r.Some? && r.value != name ==>
      name[|r.value|] == '.' && forall k :: |r.value| < k < |name| ==> name[k] != '.'
    ensures r == Some(name) ==> forall k :: 0 < k < |name| ==> name[k] != '.'
  {
    if name == "" || name == "." || name == ".." then None
    else
      var i := Text.LastIndex(name, '.');
      if i <= 0 then Some(name) else Some(name[..i])
  }

  /** `Path::extension` for a single file name: what follows the last dot,
      when that dot is not the first character. */
  function Extension(name: string): (r: Option<string>)
  {
    if name == "" || name == "." || name == ".." then None
    else
      var i := Text.LastIndex(name, '.');
      if i <= 0 then None else Some(name[i + 1..])
  }

  /** A file name is its stem, followed by a dot and its extension when it
      has one. */
  lemma StemAndExtension(name: string)
    requires FileStem(name).Some?
    ensures Extension(name).None? ==> FileStem(name) == Some(name)
    ensures Extension(name).Some? ==> name == FileStem(name).value + "." + Extension(name).value
  {
    var i := Text.LastIndex(name, '.');
    if 0 < i {
      assert name == name[..i] + "." + name[i + 1..];
    }
  }

  /** Lines 45-46: the temporary JSON of an image, a panic when the image
      name has no stem. */
  function TempName(image: string): (r: Result<string>)
    ensures r.Err? <==> FileStem(image).None?
  {
    match FileStem(image)
    case None => Err(MissingKey)
    case Some(stem) => Ok(stem + ".json")
  }

  /** A stem followed by ".json" is picked up by the extension filter of
      lines 121-127 and has that stem back. */
  lemma JsonNameRoundTrip(stem: string)
    requires |stem| > 0
    ensures Extension(stem + ".json") == Some("json")
    ensures FileStem(stem + ".json") == Some(stem)
  {
    var name := stem + ".json";
    assert name[|stem|] == '.';
    assert forall k :: |stem| < k < |name| ==> name[k] != '.';
    assert name[..|stem|] == stem;
    assert name[|stem| + 1..] == "json";
  }

  /** Lines 168-170 as written: the stem of the JSON, then
      `with_extension("txt")`, which removes the stem's own last extension
      before adding ".txt". `None` means no label file is written. */
  function TxtNameAsWritten(jsonName: string): (r: Option<string>)
    ensures r.Some? ==> FileStem(jsonName).Some?
  {
    match FileStem(jsonName)
    case None => None
    case Some(stem) =>
      match FileStem(stem)
      case None => None
      case Some(inner) => Some(inner + ".txt")
  }

  /** Lines 168-170 as intended: the JSON's stem with ".txt" appended. */
  function TxtName(jsonName: string): (r: Option<string>)
    ensures r.Some? <==> FileStem(jsonName).Some?
  {
    match FileStem(jsonName)
    case None => None
    case Some(stem) => Some(stem + ".txt")
  }

  /** The intended name of the label file is the image's stem with ".txt",
      as YOLO pairs them, so images with distinct stems get distinct label
      files. */
  lemma LabelFileMatchesImage(image: string, other: string)
    requires TempName(image).Ok? && TempName(other).Ok?
    ensures TxtName(TempName(image).value) == Some(FileStem(image).value + ".txt")
    ensures FileStem(image) != FileStem(other) ==>
      TxtName(TempName(image).value) != TxtName(TempName(other).value)
  {
    var s1, s2 := FileStem(image).value, FileStem(other).value;
    JsonNameRoundTrip(s1);
    JsonNameRoundTrip(s2);
    if s1 != s2 {
      assert (s1 + ".txt")[..|s1|] == s1;
      assert (s2 + ".txt")[..|s2|] == s2;
    }
  }

  /** For an image whose stem has no dot, the code as written names the
      label file correctly. */
  lemma AsWrittenAgreesWithoutInnerDot(image: string)
    requires TempName(image).Ok?
    requires '.' !in FileStem(image).value
    ensures TxtNameAsWritten(TempName(image).value) == TxtName(TempName(image).value)
  {
    var stem := FileStem(image).value;
    JsonNameRoundTrip(stem);
    assert Text.LastIndex(stem, '.') == -1;
  }

  /** For a stem whose last dot is not its first character, the code as
      written drops everything from that dot on: the label file is named
      after the stem's own stem. */
  lemma AsWrittenDropsInnerExtension(stem: string, i: nat)
    requires 0 < i < |stem| && stem[i] == '.' && stem != ".."
    requires forall k :: i < k < |stem| ==> stem[k] != '.'
    ensures TxtNameAsWritten(stem + ".json") == Some(stem[..i] + ".txt")
  {
    JsonNameRoundTrip(stem);
    Text.LastIndexAt(stem, i, '.');
  }

  /** The two images "a.b.jpg" and "a.c.jpg" both have their labels written
      to "a.txt" by the code as written, so one overwrites the other; the
      intended names are "a.b.txt" and "a.c.txt". */
  lemma DottedStemsCollide()
    ensures TxtNameAsWritten(TempName("a.b.jpg").value) == Some("a.txt")
    ensures TxtNameAsWritten(TempName("a.c.jpg").value) == Some("a.txt")
    ensures TxtName(TempName("a.b.jpg").value) == Some("a.b.txt")
    ensures TxtName(TempName("a.c.jpg").value) == Some("a.c.txt")
  {
    DottedStem("a.b.jpg", "a.b");
    DottedStem("a.c.jpg", "a.c");
    assert "a.b" + ".txt" == "a.b.txt";
    assert "a.c" + ".txt" == "a.c.txt";
  }

  /** An image "a.?.jpg" is written to "a.?.json", whose stem "a.?" has
      the stem "a". */
  lemma DottedStem(image: string, stem: string)
    requires |image| == 7 && image[1] == '.' && image[3..] == ".jpg"
    requires image[0] == 'a' && image[2] != '.' && stem == image[..3]
    ensures TempName(image) == Ok(stem + ".json")
    ensures TxtNameAsWritten(stem + ".json") == Some("a.txt")
    ensures TxtName(stem + ".json") == Some(stem + ".txt")
  {
    Text.LastIndexAt(image, 3, '.');
    JsonNameRoundTrip(stem);
    Text.LastIndexAt(stem, 1, '.');
    assert stem[..1] == "a";
    assert "a" + ".txt" == "a.txt";
  }
}
