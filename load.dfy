/** The per-frame bookkeeping of `stream_to_virtual_cam` in
    `CollisionSense/main/load.py`: each tracked detection becomes a record
    that remembers where the same tracker id was in the previous frame, and
    the history dictionary keyed by tracker id is then cut down to the ids
    seen in this frame. */
module ObjectTracking {
  import opened Numeric
  import RelativeLocation

  /** `KNOWN_WIDTH` and `FOCAL_LENGTH` of the capture loop. */
  const KnownWidth: real := 1.8
  const FocalLength: real := 1000.0

  /** A box as the detector reports it, in float pixels. */
  datatype RawBox = RawBox(x1: real, y1: real, x2: real, y2: real)

  /** A box after `map(int, box)`. */
  datatype IntBox = IntBox(x1: int, y1: int, x2: int, y2: int)

  /** One element of `zip(boxes, confs, ids, cls_indices)`. */
  datatype Detection = Detection(box: RawBox, conf: real, id: int, cls: real)

  /** The `bbox_info` dictionary built for each detection. */
  datatype BoxInfo = BoxInfo(
    id: int,
    bbox: IntBox,
    oldBBox: Option<IntBox>,
    distance: real,
    confidence: real,
    time: real,
    prevTime: Option<real>,
    className: string)

  type History = map<int, BoxInfo>

  /** `calculate_distance`: similar triangles for a box of positive width,
      and 0 for a degenerate one. */
  function CalculateDistance(bboxWidth: int): (d: real)
    ensures bboxWidth <= 0 ==> d == 0.0
    ensures 0 < bboxWidth ==> 0.0 < d && d * bboxWidth as real == KnownWidth * FocalLength
  {
    if bboxWidth <= 0 then 0.0
    else
      DivideBack(KnownWidth * FocalLength, bboxWidth as real);
      (KnownWidth * FocalLength) / bboxWidth as real
  }

  /** A wider box is nearer. */
  lemma DistanceDecreasing(w1: int, w2: int)
    requires 0 < w1 < w2
    ensures CalculateDistance(w2) < CalculateDistance(w1)
  {
    var d1, d2 := CalculateDistance(w1), CalculateDistance(w2);
    if d1 <= d2 {
      MulPos(d2, (w2 - w1) as real);
      MulNonNeg(d2 - d1, w1 as real);
    }
  }

  /** For a box of positive width the guarded helper agrees with the depth
      `get_relative_coordinates` computes with the same constants. */
  lemma DistanceIsDepth(b: RelativeLocation.BBox, imageWidth: real, imageHeight: real, w: int)
    requires 0 < w && RelativeLocation.Width(b) == w as real
    ensures var r := RelativeLocation.RelativeCoordinates(b, imageWidth, imageHeight, FocalLength, KnownWidth);
      r.Ok? && r.value.z == CalculateDistance(w)
  {
    var z := RelativeLocation.RelativeCoordinates(b, imageWidth, imageHeight, FocalLength, KnownWidth).value.z;
    CancelFactor(z, CalculateDistance(w), w as real);
  }

  function TruncateBox(b: RawBox): (r: IntBox)
  {
    IntBox(Truncate(b.x1), Truncate(b.y1), Truncate(b.x2), Truncate(b.y2))
  }

  /** Python's `zip` over the four per-box sequences stops at the shortest. */
  function Zip(boxes: seq<RawBox>, confs: seq<real>, ids: seq<int>, clsIndices: seq<real>): (ds: seq<Detection>)
    ensures |ds| <= |boxes| && |ds| <= |confs| && |ds| <= |ids| && |ds| <= |clsIndices|
    ensures |ds| == |boxes| || |ds| == |confs| || |ds| == |ids| || |ds| == |clsIndices|
    ensures forall k :: 0 <= k < |ds| ==> ds[k] == Detection(boxes[k], confs[k], ids[k], clsIndices[k])
  {
    var n := if |boxes| <= |confs| && |boxes| <= |ids| && |boxes| <= |clsIndices| then |boxes|
      else if |confs| <= |ids| && |confs| <= |clsIndices| then |confs|
      else if |ids| <= |clsIndices| then |ids|
      else |clsIndices|;
    seq(n, k requires 0 <= k < n => Detection(boxes[k], confs[k], ids[k], clsIndices[k]))
  }

  /** Lines 85-105: the record for one detection, given its label and the
      history as it stands when the detection is reached. */
  function MakeRecord(d: Detection, className: string, currentTime: real, h: History): BoxInfo
  {
    var bbox := TruncateBox(d.box);
    BoxInfo(d.id, bbox,
            if d.id in h then Some(h[d.id].bbox) else None,
            CalculateDistance(bbox.x2 - bbox.x1),
            d.conf, currentTime,
            if d.id in h then Some(h[d.id].time) else None,
            className)
  }

  /** The state of the loop of lines 84-111 after some detections: the
      records emitted, the history, and the error that stopped it, if any. */
  datatype Pass = Pass(records: seq<BoxInfo>, history: History, error: Option<Error>)

  /** The loop of lines 84-111 over the detections `ds`, starting from the
      history `h`. A class index with no name raises a KeyError (line 87),
      which ends the loop with the history as far as it was written. */
  function Track(h: History, ds: seq<Detection>, names: map<int, string>, currentTime: real): Pass
    decreases |ds|
  {
    if |ds| == 0 then Pass([], h, None)
    else
      var prev := Track(h, ds[..|ds| - 1], names, currentTime);
      var d := ds[|ds| - 1];
      var key := Truncate(d.cls);
      if prev.error.Some? then prev
      else if key !in names then Pass(prev.records, prev.history, Some(MissingKey))
      else
        var rec := MakeRecord(d, names[key], currentTime, prev.history);
        Pass(prev.records + [rec], prev.history[d.id := rec], None)
  }

  /** Lines 114-117: keep only the entries whose id was seen this frame. */
  function Evict(h: History, ids: seq<int>): (r: History)
    ensures r.Keys == h.Keys * set id | id in ids
    ensures forall id :: id in r ==> r[id] == h[id]
  {
    map id | id in h && id in ids :: h[id]
  }

  /** The last position in `ds` holding tracker id `id`. */
  function LastIndexOf(ds: seq<Detection>, id: int): (r: Option<nat>)
    ensures r.Some? ==> r.value < |ds| && ds[r.value].id == id
    ensures r.Some? ==> forall i :: r.value < i < |ds| ==> ds[i].id != id
    ensures r.None? ==> forall i :: 0 <= i < |ds| ==> ds[i].id != id
  {
    if |ds| == 0 then None
    else if ds[|ds| - 1].id == id then Some(|ds| - 1)
    else LastIndexOf(ds[..|ds| - 1], id)
  }

  /** Whether some class index among `ds` has no name. */
  predicate HasUnknownClass(ds: seq<Detection>, names: map<int, string>)
  {
    exists k :: 0 <= k < |ds| && Truncate(ds[k].cls) !in names
  }

  /** The previous entry a record sees: the latest earlier detection with
      the same id in this frame, else the history the frame started from. */
  function PreviousBox(h: History, ds: seq<Detection>, k: nat): Option<IntBox>
    requires k < |ds|
  {
    match LastIndexOf(ds[..k], ds[k].id)
    case Some(j) => Some(TruncateBox(ds[j].box))
    case None => if ds[k].id in h then Some(h[ds[k].id].bbox) else None
  }

  function PreviousTime(h: History, ds: seq<Detection>, k: nat, currentTime: real): Option<real>
    requires k < |ds|
  {
    match LastIndexOf(ds[..k], ds[k].id)
    case Some(_) => Some(currentTime)
    case None => if ds[k].id in h then Some(h[ds[k].id].time) else None
  }

  /** The loop fails exactly when some class index has no name. */
  lemma {:induction false} TrackFails(h: History, ds: seq<Detection>, names: map<int, string>, currentTime: real)
    ensures Track(h, ds, names, currentTime).error.Some? <==> HasUnknownClass(ds, names)
    decreases |ds|
  {
    if |ds| > 0 {
      var n := |ds| - 1;
      var front := ds[..n];
      TrackFails(h, front, names, currentTime);
      if HasUnknownClass(front, names) {
        var k :| 0 <= k < |front| && Truncate(front[k].cls) !in names;
        assert ds[k] == front[k];
      } else if Truncate(ds[n].cls) in names {
        forall k | 0 <= k < |ds|
          ensures Truncate(ds[k].cls) in names
        {
          if k < n {
            assert ds[k] == front[k];
          }
        }
      }
    }
  }

  /** A frame that goes through emits one record per detection. */
  lemma {:induction false} TrackLength(h: History, ds: seq<Detection>, names: map<int, string>, currentTime: real)
    requires Track(h, ds, names, currentTime).error.None?
    ensures |Track(h, ds, names, currentTime).records| == |ds|
    decreases |ds|
  {
    if |ds| > 0 {
      TrackLength(h, ds[..|ds| - 1], names, currentTime);
    }
  }

  /** The records of a prefix of the detections are a prefix of the records. */
  lemma {:induction false} TrackPrefix(h: History, ds: seq<Detection>, names: map<int, string>, currentTime: real,
                                       i: nat)
    requires i <= |ds|
    requires Track(h, ds, names, currentTime).error.None?
    ensures |Track(h, ds, names, currentTime).records| == |ds|
    ensures Track(h, ds[..i], names, currentTime).error.None?
    ensures Track(h, ds[..i], names, currentTime).records == Track(h, ds, names, currentTime).records[..i]
    decreases |ds|
  {
    TrackLength(h, ds, names, currentTime);
    if i == |ds| {
      assert ds[..i] == ds;
    } else {
      var front := ds[..|ds| - 1];
      TrackPrefix(h, front, names, currentTime, i);
      TrackLength(h, front, names, currentTime);
      assert front[..i] == ds[..i];
    }
  }

  /** Record k is built from detection k and the history as the detections
      before it left it. */
  lemma RecordAt(h: History, ds: seq<Detection>, names: map<int, string>, currentTime: real, k: nat)
    requires k < |ds|
    requires Track(h, ds, names, currentTime).error.None?
    ensures Truncate(ds[k].cls) in names
    ensures var p := Track(h, ds, names, currentTime);
      k < |p.records| &&
      p.records[k] == MakeRecord(ds[k], names[Truncate(ds[k].cls)], currentTime,
                                 Track(h, ds[..k], names, currentTime).history)
  {
    TrackPrefix(h, ds, names, currentTime, k + 1);
    TrackLength(h, ds, names, currentTime);
    assert ds[..k + 1][..k] == ds[..k];
  }

  /** The tracker ids among the detections. */
  function Ids(ds: seq<Detection>): set<int>
  {
    set k | 0 <= k < |ds| :: ds[k].id
  }

  lemma IdsSnoc(ds: seq<Detection>)
    requires 0 < |ds|
    ensures Ids(ds) == Ids(ds[..|ds| - 1]) + {ds[|ds| - 1].id}
  {
    var n := |ds| - 1;
    var front := ds[..n];
    forall id | id in Ids(ds)
      ensures id in Ids(front) + {ds[n].id}
    {
      var k :| 0 <= k < |ds| && ds[k].id == id;
      if k < n {
        assert front[k].id == id;
      }
    }
    forall id | id in Ids(front)
      ensures id in Ids(ds)
    {
      var k :| 0 <= k < |front| && front[k].id == id;
      assert ds[k].id == id;
    }
  }

  /** Lines 102-111: the history after the loop knows the ids it started
      with and every id detected. */
  lemma {:induction false} TrackKeys(h: History, ds: seq<Detection>, names: map<int, string>, currentTime: real)
    requires Track(h, ds, names, currentTime).error.None?
    ensures Track(h, ds, names, currentTime).history.Keys == h.Keys + Ids(ds)
    decreases |ds|
  {
    if |ds| > 0 {
      TrackKeys(h, ds[..|ds| - 1], names, currentTime);
      IdsSnoc(ds);
    }
  }

  /** The entry the history should hold for `id` after the detections `ds`
      produced `records`: the record of its last detection, or the entry it
      started with. */
  function EntryFor(h: History, ds: seq<Detection>, records: seq<BoxInfo>, id: int): BoxInfo
    requires |records| == |ds|
    requires id in h || LastIndexOf(ds, id).Some?
  {
    match LastIndexOf(ds, id)
    case Some(j) => records[j]
    case None => h[id]
  }

  /** Line 111: for a detected id the history holds the record of that id's
      last detection, for any other id the entry it had. */
  lemma {:induction false} TrackValues(h: History, ds: seq<Detection>, names: map<int, string>, currentTime: real)
    requires Track(h, ds, names, currentTime).error.None?
    ensures var p := Track(h, ds, names, currentTime);
      |p.records| == |ds| &&
      forall id :: id in p.history ==>
        (id in h || LastIndexOf(ds, id).Some?) && p.history[id] == EntryFor(h, ds, p.records, id)
    decreases |ds|
  {
    TrackLength(h, ds, names, currentTime);
    if |ds| > 0 {
      var n := |ds| - 1;
      var front := ds[..n];
      TrackValues(h, front, names, currentTime);
      var prev := Track(h, front, names, currentTime);
      var p := Track(h, ds, names, currentTime);
      forall id | id in p.history
        ensures (id in h || LastIndexOf(ds, id).Some?) && p.history[id] == EntryFor(h, ds, p.records, id)
      {
        if id != ds[n].id {
          assert LastIndexOf(ds, id) == LastIndexOf(front, id);
          assert p.history[id] == prev.history[id];
          if LastIndexOf(front, id).Some? {
            assert p.records[LastIndexOf(front, id).value] == prev.records[LastIndexOf(front, id).value];
          }
        }
      }
    }
  }

  /** What the loop emits, record by record: for a frame whose class indices
      all have names, one record per detection, in order, each carrying its
      detection's id, truncated box, distance, confidence and class name,
      the frame time, and the previous entry `PreviousBox`/`PreviousTime`
      describe. */
  lemma FrameRecords(h: History, ds: seq<Detection>, names: map<int, string>, currentTime: real, k: nat)
    requires k < |ds|
    requires !HasUnknownClass(ds, names)
    ensures var p := Track(h, ds, names, currentTime);
      p.error.None? && |p.records| == |ds| &&
      var d, rec := ds[k], p.records[k];
      rec.id == d.id && rec.bbox == TruncateBox(d.box) &&
      rec.distance == CalculateDistance(rec.bbox.x2 - rec.bbox.x1) &&
      rec.confidence == d.conf && rec.time == currentTime &&
      Truncate(d.cls) in names && rec.className == names[Truncate(d.cls)] &&
      rec.oldBBox == PreviousBox(h, ds, k) &&
      rec.prevTime == PreviousTime(h, ds, k, currentTime)
  {
    TrackFails(h, ds, names, currentTime);
    TrackLength(h, ds, names, currentTime);
    RecordAt(h, ds, names, currentTime, k);
    TrackPrefix(h, ds, names, currentTime, k);
    var before := Track(h, ds[..k], names, currentTime);
    TrackKeys(h, ds[..k], names, currentTime);
    TrackValues(h, ds[..k], names, currentTime);
    var id := ds[k].id;
    match LastIndexOf(ds[..k], id)
    case Some(j) =>
      RecordAt(h, ds, names, currentTime, j);
      assert before.history[id] == before.records[j];
    case None =>
      assert id !in Ids(ds[..k]);
  }

  /** The history after a frame that went through: lines 111 and 114-117.
      When the detector reports as many ids as boxes (the zip drops
      nothing), or reports no ids at all, its ids are exactly the ids seen
      in this frame, and each entry is the record of that id's last
      detection (the last writer wins), so it carries this frame's box and
      time. A frame without ids therefore empties the history. */
  lemma HistoryAfterFrame(h: History, boxes: seq<RawBox>, confs: seq<real>, ids: seq<int>,
                          clsIndices: seq<real>, names: map<int, string>, currentTime: real)
    requires |ids| == 0 || |boxes| == |confs| == |ids| == |clsIndices|
    requires !HasUnknownClass(Zip(boxes, confs, ids, clsIndices), names)
    ensures var ds := Zip(boxes, confs, ids, clsIndices);
      var p := Track(h, ds, names, currentTime);
      var after := Evict(p.history, ids);
      p.error.None? && |p.records| == |ds| &&
      after.Keys == (set id | id in ids) &&
      forall id :: id in after ==>
        var last := LastIndexOf(ds, id);
        last.Some? && after[id] == p.records[last.value] &&
        after[id].id == id && after[id].time == currentTime &&
        after[id].bbox == TruncateBox(ds[last.value].box)
  {
    var ds := Zip(boxes, confs, ids, clsIndices);
    TrackFails(h, ds, names, currentTime);
    TrackLength(h, ds, names, currentTime);
    TrackKeys(h, ds, names, currentTime);
    TrackValues(h, ds, names, currentTime);
    var p := Track(h, ds, names, currentTime);
    var after := Evict(p.history, ids);
    forall id | id in ids
      ensures id in after
    {
      var k :| 0 <= k < |ids| && ids[k] == id;
      assert ds[k].id == id;
    }
    forall id | id in after
      ensures var last := LastIndexOf(ds, id);
        last.Some? && after[id] == p.records[last.value] &&
        after[id].id == id && after[id].time == currentTime &&
        after[id].bbox == TruncateBox(ds[last.value].box)
    {
      var k :| 0 <= k < |ids| && ids[k] == id;
      assert ds[k].id == id;
      var j := LastIndexOf(ds, id).value;
      RecordAt(h, ds, names, currentTime, j);
    }
  }

  /** Lines 102 and 114-117: a tracker id that was missing from a frame has
      been evicted, so at its first detection in the next frame the record
      carries no previous box and no previous time. */
  lemma EvictedIdStartsFresh(h: History, ids: seq<int>, ds: seq<Detection>, names: map<int, string>,
                             currentTime: real, k: nat)
    requires k < |ds| && ds[k].id !in ids
    requires forall j :: 0 <= j < k ==> ds[j].id != ds[k].id
    requires !HasUnknownClass(ds, names)
    ensures var p := Track(Evict(h, ids), ds, names, currentTime);
      k < |p.records| && p.records[k].oldBBox.None? && p.records[k].prevTime.None?
  {
    FrameRecords(Evict(h, ids), ds, names, currentTime, k);
    assert LastIndexOf(ds[..k], ds[k].id).None?;
  }

  /** Lines 102-111: when an id is detected twice in one frame, the later
      record sees the earlier one as its previous entry (the history entry is
      overwritten in between), with this frame's time. */
  lemma DuplicateSeesEarlier(h: History, ds: seq<Detection>, names: map<int, string>, currentTime: real,
                             j: nat, k: nat)
    requires j < k < |ds| && ds[j].id == ds[k].id
    requires forall i :: j < i < k ==> ds[i].id != ds[k].id
    requires !HasUnknownClass(ds, names)
    ensures var p := Track(h, ds, names, currentTime);
      k < |p.records| &&
      p.records[k].oldBBox == Some(p.records[j].bbox) && p.records[k].prevTime == Some(currentTime)
  {
    FrameRecords(h, ds, names, currentTime, k);
    FrameRecords(h, ds, names, currentTime, j);
    assert LastIndexOf(ds[..k], ds[k].id) == Some(j);
  }

  /** Once the loop has failed, the later detections change nothing. */
  lemma {:induction false} TrackFailureSticks(h: History, ds: seq<Detection>, names: map<int, string>,
                                              currentTime: real, i: nat)
    requires i <= |ds|
    requires Track(h, ds[..i], names, currentTime).error.Some?
    ensures Track(h, ds, names, currentTime) == Track(h, ds[..i], names, currentTime)
    decreases |ds| - i
  {
    if i < |ds| {
      assert ds[..i + 1][..i] == ds[..i];
      TrackFailureSticks(h, ds, names, currentTime, i + 1);
    } else {
      assert ds[..i] == ds;
    }
  }

  /** The `object_history` dictionary the capture loop keeps across frames. */
  class ObjectHistory {
    var entries: History

    constructor()
      ensures entries == map[]
    {
      entries := map[];
    }

    /** Lines 84-117 for one frame: the records sent on for display, or the
        KeyError raised for a class index with no name. */
    method ProcessFrame(boxes: seq<RawBox>, confs: seq<real>, ids: seq<int>, clsIndices: seq<real>,
                        names: map<int, string>, currentTime: real) returns (r: Result<seq<BoxInfo>>)
      modifies this
      ensures var p := Track(old(entries), Zip(boxes, confs, ids, clsIndices), names, currentTime);
        match p.error
        case None => r == Ok(p.records) && entries == Evict(p.history, ids)
        case Some(e) => r == Err(e) && entries == p.history
    {
      var ds := Zip(boxes, confs, ids, clsIndices);
      var records: seq<BoxInfo> := [];
      var i := 0;
      while i < |ds|
        invariant 0 <= i <= |ds|
        invariant Track(old(entries), ds[..i], names, currentTime) == Pass(records, entries, None)
      {
        var d := ds[i];
        var key := Truncate(d.cls);
        assert ds[..i + 1][..i] == ds[..i];
        if key !in names {
          TrackFailureSticks(old(entries), ds, names, currentTime, i + 1);
          return Err(MissingKey);
        }
        var rec := MakeRecord(d, names[key], currentTime, entries);
        records := records + [rec];
        entries := entries[d.id := rec];
        i := i + 1;
      }
      assert ds[..i] == ds;
      entries := Evict(entries, ids);
      return Ok(records);
    }
  }
}
