/** The arithmetic of the display side, `CollisionSense/main/gui.py`: the
    label-to-width table, the confidence-to-brightness mapping, the in-lane
    test, the tint colour and opacity, and the velocity estimate that falls
    back to a remembered velocity. */
module Display {
  import opened Numeric
  import RelativeLocation
  import ObjectTracking

  type Vec3 = RelativeLocation.Vec3

  /** `label_to_width`: real-world widths, in metres, of the labels with a
      known size. */
  const LabelToWidth: map<string, real> := map["car" := 1.8, "person" := 0.15]

  /** The width used when a label is not in the table. */
  const DefaultWidth: real := 1.8

  /** The focal length, in pixels, at every call of
      `get_relative_coordinates`. */
  const FocalLength: real := 1000.0

  /** Line 121: `label_to_width.get(label, 1.8)`. A person is 0.15 m wide and
      anything else, a car included, 1.8 m. */
  function WidthFor(className: string): (w: real)
    ensures className == "person" ==> w == 0.15
    ensures className != "person" ==> w == 1.8
  {
    if className in LabelToWidth then LabelToWidth[className] else DefaultWidth
  }

  /** `normalize_with_range`: the affine map taking `minPossible` to
      `targetMin` and `maxPossible` to `targetMax`. Equal ends raise a
      ZeroDivisionError. */
  function NormalizeWithRange(maxPossible: real, minPossible: real, targetMin: real, targetMax: real,
                              num: real): (r: Result<real>)
    ensures r.Err? <==> maxPossible == minPossible
    ensures r.Err? ==> r.error == ZeroDivision
    ensures r.Ok? ==>
      (r.value - targetMin) * (maxPossible - minPossible) == (num - minPossible) * (targetMax - targetMin)
  {
    if maxPossible == minPossible then Err(ZeroDivision)
    else
      var normalized := (num - minPossible) / (maxPossible - minPossible);
      DivideBack(num - minPossible, maxPossible - minPossible);
      assert normalized * (targetMax - targetMin) * (maxPossible - minPossible)
          == (num - minPossible) * (targetMax - targetMin);
      Ok(normalized * (targetMax - targetMin) + targetMin)
  }

  /** The two ends of the source range land on the two ends of the target
      range. */
  lemma NormalizeEndpoints(maxPossible: real, minPossible: real, targetMin: real, targetMax: real)
    requires maxPossible != minPossible
    ensures NormalizeWithRange(maxPossible, minPossible, targetMin, targetMax, minPossible) == Ok(targetMin)
    ensures NormalizeWithRange(maxPossible, minPossible, targetMin, targetMax, maxPossible) == Ok(targetMax)
  {
    var lo := NormalizeWithRange(maxPossible, minPossible, targetMin, targetMax, minPossible).value;
    var hi := NormalizeWithRange(maxPossible, minPossible, targetMin, targetMax, maxPossible).value;
    CancelFactor(lo - targetMin, 0.0, maxPossible - minPossible);
    CancelFactor(hi - targetMin, targetMax - targetMin, maxPossible - minPossible);
  }

  /** Line 128: the brightness boost of a detection of confidence `conf`. */
  function Beta(conf: real): (beta: real)
  {
    NormalizeWithRange(0.75, 1.0, 0.0, 75.0, conf).value
  }

  /** The boost is 0 for a certain detection and 75 at the tracker's
      confidence threshold of 0.75, it grows as confidence falls, and it
      stays within [0, 75] for every confidence the tracker lets through. */
  lemma BetaRange(conf: real, other: real)
    requires 0.75 <= conf <= 1.0
    ensures Beta(1.0) == 0.0 && Beta(0.75) == 75.0
    ensures 0.0 <= Beta(conf) <= 75.0
    ensures conf < other ==> Beta(other) < Beta(conf)
  {
    NormalizeEndpoints(0.75, 1.0, 0.0, 75.0);
    assert Beta(conf) * -0.25 == (conf - 1.0) * 75.0;
    assert Beta(other) * -0.25 == (other - 1.0) * 75.0;
  }

  /** Line 142: an object is in the ego lane when its lateral offset is
      strictly inside 1.5 m either side. */
  predicate CarInLane(x: real)
  {
    x < 1.5 && x > -1.5
  }

  lemma CarInLaneIsCentralBand(x: real)
    ensures CarInLane(x) <==> Abs(x) < 1.5
    ensures !CarInLane(1.5) && !CarInLane(-1.5) && CarInLane(0.0)
  {
  }

  /** The colour laid over a detection: channel 0 (red), channel 1 (left at
      0), channel 2 (blue), and the opacity of the overlay. */
  datatype Tint = Tint(red: int, green: int, blue: int, alpha: real)

  /** Line 197: `min(255, int(2.55 * risk))`. */
  function InLaneRed(risk: int): int
  {
    var red := Truncate(2.55 * risk as real);
    if red < 255 then red else 255
  }

  /** Line 205: `min(255, int(2.55 * (risk // 2)))`; for a positive divisor
      the floor division of Python and Dafny's `/` agree. */
  function OutOfLaneRed(risk: int): int
  {
    var red := Truncate(2.55 * (risk / 2) as real);
    if red < 255 then red else 255
  }

  /** Line 208: `min(0.5, 0.2 + risk / 200)`. */
  function Alpha(risk: int): real
  {
    Min(0.5, 0.2 + risk as real / 200.0)
  }

  /** `apply_tint_if_needed`, lines 193-208: red grows with the risk; in the
      lane blue makes up the rest of 255, out of it blue stays 0. */
  function TintFor(carInLane: bool, risk: int): (t: Tint)
    ensures t.green == 0 && t.red <= 255
    ensures carInLane ==> t.red == InLaneRed(risk) && t.blue == 255 - t.red
    ensures !carInLane ==> t.red == OutOfLaneRed(risk) && t.blue == 0
    ensures t.alpha == Alpha(risk)
  {
    if carInLane then
      var red := InLaneRed(risk);
      Tint(red, 0, if 255 - red < 0 then 0 else 255 - red, Alpha(risk))
    else
      Tint(OutOfLaneRed(risk), 0, 0, Alpha(risk))
  }

  /** For a score in [0, 100]: every channel is a valid intensity, in the
      lane red and blue always add up to 255, out of the lane red is never
      more than in it, and the opacity lies in [0.2, 0.5], reaching 0.5 from
      a score of 60 on. */
  lemma TintBounds(risk: int)
    requires 0 <= risk <= 100
    ensures var t := TintFor(true, risk);
      0 <= t.red <= 255 && 0 <= t.blue <= 255 && t.red + t.blue == 255
    ensures var t := TintFor(false, risk);
      0 <= t.red <= InLaneRed(risk) && t.blue == 0
    ensures 0.2 <= Alpha(risk) <= 0.5
    ensures Alpha(risk) == 0.5 <==> 60 <= risk
  {
    TruncateMonotone(0.0, 2.55 * risk as real);
    TruncateMonotone(2.55 * (risk / 2) as real, 2.55 * risk as real);
    TruncateMonotone(0.0, 2.55 * (risk / 2) as real);
  }

  /** A higher risk never gives less red. */
  lemma RedMonotone(r1: int, r2: int)
    requires 0 <= r1 <= r2
    ensures InLaneRed(r1) <= InLaneRed(r2)
    ensures OutOfLaneRed(r1) <= OutOfLaneRed(r2)
  {
    TruncateMonotone(2.55 * r1 as real, 2.55 * r2 as real);
    TruncateMonotone(2.55 * (r1 / 2) as real, 2.55 * (r2 / 2) as real);
  }

  function ToBBox(b: ObjectTracking.IntBox): RelativeLocation.BBox
  {
    RelativeLocation.BBox(b.x1 as real, b.y1 as real, b.x2 as real, b.y2 as real)
  }

  const Still: Vec3 := RelativeLocation.Vec3(0.0, 0.0, 0.0)

  /** Line 242: both `old_bbox` and `prev_time` are truthy (a time of 0.0 is
      falsy in Python; a box tuple never is). */
  predicate HasHistory(oldBBox: Option<ObjectTracking.IntBox>, prevTime: Option<real>)
  {
    oldBBox.Some? && prevTime.Some? && prevTime.value != 0.0
  }

  /** `calculate_velocity` with the width used for the previous box as a
      parameter: with history, the finite difference between the previous
      and the current position over the time since the previous frame;
      otherwise a remembered velocity, else standing still. */
  function VelocityOf(oldBBox: Option<ObjectTracking.IntBox>, prevTime: Option<real>,
                      prevVelocity: Option<Vec3>, coords: Vec3, imgWidth: real, imgHeight: real,
                      now: real, oldWidth: real): (r: Result<Vec3>)
    ensures !HasHistory(oldBBox, prevTime) ==>
      r == Ok(if prevVelocity.Some? then prevVelocity.value else Still)
    ensures HasHistory(oldBBox, prevTime) ==>
      var before := RelativeLocation.RelativeCoordinates(ToBBox(oldBBox.value), imgWidth, imgHeight,
                                                         FocalLength, oldWidth);
      (r.Err? <==> before.Err? || now == prevTime.value) &&
      (r.Ok? ==> RelativeLocation.Displace(before.value, r.value, now - prevTime.value) == coords)
  {
    if HasHistory(oldBBox, prevTime) then
      match RelativeLocation.RelativeCoordinates(ToBBox(oldBBox.value), imgWidth, imgHeight, FocalLength, oldWidth)
      case Err(e) => Err(e)
      case Ok(before) => RelativeLocation.Velocity(before, coords, now - prevTime.value)
    else if prevVelocity.Some? then Ok(prevVelocity.value)
    else Ok(Still)
  }

  /** The `obj` dictionary one detection is displayed from: the record the
      capture loop sent, plus the velocity `calculate_velocity` stores. */
  class TrackedObject {
    var bbox: ObjectTracking.IntBox
    var oldBBox: Option<ObjectTracking.IntBox>
    var prevTime: Option<real>
    var className: string
    var prevVelocity: Option<Vec3>

    constructor(info: ObjectTracking.BoxInfo)
      ensures bbox == info.bbox && oldBBox == info.oldBBox && prevTime == info.prevTime
      ensures className == info.className && prevVelocity == None
    {
      bbox := info.bbox;
      oldBBox := info.oldBBox;
      prevTime := info.prevTime;
      className := info.className;
      prevVelocity := None;
    }

    /** `calculate_velocity` as written (lines 240-257): the previous
        position is computed with the default width of 1.8 m whatever the
        label. The velocity is remembered only when it was computed. */
    method CalculateVelocity(coords: Vec3, imgWidth: real, imgHeight: real, now: real)
      returns (r: Result<Vec3>)
      modifies this
      ensures r == VelocityOf(old(oldBBox), old(prevTime), old(prevVelocity), coords, imgWidth, imgHeight,
                              now, DefaultWidth)
      ensures prevVelocity == if HasHistory(oldBBox, prevTime) && r.Ok? then Some(r.value) else old(prevVelocity)
      ensures bbox == old(bbox) && oldBBox == old(oldBBox) && prevTime == old(prevTime)
      ensures className == old(className)
    {
      r := VelocityOf(oldBBox, prevTime, prevVelocity, coords, imgWidth, imgHeight, now, DefaultWidth);
      if HasHistory(oldBBox, prevTime) && r.Ok? {
        prevVelocity := Some(r.value);
      }
    }

    /** `calculate_velocity` with the previous position computed from the
        same label width as the current one. */
    method CalculateVelocityCorrected(coords: Vec3, imgWidth: real, imgHeight: real, now: real)
      returns (r: Result<Vec3>)
      modifies this
      ensures r == VelocityOf(old(oldBBox), old(prevTime), old(prevVelocity), coords, imgWidth, imgHeight,
                              now, WidthFor(className))
      ensures prevVelocity == if HasHistory(oldBBox, prevTime) && r.Ok? then Some(r.value) else old(prevVelocity)
      ensures bbox == old(bbox) && oldBBox == old(oldBBox) && prevTime == old(prevTime)
      ensures className == old(className)
    {
      r := VelocityOf(oldBBox, prevTime, prevVelocity, coords, imgWidth, imgHeight, now, WidthFor(className));
      if HasHistory(oldBBox, prevTime) && r.Ok? {
        prevVelocity := Some(r.value);
      }
    }
  }

  /** As written: a person standing still, seen in the same 100-pixel box
      in two frames one second apart, is given a depth velocity of
      -16.5 m/s, that is, approaching (its current depth uses 0.15 m, its
      previous one 1.8 m). */
  lemma StationaryPersonSeemsToMove(imgWidth: real, imgHeight: real)
    ensures var box := ObjectTracking.IntBox(0, 0, 100, 300);
      var coords := RelativeLocation.RelativeCoordinates(ToBBox(box), imgWidth, imgHeight, FocalLength,
                                                         WidthFor("person"));
      coords.Ok? &&
      VelocityOf(Some(box), Some(1.0), None, coords.value, imgWidth, imgHeight, 2.0, DefaultWidth)
        == Ok(RelativeLocation.Vec3(
                (50.0 - imgWidth / 2.0) * -0.0165,
                (150.0 - imgHeight / 2.0) * -0.0165,
                -16.5))
  {
    var box := ObjectTracking.IntBox(0, 0, 100, 300);
    var now := RelativeLocation.RelativeCoordinates(ToBBox(box), imgWidth, imgHeight, FocalLength, 0.15).value;
    var before := RelativeLocation.RelativeCoordinates(ToBBox(box), imgWidth, imgHeight, FocalLength, 1.8).value;
    assert now.z == 1.5;
    assert before.z == 18.0;
    assert now.x == (50.0 - imgWidth / 2.0) * 0.0015;
    assert before.x == (50.0 - imgWidth / 2.0) * 0.018;
    assert now.y == (150.0 - imgHeight / 2.0) * 0.0015;
    assert before.y == (150.0 - imgHeight / 2.0) * 0.018;
  }

  /** Corrected: with the label's own width at both ends, an object whose
      box has not moved has zero velocity, whatever its label. */
  lemma StationaryObjectIsStill(box: ObjectTracking.IntBox, className: string, imgWidth: real,
                                imgHeight: real, prevTime: real, now: real)
    requires box.x2 != box.x1 && prevTime != 0.0 && now != prevTime
    ensures var coords := RelativeLocation.RelativeCoordinates(ToBBox(box), imgWidth, imgHeight, FocalLength,
                                                               WidthFor(className));
      coords.Ok? &&
      VelocityOf(Some(box), Some(prevTime), None, coords.value, imgWidth, imgHeight, now, WidthFor(className))
        == Ok(Still)
  {
    var coords := RelativeLocation.RelativeCoordinates(ToBBox(box), imgWidth, imgHeight, FocalLength,
                                                       WidthFor(className)).value;
    RelativeLocation.StationaryVelocity(coords, now - prevTime);
  }
}
