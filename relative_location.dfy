/** The pinhole-camera and kinematics helpers of
    `CollisionSense/logic/relative_location.py`: where a detected box lies in
    camera coordinates, a finite-difference velocity, and a standalone
    time-to-collision. Every division the source performs can raise Python's
    ZeroDivisionError, which the model returns as `Err(ZeroDivision)`. */
module RelativeLocation {
  import opened Numeric

  /** A bounding box `(x1, y1, x2, y2)` in pixels. */
  datatype BBox = BBox(x1: real, y1: real, x2: real, y2: real)

  /** A point or velocity in camera space: lateral, vertical, depth. */
  datatype Vec3 = Vec3(x: real, y: real, z: real)

  /** The default `known_width`: an average car is 1.8 m wide. */
  const CarWidth: real := 1.8

  function Width(b: BBox): real
  {
    b.x2 - b.x1
  }

  function CenterX(b: BBox): real
  {
    (b.x1 + b.x2) / 2.0
  }

  function CenterY(b: BBox): real
  {
    (b.y1 + b.y2) / 2.0
  }

  /** `get_relative_coordinates`: depth from similar triangles, then the
      offset of the box centre from the image centre scaled by depth over
      focal length. It fails exactly when the box has zero width or the
      focal length is zero. */
  function RelativeCoordinates(b: BBox, imageWidth: real, imageHeight: real, focalLength: real,
                               knownWidth: real): (r: Result<Vec3>)
    ensures r.Err? <==> Width(b) == 0.0 || focalLength == 0.0
    ensures r.Err? ==> r.error == ZeroDivision
    ensures r.Ok? ==> r.value.z * Width(b) == knownWidth * focalLength
    ensures r.Ok? ==> r.value.x * focalLength == (CenterX(b) - imageWidth / 2.0) * r.value.z
    ensures r.Ok? ==> r.value.y * focalLength == (CenterY(b) - imageHeight / 2.0) * r.value.z
  {
    var w := Width(b);
    if w == 0.0 then Err(ZeroDivision)
    else
      var z := (knownWidth * focalLength) / w;
      DivideBack(knownWidth * focalLength, w);
      if focalLength == 0.0 then Err(ZeroDivision)
      else
        var dx := (CenterX(b) - imageWidth / 2.0) * z;
        var dy := (CenterY(b) - imageHeight / 2.0) * z;
        DivideBack(dx, focalLength);
        DivideBack(dy, focalLength);
        Ok(Vec3(dx / focalLength, dy / focalLength, z))
  }

  /** Line 31: a real object (positive width and focal length) in a box of
      positive width lies in front of the camera. */
  lemma DepthPositive(b: BBox, imageWidth: real, imageHeight: real, focalLength: real, knownWidth: real)
    requires 0.0 < knownWidth && 0.0 < focalLength && 0.0 < Width(b)
    ensures var r := RelativeCoordinates(b, imageWidth, imageHeight, focalLength, knownWidth);
      r.Ok? && 0.0 < r.value.z
  {
    var r := RelativeCoordinates(b, imageWidth, imageHeight, focalLength, knownWidth);
    MulPos(knownWidth, focalLength);
    if r.value.z <= 0.0 {
      MulPos(-r.value.z, Width(b));
    }
  }

  /** The plain-real core of `DepthShrinks`: with z * w fixed and positive, a
      wider w means a smaller z. */
  lemma InverseDecreasing(c: real, w1: real, z1: real, w2: real, z2: real)
    requires 0.0 < c && 0.0 < w1 < w2
    requires z1 * w1 == c && z2 * w2 == c
    ensures 0.0 < z2 < z1
  {
    if z2 <= 0.0 {
      MulPos(-z2, w2);
    }
    if z1 <= z2 {
      MulPos(z2, w2 - w1);
      MulNonNeg(z2 - z1, w1);
    }
  }

  /** Lines 30-31: the same object seen in a wider box is nearer. */
  lemma DepthShrinks(b1: BBox, b2: BBox, imageWidth: real, imageHeight: real, focalLength: real,
                     knownWidth: real)
    requires 0.0 < knownWidth && 0.0 < focalLength
    requires 0.0 < Width(b1) < Width(b2)
    ensures var r1 := RelativeCoordinates(b1, imageWidth, imageHeight, focalLength, knownWidth);
      var r2 := RelativeCoordinates(b2, imageWidth, imageHeight, focalLength, knownWidth);
      r1.Ok? && r2.Ok? && r2.value.z < r1.value.z
  {
    var r1 := RelativeCoordinates(b1, imageWidth, imageHeight, focalLength, knownWidth);
    var r2 := RelativeCoordinates(b2, imageWidth, imageHeight, focalLength, knownWidth);
    MulPos(knownWidth, focalLength);
    InverseDecreasing(knownWidth * focalLength, Width(b1), r1.value.z, Width(b2), r2.value.z);
  }

  /** With q > 0, p * z / q (already multiplied out as r * q == p * z) has
      the sign of p. */
  lemma SignOfScaled(r: real, p: real, z: real, q: real)
    requires 0.0 < z && 0.0 < q && r * q == p * z
    ensures 0.0 < r <==> 0.0 < p
    ensures r == 0.0 <==> p == 0.0
    ensures r < 0.0 <==> p < 0.0
  {
    if 0.0 < p {
      MulPos(p, z);
      if r <= 0.0 {
        MulNonNeg(-r, q);
      }
    } else if p < 0.0 {
      MulPos(-p, z);
      if 0.0 <= r {
        MulNonNeg(r, q);
      }
    } else if r < 0.0 {
      MulPos(-r, q);
    } else if 0.0 < r {
      MulPos(r, q);
    }
  }

  /** Lines 26 and 36: for an object in front of the camera, x is negative,
      zero or positive exactly as the box centre is left of, on, or right of
      the image centre. */
  lemma LateralSign(b: BBox, imageWidth: real, imageHeight: real, focalLength: real, knownWidth: real)
    requires 0.0 < knownWidth && 0.0 < focalLength && 0.0 < Width(b)
    ensures var r := RelativeCoordinates(b, imageWidth, imageHeight, focalLength, knownWidth);
      r.Ok? &&
      (0.0 < r.value.x <==> imageWidth / 2.0 < CenterX(b)) &&
      (r.value.x == 0.0 <==> CenterX(b) == imageWidth / 2.0) &&
      (r.value.x < 0.0 <==> CenterX(b) < imageWidth / 2.0)
  {
    DepthPositive(b, imageWidth, imageHeight, focalLength, knownWidth);
    var r := RelativeCoordinates(b, imageWidth, imageHeight, focalLength, knownWidth).value;
    SignOfScaled(r.x, CenterX(b) - imageWidth / 2.0, r.z, focalLength);
  }

  /** Lines 27 and 39: y is negative, zero or positive exactly as the box
      centre is above, on, or below the image centre. */
  lemma VerticalSign(b: BBox, imageWidth: real, imageHeight: real, focalLength: real, knownWidth: real)
    requires 0.0 < knownWidth && 0.0 < focalLength && 0.0 < Width(b)
    ensures var r := RelativeCoordinates(b, imageWidth, imageHeight, focalLength, knownWidth);
      r.Ok? &&
      (0.0 < r.value.y <==> imageHeight / 2.0 < CenterY(b)) &&
      (r.value.y == 0.0 <==> CenterY(b) == imageHeight / 2.0) &&
      (r.value.y < 0.0 <==> CenterY(b) < imageHeight / 2.0)
  {
    DepthPositive(b, imageWidth, imageHeight, focalLength, knownWidth);
    var r := RelativeCoordinates(b, imageWidth, imageHeight, focalLength, knownWidth).value;
    SignOfScaled(r.y, CenterY(b) - imageHeight / 2.0, r.z, focalLength);
  }

  /** A box centred on the image lies straight ahead, whatever the other
      inputs, as long as the coordinates are defined at all. */
  lemma CenteredBoxIsAhead(b: BBox, imageWidth: real, imageHeight: real, focalLength: real, knownWidth: real)
    requires CenterX(b) == imageWidth / 2.0 && CenterY(b) == imageHeight / 2.0
    requires Width(b) != 0.0 && focalLength != 0.0
    ensures var r := RelativeCoordinates(b, imageWidth, imageHeight, focalLength, knownWidth);
      r.Ok? && r.value.x == 0.0 && r.value.y == 0.0
  {
  }

  /** The position reached from `p` after moving with velocity `v` for `t`
      seconds. */
  function Displace(p: Vec3, v: Vec3, t: real): Vec3
  {
    Vec3(p.x + v.x * t, p.y + v.y * t, p.z + v.z * t)
  }

  /** `get_velocity`: the componentwise difference quotient. It fails
      exactly for a zero elapsed time, and otherwise moving from the initial
      position with the result for that time arrives at the new position. */
  function Velocity(initial: Vec3, current: Vec3, timeElapsed: real): (r: Result<Vec3>)
    ensures r.Err? <==> timeElapsed == 0.0
    ensures r.Err? ==> r.error == ZeroDivision
    ensures r.Ok? ==> Displace(initial, r.value, timeElapsed) == current
  {
    if timeElapsed == 0.0 then Err(ZeroDivision)
    else
      var dx, dy, dz := current.x - initial.x, current.y - initial.y, current.z - initial.z;
      DivideBack(dx, timeElapsed);
      DivideBack(dy, timeElapsed);
      DivideBack(dz, timeElapsed);
      Ok(Vec3(dx / timeElapsed, dy / timeElapsed, dz / timeElapsed))
  }

  /** The other direction of the round trip: the velocity between a point
      and where a velocity carries it is that velocity. */
  lemma VelocityOfDisplacement(p: Vec3, v: Vec3, t: real)
    requires t != 0.0
    ensures Velocity(p, Displace(p, v, t), t) == Ok(v)
  {
    var r := Velocity(p, Displace(p, v, t), t).value;
    assert r.x * t == v.x * t;
    assert r.y * t == v.y * t;
    assert r.z * t == v.z * t;
    CancelFactor(r.x, v.x, t);
    CancelFactor(r.y, v.y, t);
    CancelFactor(r.z, v.z, t);
  }

  /** An object that has not moved has zero velocity. */
  lemma StationaryVelocity(p: Vec3, t: real)
    requires t != 0.0
    ensures Velocity(p, p, t) == Ok(Vec3(0.0, 0.0, 0.0))
  {
    VelocityOfDisplacement(p, Vec3(0.0, 0.0, 0.0), t);
    assert Displace(p, Vec3(0.0, 0.0, 0.0), t) == p;
  }

  /** `calculate_time_to_collision`: no collision for an object that is not
      approaching, otherwise the distance over the closing speed, made
      non-negative. */
  function TimeToCollision(distance: real, relativeVelocity: real): (r: Option<real>)
    ensures r.None? <==> 0.0 <= relativeVelocity
    ensures r.Some? ==> 0.0 <= r.value && r.value * -relativeVelocity == Abs(distance)
  {
    if relativeVelocity >= 0.0 then None
    else
      var q := distance / relativeVelocity;
      DivideBack(distance, relativeVelocity);
      assert Abs(q) * -relativeVelocity == Abs(distance) by {
        if q < 0.0 {
          NegMul(q, relativeVelocity);
        }
      }
      Some(Abs(q))
  }

  /** For a non-negative distance the time is simply distance over closing
      speed. */
  lemma TimeToCollisionForward(distance: real, relativeVelocity: real)
    requires 0.0 <= distance && relativeVelocity < 0.0
    ensures TimeToCollision(distance, relativeVelocity) == Some(distance / -relativeVelocity)
  {
    var t := TimeToCollision(distance, relativeVelocity).value;
    DivideBack(distance, -relativeVelocity);
    CancelFactor(t, distance / -relativeVelocity, -relativeVelocity);
  }
}
