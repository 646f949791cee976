/** The collision-risk engine of CollisionSense/logic/risk_level.py.

    The ego vehicle sits at the origin and is at rest; the other object has a
    ground-plane position (x, z) and a relative velocity (vx, vz). The engine
    derives the distance, the closest approach, a time to collision and four
    risk factors, and folds them into an integer score in [0, 100]. */
module RiskLevel {
  import opened Numeric

  /** A ground-plane vector: lateral x and depth z. */
  datatype Vec2 = Vec2(x: real, z: real)

  const Origin: Vec2 := Vec2(0.0, 0.0)

  /** Below this relative speed (m/s) the object counts as stationary. */
  const SpeedEpsilon: real := 0.001
  /** Minimum passing distance (m) under which a trajectory is a collision course. */
  const SafePassingDistance: real := 3.0
  /** Time-to-collision horizon (s) beyond which the ttc factor is 0. */
  const TtcHorizon: real := 10.0
  /** The default `max_deceleration` (m/s^2), the value every caller uses. */
  const DefaultMaxDeceleration: real := 7.0

  /** `x**2 + z**2`: zero exactly at the origin. */
  function SquaredNorm(v: Vec2): (r: real)
    ensures 0.0 <= r
    ensures r == 0.0 <==> v == Origin
  {
    SumOfSquaresSign(v.x, v.z);
    Sq(v.x) + Sq(v.z)
  }

  function Dot(p: Vec2, v: Vec2): real
  {
    p.x * v.x + p.z * v.z
  }

  /** Where an object at p moving with v is after t seconds. */
  function At(p: Vec2, v: Vec2, t: real): Vec2
  {
    Vec2(p.x + v.x * t, p.z + v.z * t)
  }

  /** `calculate_distance` and `calculate_velocity_magnitude`: the Euclidean
      length of a ground-plane vector, the non-negative root of its squared
      norm, zero exactly for the zero vector. */
  function Magnitude(sqrt: real -> real, v: Vec2): (r: real)
    requires IsSqrt(sqrt)
    ensures 0.0 <= r && Sq(r) == SquaredNorm(v)
    ensures r == 0.0 <==> v == Origin
  {
    var r := sqrt(SquaredNorm(v));
    assert 0.0 <= r && Sq(r) == SquaredNorm(v);
    SquareSign(r);
    r
  }

  /** Time and distance of the closest approach; `Inf` time for an object
      that is (nearly) at rest relative to the ego vehicle. */
  datatype Approach = Approach(tClosest: ExtReal, minDistance: real)

  /** Lines 44-57: the closest approach along the straight-line trajectory,
      never later than now. */
  function ClosestApproach(sqrt: real -> real, p: Vec2, v: Vec2): (a: Approach)
    requires IsSqrt(sqrt)
    ensures 0.0 <= a.minDistance <= Magnitude(sqrt, p)
    ensures a.tClosest.Inf? <==> Magnitude(sqrt, v) <= SpeedEpsilon
    ensures a.tClosest.Inf? ==> a.minDistance == Magnitude(sqrt, p)
    ensures a.tClosest.Finite? ==>
              0.0 <= a.tClosest.r && a.minDistance == Magnitude(sqrt, At(p, v, a.tClosest.r))
    ensures a.tClosest.Finite? && Dot(p, v) < 0.0 ==>
              a.tClosest.r * SquaredNorm(v) == -Dot(p, v)
    ensures 0.0 <= Dot(p, v) ==> a.minDistance == Magnitude(sqrt, p)
    ensures 0.0 <= Dot(p, v) && a.tClosest.Finite? ==> a.tClosest.r == 0.0
  {
    var speed := Magnitude(sqrt, v);
    if speed > SpeedEpsilon then
      var t := Max(0.0, -Dot(p, v) / SquaredNorm(v));
      CloserAtClosest(p, v, t, 0.0);
      assert At(p, v, 0.0) == p;
      SqrtMonotone(sqrt, SquaredNorm(At(p, v, t)), SquaredNorm(p));
      Approach(Finite(t), Magnitude(sqrt, At(p, v, t)))
    else
      Approach(Inf, Magnitude(sqrt, p))
  }

  /** The squared distance along the trajectory is a quadratic in time. */
  lemma SquaredNormAt(p: Vec2, v: Vec2, s: real)
    ensures SquaredNorm(At(p, v, s)) == SquaredNorm(p) + 2.0 * s * Dot(p, v) + Sq(s) * SquaredNorm(v)
  {
    assert Sq(p.x + v.x * s) == Sq(p.x) + 2.0 * s * (p.x * v.x) + Sq(s) * Sq(v.x);
    assert Sq(p.z + v.z * s) == Sq(p.z) + 2.0 * s * (p.z * v.z) + Sq(s) * Sq(v.z);
  }

  /** The quadratic s -> 2 s d + s^2 w with w > 0 takes its least value over
      s >= 0 at t = max(0, -d / w). */
  lemma QuadraticMinimum(w: real, d: real, t: real, s: real)
    requires 0.0 < w
    requires t == Max(0.0, -d / w)
    requires 0.0 <= s
    ensures 2.0 * t * d + Sq(t) * w <= 2.0 * s * d + Sq(s) * w
  {
    var gap := (2.0 * s * d + Sq(s) * w) - (2.0 * t * d + Sq(t) * w);
    assert gap == Sq(s - t) * w + 2.0 * (s - t) * (d + t * w);
    SquareSign(s - t);
    MulNonNeg(Sq(s - t), w);
    if t == 0.0 {
      MulNonNeg(s, d);
    } else {
      assert d + t * w == 0.0;
    }
  }

  /** At t = max(0, -dot / |v|^2) the object is no farther away than at any
      other non-negative time s. */
  lemma CloserAtClosest(p: Vec2, v: Vec2, t: real, s: real)
    requires 0.0 < SquaredNorm(v)
    requires t == Max(0.0, -Dot(p, v) / SquaredNorm(v))
    requires 0.0 <= s
    ensures SquaredNorm(At(p, v, t)) <= SquaredNorm(At(p, v, s))
  {
    SquaredNormAt(p, v, s);
    SquaredNormAt(p, v, t);
    QuadraticMinimum(SquaredNorm(v), Dot(p, v), t, s);
  }

  /** The closest approach is a true minimum of the future separation: no
      moment from now on brings a moving object nearer than `min_distance`.
      (Below the speed threshold the current distance is used instead, which
      a slowly moving object can still undercut.) */
  lemma ClosestApproachIsMinimal(sqrt: real -> real, p: Vec2, v: Vec2, s: real)
    requires IsSqrt(sqrt)
    requires SpeedEpsilon < Magnitude(sqrt, v)
    requires 0.0 <= s
    ensures ClosestApproach(sqrt, p, v).minDistance <= Magnitude(sqrt, At(p, v, s))
  {
    var t := ClosestApproach(sqrt, p, v).tClosest.r;
    CloserAtClosest(p, v, t, s);
    SqrtMonotone(sqrt, SquaredNorm(At(p, v, t)), SquaredNorm(At(p, v, s)));
  }

  /** Lines 63-68: a finite time to collision only on a collision course
      (passing nearer than the safe distance, approaching, moving), and then
      the current distance over the relative speed. */
  function TimeToCollision(distance: real, minDistance: real, approaching: bool, speed: real): (ttc: ExtReal)
    ensures ttc.Finite? <==> minDistance < SafePassingDistance && approaching && 0.0 < speed
    ensures ttc.Finite? ==> ttc.r * speed == distance
    ensures ttc.Finite? && 0.0 <= distance ==> 0.0 <= ttc.r
  {
    if minDistance < SafePassingDistance && approaching && speed > 0.0 then
      Finite(distance / speed)
    else
      Inf
  }

  /** Line 76: the stopping distance v^2 / (2 a) of the other object; a zero
      deceleration is the source's ZeroDivisionError. */
  function StoppingDistance(speed: real, maxDeceleration: real): (d: Result<real>)
    ensures d.Err? <==> maxDeceleration == 0.0
    ensures d.Ok? ==> d.value * (2.0 * maxDeceleration) == Sq(speed)
    ensures d.Ok? && 0.0 < maxDeceleration ==> 0.0 <= d.value
    ensures d.Ok? && speed == 0.0 ==> d.value == 0.0
  {
    SquareSign(speed);
    if maxDeceleration == 0.0 then Err(ZeroDivision)
    else Ok(Sq(speed) / (2.0 * maxDeceleration))
  }

  /** Line 84: `max(combined_stopping_dist * 1.5, 5)`. */
  function SafeDistance(stopping: real): (s: real)
    ensures 5.0 <= s && 1.5 * stopping <= s
    ensures s == 5.0 || s == 1.5 * stopping
  {
    Max(stopping * 1.5, 5.0)
  }

  /** Line 85: higher when closer; zero exactly from the safe distance
      outwards, 100 at contact. */
  function DistanceFactor(distance: real, stopping: real): (f: real)
    ensures 0.0 <= f <= 100.0
    ensures f == 0.0 <==> SafeDistance(stopping) <= distance
    ensures distance <= 0.0 ==> f == 100.0
  {
    var safe := SafeDistance(stopping);
    assert distance / safe >= 1.0 <==> distance >= safe;
    Clamp(100.0 * (1.0 - distance / safe), 0.0, 100.0)
  }

  /** Lines 88-93: zero without a collision course or beyond the 10 s
      horizon, 100 for an immediate collision. */
  function TtcFactor(ttc: ExtReal): (f: real)
    ensures 0.0 <= f <= 100.0
    ensures f == 0.0 <==> ttc.Inf? || TtcHorizon <= ttc.r
    ensures ttc.Finite? && ttc.r <= 0.0 ==> f == 100.0
  {
    match ttc
    case Inf => 0.0
    case Finite(t) => Clamp(100.0 * (1.0 - t / TtcHorizon), 0.0, 100.0)
  }

  /** Lines 96-98: the stopping distance relative to the current distance
      (at least 1 m); zero exactly when the object needs no room to stop. */
  function SuddenStopFactor(stopping: real, distance: real): (f: real)
    ensures 0.0 <= f <= 100.0
    ensures f == 0.0 <==> stopping <= 0.0
    ensures Max(distance, 1.0) <= stopping ==> f == 100.0
  {
    var d := Max(distance, 1.0);
    var ratio := stopping / d;
    assert ratio * d == stopping;
    assert ratio >= 1.0 <==> stopping >= d;
    assert ratio <= 0.0 <==> stopping <= 0.0;
    Clamp(100.0 * ratio, 0.0, 100.0)
  }

  /** Lines 110-115: higher the nearer the closest approach. The source also
      zeroes it from three times the passing distance on, which the clamp
      already does from the passing distance itself. */
  function MinDistanceFactor(minDistance: real): (f: real)
    ensures 0.0 <= f <= 100.0
    ensures f == 0.0 <==> SafePassingDistance <= minDistance
    ensures minDistance <= 0.0 ==> f == 100.0
  {
    var f := Clamp(100.0 * (1.0 - minDistance / SafePassingDistance), 0.0, 100.0);
    if minDistance < SafePassingDistance * 3.0 then f else 0.0
  }

  /** Lines 102-107: `abs(cos)` of the angle between position and velocity,
      or 0 for an object at rest; a zero distance is the source's
      ZeroDivisionError. */
  function PerpendicularFactor(dot: real, distance: real, speed: real): (r: Result<real>)
    ensures r.Err? <==> SpeedEpsilon < speed && distance == 0.0
    ensures r.Ok? ==> 0.0 <= r.value
    ensures r.Ok? && SpeedEpsilon < speed && 0.0 < distance ==> r.value * (distance * speed) == Abs(dot)
    ensures speed <= SpeedEpsilon ==> r == Ok(0.0)
  {
    if speed > SpeedEpsilon then
      if distance == 0.0 then Err(ZeroDivision)
      else
        var q := distance * speed;
        assert q != 0.0 by {
          if distance < 0.0 {
            MulPos(-distance, speed);
            assert q == -((-distance) * speed);
          } else {
            MulPos(distance, speed);
          }
        }
        assert dot / q * q == dot;
        assert 0.0 < distance ==> 0.0 < q by {
          if 0.0 < distance {
            MulPos(distance, speed);
          }
        }
        Ok(Abs(dot / q))
    else
      Ok(0.0)
  }

  /** Lines 118-123: the weights 0.3, 0.3, 0.15 and 0.25 add up to one, so
      factors in [0, 100] give a sum in [0, 100], zero only if all are. */
  function CombineFactors(df: real, tf: real, sf: real, mf: real): (r: real)
    requires 0.0 <= df <= 100.0 && 0.0 <= tf <= 100.0
    requires 0.0 <= sf <= 100.0 && 0.0 <= mf <= 100.0
    ensures 0.0 <= r <= 100.0
    ensures r == 0.0 <==> df == 0.0 && tf == 0.0 && sf == 0.0 && mf == 0.0
    ensures df == tf == sf == mf ==> r == df
  {
    0.3 * df + 0.3 * tf + 0.15 * sf + 0.25 * mf
  }

  /** Lines 126-127: below 0.3 the risk is scaled by twice the factor, so
      it can only shrink, and then to less than 60 percent of itself. */
  function Discount(risk: real, pf: real): (r: real)
    requires 0.0 <= pf
    ensures 0.0 <= risk ==> 0.0 <= r <= risk
    ensures 0.3 <= pf ==> r == risk
    ensures pf < 0.3 && 0.0 < risk ==> r < 0.6 * risk
    ensures pf == 0.0 ==> r == 0.0
  {
    if pf < 0.3 then risk * (pf * 2.0) else risk
  }

  /** Line 129: `min(100, max(0, round(risk)))`. */
  function FinalScore(risk: real): (s: int)
    ensures 0 <= s <= 100
    ensures 0.0 <= risk <= 100.0 ==> s == RoundHalfEven(risk)
    ensures 0.0 <= risk <= 100.0 ==> -0.5 <= risk - s as real <= 0.5
  {
    var n := RoundHalfEven(risk);
    assert 0.0 <= risk <= 100.0 ==> 0 <= n <= 100 by {
      if 0.0 <= risk <= 100.0 {
        RoundWithin(risk, 0, 100);
      }
    }
    if n < 0 then 0 else if n > 100 then 100 else n
  }

  /** Lines 59-129 on the measured quantities: the score from the distance,
      the relative speed, the dot product of position and velocity and the
      closest-approach distance. */
  function ScoreFromMeasurements(distance: real, speed: real, dot: real, minDistance: real,
                                 maxDeceleration: real): (r: Result<int>)
    ensures r.Err? <==> maxDeceleration == 0.0 || (SpeedEpsilon < speed && distance == 0.0)
    ensures r.Ok? ==> 0 <= r.value <= 100
  {
    var ttc := TimeToCollision(distance, minDistance, dot < 0.0, speed);
    match StoppingDistance(speed, maxDeceleration)
    case Err(e) => Err(e)
    case Ok(stopping) =>
      var weighted := CombineFactors(DistanceFactor(distance, stopping), TtcFactor(ttc),
                                     SuddenStopFactor(stopping, distance),
                                     MinDistanceFactor(minDistance));
      match PerpendicularFactor(dot, distance, speed)
      case Err(e) => Err(e)
      case Ok(pf) => Ok(FinalScore(Discount(weighted, pf)))
  }

  /** The score fails exactly for a zero deceleration or a moving object at
      the origin, whatever the closest-approach distance. */
  lemma ScoreFailsExactly(sqrt: real -> real, pos: Vec2, vel: Vec2, minDistance: real, maxDeceleration: real)
    requires IsSqrt(sqrt)
    ensures ScoreFromMeasurements(Magnitude(sqrt, pos), Magnitude(sqrt, vel), Dot(pos, vel), minDistance,
                                  maxDeceleration).Err?
        <==> maxDeceleration == 0.0 || (pos == Origin && SpeedEpsilon < Magnitude(sqrt, vel))
  {
    var distance, speed := Magnitude(sqrt, pos), Magnitude(sqrt, vel);
    var r := ScoreFromMeasurements(distance, speed, Dot(pos, vel), minDistance, maxDeceleration);
    assert r.Err? <==> maxDeceleration == 0.0 || (SpeedEpsilon < speed && distance == 0.0);
    assert distance == 0.0 <==> pos == Origin;
  }

  /** `calculate_risk_level`: an integer score in [0, 100], or the
      ZeroDivisionError the source raises for a zero deceleration or for a
      moving object at the origin. */
  function CalculateRiskLevel(sqrt: real -> real, pos: Vec2, vel: Vec2, maxDeceleration: real): (r: Result<int>)
    requires IsSqrt(sqrt)
    ensures r.Err? <==> maxDeceleration == 0.0 || (pos == Origin && SpeedEpsilon < Magnitude(sqrt, vel))
    ensures r.Ok? ==> 0 <= r.value <= 100
  {
    var minDistance := ClosestApproach(sqrt, pos, vel).minDistance;
    ScoreFailsExactly(sqrt, pos, vel, minDistance, maxDeceleration);
    ScoreFromMeasurements(Magnitude(sqrt, pos), Magnitude(sqrt, vel), Dot(pos, vel), minDistance, maxDeceleration)
  }

  /** Lines 102-107, 126-127: an object slower than the threshold has a
      perpendicular factor of 0, which zeroes the whole score. */
  lemma SlowObjectScoresZero(sqrt: real -> real, pos: Vec2, vel: Vec2, maxDeceleration: real)
    requires IsSqrt(sqrt)
    requires Magnitude(sqrt, vel) <= SpeedEpsilon
    requires maxDeceleration != 0.0
    ensures CalculateRiskLevel(sqrt, pos, vel, maxDeceleration) == Ok(0)
  {
    RoundOfInteger(0);
  }

  /** Lines 38-39, 45-48, 64-68, 88-89: an object that is not approaching has
      its closest approach now, so no time to collision and no ttc risk. */
  lemma RecedingObjectHasNoTtcRisk(sqrt: real -> real, pos: Vec2, vel: Vec2)
    requires IsSqrt(sqrt)
    requires 0.0 <= Dot(pos, vel)
    ensures ClosestApproach(sqrt, pos, vel).minDistance == Magnitude(sqrt, pos)
    ensures TimeToCollision(Magnitude(sqrt, pos), ClosestApproach(sqrt, pos, vel).minDistance,
                            Dot(pos, vel) < 0.0, Magnitude(sqrt, vel)) == Inf
    ensures TtcFactor(TimeToCollision(Magnitude(sqrt, pos), ClosestApproach(sqrt, pos, vel).minDistance,
                                      Dot(pos, vel) < 0.0, Magnitude(sqrt, vel))) == 0.0
  {
  }

  /** Lagrange's identity in the plane: |p|^2 |v|^2 = (p.v)^2 + (p x v)^2. */
  lemma LagrangeIdentity(p: Vec2, v: Vec2)
    ensures SquaredNorm(p) * SquaredNorm(v) == Sq(Dot(p, v)) + Sq(p.x * v.z - p.z * v.x)
  {
  }

  lemma SquareOfProduct(a: real, b: real)
    ensures Sq(a * b) == Sq(a) * Sq(b)
  {
  }

  /** A square bounded by the square of a non-negative b bounds |a| by b. */
  lemma SquareBound(a: real, b: real)
    requires 0.0 <= b && Sq(a) <= Sq(b)
    ensures Abs(a) <= b
  {
    assert Sq(Abs(a)) == Sq(a);
    SquaresDiffer(Abs(a), b);
  }

  /** If a^2 <= m n with m = d^2 and n = s^2 (d, s >= 0), then |a| <= d s. */
  lemma ProductBound(a: real, m: real, n: real, d: real, s: real)
    requires Sq(a) <= m * n
    requires m == Sq(d) && n == Sq(s) && 0.0 <= d && 0.0 <= s
    ensures Abs(a) <= d * s
  {
    SquareOfProduct(d, s);
    MulNonNeg(d, s);
    SquareBound(a, d * s);
  }

  /** Cauchy-Schwarz: |p.v| <= |p| |v|. */
  lemma CauchySchwarz(sqrt: real -> real, p: Vec2, v: Vec2)
    requires IsSqrt(sqrt)
    ensures Abs(Dot(p, v)) <= Magnitude(sqrt, p) * Magnitude(sqrt, v)
  {
    var np, nv := SquaredNorm(p), SquaredNorm(v);
    assert Sq(Dot(p, v)) <= np * nv by {
      LagrangeIdentity(p, v);
      SquareSign(p.x * v.z - p.z * v.x);
    }
    ProductBound(Dot(p, v), np, nv, Magnitude(sqrt, p), Magnitude(sqrt, v));
  }

  /** Line 105: the perpendicular factor is the absolute cosine of the angle
      between position and velocity, so it never exceeds 1, and it is 1 for
      an object heading straight at the ego vehicle. */
  lemma PerpendicularFactorIsCosine(sqrt: real -> real, pos: Vec2, vel: Vec2)
    requires IsSqrt(sqrt)
    requires pos != Origin
    ensures var pf := PerpendicularFactor(Dot(pos, vel), Magnitude(sqrt, pos), Magnitude(sqrt, vel));
      pf.Ok? && pf.value <= 1.0
  {
    var d, s := Magnitude(sqrt, pos), Magnitude(sqrt, vel);
    if SpeedEpsilon < s {
      assert 0.0 < d;
      assert Abs(Dot(pos, vel)) <= d * s by { CauchySchwarz(sqrt, pos, vel); }
      CosineAtMostOne(Dot(pos, vel), d, s);
    }
  }

  /** The perpendicular factor of any dot product bounded by distance times
      speed is at most 1. */
  lemma CosineAtMostOne(dot: real, distance: real, speed: real)
    requires 0.0 < distance && SpeedEpsilon < speed
    requires Abs(dot) <= distance * speed
    ensures var pf := PerpendicularFactor(dot, distance, speed); pf.Ok? && pf.value <= 1.0
  {
    var pf := PerpendicularFactor(dot, distance, speed).value;
    assert 0.0 < distance * speed by { MulPos(distance, speed); }
    RatioAtMostOne(pf, Abs(dot), distance * speed);
  }

  lemma RatioAtMostOne(ratio: real, a: real, q: real)
    requires 0.0 < q && ratio * q == a && a <= q
    ensures ratio <= 1.0
  {
    if 1.0 < ratio {
      MulPos(ratio - 1.0, q);
    }
  }

  /** The scoring of an object 20 m away closing head-on at 10 m/s with the
      default deceleration: the factors are 0, 80, 250/7 and 100, and the
      weighted sum 54.36 rounds to 54. */
  lemma HeadOnScore()
    ensures ScoreFromMeasurements(20.0, 10.0, -200.0, 0.0, DefaultMaxDeceleration) == Ok(54)
  {
    var stopping := 100.0 / 14.0;
    assert Sq(10.0) == 100.0;
    assert StoppingDistance(10.0, 7.0) == Ok(stopping);
    assert TimeToCollision(20.0, 0.0, true, 10.0) == Finite(2.0);
    assert DistanceFactor(20.0, stopping) == 0.0;
    assert TtcFactor(Finite(2.0)) == 80.0;
    assert SuddenStopFactor(stopping, 20.0) == 2500.0 / 70.0;
    assert MinDistanceFactor(0.0) == 100.0;
    assert PerpendicularFactor(-200.0, 20.0, 10.0) == Ok(1.0);
    RoundNear(49.0 + 0.15 * (2500.0 / 70.0), 54);
  }

  /** An object 20 m straight ahead closing at 10 m/s: distance 20, speed
      10 and a closest approach of 0 after 2 s. */
  lemma HeadOnScenario(sqrt: real -> real)
    requires IsSqrt(sqrt)
    ensures CalculateRiskLevel(sqrt, Vec2(0.0, 20.0), Vec2(0.0, -10.0), DefaultMaxDeceleration) == Ok(54)
  {
    var pos, vel := Vec2(0.0, 20.0), Vec2(0.0, -10.0);
    SqrtUnique(sqrt, 400.0, 20.0);
    SqrtUnique(sqrt, 100.0, 10.0);
    SqrtZero(sqrt);
    assert Magnitude(sqrt, pos) == 20.0;
    assert Magnitude(sqrt, vel) == 10.0;
    assert At(pos, vel, 2.0) == Origin;
    assert ClosestApproach(sqrt, pos, vel).minDistance == 0.0;
    HeadOnScore();
  }

  /** The scoring of an object that passes 10 m to the side: no collision
      course, so only the sudden-stop factor contributes, and the score is 5
      for any current distance between 22 and 23 m. */
  lemma OffsetScore(distance: real)
    requires 22.0 < distance < 23.0
    ensures ScoreFromMeasurements(distance, 10.0, -200.0, 10.0, DefaultMaxDeceleration) == Ok(5)
  {
    var stopping := 100.0 / 14.0;
    assert Sq(10.0) == 100.0;
    assert StoppingDistance(10.0, 7.0) == Ok(stopping);
    assert TimeToCollision(distance, 10.0, true, 10.0) == Inf;
    assert DistanceFactor(distance, stopping) == 0.0;
    var sf := SuddenStopFactor(stopping, distance);
    assert sf == 100.0 * stopping / distance;
    assert sf * distance == 100.0 * stopping;
    assert 31.0 < sf < 33.0;
    assert MinDistanceFactor(10.0) == 0.0;
    var pf := PerpendicularFactor(-200.0, distance, 10.0);
    assert pf.value * (distance * 10.0) == 200.0;
    assert 0.3 <= pf.value;
    RoundNear(0.15 * sf, 5);
  }

  /** An object at (10, 20) moving at 10 m/s straight towards the ego
      vehicle's lateral line: it passes 10 m to the side after 2 s. */
  lemma OffsetScenario(sqrt: real -> real)
    requires IsSqrt(sqrt)
    ensures CalculateRiskLevel(sqrt, Vec2(10.0, 20.0), Vec2(0.0, -10.0), DefaultMaxDeceleration) == Ok(5)
  {
    var pos, vel := Vec2(10.0, 20.0), Vec2(0.0, -10.0);
    var distance := Magnitude(sqrt, pos);
    SqrtLessThan(sqrt, 500.0, 22.0);
    SqrtLessThan(sqrt, 500.0, 23.0);
    assert 22.0 < distance < 23.0;
    SqrtUnique(sqrt, 100.0, 10.0);
    assert Magnitude(sqrt, vel) == 10.0;
    assert At(pos, vel, 2.0) == Vec2(10.0, 0.0);
    assert ClosestApproach(sqrt, pos, vel).minDistance == 10.0;
    OffsetScore(distance);
  }

  /** The reflection x -> -x across the ego vehicle's heading. */
  function Mirror(v: Vec2): Vec2
  {
    Vec2(-v.x, v.z)
  }

  lemma MirrorPreservesNorm(v: Vec2)
    ensures SquaredNorm(Mirror(v)) == SquaredNorm(v)
  {
    assert Sq(-v.x) == Sq(v.x);
  }

  lemma MirrorPreservesDot(p: Vec2, v: Vec2)
    ensures Dot(Mirror(p), Mirror(v)) == Dot(p, v)
  {
    NegMul(p.x, -v.x);
  }

  lemma MirrorPreservesMagnitude(sqrt: real -> real, v: Vec2)
    requires IsSqrt(sqrt)
    ensures Magnitude(sqrt, Mirror(v)) == Magnitude(sqrt, v)
  {
    MirrorPreservesNorm(v);
  }

  /** Mirroring commutes with motion: the mirrored object is as far away at
      every instant. */
  lemma MirrorPreservesNormAt(p: Vec2, v: Vec2, t: real)
    ensures SquaredNorm(At(Mirror(p), Mirror(v), t)) == SquaredNorm(At(p, v, t))
  {
    SquaredNormAt(p, v, t);
    SquaredNormAt(Mirror(p), Mirror(v), t);
    MirrorPreservesNorm(p);
    MirrorPreservesNorm(v);
    MirrorPreservesDot(p, v);
  }

  lemma MirrorPreservesApproach(sqrt: real -> real, p: Vec2, v: Vec2)
    requires IsSqrt(sqrt)
    ensures ClosestApproach(sqrt, Mirror(p), Mirror(v)) == ClosestApproach(sqrt, p, v)
  {
    var mp, mv := Mirror(p), Mirror(v);
    MirrorPreservesMagnitude(sqrt, v);
    if Magnitude(sqrt, v) > SpeedEpsilon {
      MirrorPreservesNorm(v);
      MirrorPreservesDot(p, v);
      var t := Max(0.0, -Dot(p, v) / SquaredNorm(v));
      MirrorPreservesNormAt(p, v, t);
      assert Magnitude(sqrt, At(mp, mv, t)) == Magnitude(sqrt, At(p, v, t));
    } else {
      MirrorPreservesMagnitude(sqrt, p);
    }
  }

  /** The score does not depend on which side the object is on: mirroring
      position and velocity left to right leaves it unchanged. */
  lemma MirrorSymmetry(sqrt: real -> real, pos: Vec2, vel: Vec2, maxDeceleration: real)
    requires IsSqrt(sqrt)
    ensures CalculateRiskLevel(sqrt, Mirror(pos), Mirror(vel), maxDeceleration)
         == CalculateRiskLevel(sqrt, pos, vel, maxDeceleration)
  {
    var mp, mv := Mirror(pos), Mirror(vel);
    assert Magnitude(sqrt, mp) == Magnitude(sqrt, pos) by { MirrorPreservesMagnitude(sqrt, pos); }
    assert Magnitude(sqrt, mv) == Magnitude(sqrt, vel) by { MirrorPreservesMagnitude(sqrt, vel); }
    assert ClosestApproach(sqrt, mp, mv) == ClosestApproach(sqrt, pos, vel) by {
      MirrorPreservesApproach(sqrt, pos, vel);
    }
    MirrorPreservesDot(pos, vel);
    RiskFromMeasurements(sqrt, pos, vel, maxDeceleration);
    RiskFromMeasurements(sqrt, mp, mv, maxDeceleration);
  }

  /** `calculate_risk_level` depends on position and velocity only through
      the distance, the speed, their dot product and the closest approach. */
  lemma RiskFromMeasurements(sqrt: real -> real, pos: Vec2, vel: Vec2, maxDeceleration: real)
    requires IsSqrt(sqrt)
    ensures CalculateRiskLevel(sqrt, pos, vel, maxDeceleration)
         == ScoreFromMeasurements(Magnitude(sqrt, pos), Magnitude(sqrt, vel), Dot(pos, vel),
                                  ClosestApproach(sqrt, pos, vel).minDistance, maxDeceleration)
  {
  }
}
