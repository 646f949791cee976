/** Shared value types, the fail-fast map over a sequence, and the numeric primitives the Python code relies on:
    `max`/`min` clamps, `abs`, `math.sqrt`, `round` (ties to even) and `int()`
    on a float (truncation toward zero). All arithmetic is over `real`. */
module Numeric {

  datatype Option<+T> = None | Some(value: T)

  /** The run-time failures of the source that the model keeps visible. */
  datatype Error =
    | ZeroDivision      // Python's ZeroDivisionError
    | MissingKey        // a dictionary lookup that would raise KeyError

  datatype Result<+T> = Ok(value: T) | Err(error: Error)

  /** `f` applied to every element in order, giving up at the first
      element whose result is an error: a loop that appends one result per
      element and is cut short by the first exception or panic. */
  function MapResult<T, U>(xs: seq<T>, f: T -> Result<U>): Result<seq<U>>
  {
    if |xs| == 0 then Ok([])
    else
      match MapResult(xs[..|xs| - 1], f)
      case Err(e) => Err(e)
      case Ok(front) =>
        match f(xs[|xs| - 1])
        case Err(e) => Err(e)
        case Ok(y) => Ok(front + [y])
  }

  /** The map fails exactly when some element does; otherwise it has one
      result per element, in order. */
  lemma {:induction false} MapResultSpec<T, U>(xs: seq<T>, f: T -> Result<U>)
    ensures MapResult(xs, f).Err? <==> exists i :: 0 <= i < |xs| && f(xs[i]).Err?
    ensures MapResult(xs, f).Ok? ==>
      |MapResult(xs, f).value| == |xs| &&
      forall i :: 0 <= i < |xs| ==> f(xs[i]) == Ok(MapResult(xs, f).value[i])
    decreases |xs|
  {
    if |xs| > 0 {
      var n := |xs| - 1;
      var front := xs[..n];
      MapResultSpec(front, f);
      if MapResult(front, f).Err? {
        var i :| 0 <= i < |front| && f(front[i]).Err?;
        assert xs[i] == front[i];
      } else if f(xs[n]).Ok? {
        forall i | 0 <= i < |xs|
          ensures f(xs[i]).Ok?
        {
          if i < n {
            assert xs[i] == front[i];
          }
        }
      }
    }
  }

  /** Once a prefix fails, the whole sequence fails the same way. */
  lemma {:induction false} MapResultFailureSticks<T, U>(xs: seq<T>, f: T -> Result<U>, i: nat)
    requires i <= |xs| && MapResult(xs[..i], f).Err?
    ensures MapResult(xs, f) == MapResult(xs[..i], f)
    decreases |xs| - i
  {
    if i < |xs| {
      assert xs[..i + 1][..i] == xs[..i];
      MapResultFailureSticks(xs, f, i + 1);
    } else {
      assert xs[..i] == xs;
    }
  }

  /** The loop that appends `f(x)` for each `x` in turn and stops at the
      first failure: it computes exactly `MapResult`. */
  method MapLoop<T, U>(xs: seq<T>, f: T -> Result<U>) returns (r: Result<seq<U>>)
    ensures r == MapResult(xs, f)
  {
    var output: seq<U> := [];
    for i := 0 to |xs|
      invariant MapResult(xs[..i], f) == Ok(output)
    {
      assert xs[..i + 1][..i] == xs[..i];
      var rec := f(xs[i]);
      if rec.Err? {
        MapResultFailureSticks(xs, f, i + 1);
        return Err(rec.error);
      }
      output := output + [rec.value];
    }
    assert xs[..|xs|] == xs;
    return Ok(output);
  }

  /** A float that may be `float("inf")`. */
  datatype ExtReal = Finite(r: real) | Inf

  function Abs(x: real): (r: real)
    ensures r >= 0.0
    ensures r == x || r == -x
  {
    if x < 0.0 then -x else x
  }

  function Max(a: real, b: real): (r: real)
    ensures r >= a && r >= b
    ensures r == a || r == b
  {
    if a >= b then a else b
  }

  function Min(a: real, b: real): (r: real)
    ensures r <= a && r <= b
    ensures r == a || r == b
  {
    if a <= b then a else b
  }

  /** `max(lo, min(hi, v))`, the clamp every risk factor goes through. */
  function Clamp(v: real, lo: real, hi: real): (r: real)
    requires lo <= hi
    ensures lo <= r <= hi
    ensures lo <= v <= hi ==> r == v
    ensures v <= lo ==> r == lo
    ensures hi <= v ==> r == hi
  {
    Max(lo, Min(hi, v))
  }

  /** The identity on reals. `Sq` multiplies through it so that the solver
      sees a product of two distinct terms rather than a syntactic square. */
  function Same(a: real): real
  {
    a
  }

  /** `a ** 2`. */
  function Sq(a: real): real
  {
    a * Same(a)
  }

  lemma SquareSign(x: real)
    ensures 0.0 <= Sq(x)
    ensures Sq(x) == 0.0 <==> x == 0.0
  {
  }

  lemma MulPos(p: real, q: real)
    requires 0.0 < p && 0.0 < q
    ensures 0.0 < p * q
  {
  }

  lemma MulNonNeg(p: real, q: real)
    requires 0.0 <= p && 0.0 <= q
    ensures 0.0 <= p * q
  {
    if p != 0.0 && q != 0.0 {
      MulPos(p, q);
    }
  }

  /** A quotient times its non-zero divisor gives back the dividend. */
  lemma DivideBack(n: real, d: real)
    requires d != 0.0
    ensures (n / d) * d == n
  {
  }

  /** A non-zero factor cancels. */
  lemma CancelFactor(a: real, b: real, t: real)
    requires t != 0.0 && a * t == b * t
    ensures a == b
  {
    assert (a - b) * t == 0.0;
  }

  lemma NegMul(a: real, b: real)
    ensures (-a) * b == -(a * b)
  {
  }

  lemma SumOfSquaresSign(x: real, z: real)
    ensures 0.0 <= Sq(x) + Sq(z)
    ensures Sq(x) + Sq(z) == 0.0 <==> x == 0.0 && z == 0.0
  {
    SquareSign(x);
    SquareSign(z);
  }

  /** On the non-negative reals squaring is injective and strictly monotone. */
  lemma SquaresDiffer(a: real, b: real)
    requires 0.0 <= a && 0.0 <= b
    ensures a < b <==> Sq(a) < Sq(b)
    ensures a == b <==> Sq(a) == Sq(b)
  {
    assert Sq(b) - Sq(a) == (b - a) * (b + a);
    if a < b {
      MulPos(b - a, b + a);
    } else if b < a {
      MulPos(a - b, b + a);
      assert (a - b) * (b + a) == -((b - a) * (b + a));
    }
  }

  /** `math.sqrt` is not definable here (the reals of the verifier have no
      square-root term), so every caller receives it as a parameter that
      satisfies this predicate: non-negative and squaring back on t >= 0. */
  ghost predicate IsSqrt(sqrt: real -> real)
  {
    forall t :: 0.0 <= t ==> 0.0 <= sqrt(t) && Sq(sqrt(t)) == t
  }

  /** The square root of t is the only non-negative r with r * r == t. */
  lemma SqrtUnique(sqrt: real -> real, t: real, r: real)
    requires IsSqrt(sqrt)
    requires 0.0 <= r && Sq(r) == t
    ensures sqrt(t) == r
  {
    SquaresDiffer(sqrt(t), r);
  }

  lemma SqrtOfSquare(sqrt: real -> real, a: real)
    requires IsSqrt(sqrt)
    ensures sqrt(Sq(a)) == Abs(a)
  {
    assert Sq(Abs(a)) == Sq(a);
    SqrtUnique(sqrt, Sq(a), Abs(a));
  }

  /** `math.sqrt` is monotone on the non-negative reals, strictly so. */
  lemma SqrtMonotone(sqrt: real -> real, s: real, t: real)
    requires IsSqrt(sqrt)
    requires 0.0 <= s <= t
    ensures sqrt(s) <= sqrt(t)
    ensures s < t ==> sqrt(s) < sqrt(t)
  {
    SquaresDiffer(sqrt(s), sqrt(t));
  }

  lemma SqrtZero(sqrt: real -> real)
    requires IsSqrt(sqrt)
    ensures sqrt(0.0) == 0.0
  {
    SquareSign(sqrt(0.0));
  }

  lemma SqrtPositive(sqrt: real -> real, t: real)
    requires IsSqrt(sqrt)
    requires 0.0 < t
    ensures 0.0 < sqrt(t)
  {
    SqrtZero(sqrt);
    SqrtMonotone(sqrt, 0.0, t);
  }

  /** The converse of monotonicity: comparing square roots compares their
      arguments. */
  lemma SqrtLessThan(sqrt: real -> real, t: real, bound: real)
    requires IsSqrt(sqrt)
    requires 0.0 <= t && 0.0 <= bound
    ensures sqrt(t) < bound <==> t < Sq(bound)
  {
    SqrtOfSquare(sqrt, bound);
    SquareSign(bound);
    if t < Sq(bound) {
      SqrtMonotone(sqrt, t, Sq(bound));
    } else {
      SqrtMonotone(sqrt, Sq(bound), t);
    }
  }

  /** Python's `round` on a float: the nearest integer, ties to the even one. */
  function RoundHalfEven(x: real): (n: int)
    ensures -0.5 <= x - n as real <= 0.5
    ensures (x - n as real == 0.5 || x - n as real == -0.5) ==> n % 2 == 0
  {
    var f := x.Floor;
    var d := x - f as real;
    if d < 0.5 then f
    else if d > 0.5 then f + 1
    else if f % 2 == 0 then f
    else f + 1
  }

  /** Rounding preserves order. */
  lemma RoundMonotone(x: real, y: real)
    requires x <= y
    ensures RoundHalfEven(x) <= RoundHalfEven(y)
  {
    var m, n := RoundHalfEven(x), RoundHalfEven(y);
  }

  lemma RoundOfInteger(k: int)
    ensures RoundHalfEven(k as real) == k
  {
  }

  /** Rounding a value in [lo, hi] lands in [lo, hi] when both are integers. */
  lemma RoundWithin(x: real, lo: int, hi: int)
    requires lo as real <= x <= hi as real
    ensures lo <= RoundHalfEven(x) <= hi
  {
    RoundMonotone(lo as real, x);
    RoundMonotone(x, hi as real);
    RoundOfInteger(lo);
    RoundOfInteger(hi);
  }

  /** A value strictly within half a unit of n rounds to n. */
  lemma RoundNear(x: real, n: int)
    requires n as real - 0.5 < x < n as real + 0.5
    ensures RoundHalfEven(x) == n
  {
  }

  /** Python's `int()` on a float: truncation toward zero. */
  function Truncate(x: real): (n: int)
    ensures 0.0 <= x ==> n as real <= x < n as real + 1.0
    ensures x < 0.0 ==> n as real - 1.0 < x <= n as real
  {
    if 0.0 <= x then x.Floor else -((-x).Floor)
  }

  /** `int()` of a non-negative float is monotone. */
  lemma TruncateMonotone(x: real, y: real)
    requires 0.0 <= x <= y
    ensures Truncate(x) <= Truncate(y)
  {
  }
}
