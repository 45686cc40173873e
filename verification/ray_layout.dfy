/**
 * The ray layout of a `CylinderCollider`: the integer arithmetic that sizes
 * the horizontal ray grid and the vertical ray fan, and the generation of
 * the fan, ring by ring.
 *
 * Point positions come from `Quaternion.AngleAxis` rotations and are not
 * computed; a fan point records the ring it lies on, its index in the ring,
 * the ring's radius and its angle in degrees, from which the position
 * follows.
 */
module RayLayout {
  import opened Wrappers

  /** The serialized shape parameters of a collider. */
  datatype Shape = Shape(
    height: real,
    radius: real,
    skinDepth: real,
    verticalPointsCount: int,
    horizontalPointCount: int,
    verticalRings: int)

  /** The exceptions the generation code raises on bad parameters. */
  datatype LayoutError =
    | NegativeArraySize   // an array allocated with a negative length
    | DivideByZero        // an integer division by zero
    | IndexOutOfRange     // an array read past its length

  datatype FanPoint = FanPoint(ring: nat, index: nat, ringRadius: real, angle: int)

  /**
   * A generated layout: the horizontal grid has `columns` rays on each of
   * `layers` layers, and `fan` lists the vertical rays in slot order.
   */
  datatype Layout = Layout(columns: nat, layers: nat, fan: seq<FanPoint>) {
    function HorizontalCapacity(): nat {
      columns * layers
    }
  }

  /** Division of naturals by repeated subtraction. */
  function NatDiv(a: nat, b: nat): (q: nat)
    requires b > 0
    ensures q <= a
    ensures q > 0 <==> b <= a
    ensures b == 1 ==> q == a
    decreases a
  {
    if a < b then 0 else 1 + NatDiv(a - b, b)
  }

  /** The quotient times the divisor falls short of the dividend by less than the divisor. */
  lemma {:induction false} NatDivRemainder(a: nat, b: nat)
    requires b > 0
    ensures 0 <= a - NatDiv(a, b) * b < b
    decreases a
  {
    if a >= b {
      var q := NatDiv(a - b, b);
      NatDivRemainder(a - b, b);
      assert (1 + q) * b == b + q * b;
    }
  }

  /** C#'s integer division, which rounds toward zero. */
  function TruncDiv(a: int, b: int): (q: int)
    requires b > 0
    ensures 0 <= a ==> 0 <= q <= a && (q > 0 <==> b <= a)
    ensures a < 0 ==> a <= q <= 0
  {
    if a >= 0 then NatDiv(a, b) else -(NatDiv(-a, b) as int)
  }

  /** The quotient rounds toward zero: the remainder is smaller than the divisor and has the dividend's sign. */
  lemma TruncDivRoundsTowardZero(a: int, b: int)
    requires b > 0
    ensures 0 <= a ==> 0 <= a - TruncDiv(a, b) * b < b
    ensures a < 0 ==> -b < a - TruncDiv(a, b) * b <= 0
  {
    if a >= 0 {
      NatDivRemainder(a, b);
    } else {
      NatDivRemainder(-a, b);
      assert TruncDiv(a, b) * b == -(NatDiv(-a, b) * b);
    }
  }

  /** `RadiusPointCount`: the number of points on a full ring. */
  function RadiusPointCount(horizontalPointCount: int): (n: int)
    ensures n >= 0 <==> horizontalPointCount >= 1
    ensures n > 0 <==> horizontalPointCount >= 2
  {
    horizontalPointCount * 2 - 2
  }

  /**
   * `VerticalPointsCount`: the fan has `r / i` rays on its i-th ring, for
   * i from 1 to `rings`.
   */
  function FanSize(r: int, rings: int): (size: int)
    ensures rings <= 0 ==> size == 0
    ensures r >= 0 ==> size >= 0
    ensures r >= 0 && rings >= 1 ==> size >= r
    ensures r < 0 && rings >= 1 ==> size < 0
    decreases rings
  {
    if rings <= 0 then 0 else FanSize(r, rings - 1) + TruncDiv(r, rings)
  }

  /** The loop of the `VerticalPointsCount` getter computes the fan size. */
  method CountVerticalPoints(r: int, rings: int) returns (count: int)
    ensures count == FanSize(r, rings)
  {
    count := 0;
    var i := 1;
    while i < rings + 1
      invariant 1 <= i && (rings >= 0 ==> i <= rings + 1) && (rings < 0 ==> i == 1)
      invariant count == FanSize(r, i - 1)
    {
      count := count + TruncDiv(r, i);
      i := i + 1;
    }
  }

  lemma {:induction false} FanSizeMonotone(r: int, m: int, n: int)
    requires r >= 0 && m <= n
    ensures 0 <= FanSize(r, m) <= FanSize(r, n)
    decreases n - m
  {
    if m < n {
      FanSizeMonotone(r, m, n - 1);
      if n <= 0 {
        assert FanSize(r, n) == 0;
      }
    }
  }

  /** The earlier revision fixes `verticalRings = 2`: the fan has `3 * (horizontalPointCount - 1)` rays. */
  lemma FixedTwoRingFan(horizontalPointCount: int)
    requires horizontalPointCount >= 1
    ensures FanSize(RadiusPointCount(horizontalPointCount), 2) == 3 * (horizontalPointCount - 1)
  {
    var r := RadiusPointCount(horizontalPointCount);
    NatDivByTwo(horizontalPointCount - 1);
  }

  lemma {:induction false} NatDivByTwo(k: nat)
    ensures NatDiv(2 * k, 2) == k
  {
    if k > 0 {
      NatDivByTwo(k - 1);
    }
  }

  /** The radius of ring `j`: rings shrink inward by `SkinlessRadius / verticalRings`. */
  function RingRadius(s: Shape, j: int): (rr: real)
    requires s.verticalRings > 0
    ensures j == 0 ==> rr == s.radius - s.skinDepth
    ensures j == s.verticalRings ==> rr == 0.0
    ensures s.radius >= s.skinDepth && 0 <= j <= s.verticalRings ==> 0.0 <= rr <= s.radius - s.skinDepth
  {
    (s.radius - s.skinDepth) / (s.verticalRings as real) * ((s.verticalRings - j) as real)
  }

  /** Ring `j` of the fan: `r / (j + 1)` points spaced `360 / (r / (j + 1))` degrees apart, in C# division. */
  function Ring(s: Shape, r: int, j: nat): (ring: seq<FanPoint>)
    requires s.verticalRings > 0 && j + 1 <= r
    ensures |ring| == TruncDiv(r, j + 1)
  {
    var points := TruncDiv(r, j + 1);
    seq(points, i requires 0 <= i < points => FanPoint(j, i, RingRadius(s, j), TruncDiv(360, points) * i))
  }

  /** The first `n` rings of the fan, in slot order. */
  function FanLayout(s: Shape, r: int, n: nat): (fan: seq<FanPoint>)
    requires n == 0 || (n <= r && n <= s.verticalRings)
    ensures |fan| == FanSize(r, n)
    decreases n
  {
    if n == 0 then [] else FanLayout(s, r, n - 1) + Ring(s, r, n - 1)
  }

  /**
   * `GenerateVerticalPoints`: allocates `VerticalPointsCount` slots and
   * fills them ring by ring; `pointCount` never passes the allocation and
   * ends exactly at it. A ring with no points raises a division by zero.
   */
  method GenerateVerticalPoints(s: Shape) returns (result: Result<seq<FanPoint>, LayoutError>)
    ensures result.Success? <==> s.verticalRings <= 0 || s.verticalRings <= RadiusPointCount(s.horizontalPointCount)
    ensures result.Success? ==>
      |result.value| == FanSize(RadiusPointCount(s.horizontalPointCount), s.verticalRings)
    ensures result.Success? ==>
      result.value == FanLayout(s, RadiusPointCount(s.horizontalPointCount), if s.verticalRings <= 0 then 0 else s.verticalRings)
  {
    var r := RadiusPointCount(s.horizontalPointCount);
    var size := CountVerticalPoints(r, s.verticalRings);
    if size < 0 {
      if r >= 0 {
        FanSizeMonotone(r, 0, s.verticalRings);
      }
      return Failure(NegativeArraySize);
    }
    var points := new FanPoint[size];
    var pointCount := 0;
    var j := 0;
    while j < s.verticalRings
      invariant 0 <= j && (s.verticalRings >= 0 ==> j <= s.verticalRings)
      invariant j == 0 || (j <= r && j <= s.verticalRings)
      invariant points.Length == size
      invariant 0 <= pointCount == FanSize(r, j) <= size
      invariant points[..pointCount] == FanLayout(s, r, j)
    {
      var radiusPoints := TruncDiv(r, j + 1);
      if radiusPoints == 0 {
        return Failure(DivideByZero);
      }
      FanSizeMonotone(r, j + 1, s.verticalRings);
      assert FanSize(r, j + 1) == pointCount + radiusPoints;
      pointCount := FillRing(points, pointCount, s, r, j);
      assert FanLayout(s, r, j + 1) == FanLayout(s, r, j) + Ring(s, r, j);
      j := j + 1;
    }
    assert j == (if s.verticalRings <= 0 then 0 else s.verticalRings);
    assert points[..] == points[..pointCount];
    return Success(points[..]);
  }

  /** The inner loop of `GenerateVerticalPoints`: writes ring `j` from slot `start` on. */
  method FillRing(points: array<FanPoint>, start: nat, s: Shape, r: int, j: nat) returns (next: nat)
    requires s.verticalRings > 0 && j + 1 <= r
    requires start + TruncDiv(r, j + 1) <= points.Length
    modifies points
    ensures next == start + TruncDiv(r, j + 1)
    ensures points[..next] == old(points[..start]) + Ring(s, r, j)
  {
    var radiusPoints := TruncDiv(r, j + 1);
    var angleDistance := TruncDiv(360, radiusPoints);
    ghost var ring := Ring(s, r, j);
    ghost var before := points[..start];
    next := start;
    var i := 0;
    while i < radiusPoints
      invariant 0 <= i <= radiusPoints
      invariant next == start + i
      invariant points[..next] == before + ring[..i]
    {
      points[next] := FanPoint(j, i, RingRadius(s, j), angleDistance * i);
      next := next + 1;
      i := i + 1;
    }
    assert ring[..i] == ring;
  }

  /**
   * `GeneratePointPositions`: the shape grid, the forward grid and the
   * vertical fan, in that order, with the exceptions each stage raises.
   */
  function GenerateLayout(s: Shape): (result: Result<Layout, LayoutError>)
    ensures result.Failure? && result.error == NegativeArraySize <==>
      s.horizontalPointCount < 1 || s.verticalPointsCount < 0
    ensures result.Success? <==>
      && s.horizontalPointCount >= 2
      && s.verticalPointsCount >= 0
      && s.verticalRings <= RadiusPointCount(s.horizontalPointCount)
    ensures result.Success? ==>
      && result.value.columns == s.horizontalPointCount
      && result.value.layers == s.verticalPointsCount
      && result.value.HorizontalCapacity() == s.horizontalPointCount * s.verticalPointsCount
      && |result.value.fan| == FanSize(RadiusPointCount(s.horizontalPointCount), s.verticalRings)
  {
    var r := RadiusPointCount(s.horizontalPointCount);
    if r < 0 || s.verticalPointsCount < 0 then
      // `new Vector3[RadiusPointCount, verticalPointsCount]` in GenerateShapePoints
      Failure(NegativeArraySize)
    else if r == 0 then
      // `360 / RadiusPointCount` in GenerateForwardPoints
      Failure(DivideByZero)
    else if s.verticalRings > r then
      // `360 / radiusPoints` on the first ring with `r / (j + 1) == 0`
      Failure(DivideByZero)
    else
      Success(Layout(s.horizontalPointCount, s.verticalPointsCount,
                     FanLayout(s, r, if s.verticalRings <= 0 then 0 else s.verticalRings)))
  }
}
