/** GeometryPlanner: grid height from the source aspect ratio, and the output
    frame size as a whole number of glyph cells. */
module Geometry {
  import opened Common

  /** Height-to-width ratio assumed for a console glyph (`char_aspect`), as a
      whole number: the code's 2.0. */
  const CharAspect: int := 2

  /** The smallest grid height. */
  const MinGridHeight: int := 2

  /** The error left by the two integers next to n / d. */
  lemma RoundCandidates(n: int, d: int)
    requires d > 0
    ensures n - (n / d) * d == n % d
    ensures n - (n / d + 1) * d == n % d - d
  {
    assert (n / d + 1) * d == (n / d) * d + d;
  }

  /** Python's round() of the rational n / d: the nearest integer, ties to even. */
  function RoundHalfEven(n: int, d: int): (k: int)
    requires d > 0
    ensures -d <= 2 * (n - k * d) <= d
    ensures (2 * (n - k * d) == d || 2 * (n - k * d) == -d) ==> k % 2 == 0
  {
    var q := n / d;
    var r := n % d;
    RoundCandidates(n, d);
    if 2 * r < d then q
    else if 2 * r > d then q + 1
    else if q % 2 == 0 then q
    else q + 1
  }

  lemma MulDiff(k: int, k0: int, d: int)
    ensures k * d - k0 * d == (k - k0) * d
  {
  }

  lemma MulAtLeast(t: int, d: int)
    requires t >= 1 && d > 0
    ensures t * d >= d
    ensures t >= 2 ==> t * d >= 2 * d
  {
    if t >= 2 {
      assert t * d == (t - 2) * d + 2 * d;
      assert (t - 2) * d >= 0;
    } else {
      assert t * d == (t - 1) * d + d;
      assert (t - 1) * d >= 0;
    }
  }

  /** The two conditions above pin the rounded value down uniquely, so they
      are a complete description of round(). */
  lemma RoundHalfEvenUnique(n: int, d: int, k: int)
    requires d > 0
    requires -d <= 2 * (n - k * d) <= d
    requires (2 * (n - k * d) == d || 2 * (n - k * d) == -d) ==> k % 2 == 0
    ensures k == RoundHalfEven(n, d)
  {
    var k0 := RoundHalfEven(n, d);
    var e := 2 * (n - k * d);
    var e0 := 2 * (n - k0 * d);
    MulDiff(k, k0, d);
    MulDiff(k0, k, d);
    if k > k0 {
      MulAtLeast(k - k0, d);
    } else if k < k0 {
      MulAtLeast(k0 - k, d);
    }
  }

  /** The layout fixed for the whole run. */
  datatype Plan = Plan(gridW: int, gridH: int, cellW: int, cellH: int, outW: int, outH: int)
  {
    /** Invariants of every plan the planner produces for a width of at
        least one: a non-empty grid of non-empty cells that tiles the frame. */
    predicate Valid()
    {
      && gridW >= 1 && gridH >= MinGridHeight
      && cellW >= 1 && cellH >= 1
      && outW == cellW * gridW && outH == cellH * gridH
    }
  }

  datatype GeometryError = ZeroSourceWidth

  /** The rational srcH / srcW * width / CharAspect as a numerator and a
      positive denominator. */
  function HeightRatio(srcW: int, srcH: int, width: int): (nd: (int, int))
    requires srcW != 0
    ensures nd.1 > 0
    ensures nd.0 * (CharAspect * srcW) == srcH * width * nd.1
  {
    if srcW > 0 then (srcH * width, CharAspect * srcW)
    else (-(srcH * width), -(CharAspect * srcW))
  }

  /** The grid height before the floor of 2 is applied. */
  function RoundedHeight(srcW: int, srcH: int, width: int): int
    requires srcW != 0
  {
    var nd := HeightRatio(srcW, srcH, width);
    RoundHalfEven(nd.0, nd.1)
  }

  /** Lines 56 and 62-65. `bboxW` and `bboxH` are the extents of the bounding
      box the font reports for "A"; a source width of 0 is the division by
      zero on line 56. */
  function PlanGeometry(srcW: int, srcH: int, width: int, bboxW: int, bboxH: int): (r: Result<Plan, GeometryError>)
    ensures r.Failure? <==> srcW == 0
    ensures r.Success? ==>
      && r.value.gridW == width
      && r.value.gridH >= MinGridHeight
      && r.value.cellW >= 1 && r.value.cellH >= 1
      && r.value.outW == r.value.cellW * r.value.gridW
      && r.value.outH == r.value.cellH * r.value.gridH
      && (bboxW >= 1 ==> r.value.cellW == bboxW)
      && (bboxH >= 1 ==> r.value.cellH == bboxH)
    ensures r.Success? && width >= 1 ==> r.value.Valid()
  {
    if srcW == 0 then Failure(ZeroSourceWidth)
    else
      var gridH := Max(MinGridHeight, RoundedHeight(srcW, srcH, width));
      var cellW := Max(1, bboxW);
      var cellH := Max(1, bboxH);
      Success(Plan(width, gridH, cellW, cellH, cellW * width, cellH * gridH))
  }

  /** Above the floor, the grid height is the nearest integer to
      srcH * width / (2 * srcW): the height the source's aspect ratio asks for
      once each cell is counted as twice as tall as it is wide. */
  lemma AspectPreserved(srcW: int, srcH: int, width: int, bboxW: int, bboxH: int)
    requires srcW > 0
    requires PlanGeometry(srcW, srcH, width, bboxW, bboxH).value.gridH > MinGridHeight
    ensures var h := PlanGeometry(srcW, srcH, width, bboxW, bboxH).value.gridH;
      -srcW <= srcH * width - CharAspect * srcW * h <= srcW
  {
    var h := PlanGeometry(srcW, srcH, width, bboxW, bboxH).value.gridH;
    var d := CharAspect * srcW;
    assert h == RoundHalfEven(srcH * width, d);
    assert -d <= 2 * (srcH * width - h * d) <= d;
  }

  /** The floor of 2 takes over exactly when the ideal height rounds to 2 or less. */
  lemma FloorApplies(srcW: int, srcH: int, width: int, bboxW: int, bboxH: int)
    requires srcW != 0
    ensures PlanGeometry(srcW, srcH, width, bboxW, bboxH).value.gridH == MinGridHeight
        <==> RoundedHeight(srcW, srcH, width) <= MinGridHeight
  {
  }

  /** A 640x360 source at the default width of 160 gives a 160x45 grid. */
  lemma DefaultWidthScenario(bboxW: int, bboxH: int)
    requires bboxW >= 1 && bboxH >= 1
    ensures PlanGeometry(640, 360, 160, bboxW, bboxH)
         == Success(Plan(160, 45, bboxW, bboxH, bboxW * 160, bboxH * 45))
  {
    assert RoundHalfEven(57600, 1280) == 45 by {
      RoundHalfEvenUnique(57600, 1280, 45);
    }
  }
}
