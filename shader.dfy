/** The gray level the fragment shader paints at a normalised horizontal
    position, computed from the uniform array `u_points` (MAX_POINTS `vec2`s
    packed as 2 * MAX_POINTS floats) and the count `u_numPoints`.
    `mix` and `smoothstep` follow section 8.3 (Common Functions) of the
    OpenGL ES Shading Language 1.00 specification. Arithmetic is exact. */
module Shader {
  import opened Points

  /** `mix(a, b, s)`: linear blend, `a * (1 - s) + b * s`. */
  function Mix(a: real, b: real, s: real): (r: real)
    ensures s == 0.0 ==> r == a
    ensures s == 1.0 ==> r == b
    ensures 0.0 <= s <= 1.0 ==> (a <= r <= b || b <= r <= a)
  {
    MixFacts(a, b, s);
    a * (1.0 - s) + b * s
  }

  /** The facts `Mix` promises, about its defining expression. */
  lemma MixFacts(a: real, b: real, s: real)
    ensures s == 0.0 ==> a * (1.0 - s) + b * s == a
    ensures s == 1.0 ==> a * (1.0 - s) + b * s == b
    ensures 0.0 <= s <= 1.0 ==>
      (a <= a * (1.0 - s) + b * s <= b || b <= a * (1.0 - s) + b * s <= a)
  {
    var r := a * (1.0 - s) + b * s;
    assert r - a == s * (b - a) && b - r == (1.0 - s) * (b - a);
    if s == 0.0 {
      assert s * (b - a) == 0.0;
    } else if s == 1.0 {
      assert (1.0 - s) * (b - a) == 0.0;
    } else if s < 0.0 || s > 1.0 {
    } else if a <= b {
      MulNonNegative(s, b - a);
      MulNonNegative(1.0 - s, b - a);
    } else {
      MulNonNegative(s, a - b);
      MulNonNegative(1.0 - s, a - b);
    }
  }

  /** `smoothstep(edge0, edge1, v)`: clamp `(v - edge0) / (edge1 - edge0)` to
      [0, 1], then apply the Hermite cubic `t * t * (3 - 2 * t)`. The result
      is undefined for `edge0 >= edge1`, hence the precondition. */
  function SmoothStep(edge0: real, edge1: real, v: real): (r: real)
    requires edge0 < edge1
    ensures 0.0 <= r <= 1.0
    ensures v <= edge0 ==> r == 0.0
    ensures v >= edge1 ==> r == 1.0
  {
    var q := (v - edge0) / (edge1 - edge0);
    QuotientBounds(v - edge0, edge1 - edge0);
    var t := if q < 0.0 then 0.0 else if q > 1.0 then 1.0 else q;
    var r := t * t * (3.0 - 2.0 * t);
    MulNonNegative(t * t, 3.0 - 2.0 * t);
    assert 1.0 - r == (1.0 - t) * (1.0 - t) * (1.0 + 2.0 * t);
    MulNonNegative((1.0 - t) * (1.0 - t), 1.0 + 2.0 * t);
    r
  }

  /** Sign facts about `n / d` for a positive divisor. */
  lemma QuotientBounds(n: real, d: real)
    requires d > 0.0
    ensures n <= 0.0 ==> n / d <= 0.0
    ensures n >= d ==> n / d >= 1.0
  {
    assert n / d * d == n;
  }

  lemma MulNonNegative(a: real, b: real)
    requires a >= 0.0 && b >= 0.0
    ensures a * b >= 0.0
  {
  }

  /** The points laid out two floats each, `x` then gray, as `forEach`
      writes them into `pointsData`. */
  function Flatten(ps: seq<Point>): (u: seq<real>)
    ensures |u| == 2 * |ps|
    ensures forall i :: 0 <= i < |ps| ==> u[2 * i] == ps[i].x && u[2 * i + 1] == ps[i].gray
  {
    if ps == [] then []
    else
      var rest := Flatten(ps[1..]);
      assert forall i :: 1 <= i < |ps| ==> ps[i] == ps[1..][i - 1];
      [ps[0].x, ps[0].gray] + rest
  }

  /** The contents of `pointsData` after `drawScene` fills it: the
      Float32Array of 2 * MAX_POINTS floats starts as zeros, and point `i` is
      written at `2 * i` (its `x`) and `2 * i + 1` (its gray). */
  function Uniforms(ps: seq<Point>): (u: seq<real>)
    requires |ps| <= MAX_POINTS
    ensures |u| == 2 * MAX_POINTS
    ensures forall i :: 0 <= i < |ps| ==> u[2 * i] == ps[i].x && u[2 * i + 1] == ps[i].gray
    ensures forall k :: 2 * |ps| <= k < |u| ==> u[k] == 0.0
  {
    Flatten(ps) + seq(2 * (MAX_POINTS - |ps|), _ => 0.0)
  }

  /** The body of the shader's search loop from iteration `i` on: the first
      segment `[u_points[i], u_points[i + 1]]` (with `i < u_numPoints - 1`)
      that contains `stx` gives the smoothed blend of its two grays; if the
      loop runs out, `gray` keeps its initial 0.0. The loop is only entered
      with `u_points[0].x < stx`, and every segment it passes over lies
      entirely left of `stx`, so the segment it stops at has positive width
      and the division is defined. */
  function SegmentGray(u: seq<real>, n: int, stx: real, i: nat): real
    requires |u| == 2 * MAX_POINTS && n <= MAX_POINTS
    requires i < n - 1 ==> u[2 * i] < stx
    decreases MAX_POINTS - i
  {
    if i >= MAX_POINTS - 1 then 0.0
    else if i < n - 1 && stx >= u[2 * i] && stx <= u[2 * i + 2] then
      var t := (stx - u[2 * i]) / (u[2 * i + 2] - u[2 * i]);
      Mix(u[2 * i + 1], u[2 * i + 3], SmoothStep(0.0, 1.0, t))
    else SegmentGray(u, n, stx, i + 1)
  }

  /** The gray the fragment shader writes at `st.x == stx`: black without
      points, the one gray with one point, flat outside the first and last
      points, and the search loop in between. */
  function FragmentGray(u: seq<real>, n: int, stx: real): real
    requires |u| == 2 * MAX_POINTS
    requires 0 <= n <= MAX_POINTS
  {
    if n == 0 then 0.0
    else if n == 1 then u[1]
    else if stx <= u[0] then u[1]
    else if stx >= u[2 * (n - 1)] then u[2 * (n - 1) + 1]
    else SegmentGray(u, n, stx, 0)
  }

  /** What the gradient surface shows at `x` for the point list `ps`, which
      `drawScene` packs into `u_points` with `u_numPoints == |ps|`. */
  function Gray(ps: seq<Point>, x: real): real
    requires |ps| <= MAX_POINTS
  {
    FragmentGray(Uniforms(ps), |ps|, x)
  }

  /** Without points the surface is black; with one point it is uniformly
      that point's gray. */
  lemma GrayFewPoints(ps: seq<Point>, x: real)
    requires |ps| <= 1
    ensures Gray(ps, x) == if ps == [] then 0.0 else ps[0].gray
  {
    if ps != [] {
      assert Uniforms(ps)[2 * 0 + 1] == ps[0].gray;
    }
  }

  /** Left of (or at) the first point the gray is flat at the first gray. */
  lemma GrayFlatLeft(ps: seq<Point>, x: real)
    requires 2 <= |ps| <= MAX_POINTS
    requires x <= ps[0].x
    ensures Gray(ps, x) == ps[0].gray
  {
    assert Uniforms(ps)[2 * 0] == ps[0].x && Uniforms(ps)[2 * 0 + 1] == ps[0].gray;
  }

  /** Right of (or at) the last point, and not left of the first, the gray is
      flat at the last gray. (The left test is made first, so when both hold,
      which needs `ps[0].x >= x >= ps[|ps| - 1].x`, the first gray wins.) */
  lemma GrayFlatRight(ps: seq<Point>, x: real)
    requires 2 <= |ps| <= MAX_POINTS
    requires ps[0].x < x && x >= ps[|ps| - 1].x
    ensures Gray(ps, x) == ps[|ps| - 1].gray
  {
    var u := Uniforms(ps);
    assert u[2 * 0] == ps[0].x;
    assert u[2 * (|ps| - 1)] == ps[|ps| - 1].x && u[2 * (|ps| - 1) + 1] == ps[|ps| - 1].gray;
  }

  /** The search loop started at segment `i`, with point `i` left of `x` and
      the last point right of it, reaches the first segment `j >= i` that
      contains `x`, and stops there; that segment satisfies
      `ps[j].x < x <= ps[j + 1].x`. */
  lemma {:induction false} SegmentSearch(ps: seq<Point>, x: real, i: nat) returns (j: nat)
    requires 2 <= |ps| <= MAX_POINTS
    requires i < |ps| - 1 && ps[i].x < x < ps[|ps| - 1].x
    ensures i <= j < |ps| - 1
    ensures ps[j].x < x <= ps[j + 1].x
    ensures forall k :: i <= k < j ==> !(ps[k].x <= x <= ps[k + 1].x)
    ensures SegmentGray(Uniforms(ps), |ps|, x, i) == SegmentGray(Uniforms(ps), |ps|, x, j)
    decreases |ps| - i
  {
    var u := Uniforms(ps);
    assert u[2 * i] == ps[i].x;
    assert u[2 * i + 2] == ps[i + 1].x by {
      assert 2 * i + 2 == 2 * (i + 1);
    }
    if x <= ps[i + 1].x {
      j := i;
    } else {
      SegmentSkip(u, |ps|, x, i);
      j := SegmentSearch(ps, x, i + 1);
      assert !(ps[i].x <= x <= ps[i + 1].x);
    }
  }

  /** One step of the search: segment `i` contains `stx`, so the loop stops there. */
  lemma SegmentStop(u: seq<real>, n: int, stx: real, i: nat)
    requires |u| == 2 * MAX_POINTS && n <= MAX_POINTS
    requires i < n - 1 && u[2 * i] < stx <= u[2 * i + 2]
    ensures SegmentGray(u, n, stx, i)
         == Mix(u[2 * i + 1], u[2 * i + 3], SmoothStep(0.0, 1.0, (stx - u[2 * i]) / (u[2 * i + 2] - u[2 * i])))
  {
  }

  /** One step of the search: segment `i` lies left of `stx`, so the loop moves on. */
  lemma SegmentSkip(u: seq<real>, n: int, stx: real, i: nat)
    requires |u| == 2 * MAX_POINTS && n <= MAX_POINTS
    requires i < n - 1 && u[2 * i] < stx && u[2 * i + 2] < stx
    ensures u[2 * (i + 1)] < stx
    ensures SegmentGray(u, n, stx, i) == SegmentGray(u, n, stx, i + 1)
  {
  }

  /** Strictly between the first and the last point, the gray is the smoothed
      blend over the first segment containing `x`; that segment has positive
      width whatever the order of the points, and the gray lies between its
      two end grays. */
  lemma GrayInSegment(ps: seq<Point>, x: real) returns (j: nat)
    requires 2 <= |ps| <= MAX_POINTS
    requires ps[0].x < x < ps[|ps| - 1].x
    ensures j < |ps| - 1
    ensures ps[j].x < x <= ps[j + 1].x
    ensures forall k :: 0 <= k < j ==> !(ps[k].x <= x <= ps[k + 1].x)
    ensures Gray(ps, x)
         == Mix(ps[j].gray, ps[j + 1].gray, SmoothStep(0.0, 1.0, (x - ps[j].x) / (ps[j + 1].x - ps[j].x)))
    ensures ps[j].gray <= Gray(ps, x) <= ps[j + 1].gray || ps[j + 1].gray <= Gray(ps, x) <= ps[j].gray
  {
    var u := Uniforms(ps);
    assert u[2 * 0] == ps[0].x;
    assert u[2 * (|ps| - 1)] == ps[|ps| - 1].x;
    j := SegmentSearch(ps, x, 0);
    assert u[2 * j] == ps[j].x && u[2 * j + 1] == ps[j].gray;
    assert u[2 * j + 2] == ps[j + 1].x && u[2 * j + 3] == ps[j + 1].gray by {
      assert 2 * j + 2 == 2 * (j + 1);
    }
    SegmentStop(u, |ps|, x, j);
  }

  /** The gray never leaves the range of the points' grays. */
  lemma GrayWithinRange(ps: seq<Point>, x: real, lo: real, hi: real)
    requires 1 <= |ps| <= MAX_POINTS
    requires forall i :: 0 <= i < |ps| ==> lo <= ps[i].gray <= hi
    ensures lo <= Gray(ps, x) <= hi
  {
    if |ps| == 1 {
      GrayFewPoints(ps, x);
    } else if x <= ps[0].x {
      GrayFlatLeft(ps, x);
    } else if x >= ps[|ps| - 1].x {
      GrayFlatRight(ps, x);
    } else {
      var j := GrayInSegment(ps, x);
    }
  }

  /** With strictly increasing positions the gradient passes through every
      control point: at `ps[i].x` the gray is `ps[i].gray`. */
  lemma GrayAtControlPoint(ps: seq<Point>, i: nat)
    requires |ps| <= MAX_POINTS && StrictlySortedByX(ps)
    requires i < |ps|
    ensures Gray(ps, ps[i].x) == ps[i].gray
  {
    var x := ps[i].x;
    if |ps| == 1 {
      GrayFewPoints(ps, x);
    } else if i == 0 {
      GrayFlatLeft(ps, x);
    } else if i == |ps| - 1 {
      GrayFlatRight(ps, x);
    } else {
      assert ps[0].x < x < ps[|ps| - 1].x;
      var j := GrayInSegment(ps, x);
      assert j + 1 == i;
      QuotientBounds(x - ps[j].x, ps[j + 1].x - ps[j].x);
    }
  }

  /** Two points (0, 0.2) and (1, 1.0): at x = 0.5 the smoothstep of 0.5 is
      0.5, so the gray is the plain midpoint 0.6. */
  lemma GrayTwoPointMidpoint()
    ensures Gray([Point(0.0, 0.2), Point(1.0, 1.0)], 0.5) == 0.6
  {
    var ps := [Point(0.0, 0.2), Point(1.0, 1.0)];
    var j := GrayInSegment(ps, 0.5);
    assert j == 0;
    assert SmoothStep(0.0, 1.0, 0.5) == 0.5;
  }

  /** In a sorted list, at an interior point whose predecessor lies strictly
      to its left, the gray is that point's gray: the search stops at the
      segment ending there, with `t = 1`. Of several points sharing an
      interior position this is the earliest, so its gray is painted there. */
  lemma GrayAtSharedPosition(ps: seq<Point>, k: nat)
    requires 2 <= |ps| <= MAX_POINTS && SortedByX(ps)
    requires 0 < k < |ps| - 1 && ps[k - 1].x < ps[k].x
    requires ps[0].x < ps[k].x < ps[|ps| - 1].x
    ensures Gray(ps, ps[k].x) == ps[k].gray
  {
    var j := GrayInSegment(ps, ps[k].x);
    assert j + 1 == k;
    QuotientBounds(ps[k].x - ps[j].x, ps[j + 1].x - ps[j].x);
  }
}
