/** The editor's point store and its click rule: a click on the overlay
    removes the first point drawn within 10 pixels of it, or else adds a
    point where it landed unless the store already holds MAX_POINTS; the
    list is then sorted by `x`. Pixel coordinates are relative to the
    overlay's top-left corner; the surface's width and height are passed in. */
module Editor {
  import opened Points
  import Shader

  /** A click this close (in surface pixels) to a drawn point picks it. */
  const HIT_RADIUS: real := 10.0

  /** `p` is drawn at `(p.x * width, (1 - p.gray) * height)`; a click at
      `(cx, cy)` picks it when their Euclidean distance is below HIT_RADIUS,
      compared here on squares (see `DistanceBelowRadius`). */
  predicate Hits(p: Point, cx: real, cy: real, width: real, height: real)
  {
    var dx := cx - p.x * width;
    var dy := cy - (1.0 - p.gray) * height;
    dx * dx + dy * dy < HIT_RADIUS * HIT_RADIUS
  }

  /** For a non-negative root `r` of the squared distance `d` (the value
      `Math.sqrt` returns), `r < HIT_RADIUS` holds exactly when
      `d < HIT_RADIUS * HIT_RADIUS`, so testing the square loses nothing. */
  lemma DistanceBelowRadius(d: real, r: real)
    requires r >= 0.0 && r * r == d
    ensures r < HIT_RADIUS <==> d < HIT_RADIUS * HIT_RADIUS
  {
    if r < HIT_RADIUS {
      Shader.MulNonNegative(HIT_RADIUS - r, r);
      assert r * r <= HIT_RADIUS * r;
    } else {
      Shader.MulNonNegative(r - HIT_RADIUS, r);
      Shader.MulNonNegative(r - HIT_RADIUS, HIT_RADIUS);
      assert r * r >= HIT_RADIUS * r >= HIT_RADIUS * HIT_RADIUS;
    }
  }

  /** The point a click at pixel `(cx, cy)` would add: `x = cx / width`,
      `gray = 1 - cy / height`. It is drawn exactly where the click landed,
      so it is itself within reach of that click. */
  function ClickedPoint(cx: real, cy: real, width: real, height: real): (p: Point)
    requires width > 0.0 && height > 0.0
    ensures p.x * width == cx && (1.0 - p.gray) * height == cy
    ensures Hits(p, cx, cy, width, height)
  {
    var p := Point(cx / width, 1.0 - cy / height);
    assert cx / width * width == cx;
    assert cy / height * height == cy;
    assert 1.0 - p.gray == cy / height;
    p
  }

  /** `points.findIndex(...)` with the hit test: the index of the first point
      the click picks, or -1 when it picks none. */
  method FindHit(ps: seq<Point>, cx: real, cy: real, width: real, height: real) returns (index: int)
    ensures -1 <= index < |ps|
    ensures index == -1 <==> forall j :: 0 <= j < |ps| ==> !Hits(ps[j], cx, cy, width, height)
    ensures index >= 0 ==> Hits(ps[index], cx, cy, width, height)
    ensures forall j :: 0 <= j < index ==> !Hits(ps[j], cx, cy, width, height)
  {
    index := 0;
    while index < |ps|
      invariant 0 <= index <= |ps|
      invariant forall j :: 0 <= j < index ==> !Hits(ps[j], cx, cy, width, height)
    {
      if Hits(ps[index], cx, cy, width, height) {
        return;
      }
      index := index + 1;
    }
    index := -1;
  }

  /** The six points the editor starts with: x = 0, 0.2, ..., 1 with grays
      alternating low and high and a last gray of 0.7. */
  function SeedPoints(): (s: seq<Point>)
    ensures |s| == 6 <= MAX_POINTS
    ensures StrictlySortedByX(s) && SortedByX(s)
    ensures s[0].x == 0.0 && s[|s| - 1].x == 1.0
  {
    [Point(0.0, 0.2), Point(0.2, 1.0), Point(0.4, 0.2),
     Point(0.6, 1.0), Point(0.8, 0.2), Point(1.0, 0.7)]
  }

  /** What a click did: removed the point at `index` of the list as it was,
      added `point`, or was refused because the store was full. */
  datatype ClickOutcome = Removed(index: nat) | Rejected | Added(point: Point)

  /** A click that finds no point to remove while the store has room adds
      one; a second click at the same pixel then finds a point to remove, so
      it never adds a second one there. */
  lemma AddedPointIsHit(s: seq<Point>, cx: real, cy: real, width: real, height: real)
    requires width > 0.0 && height > 0.0
    ensures exists j :: (0 <= j < |s| + 1
      && Hits(InsertByX(s, ClickedPoint(cx, cy, width, height))[j], cx, cy, width, height))
  {
    var p := ClickedPoint(cx, cy, width, height);
    var k := InsertionPoint(s, p);
    assert InsertByX(s, p)[k] == p;
  }

  /** The editor's list of control points. */
  class PointStore {
    var points: seq<Point>

    /** At most MAX_POINTS points, kept in ascending order of `x`. */
    ghost predicate Valid()
      reads this
    {
      |points| <= MAX_POINTS && SortedByX(points)
    }

    /** The store as the page loads: the six seed points. */
    constructor ()
      ensures Valid() && points == SeedPoints()
    {
      points := SeedPoints();
    }

    /** `window.clearPoints`: drop every point. */
    method Clear()
      modifies this
      ensures Valid() && points == []
    {
      points := [];
    }

    /** The overlay's click handler, for a click at pixel `(cx, cy)` of a
        `width` by `height` surface. */
    method Click(cx: real, cy: real, width: real, height: real) returns (outcome: ClickOutcome)
      requires Valid()
      requires width > 0.0 && height > 0.0
      modifies this
      ensures Valid()
      ensures outcome.Removed? ==>
        && outcome.index < |old(points)|
        && Hits(old(points)[outcome.index], cx, cy, width, height)
        && (forall j :: 0 <= j < outcome.index ==> !Hits(old(points)[j], cx, cy, width, height))
        && points == old(points)[..outcome.index] + old(points)[outcome.index + 1..]
      ensures !outcome.Removed? ==>
        forall j :: 0 <= j < |old(points)| ==> !Hits(old(points)[j], cx, cy, width, height)
      ensures outcome.Rejected? ==> |old(points)| >= MAX_POINTS && points == old(points)
      ensures outcome.Added? ==>
        && |old(points)| < MAX_POINTS
        && outcome.point == ClickedPoint(cx, cy, width, height)
        && points == InsertByX(old(points), outcome.point)
        && multiset(points) == multiset(old(points)) + multiset{outcome.point}
    {
      var clicked := ClickedPoint(cx, cy, width, height);
      var hit := FindHit(points, cx, cy, width, height);
      if hit != -1 {
        SortAfterRemove(points, hit);
        points := points[..hit] + points[hit + 1..];
        outcome := Removed(hit);
      } else {
        if |points| >= MAX_POINTS {
          outcome := Rejected;
          return;
        }
        SortAfterAppend(points, clicked);
        InsertByXSorted(points, clicked);
        InsertByXPermutes(points, clicked);
        points := points + [clicked];
        outcome := Added(clicked);
      }
      points := SortByX(points);
    }

    /** What `drawScene` hands the shader: the Float32Array `pointsData`
        of 2 * MAX_POINTS floats, zero-filled, with each point's `x` and gray
        written in turn, and the count `points.length`. */
    method PackUniforms() returns (data: seq<real>, count: int)
      requires Valid()
      ensures count == |points|
      ensures data == Shader.Uniforms(points)
    {
      var pointsData := new real[2 * MAX_POINTS](_ => 0.0);
      var i := 0;
      while i < |points|
        invariant 0 <= i <= |points|
        invariant forall k :: 0 <= k < 2 * i ==> pointsData[k] == Shader.Uniforms(points)[k]
        invariant forall k :: 2 * i <= k < pointsData.Length ==> pointsData[k] == 0.0
      {
        pointsData[2 * i] := points[i].x;
        pointsData[2 * i + 1] := points[i].gray;
        i := i + 1;
      }
      data, count := pointsData[..], |points|;
    }
  }

  /** Starting from the seed on a 500 by 300 surface, a click at (250, 150)
      is near no seed point and adds (0.5, 0.5). */
  method SeedThenAddMidpoint()
  {
    var store := new PointStore();
    ghost var seed := store.points;
    assert forall j :: 0 <= j < |seed| ==> !Hits(seed[j], 250.0, 150.0, 500.0, 300.0) by {
      assert !Hits(Point(0.0, 0.2), 250.0, 150.0, 500.0, 300.0) && !Hits(Point(0.2, 1.0), 250.0, 150.0, 500.0, 300.0);
      assert !Hits(Point(0.4, 0.2), 250.0, 150.0, 500.0, 300.0) && !Hits(Point(0.6, 1.0), 250.0, 150.0, 500.0, 300.0);
      assert !Hits(Point(0.8, 0.2), 250.0, 150.0, 500.0, 300.0) && !Hits(Point(1.0, 0.7), 250.0, 150.0, 500.0, 300.0);
    }
    var outcome := store.Click(250.0, 150.0, 500.0, 300.0);
    assert outcome.Added?;
    assert outcome.point == Point(0.5, 0.5) by {
      assert ClickedPoint(250.0, 150.0, 500.0, 300.0) == Point(0.5, 0.5);
    }
    assert |store.points| == 7;
  }

  /** Where that click's point goes: between the third and fourth seed
      points, the rest of the seed keeping its order around it. */
  lemma MidpointLandsThird(s: seq<Point>, p: Point)
    requires s == SeedPoints() && p == Point(0.5, 0.5)
    ensures InsertByX(s, p) == s[..3] + [p] + s[3..]
  {
    var k := InsertByXAt(s, p);
    assert s[2].x <= p.x < s[3].x;
    assert k == 3;
  }

  /** The seed point (0.4, 0.2) is drawn at (200, 240) on a 500 by 300
      surface: a click 5.8 pixels away removes it, the first two seed points
      being out of reach. */
  method SeedRemoveNear()
  {
    var store := new PointStore();
    ghost var seed := store.points;
    assert Hits(seed[2], 205.0, 243.0, 500.0, 300.0) by {
      assert Hits(Point(0.4, 0.2), 205.0, 243.0, 500.0, 300.0);
    }
    assert !Hits(seed[0], 205.0, 243.0, 500.0, 300.0) && !Hits(seed[1], 205.0, 243.0, 500.0, 300.0) by {
      assert !Hits(Point(0.0, 0.2), 205.0, 243.0, 500.0, 300.0) && !Hits(Point(0.2, 1.0), 205.0, 243.0, 500.0, 300.0);
    }
    var outcome := store.Click(205.0, 243.0, 500.0, 300.0);
    assert outcome.Removed?;
    assert outcome.index != 0 && outcome.index != 1;
    assert !(outcome.index > 2);
    assert outcome == Removed(2);
  }

  /** A click 11 pixels from (0.4, 0.2), and farther from every other seed
      point, removes nothing and adds a point. */
  method SeedMissNear()
  {
    var store := new PointStore();
    ghost var seed := store.points;
    assert forall j :: 0 <= j < |seed| ==> !Hits(seed[j], 211.0, 240.0, 500.0, 300.0) by {
      assert !Hits(Point(0.0, 0.2), 211.0, 240.0, 500.0, 300.0) && !Hits(Point(0.2, 1.0), 211.0, 240.0, 500.0, 300.0);
      assert !Hits(Point(0.4, 0.2), 211.0, 240.0, 500.0, 300.0) && !Hits(Point(0.6, 1.0), 211.0, 240.0, 500.0, 300.0);
      assert !Hits(Point(0.8, 0.2), 211.0, 240.0, 500.0, 300.0) && !Hits(Point(1.0, 0.7), 211.0, 240.0, 500.0, 300.0);
    }
    var outcome := store.Click(211.0, 240.0, 500.0, 300.0);
    assert outcome.Added?;
  }
}
