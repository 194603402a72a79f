/** Control points of the gradient and the order the editor keeps them in.
    `points.sort((a, b) => a.x - b.x)` is a stable sort by `x`; it is modelled
    here as a stable insertion sort, `SortByX`. */
module Points {

  /** One control point: a horizontal position and a gray level, both
      normalised to the surface (0 is the left edge, 1 is white). */
  datatype Point = Point(x: real, gray: real)

  /** Capacity of the store and of the uniform array handed to the shader. */
  const MAX_POINTS: nat := 10

  /** Ascending (not necessarily strictly) by `x`. */
  ghost predicate SortedByX(s: seq<Point>)
  {
    forall i, j :: 0 <= i < j < |s| ==> s[i].x <= s[j].x
  }

  /** Strictly ascending by `x`: no two points share a position. */
  ghost predicate StrictlySortedByX(s: seq<Point>)
  {
    forall i, j :: 0 <= i < j < |s| ==> s[i].x < s[j].x
  }

  /** Inserts `p` into `s` in front of the trailing run of points whose `x`
      exceeds `p.x`; on a sorted `s` this places `p` after all points with `x <= p.x`,
      which is what a stable sort does with an element appended last. */
  function InsertByX(s: seq<Point>, p: Point): (r: seq<Point>)
    ensures |r| == |s| + 1
    decreases |s|
  {
    if s == [] || s[|s| - 1].x <= p.x then s + [p]
    else
      InsertByX(s[..|s| - 1], p) + [s[|s| - 1]]
  }

  /** Where `InsertByX` puts the new point in a sorted sequence: after every
      point with `x <= p.x` (so after equal positions, as a stable sort does),
      before every point with a larger `x`, everything else in its order. */
  lemma InsertByXAt(s: seq<Point>, p: Point) returns (k: nat)
    requires SortedByX(s)
    ensures k <= |s|
    ensures InsertByX(s, p) == s[..k] + [p] + s[k..]
    ensures forall j :: 0 <= j < k ==> s[j].x <= p.x
    ensures forall j :: k <= j < |s| ==> p.x < s[j].x
  {
    k := InsertionPoint(s, p);
    assert forall j :: 0 <= j < k ==> s[j].x <= s[k - 1].x;
  }

  /** The peeling behind `InsertByX`, for any order of `s`: the points after
      position `k` are exactly those passed over because their `x` exceeds
      `p.x`, and the point before position `k`, if any, does not. */
  lemma {:induction false} InsertionPoint(s: seq<Point>, p: Point) returns (k: nat)
    ensures k <= |s|
    ensures InsertByX(s, p) == s[..k] + [p] + s[k..]
    ensures k > 0 ==> s[k - 1].x <= p.x
    ensures forall j :: k <= j < |s| ==> p.x < s[j].x
    decreases |s|
  {
    if s == [] || s[|s| - 1].x <= p.x {
      k := |s|;
      assert s[..k] == s;
    } else {
      var init, last := s[..|s| - 1], s[|s| - 1];
      k := InsertionPoint(init, p);
      var front, back := init[..k], init[k..];
      assert InsertByX(s, p) == front + [p] + back + [last];
      SplitDropLast(s, k);
      assert front + [p] + back + [last] == front + [p] + (back + [last]);
      assert forall j :: k <= j < |init| ==> p.x < s[j].x by {
        forall j | k <= j < |init| ensures p.x < s[j].x { assert s[j] == init[j]; }
      }
    }
  }

  /** Inserting adds exactly `p`: the result is a permutation of `s + [p]`. */
  lemma InsertByXPermutes(s: seq<Point>, p: Point)
    ensures multiset(InsertByX(s, p)) == multiset(s) + multiset{p}
  {
    var k := InsertionSplit(s, p);
    var front, back := s[..k], s[k..];
    assert s == front + back;
    assert multiset(front + [p] + back) == multiset(front) + multiset{p} + multiset(back);
  }

  /** Only the shape of `InsertionPoint`'s result, without its facts about positions. */
  lemma InsertionSplit(s: seq<Point>, p: Point) returns (k: nat)
    ensures k <= |s| && InsertByX(s, p) == s[..k] + [p] + s[k..]
  {
    k := InsertionPoint(s, p);
  }

  /** Inserting into a sorted sequence keeps it sorted. */
  lemma InsertByXSorted(s: seq<Point>, p: Point)
    requires SortedByX(s)
    ensures SortedByX(InsertByX(s, p))
  {
    var k := InsertByXAt(s, p);
    var r := InsertByX(s, p);
    forall i, j | 0 <= i < j < |r|
      ensures r[i].x <= r[j].x
    {
      SpliceAt(s, p, k, i);
      SpliceAt(s, p, k, j);
    }
  }

  /** The element at `i` of `s` with `p` spliced in at `k`. */
  lemma SpliceAt(s: seq<Point>, p: Point, k: nat, i: nat)
    requires k <= |s| && i <= |s|
    ensures (s[..k] + [p] + s[k..])[i] == if i < k then s[i] else if i == k then p else s[i - 1]
  {
  }

  /** The stable sort by `x`: each element in turn is inserted into the
      already sorted prefix. The result is sorted and a permutation. */
  function SortByX(s: seq<Point>): (r: seq<Point>)
    ensures |r| == |s|
    ensures multiset(r) == multiset(s)
    ensures SortedByX(r)
    decreases |s|
  {
    if s == [] then []
    else
      var init := s[..|s| - 1];
      assert s == init + [s[|s| - 1]];
      var sortedInit := SortByX(init);
      InsertByXSorted(sortedInit, s[|s| - 1]);
      InsertByXPermutes(sortedInit, s[|s| - 1]);
      InsertByX(sortedInit, s[|s| - 1])
  }

  /** Sorting a sequence that is already sorted changes nothing. */
  lemma {:induction false} SortedIsFixed(s: seq<Point>)
    requires SortedByX(s)
    ensures SortByX(s) == s
    decreases |s|
  {
    if s != [] {
      var init, last := s[..|s| - 1], s[|s| - 1];
      SortedDropLast(s);
      SortedIsFixed(init);
      assert SortByX(init) == init;
      SortByXLast(s);
      InsertAfterLast(init, last);
      assert InsertByX(init, last) == init + [last];
      assert SortByX(s) == InsertByX(init, last);
      DropLastAppend(s);
    }
  }

  /** Slicing `s` without its last element at `k`. */
  lemma SplitDropLast(s: seq<Point>, k: nat)
    requires k < |s|
    ensures s[..|s| - 1][..k] == s[..k]
    ensures s[..|s| - 1][k..] + [s[|s| - 1]] == s[k..]
  {
  }

  lemma DropLastAppend(s: seq<Point>)
    requires s != []
    ensures s[..|s| - 1] + [s[|s| - 1]] == s
  {
  }

  lemma SortedDropLast(s: seq<Point>)
    requires SortedByX(s) && s != []
    ensures SortedByX(s[..|s| - 1])
    ensures |s| > 1 ==> s[|s| - 2].x <= s[|s| - 1].x
  {
  }

  /** One unfolding of `SortByX`, kept apart so that the proofs using it stay small. */
  lemma SortByXLast(s: seq<Point>)
    requires s != []
    ensures SortByX(s) == InsertByX(SortByX(s[..|s| - 1]), s[|s| - 1])
  {
  }

  /** A point no smaller than the last one goes at the end. */
  lemma InsertAfterLast(s: seq<Point>, p: Point)
    requires s == [] || s[|s| - 1].x <= p.x
    ensures InsertByX(s, p) == s + [p]
  {
  }

  /** Appending one point to a sorted sequence and sorting is the same as
      inserting that point in place. */
  lemma SortAfterAppend(s: seq<Point>, p: Point)
    requires SortedByX(s)
    ensures SortByX(s + [p]) == InsertByX(s, p)
  {
    assert (s + [p])[..|s|] == s;
    SortedIsFixed(s);
  }

  /** Removing one element keeps a sequence sorted, so the sort after a
      removal leaves the remaining points where they were. */
  lemma SortAfterRemove(s: seq<Point>, i: nat)
    requires SortedByX(s) && i < |s|
    ensures SortedByX(s[..i] + s[i + 1..])
    ensures SortByX(s[..i] + s[i + 1..]) == s[..i] + s[i + 1..]
  {
    var r := s[..i] + s[i + 1..];
    assert forall j :: 0 <= j < |r| ==> r[j] == (if j < i then s[j] else s[j + 1]);
    SortedIsFixed(r);
  }
}
