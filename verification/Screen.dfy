/** Points of the 512 by 512 screen, and which of them can be reached through an open region. */
module Screen {

  const SIZE := 512

  datatype Point = Point(x: int, y: int)

  predicate OnScreen(p: Point) {
    0 <= p.x < SIZE && 0 <= p.y < SIZE
  }

  /** Two points that share an edge. */
  predicate Adjacent(p: Point, q: Point) {
    || (p.x == q.x && (p.y == q.y + 1 || q.y == p.y + 1))
    || (p.y == q.y && (p.x == q.x + 1 || q.x == p.x + 1))
  }

  /** A walk from `from` to `to` that stays inside `open` and moves by one edge at a time. */
  ghost predicate IsPath(open: set<Point>, from: Point, to: Point, path: seq<Point>) {
    && |path| > 0
    && path[0] == from
    && path[|path| - 1] == to
    && (forall i | 0 <= i < |path| :: path[i] in open)
    && (forall i | 0 <= i < |path| - 1 :: Adjacent(path[i], path[i + 1]))
  }

  /** `to` lies in the 4-connected component of `from` within `open`. */
  ghost predicate Connected(open: set<Point>, from: Point, to: Point) {
    exists path :: IsPath(open, from, to, path)
  }

  ghost function Component(open: set<Point>, from: Point): (s: set<Point>)
    ensures forall p :: p in s <==> Connected(open, from, p)
    ensures s <= open
  {
    assert forall p | Connected(open, from, p) :: p in open;
    set p | p in open && Connected(open, from, p)
  }

  /** A set that holds `from` if it is open, and is closed under open neighbours, holds the
      whole component. */
  lemma {:induction false} ClosedSetHoldsPath(
    open: set<Point>, from: Point, to: Point, path: seq<Point>, closed: set<Point>)
    requires IsPath(open, from, to, path)
    requires from in closed
    requires forall p, q | p in closed && q in open && Adjacent(p, q) :: q in closed
    ensures to in closed
    decreases |path|
  {
    if |path| > 1 {
      var shorter := path[..|path| - 1];
      ClosedSetHoldsPath(open, from, path[|path| - 2], shorter, closed);
      assert Adjacent(path[|path| - 2], path[|path| - 2 + 1]);
    }
  }

  /** The component, taken as the new open region, is its own component. */
  lemma {:induction false} ComponentIsConnected(
    open: set<Point>, component: set<Point>, from: Point, to: Point, path: seq<Point>)
    requires IsPath(open, from, to, path)
    requires forall p :: p in component <==> Connected(open, from, p)
    ensures IsPath(component, from, to, path)
  {
    forall i | 0 <= i < |path|
      ensures path[i] in component
    {
      assert IsPath(open, from, path[i], path[..i + 1]);
    }
  }

  /** Distinct points of the screen number at most 512 * 512. */
  lemma DistinctPointsFit(s: seq<Point>)
    requires forall i | 0 <= i < |s| :: OnScreen(s[i])
    requires forall i, j | 0 <= i < j < |s| :: s[i] != s[j]
    ensures |s| <= SIZE * SIZE
  {
    var codes := seq(|s|, i requires 0 <= i < |s| => s[i].y * SIZE + s[i].x);
    DistinctBelow(codes, SIZE * SIZE);
  }

  lemma {:induction false} DistinctBelow(s: seq<int>, bound: nat)
    requires forall i | 0 <= i < |s| :: 0 <= s[i] < bound
    requires forall i, j | 0 <= i < j < |s| :: s[i] != s[j]
    ensures |s| <= bound
    decreases bound
  {
    if |s| == 0 {
    } else if k :| 0 <= k < |s| && s[k] == bound - 1 {
      DistinctBelow(s[..k] + s[k + 1..], bound - 1);
    } else {
      assert 0 <= s[0] < bound;
      DistinctBelow(s, bound - 1);
    }
  }
}
