/** The points of a straight line, by rounding rather than by stepping. */
module Line {
  import opened Arithmetic
  import opened Screen

  function Abs(n: int): nat {
    if n < 0 then -n else n
  }

  function Step(n: int): int {
    if n < 0 then -1 else 1
  }

  function Max(a: int, b: int): int {
    if a < b then b else a
  }

  /** a / b rounded to the nearest integer, halves upwards. */
  function Nearest(a: nat, b: nat): nat
    requires b > 0
  {
    (2 * a + b) / (2 * b)
  }

  /** Two points no more than one apart in each direction. */
  predicate Touching(p: Point, q: Point) {
    Abs(p.x - q.x) <= 1 && Abs(p.y - q.y) <= 1 && p != q
  }

  /** The coordinate n pixels from `from` in the direction of `to`. */
  function Toward(from: int, to: int, n: int): int {
    from + Step(to - from) * n
  }

  lemma TowardStart(from: int, to: int)
    ensures Toward(from, to, 0) == from
  {
  }

  lemma TowardNext(from: int, to: int, n: int)
    ensures Toward(from, to, n + 1) == Toward(from, to, n) + Step(to - from)
  {
  }

  lemma TowardEnd(from: int, to: int, n: nat)
    ensures Toward(from, to, n) == to <==> n == Abs(to - from)
  {
  }

  /** How many steps the line from one point to another takes. */
  function Steps(from: Point, to: Point): nat {
    Max(Abs(to.x - from.x), Abs(to.y - from.y))
  }

  /** The k-th point: k steps along the longer direction, and as far along the shorter one as
      the true line goes, rounded. */
  function LinePoint(from: Point, to: Point, k: nat): Point {
    var dx, dy := Abs(to.x - from.x), Abs(to.y - from.y);
    if dx > dy then
      Point(Toward(from.x, to.x, k), Toward(from.y, to.y, Nearest(k * dy, dx)))
    else if dy > 0 then
      Point(Toward(from.x, to.x, Nearest(k * dx, dy)), Toward(from.y, to.y, k))
    else from
  }

  function LinePoints(from: Point, to: Point): (points: seq<Point>)
    ensures |points| == Steps(from, to) + 1
  {
    seq(Steps(from, to) + 1, k requires 0 <= k => LinePoint(from, to, k))
  }

  lemma NearestIs(a: nat, b: nat, m: int)
    requires b > 0
    ensures m == Nearest(a, b) <==> 2 * (m * b) <= 2 * a + b < 2 * (m * b) + 2 * b
  {
    MulTwice(m, b);
    if m == Nearest(a, b) {
      DivBounds(2 * a + b, 2 * b);
    } else if 2 * (m * b) <= 2 * a + b < 2 * (m * b) + 2 * b {
      DivIs(2 * a + b, 2 * b, m);
    }
  }

  lemma NearestOfMultiple(k: nat, b: nat)
    requires b > 0
    ensures Nearest(k * b, b) == k
  {
    NearestIs(k * b, b, k);
  }

  lemma NearestSteps(k: nat, small: nat, large: nat)
    requires 0 <= small <= large && large > 0
    ensures Nearest(k * small, large) <= Nearest((k + 1) * small, large) <= Nearest(k * small, large) + 1
  {
    var a := k * small;
    var m := Nearest(a, large);
    assert (k + 1) * small == a + small;
    NearestIs(a, large, m);
    assert (m + 1) * large == m * large + large;
    NearestIs(a + small, large, m);
    NearestIs(a + small, large, m + 1);
  }

  /** The decision variable of the incremental form after k steps, m of them diagonal. */
  function Fraction(k: nat, m: nat, small: nat, large: nat): int {
    2 * ((k + 1) * small) - large - 2 * (m * large)
  }

  lemma FractionStart(small: nat, large: nat)
    requires large > 0
    ensures Nearest(0 * small, large) == 0
    ensures Fraction(0, 0, small, large) == 2 * small - large
  {
    NearestIs(0, large, 0);
  }

  /** The sign of the decision variable tells whether the rounded coordinate moves. */
  lemma FractionDecides(k: nat, m: nat, small: nat, large: nat)
    requires small <= large && large > 0 && m == Nearest(k * small, large)
    ensures Nearest((k + 1) * small, large) == if Fraction(k, m, small, large) >= 0 then m + 1 else m
  {
    hide Nearest;
    var n := (k + 1) * small;
    MulNext(k, small);
    MulNext(m, large);
    NearestIs(k * small, large, m);
    if Fraction(k, m, small, large) >= 0 {
      NearestIs(n, large, m + 1);
    } else {
      NearestIs(n, large, m);
    }
  }

  lemma FractionNext(k: nat, m: nat, small: nat, large: nat)
    ensures Fraction(k + 1, m, small, large) == Fraction(k, m, small, large) + 2 * small
    ensures Fraction(k, m + 1, small, large) == Fraction(k, m, small, large) - 2 * large
  {
    MulNext(k + 1, small);
    MulNext(m, large);
  }

  /** After k steps the shorter direction has made m, and the decision variable agrees. */
  predicate InStep(k: nat, m: nat, fraction: int, small: nat, large: nat) {
    large > 0 ==> m == Nearest(k * small, large) && fraction == Fraction(k, m, small, large)
  }

  lemma InStepAtStart(small: nat, large: nat)
    ensures InStep(0, 0, 2 * small - large, small, large)
  {
    if large > 0 {
      FractionStart(small, large);
    }
  }

  /** One turn of the incremental form. */
  lemma InStepNext(k: nat, m: nat, fraction: int, small: nat, large: nat)
    requires small <= large && large > 0 && InStep(k, m, fraction, small, large)
    ensures if fraction >= 0 then InStep(k + 1, m + 1, fraction - 2 * large + 2 * small, small, large)
            else InStep(k + 1, m, fraction + 2 * small, small, large)
  {
    hide Nearest, Fraction;
    FractionDecides(k, m, small, large);
    FractionNext(k, m, small, large);
    FractionNext(k, m + 1, small, large);
  }

  /** In step the rounded point is reached. */
  lemma InStepPoint(from: Point, to: Point, k: nat, m: nat, fraction: int)
    requires k <= Steps(from, to)
    ensures var dx, dy := Abs(to.x - from.x), Abs(to.y - from.y);
            && (dx > dy && InStep(k, m, fraction, dy, dx) ==>
                  LinePoint(from, to, k) == Point(Toward(from.x, to.x, k), Toward(from.y, to.y, m)))
            && (dy >= dx && dy > 0 && InStep(k, m, fraction, dx, dy) ==>
                  LinePoint(from, to, k) == Point(Toward(from.x, to.x, m), Toward(from.y, to.y, k)))
  {
    hide Nearest, Toward, Fraction;
  }

  /** Where the incremental form is after k steps of a line that is longer across than up or down. */
  ghost predicate ShallowAt(from: Point, to: Point, k: nat, m: nat, p: Point, fraction: int) {
    var dx, dy := Abs(to.x - from.x), Abs(to.y - from.y);
    && k <= dx && p == Point(Toward(from.x, to.x, k), Toward(from.y, to.y, m)) && InStep(k, m, fraction, dy, dx)
    && (p.x == to.x <==> k == dx) && p == LinePoint(from, to, k)
  }

  lemma ShallowStart(from: Point, to: Point)
    requires Abs(to.x - from.x) > Abs(to.y - from.y)
    ensures ShallowAt(from, to, 0, 0, from, 2 * Abs(to.y - from.y) - Abs(to.x - from.x))
  {
    hide Toward, InStep, LinePoint;
    InStepAtStart(Abs(to.y - from.y), Abs(to.x - from.x));
    TowardStart(from.x, to.x);
    TowardStart(from.y, to.y);
    TowardEnd(from.x, to.x, 0);
    InStepPoint(from, to, 0, 0, 2 * Abs(to.y - from.y) - Abs(to.x - from.x));
  }

  lemma ShallowNext(from: Point, to: Point, k: nat, m: nat, p: Point, fraction: int) returns (m': nat)
    requires ShallowAt(from, to, k, m, p, fraction) && p.x != to.x && Abs(to.x - from.x) > Abs(to.y - from.y)
    ensures var dx, dy := Abs(to.x - from.x), Abs(to.y - from.y);
            var up := fraction >= 0;
            ShallowAt(from, to, k + 1, m',
                      Point(p.x + Step(to.x - from.x), if up then p.y + Step(to.y - from.y) else p.y),
                      (if up then fraction - 2 * dx else fraction) + 2 * dy)
  {
    hide Toward, InStep, LinePoint;
    var dx, dy := Abs(to.x - from.x), Abs(to.y - from.y);
    InStepNext(k, m, fraction, dy, dx);
    TowardNext(from.x, to.x, k);
    TowardNext(from.y, to.y, m);
    TowardEnd(from.x, to.x, k + 1);
    m' := if fraction >= 0 then m + 1 else m;
    InStepPoint(from, to, k + 1, m', (if fraction >= 0 then fraction - 2 * dx else fraction) + 2 * dy);
  }

  /** The same of a line that is at least as long up or down as across. */
  ghost predicate SteepAt(from: Point, to: Point, k: nat, m: nat, p: Point, fraction: int) {
    var dx, dy := Abs(to.x - from.x), Abs(to.y - from.y);
    && k <= dy && p == Point(Toward(from.x, to.x, m), Toward(from.y, to.y, k)) && InStep(k, m, fraction, dx, dy)
    && (p.y == to.y <==> k == dy) && p == LinePoint(from, to, k)
  }

  lemma SteepStart(from: Point, to: Point)
    requires Abs(to.y - from.y) >= Abs(to.x - from.x)
    ensures SteepAt(from, to, 0, 0, from, 2 * Abs(to.x - from.x) - Abs(to.y - from.y))
  {
    hide Toward, InStep;
    InStepAtStart(Abs(to.x - from.x), Abs(to.y - from.y));
    TowardStart(from.x, to.x);
    TowardStart(from.y, to.y);
    TowardEnd(from.y, to.y, 0);
    if from != to {
      InStepPoint(from, to, 0, 0, 2 * Abs(to.x - from.x) - Abs(to.y - from.y));
    }
  }

  lemma SteepNext(from: Point, to: Point, k: nat, m: nat, p: Point, fraction: int) returns (m': nat)
    requires SteepAt(from, to, k, m, p, fraction) && p.y != to.y && Abs(to.y - from.y) >= Abs(to.x - from.x)
    ensures var dx, dy := Abs(to.x - from.x), Abs(to.y - from.y);
            var right := fraction >= 0;
            SteepAt(from, to, k + 1, m',
                    Point(if right then p.x + Step(to.x - from.x) else p.x, p.y + Step(to.y - from.y)),
                    (if right then fraction - 2 * dy else fraction) + 2 * dx)
  {
    hide Toward, InStep, LinePoint;
    var dx, dy := Abs(to.x - from.x), Abs(to.y - from.y);
    InStepNext(k, m, fraction, dx, dy);
    TowardNext(from.y, to.y, k);
    TowardNext(from.x, to.x, m);
    TowardEnd(from.y, to.y, k + 1);
    m' := if fraction >= 0 then m + 1 else m;
    InStepPoint(from, to, k + 1, m', (if fraction >= 0 then fraction - 2 * dy else fraction) + 2 * dx);
  }

  /** The line begins and ends exactly where it was asked to. */
  lemma LineEnds(from: Point, to: Point)
    ensures LinePoints(from, to)[0] == from
    ensures LinePoints(from, to)[Steps(from, to)] == to
  {
    var dx, dy := Abs(to.x - from.x), Abs(to.y - from.y);
    hide Nearest;
    MulCommutes(dx, dy);
    if dx > dy {
      NearestIs(0, dx, 0);
      NearestOfMultiple(dy, dx);
    } else if dy > 0 {
      NearestIs(0, dy, 0);
      NearestOfMultiple(dx, dy);
    }
  }

  /** Each point touches the next, and the longer direction advances at every step. */
  lemma LineIsConnected(from: Point, to: Point, k: nat)
    requires k < Steps(from, to)
    ensures Touching(LinePoints(from, to)[k], LinePoints(from, to)[k + 1])
  {
    var dx, dy := Abs(to.x - from.x), Abs(to.y - from.y);
    if dx > dy {
      NearestSteps(k, dy, dx);
    } else {
      NearestSteps(k, dx, dy);
    }
  }

  /** How far `p` is off the line through both ends: the distance along one direction times the
      line's extent in the other. */
  function Offset(from: Point, to: Point, p: Point): nat {
    Abs((p.y - from.y) * (to.x - from.x) - (p.x - from.x) * (to.y - from.y))
  }

  /** A plotted point is off the true line by at most half a pixel, measured along the shorter
      direction. */
  lemma LineIsClose(from: Point, to: Point, k: nat)
    requires k <= Steps(from, to)
    ensures 2 * Offset(from, to, LinePoints(from, to)[k]) <= Steps(from, to)
  {
    hide Nearest, Toward, Offset;
    var dx, dy := Abs(to.x - from.x), Abs(to.y - from.y);
    if dx > dy {
      var m := Nearest(k * dy, dx);
      NearestIs(k * dy, dx, m);
      OffsetOf(from, to, k, m);
    } else if dy > 0 {
      var m := Nearest(k * dx, dy);
      NearestIs(k * dx, dy, m);
      OffsetOf(from, to, m, k);
    } else {
      OffsetOfStart(from, to);
    }
  }

  lemma OffsetOfStart(from: Point, to: Point)
    ensures Offset(from, to, from) == 0
  {
  }

  lemma OffsetOf(from: Point, to: Point, a: nat, b: nat)
    ensures Offset(from, to, Point(Toward(from.x, to.x, a), Toward(from.y, to.y, b)))
            == Abs(b * Abs(to.x - from.x) - a * Abs(to.y - from.y))
  {
    var sx, sy := Step(to.x - from.x), Step(to.y - from.y);
    SignedProduct(sy, b, sx, Abs(to.x - from.x));
    SignedProduct(sx, a, sy, Abs(to.y - from.y));
  }

  lemma SignedProduct(s: int, a: int, t: int, b: int)
    requires (s == 1 || s == -1) && (t == 1 || t == -1)
    ensures (s * a) * (t * b) == if s == t then a * b else -(a * b)
  {
  }

  /** Whether the true line passes exactly half way between two pixels at step k. */
  predicate Tie(from: Point, to: Point, k: nat) {
    var dx, dy := Abs(to.x - from.x), Abs(to.y - from.y);
    if dx > dy then (2 * (k * dy) + dx) % (2 * dx) == 0
    else dy > 0 && (2 * (k * dx) + dy) % (2 * dy) == 0
  }

  /** A line drawn the other way visits the same point at step k unless there is a tie. */
  lemma LineReversed(from: Point, to: Point, k: nat)
    requires k <= Steps(from, to)
    ensures LinePoints(to, from)[Steps(from, to) - k] == LinePoints(from, to)[k] <==> !Tie(from, to, k)
  {
    hide Nearest, Toward;
    var n, dx, dy := Steps(from, to), Abs(to.x - from.x), Abs(to.y - from.y);
    if dx > dy {
      MinorFromEnd(from.y, to.y, k, dx);
      FromOtherEnd(from.x, to.x, k, n - k);
    } else if dy > 0 {
      MinorFromEnd(from.x, to.x, k, dy);
      FromOtherEnd(from.y, to.y, k, n - k);
    }
  }

  /** The line from (0, 0) to (2, 1) passes between two pixels: from one end the upper one is plotted,
      from the other the lower one. */
  lemma ReversedDiffers()
    ensures LinePoint(Point(0, 0), Point(2, 1), 1) == Point(1, 1)
    ensures LinePoint(Point(2, 1), Point(0, 0), 1) == Point(1, 0)
    ensures Tie(Point(0, 0), Point(2, 1), 1)
  {
  }

  /** Going `there` from one end and `back` from the other meet when they cover the distance. */
  lemma FromOtherEnd(from: int, to: int, there: nat, back: nat)
    ensures from != to ==> (Toward(to, from, back) == Toward(from, to, there) <==> there + back == Abs(to - from))
    ensures from == to && there == 0 && back == 0 ==> Toward(to, from, back) == Toward(from, to, there)
  {
  }

  lemma MinorFromEnd(from: int, to: int, k: nat, large: nat)
    requires Abs(to - from) <= large && k <= large && large > 0
    ensures var small := Abs(to - from);
            && (large - k) * small >= 0
            && (Toward(to, from, Nearest((large - k) * small, large)) == Toward(from, to, Nearest(k * small, large))
                <==> (2 * (k * small) + large) % (2 * large) != 0)
  {
    hide Nearest, Toward;
    var small := Abs(to - from);
    NearestFromEnd(k, small, large);
    if from == to {
      assert k * small == 0 && (large - k) * small == 0;
      NearestOfMultiple(0, large);
      RemainderOf(large, 2 * large, 0);
    }
    FromOtherEnd(from, to, Nearest(k * small, large), Nearest((large - k) * small, large));
  }

  lemma NearestFromEnd(k: nat, small: nat, large: nat)
    requires small <= large && k <= large && large > 0
    ensures 0 <= (large - k) * small
    ensures small - Nearest((large - k) * small, large) == Nearest(k * small, large)
            <==> (2 * (k * small) + large) % (2 * large) != 0
  {
    hide Nearest;
    var a, m := k * small, Nearest(k * small, large);
    MirrorExact(k, small, large);
    NearestIs(a, large, m);
    MulTwice(m, large);
    RemainderOf(2 * a + large, 2 * large, m);
  }

  lemma MirrorExact(k: nat, small: nat, large: nat)
    requires small <= large && k <= large && large > 0
    ensures 0 <= (large - k) * small
    ensures var m := Nearest(k * small, large);
            small - Nearest((large - k) * small, large) == m <==> 2 * (k * small) + large != 2 * (m * large)
  {
    hide Nearest;
    var m := Nearest(k * small, large);
    MulMinus(large, k, small);
    MulMinus(small, m, large);
    MulLe(k, large, small);
    MulCommutes(large, small);
    NearestIs(k * small, large, m);
    NearestIs((large - k) * small, large, small - m);
  }
}
