/** Pixels, their alpha marks, and what a fill does to a picture, on values. */
module Pixels {
  import opened Screen

  type Pixel = bv32

  /** What -paint- fills with: the foreground, a character's dots, or a code with no character. */
  datatype Pattern = Solid | NoCharacter | Glyph(words: seq<bv16>)

  /** The walker's mark is alpha 0, where `alpha` is the mask of the alpha bits. */
  predicate Marked(pixel: Pixel, alpha: Pixel) {
    pixel & alpha == 0
  }

  predicate Opaque(pixel: Pixel, alpha: Pixel) {
    pixel & alpha == alpha
  }

  function Mark(pixel: Pixel, alpha: Pixel): Pixel {
    pixel & !alpha
  }

  function Unmark(pixel: Pixel, alpha: Pixel): Pixel {
    pixel | alpha
  }

  lemma MarkIsMarked(pixel: Pixel, alpha: Pixel)
    ensures Marked(Mark(pixel, alpha), alpha)
  {
  }

  lemma UnmarkIsUnmarked(pixel: Pixel, alpha: Pixel)
    requires alpha != 0
    ensures !Marked(Unmark(pixel, alpha), alpha)
  {
  }

  lemma UnmarkUndoesMark(pixel: Pixel, alpha: Pixel)
    requires Opaque(pixel, alpha)
    ensures Unmark(Mark(pixel, alpha), alpha) == pixel
  {
  }

  lemma OpaqueIsUnmarked(pixel: Pixel, alpha: Pixel)
    requires alpha != 0 && Opaque(pixel, alpha)
    ensures !Marked(pixel, alpha)
  {
  }

  predicate ValidPattern(pat: Pattern) {
    pat.Glyph? ==> |pat.words| == 8
  }

  /** The dot of a character cell; cells lie on the coarse 8 by 16 grid. */
  predicate Dot(words: seq<bv16>, p: Point)
    requires |words| == 8
  {
    FromTop(words[p.x % 8], p.y % 16)
  }

  /** The k-th dot of a column, counted from its top or from its bottom. */
  predicate FromTop(column: bv16, k: nat)
    requires k < 16
  {
    column & (0x8000 >> k) != 0
  }

  predicate FromBottom(column: bv16, k: nat)
    requires k < 16
  {
    column & (0x0001 << k) != 0
  }

  /** Whether the fill paints the pixel at `p`. */
  predicate Inked(pat: Pattern, p: Point)
    requires ValidPattern(pat)
  {
    match pat
    case Solid => true
    case NoCharacter => false
    case Glyph(words) => Dot(words, p)
  }

  /** What a pattern paints at (x, y) of the terminal, where the lowest bit of a column of dots is its
      bottom row. */
  predicate PaintsAt(pat: Pattern, x: int, y: int)
    requires ValidPattern(pat)
  {
    match pat
    case Solid => true
    case NoCharacter => false
    case Glyph(words) => FromBottom(words[x % 8], y % 16)
  }

  /** Characters are painted upright: the bitmap's rows and a column's bits are both counted from the
      other end. */
  lemma InkedUpright(pat: Pattern, x: int, y: int)
    requires ValidPattern(pat)
    ensures Inked(pat, Upright(x, y)) <==> PaintsAt(pat, x, y)
  {
    hide FromTop, FromBottom;
    CellPlace(x, y);
    if pat.Glyph? {
      UpsideDown(pat.words[x % 8], y % 16);
    }
  }

  /** Where in its cell a point lies. */
  lemma CellPlace(x: int, y: int)
    ensures Upright(x, y).x % 8 == x % 8 && Upright(x, y).y % 16 == 15 - y % 16
  {
    var m, n := x / SIZE, y / SIZE;
    assert x % SIZE == x - 8 * (64 * m);
    assert SIZE - 1 - y % SIZE == 15 - y + 16 * (31 + 32 * n);
  }

  lemma UpsideDown(column: bv16, k: nat)
    requires k < 16
    ensures FromTop(column, 15 - k) == FromBottom(column, k)
  {
    assert (0x8000 as bv16) >> (15 - k) == (0x0001 as bv16) << k;
  }

  lemma UprightIs(x: int, y: int)
    requires OnScreen(Point(x, y))
    ensures Upright(x, y) == Point(x, SIZE - 1 - y)
  {
  }

  /** Where the point (x, y) of the terminal lies in the bitmap, whose rows count downwards. */
  function Upright(x: int, y: int): (spot: Point)
    ensures OnScreen(spot)
  {
    Point(x % SIZE, SIZE - 1 - y % SIZE)
  }

  /** The current colours, and the mask of the alpha bits. */
  datatype Ink = Ink(fgpix: Pixel, bgpix: Pixel, maxalpha: Pixel) {
    predicate Valid() {
      maxalpha != 0 && Opaque(fgpix, maxalpha) && Opaque(bgpix, maxalpha)
    }

    /** The test that makes a level stop at a pixel. */
    predicate Done(pass: bool, pixel: Pixel) {
      || (pass && !Marked(pixel, maxalpha))
      || (!pass && (pixel == bgpix || Marked(pixel, maxalpha)))
    }

    /** What a level writes when it does not stop. */
    function Repaint(pass: bool, pat: Pattern, p: Point, pixel: Pixel): Pixel
      requires ValidPattern(pat)
    {
      if !pass then Mark(pixel, maxalpha)
      else if Inked(pat, p) then fgpix
      else Unmark(pixel, maxalpha)
    }

    lemma RepaintIsDone(pass: bool, pat: Pattern, p: Point, pixel: Pixel)
      requires Valid() && ValidPattern(pat)
      ensures Done(pass, Repaint(pass, pat, p, pixel))
    {
      hide Marked, Opaque, Mark, Unmark;
      MarkIsMarked(pixel, maxalpha);
      UnmarkIsUnmarked(pixel, maxalpha);
      OpaqueIsUnmarked(fgpix, maxalpha);
    }

    /** No pixel carries the walker's mark. */
    ghost predicate FullAlpha(image: Image) {
      forall p | p in image :: Opaque(image[p], maxalpha)
    }

    /** The points at which a pass that begins on `image` would not stop. */
    ghost function Open(pass: bool, image: Image): set<Point> {
      set p | p in image && !Done(pass, image[p])
    }

    /** `image` with the points of `visited` rewritten by a pass. */
    ghost function Repainted(pass: bool, pat: Pattern, image: Image, visited: set<Point>): Image
      requires ValidPattern(pat)
    {
      map p | p in image :: if p in visited then Repaint(pass, pat, p, image[p]) else image[p]
    }

    /** What is drawn: everything but background. */
    ghost function Figure(image: Image): set<Point> {
      set p | p in image && image[p] != bgpix
    }

    /**
     What -paint- promises: the non-background component that holds `start` takes the
     foreground colour where the pattern has a dot, and nothing else changes.
     */
    ghost function Painted(pat: Pattern, image: Image, start: Point): Image
      requires ValidPattern(pat)
    {
      map p | p in image ::
        if Connected(Figure(image), start, p) && Inked(pat, p) then fgpix else image[p]
    }

    lemma RepaintedPixel(pass: bool, pat: Pattern, image: Image, visited: set<Point>, p: Point)
      requires Valid() && ValidPattern(pat) && p in image
      ensures p in Repainted(pass, pat, image, visited)
      ensures Done(pass, Repainted(pass, pat, image, visited)[p])
              <==> p !in Open(pass, image) || p in visited
    {
      hide Done, Repaint;
      RepaintIsDone(pass, pat, p, image[p]);
    }

    lemma RepaintOneMore(pass: bool, pat: Pattern, image: Image, visited: set<Point>, p: Point)
      requires ValidPattern(pat) && p in image && p !in visited
      ensures p in Repainted(pass, pat, image, visited)
      ensures Repainted(pass, pat, image, visited + {p})
              == Repainted(pass, pat, image, visited)[p := Repaint(pass, pat, p, image[p])]
      ensures Repainted(pass, pat, image, visited)[p] == image[p]
    {
      hide Repaint;
    }

    /** On an unmarked image the first pass may enter exactly the figure. */
    lemma FirstPassOpensFigure(image: Image)
      requires Valid() && FullAlpha(image)
      ensures Open(false, image) == Figure(image)
    {
      hide Marked, Opaque;
      forall p | p in image
        ensures !Marked(image[p], maxalpha)
      {
        OpaqueIsUnmarked(image[p], maxalpha);
      }
    }

    /** What the first pass marked is what the second may enter. */
    lemma SecondPassOpensMarked(pat: Pattern, image: Image, component: set<Point>)
      requires Valid() && FullAlpha(image) && ValidPattern(pat)
      requires component <= image.Keys
      ensures Open(true, Repainted(false, pat, image, component)) == component
    {
      hide Marked, Opaque, Mark;
      forall p | p in image
        ensures !Marked(image[p], maxalpha) && Marked(Mark(image[p], maxalpha), maxalpha)
      {
        OpaqueIsUnmarked(image[p], maxalpha);
        MarkIsMarked(image[p], maxalpha);
      }
    }

    /** Marking a figure's component and then painting or unmarking it paints it exactly. */
    lemma TwoPassesPaint(pat: Pattern, image: Image, start: Point, component: set<Point>)
      requires Valid() && FullAlpha(image) && ValidPattern(pat)
      requires forall p :: p in component <==> Connected(Open(false, image), start, p)
      ensures Repainted(true, pat, Repainted(false, pat, image, component), component)
              == Painted(pat, image, start)
    {
      hide Marked, Opaque, Mark, Unmark, Connected, Open, Inked;
      FirstPassOpensFigure(image);
      forall p | p in image
        ensures Unmark(Mark(image[p], maxalpha), maxalpha) == image[p]
      {
        UnmarkUndoesMark(image[p], maxalpha);
      }
    }

    /** In the terminal's coordinates: `after` has the foreground colour where the pattern has a dot in
        the figure at (x0, y0), and elsewhere what `image` has. */
    ghost predicate Paints(pat: Pattern, image: Image, x0: int, y0: int, after: Image)
      requires ValidPattern(pat) && WholeScreen(image) && WholeScreen(after)
    {
      forall x, y | OnScreen(Point(x, y)) ::
        var p := Point(x, SIZE - 1 - y);
        after[p] == if Connected(Figure(image), Point(x0, SIZE - 1 - y0), p) && PaintsAt(pat, x, y) then fgpix
                    else image[p]
    }

    lemma PaintedUpright(pat: Pattern, image: Image, x0: int, y0: int)
      requires ValidPattern(pat) && WholeScreen(image)
      ensures Paints(pat, image, x0, y0, Painted(pat, image, Point(x0, SIZE - 1 - y0)))
    {
      hide Connected, Upright, Inked, PaintsAt;
      forall x, y | OnScreen(Point(x, y))
        ensures Inked(pat, Point(x, SIZE - 1 - y)) <==> PaintsAt(pat, x, y)
      {
        InkedUpright(pat, x, y);
        UprightIs(x, y);
      }
    }

    lemma PaintedKeepsAlpha(pat: Pattern, image: Image, start: Point)
      requires Valid() && FullAlpha(image) && ValidPattern(pat)
      ensures FullAlpha(Painted(pat, image, start))
    {
      hide Opaque, Connected, Inked;
    }
  }

  /** The pixels of the screen. */
  type Image = map<Point, Pixel>

  ghost predicate WholeScreen(image: Image) {
    forall p | OnScreen(p) :: p in image
  }

  /** A connected set of open points is the only component of its start. */
  lemma ComponentOfComponent(open: set<Point>, component: set<Point>, from: Point, p: Point)
    requires forall q :: q in component <==> Connected(open, from, q)
    ensures Connected(component, from, p) <==> Connected(open, from, p)
  {
    if Connected(open, from, p) {
      var path :| IsPath(open, from, p, path);
      ComponentIsConnected(open, component, from, p, path);
    }
  }

  /** Exclusive-or drawing keeps the alpha bits set. */
  function Blend(pixel: Pixel, ink: Pixel, alpha: Pixel): Pixel {
    (pixel ^ ink) | alpha
  }

  lemma XorIsOpaque(pixel: Pixel, ink: Pixel, alpha: Pixel)
    ensures Opaque(Blend(pixel, ink, alpha), alpha)
  {
  }

  /** On black the ink itself is drawn, and on the ink black. */
  lemma XorOnBlack(ink: Pixel, alpha: Pixel)
    requires Opaque(ink, alpha)
    ensures Blend(alpha, ink, alpha) == ink && Blend(ink, ink, alpha) == alpha
  {
  }

  lemma XorTwice(pixel: Pixel, ink: Pixel, alpha: Pixel)
    requires Opaque(pixel, alpha)
    ensures Blend(Blend(pixel, ink, alpha), ink, alpha) == pixel
  {
  }

  /** How points are drawn: with a colour, replacing or exclusive-or. */
  datatype Pen = Pen(pixel: Pixel, xor: bool, alpha: Pixel) {
    function Dab(pixel0: Pixel): Pixel {
      if xor then Blend(pixel0, pixel, alpha) else pixel
    }

    function Spot(p: Point): (spot: Point)
      ensures OnScreen(spot)
    {
      Upright(p.x, p.y)
    }

    ghost function Plot(image: Image, p: Point): (r: Image)
      requires WholeScreen(image)
      ensures WholeScreen(r)
    {
      image[Spot(p) := Dab(image[Spot(p)])]
    }

    ghost function PlotAll(image: Image, points: seq<Point>): (r: Image)
      requires WholeScreen(image)
      ensures WholeScreen(r)
    {
      if points == [] then image
      else Plot(PlotAll(image, points[..|points| - 1]), points[|points| - 1])
    }

    lemma DabIsOpaque(pixel0: Pixel)
      requires Opaque(pixel, alpha)
      ensures Opaque(Dab(pixel0), alpha)
    {
      hide Opaque, Blend;
      XorIsOpaque(pixel0, pixel, alpha);
    }

    lemma PlotCommutes(image: Image, p: Point, q: Point)
      requires WholeScreen(image)
      ensures Plot(Plot(image, p), q) == Plot(Plot(image, q), p)
    {
      hide Dab;
    }

    lemma {:induction false} PlotPastAll(image: Image, p: Point, points: seq<Point>)
      requires WholeScreen(image)
      ensures PlotAll(Plot(image, p), points) == Plot(PlotAll(image, points), p)
    {
      hide Dab, Spot;
      if points != [] {
        var rest := points[..|points| - 1];
        PlotPastAll(image, p, rest);
        PlotCommutes(PlotAll(image, rest), p, points[|points| - 1]);
      }
    }

    lemma PlotTwice(image: Image, p: Point)
      requires xor && WholeScreen(image) && Opaque(image[Spot(p)], alpha)
      ensures Plot(Plot(image, p), p) == image
    {
      hide Opaque, Spot, Blend;
      var before := image[Spot(p)];
      XorTwice(before, pixel, alpha);
      assert Dab(Dab(before)) == before;
      hide Dab;
    }

    /** Drawing keeps the bitmap free of the walker's marks. */
    lemma {:induction false} PlotAllKeepsAlpha(image: Image, points: seq<Point>)
      requires Opaque(pixel, alpha)
      requires WholeScreen(image)
      requires forall p | p in image :: Opaque(image[p], alpha)
      ensures forall p | p in PlotAll(image, points) :: Opaque(PlotAll(image, points)[p], alpha)
    {
      hide Opaque, Dab, Spot;
      if points != [] {
        var rest, p := points[..|points| - 1], points[|points| - 1];
        PlotAllKeepsAlpha(image, rest);
        DabIsOpaque(PlotAll(image, rest)[Spot(p)]);
      }
    }

    /** In exclusive-or mode drawing the same points again restores the picture. */
    lemma {:induction false} RedrawErases(image: Image, points: seq<Point>)
      requires xor && Opaque(pixel, alpha)
      requires WholeScreen(image)
      requires forall p | p in image :: Opaque(image[p], alpha)
      ensures PlotAll(PlotAll(image, points), points) == image
    {
      hide Opaque, Dab, Spot;
      if points != [] {
        var rest, p := points[..|points| - 1], points[|points| - 1];
        PlotPastAll(PlotAll(image, rest), p, rest);
        RedrawErases(image, rest);
        PlotTwice(image, p);
      }
    }
  }
}
