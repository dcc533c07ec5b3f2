/** The terminal's frame: drawing operations that change its bitmap in place. */
module TerminalFrame {
  import opened Screen
  import opened WalkerState
  import opened Pixels
  import opened Line

  class PtermFrame {
    const bitmap: array2<Pixel>
    const walkstack: array<u8>
    var ink: Ink
    var currentX: int
    var currentY: int
    var modexor: bool
    var wemode: nat

    /** The bitmap is the whole screen. */
    predicate Valid()
      reads this
    {
      && bitmap.Length0 == SIZE && bitmap.Length1 == SIZE
      && walkstack.Length == SIZE * SIZE + 2
      && ink.Valid()
    }

    /** A screen of background, with no mark on it. */
    constructor (colours: Ink)
      requires colours.Valid()
      ensures Valid() && ink == colours && ink.FullAlpha(Picture()) && OnScreen(Point(currentX, currentY))
      ensures fresh(bitmap) && fresh(walkstack)
    {
      bitmap := new Pixel[SIZE, SIZE]((i, j) => colours.bgpix);
      walkstack := new u8[SIZE * SIZE + 2](i => 0);
      ink := colours;
      currentX, currentY, modexor, wemode := 0, 0, false, 3;
      new;
      hide Opaque;
      forall x, y | OnScreen(Point(x, y))
        ensures bitmap[x, y] == colours.bgpix
      {
      }
    }

    ghost function Picture(): (image: Image)
      requires Valid()
      reads this, bitmap
      ensures forall p :: p in image <==> OnScreen(p)
      ensures forall p | OnScreen(p) :: image[p] == bitmap[p.x, p.y]
    {
      map x, y | 0 <= x < SIZE && 0 <= y < SIZE :: Point(x, y) := bitmap[x, y]
    }

    method SetPixel(x: int, y: int, pixel: Pixel)
      requires Valid() && OnScreen(Point(x, y))
      modifies bitmap
      ensures Picture() == old(Picture())[Point(x, y) := pixel]
    {
      bitmap[x, y] := pixel;
    }

    method SetTop(sp: int, level: u8)
      requires 0 <= sp < walkstack.Length
      modifies walkstack
      ensures walkstack[..sp + 1] == old(walkstack[..sp]) + [level]
    {
      walkstack[sp] := level;
    }

    method Push(sp: int) returns (sp': int)
      requires 0 <= sp + 1 < walkstack.Length
      modifies walkstack
      ensures sp' == sp + 1 && walkstack[..sp' + 1] == old(walkstack[..sp + 1]) + [0]
    {
      sp' := sp + 1;
      walkstack[sp'] := 0;
    }

    /** The write a level makes when it visits its pixel. */
    method RepaintPixel(x: int, y: int, pat: Pattern, pass: bool)
      requires Valid() && ValidPattern(pat) && !pat.NoCharacter? && OnScreen(Point(x, y))
      modifies bitmap
      ensures Picture() == old(Picture())[Point(x, y) := ink.Repaint(pass, pat, Point(x, y), old(bitmap[x, y]))]
    {
      hide Marked, Opaque, Mark, Unmark;
      if pass {
        if pat.Glyph? {
          var cx, cy := x % 8, y % 16;
          if pat.words[cx] & (0x8000 >> cy) != 0 {
            SetPixel(x, y, ink.fgpix);
          } else {
            SetPixel(x, y, Unmark(bitmap[x, y], ink.maxalpha));
          }
        } else {
          SetPixel(x, y, ink.fgpix);
        }
      } else {
        SetPixel(x, y, Mark(bitmap[x, y], ink.maxalpha));
      }
    }

    /** The current drawing mode as a pen. */
    function CurrentPen(): Pen
      reads this
    {
      if modexor || wemode % 2 == 1 then Pen(ink.fgpix, modexor, ink.maxalpha)
      else Pen(ink.bgpix, false, ink.maxalpha)
    }

    method PtermUpdatePoint(x: int, y: int, pixval: Pixel, xor: bool)
      requires Valid()
      modifies bitmap
      ensures Picture() == Pen(pixval, xor, ink.maxalpha).Plot(old(Picture()), Point(x, y))
    {
      hide Picture, Blend;
      var xm, ym := x % SIZE, SIZE - 1 - y % SIZE;
      PixelAt(xm, ym);
      if xor {
        SetPixel(xm, ym, Blend(bitmap[xm, ym], pixval, ink.maxalpha));
      } else {
        SetPixel(xm, ym, pixval);
      }
    }

    lemma PixelAt(x: int, y: int)
      requires Valid() && OnScreen(Point(x, y))
      ensures Point(x, y) in Picture() && Picture()[Point(x, y)] == bitmap[x, y]
    {
    }

    method PtermDrawPoint(x: int, y: int)
      requires Valid()
      modifies bitmap
      ensures Picture() == CurrentPen().Plot(old(Picture()), Point(x, y))
    {
      if modexor || wemode % 2 == 1 {
        PtermUpdatePoint(x, y, ink.fgpix, modexor);
      } else {
        PtermUpdatePoint(x, y, ink.bgpix, false);
      }
    }

    /** Draw the next of a list of points. */
    method DrawNext(x: int, y: int, ghost points: seq<Point>, ghost k: nat, ghost before: Image)
      requires Valid() && WholeScreen(before) && k < |points| && points[k] == Point(x, y)
      requires Picture() == CurrentPen().PlotAll(before, points[..k])
      modifies bitmap
      ensures Picture() == CurrentPen().PlotAll(before, points[..k + 1])
    {
      hide Picture, Pen.Plot, Pen.Spot, CurrentPen;
      PtermDrawPoint(x, y);
      assert points[..k + 1][..k] == points[..k];
    }

    /** The loop for a shallow line, after its first point has been drawn. */
    method DrawShallow(x: int, y: int, toX: int, stepx: int, stepy: int, dx: int, dy: int,
                       ghost to: Point, ghost before: Image)
      requires Valid() && WholeScreen(before)
      requires to.x == toX && stepx == Step(to.x - x) && stepy == Step(to.y - y)
      requires dx == 2 * Abs(to.x - x) && dy == 2 * Abs(to.y - y) && dx > dy
      requires Picture() == CurrentPen().PlotAll(before, LinePoints(Point(x, y), to)[..1])
      modifies bitmap
      ensures Picture() == CurrentPen().PlotAll(before, LinePoints(Point(x, y), to))
    {
      hide Picture, LinePoint, LinePoints, Pen.PlotAll, CurrentPen, Abs, Step, ShallowAt, SteepAt, PtermFrame.Valid;
      ghost var from := Point(x, y);
      ghost var points, k, m := LinePoints(from, to), 0, 0;
      var x1, y1 := x, y;
      var fraction := dy - dx / 2;
      ShallowStart(from, to);
      Halves(dx, Abs(to.x - x));
      ShallowEnd(from, to, k, m, from, fraction);
      while x1 != toX
        invariant 0 <= m && 0 <= k < |points| && ShallowAt(from, to, k, m, Point(x1, y1), fraction)
        invariant x1 == toX <==> k == |points| - 1
        invariant Picture() == CurrentPen().PlotAll(before, points[..k + 1])
        decreases |points| - k
      {
        m := ShallowNext(from, to, k, m, Point(x1, y1), fraction);
        if fraction >= 0 {
          y1 := y1 + stepy;
          fraction := fraction - dx;
        }
        x1 := x1 + stepx;
        fraction := fraction + dy;
        k := k + 1;
        ShallowEnd(from, to, k, m, Point(x1, y1), fraction);
        DrawNext(x1, y1, points, k, before);
      }
      assert points[..k + 1] == points;
    }

    lemma Halves(d: int, n: nat)
      requires d == 2 * n
      ensures d / 2 == n
    {
    }

    lemma ShallowEnd(from: Point, to: Point, k: nat, m: nat, p: Point, fraction: int)
      requires ShallowAt(from, to, k, m, p, fraction) && Abs(to.x - from.x) > Abs(to.y - from.y)
      ensures k < |LinePoints(from, to)| && LinePoints(from, to)[k] == p
      ensures p.x == to.x <==> k == |LinePoints(from, to)| - 1
    {
      hide LinePoint, Toward, InStep;
    }

    /** The loop for a steep line, after its first point has been drawn. */
    method DrawSteep(x: int, y: int, toY: int, stepx: int, stepy: int, dx: int, dy: int,
                     ghost to: Point, ghost before: Image)
      requires Valid() && WholeScreen(before)
      requires to.y == toY && stepx == Step(to.x - x) && stepy == Step(to.y - y)
      requires dx == 2 * Abs(to.x - x) && dy == 2 * Abs(to.y - y) && dx <= dy
      requires Picture() == CurrentPen().PlotAll(before, LinePoints(Point(x, y), to)[..1])
      modifies bitmap
      ensures Picture() == CurrentPen().PlotAll(before, LinePoints(Point(x, y), to))
    {
      hide Picture, LinePoint, LinePoints, Pen.PlotAll, CurrentPen, Abs, Step, ShallowAt, SteepAt, PtermFrame.Valid;
      ghost var from := Point(x, y);
      ghost var points, k, m := LinePoints(from, to), 0, 0;
      var x1, y1 := x, y;
      var fraction := dx - dy / 2;
      SteepStart(from, to);
      Halves(dy, Abs(to.y - y));
      SteepEnd(from, to, k, m, from, fraction);
      while y1 != toY
        invariant 0 <= m && 0 <= k < |points| && SteepAt(from, to, k, m, Point(x1, y1), fraction)
        invariant y1 == toY <==> k == |points| - 1
        invariant Picture() == CurrentPen().PlotAll(before, points[..k + 1])
        decreases |points| - k
      {
        m := SteepNext(from, to, k, m, Point(x1, y1), fraction);
        if fraction >= 0 {
          x1 := x1 + stepx;
          fraction := fraction - dy;
        }
        y1 := y1 + stepy;
        fraction := fraction + dx;
        k := k + 1;
        SteepEnd(from, to, k, m, Point(x1, y1), fraction);
        DrawNext(x1, y1, points, k, before);
      }
      assert points[..k + 1] == points;
    }

    lemma SteepEnd(from: Point, to: Point, k: nat, m: nat, p: Point, fraction: int)
      requires SteepAt(from, to, k, m, p, fraction) && Abs(to.y - from.y) >= Abs(to.x - from.x)
      ensures k < |LinePoints(from, to)| && LinePoints(from, to)[k] == p
      ensures p.y == to.y <==> k == |LinePoints(from, to)| - 1
    {
      hide LinePoint, Toward, InStep;
    }

    /** The incremental line plots, in order, exactly the points that rounding gives. */
    method PtermDrawLine(fromX: int, fromY: int, toX: int, toY: int)
      requires Valid()
      modifies bitmap
      ensures Picture() == CurrentPen().PlotAll(old(Picture()), LinePoints(Point(fromX, fromY), Point(toX, toY)))
    {
      hide Picture, LinePoint, Pen.Plot, Pen.Spot, CurrentPen;
      ghost var from, to := Point(fromX, fromY), Point(toX, toY);
      ghost var before := Picture();
      var dx, dy := toX - fromX, toY - fromY;
      var stepx, stepy := 1, 1;
      if dx < 0 {
        dx, stepx := -dx, -1;
      }
      if dy < 0 {
        dy, stepy := -dy, -1;
      }
      dx, dy := 2 * dx, 2 * dy;
      PtermDrawPoint(fromX, fromY);
      LineEnds(from, to);
      assert LinePoints(from, to)[..1] == [] + [from];
      if dx > dy {
        DrawShallow(fromX, fromY, toX, stepx, stepy, dx, dy, to, before);
      } else {
        DrawSteep(fromX, fromY, toY, stepx, stepy, dx, dy, to, before);
      }
    }

    /** Case 0: leave a pixel that is done; otherwise rewrite it and explore to the left. */
    method Arrive(x: int, y: int, sp: int, pat: Pattern, pass: bool, ghost w: Walk, ghost before: Image)
      returns (x': int, sp': int, ghost w': Walk)
      requires Valid() && ValidPattern(pat) && !pat.NoCharacter? && OnScreen(Point(x, y))
      requires 0 <= sp < walkstack.Length - 1
      requires Represents(w, walkstack[..sp] + [0], x, y) && walkstack[sp] == 1
      requires w.open == ink.Open(pass, before) && Point(x, y) in before
      requires Picture() == ink.Repainted(pass, pat, before, w.visited)
      modifies bitmap, walkstack
      ensures 0 <= sp' < walkstack.Length && Represents(w', walkstack[..sp' + 1], x', y)
      ensures w'.open == w.open && w'.start == w.start
      ensures Picture() == ink.Repainted(pass, pat, before, w'.visited)
      ensures || w'.open - w'.visited < w.open - w.visited
              || (w'.visited == w.visited && Potential(w'.stack) < Potential(w.stack))
    {
      hide Represents, Ink.Repaint, Ink.Done, Potential, Ink.Open, Ink.Valid, Picture, Ink.Repainted;
      x', sp' := x, sp;
      ink.RepaintedPixel(pass, pat, before, w.visited, Point(x, y));
      if ink.Done(pass, bitmap[x, y]) {
        w' := SkipCase(w, walkstack[..sp], x, y);
        SetTop(sp, 4);
      } else {
        w' := EnterCase(w, walkstack[..sp], x, y);
        ink.RepaintOneMore(pass, pat, before, w.visited, Point(x, y));
        RepaintPixel(x, y, pat, pass);
        assert walkstack[..sp + 1] == walkstack[..sp] + [1];
        if x > 0 {
          x' := x - 1;
          sp' := Push(sp);
        }
      }
    }

    /** Cases 1 to 3: explore to the right, up and down. */
    method Explore(level: u8, x: int, y: int, sp: int, ghost w: Walk)
      returns (x': int, y': int, sp': int, ghost w': Walk)
      requires 0 <= sp < walkstack.Length - 1 && OnScreen(Point(x, y))
      requires 1 <= level <= 3 && Represents(w, walkstack[..sp] + [level], x, y) && walkstack[sp] == level + 1
      modifies walkstack
      ensures 0 <= sp' < walkstack.Length && Represents(w', walkstack[..sp' + 1], x', y')
      ensures w'.open == w.open && w'.start == w.start && w'.visited == w.visited
      ensures Potential(w'.stack) < Potential(w.stack)
    {
      hide Represents, Potential;
      x', y', sp' := x, y, sp;
      w' := ExploreCase(w, walkstack[..sp], level, x, y);
      assert walkstack[..sp + 1] == walkstack[..sp] + [level + 1];
      match level {
        case 1 =>
          if x < 511 {
            x' := x + 1;
            sp' := Push(sp);
          }
        case 2 =>
          if y < 511 {
            y' := y + 1;
            sp' := Push(sp);
          }
        case 3 =>
          if y > 0 {
            y' := y - 1;
            sp' := Push(sp);
          }
      }
    }

    /** Case 4: pop the level and undo the move that led to it, which the byte below tells. */
    method Backtrack(x: int, y: int, sp: int, ghost w: Walk)
      returns (x': int, y': int, sp': int, ghost w': Walk)
      requires 0 <= sp < walkstack.Length && Represents(w, walkstack[..sp] + [4], x, y)
      ensures -1 <= sp' < walkstack.Length && Represents(w', walkstack[..sp' + 1], x', y')
      ensures w'.open == w.open && w'.start == w.start && w'.visited == w.visited
      ensures Potential(w'.stack) < Potential(w.stack)
    {
      hide Represents, Potential;
      x', y', sp' := x, y, sp - 1;
      w' := PopCase(w, walkstack[..sp], x, y);
      if sp' >= 0 {
        match walkstack[sp'] {
          case 1 => x' := x + 1;
          case 2 => x' := x - 1;
          case 3 => y' := y - 1;
          case 4 => y' := y + 1;
        }
      }
    }

    /** One turn of the walk: count the top level on, and do what its old count says. */
    method Turn(x: int, y: int, sp: int, pat: Pattern, pass: bool, ghost w: Walk, ghost before: Image)
      returns (x': int, y': int, sp': int, ghost w': Walk)
      requires Valid() && ValidPattern(pat) && !pat.NoCharacter? && 0 <= sp < walkstack.Length - 1
      requires Represents(w, walkstack[..sp + 1], x, y)
      requires w.open == ink.Open(pass, before) && forall p | OnScreen(p) :: p in before
      requires Picture() == ink.Repainted(pass, pat, before, w.visited)
      modifies bitmap, walkstack
      ensures -1 <= sp' < walkstack.Length && Represents(w', walkstack[..sp' + 1], x', y')
      ensures w'.open == w.open && w'.start == w.start
      ensures Picture() == ink.Repainted(pass, pat, before, w'.visited)
      ensures || w'.open - w'.visited < w.open - w.visited
              || (w'.visited == w.visited && Potential(w'.stack) < Potential(w.stack))
    {
      hide Represents, Ink.Repaint, Potential, Ink.Open, Ink.Valid, Picture, Ink.Repainted;
      x', y', sp' := x, y, sp;
      RepresentsView(w, walkstack[..sp + 1], x, y);
      var level := walkstack[sp];
      assert walkstack[..sp + 1] == walkstack[..sp] + [level];
      ghost var below := walkstack[..sp];
      walkstack[sp] := walkstack[sp] + 1;
      assert walkstack[..sp] == below;
      match level {
        case 0 => x', sp', w' := Arrive(x, y, sp, pat, pass, w, before);
        case 4 => x', y', sp', w' := Backtrack(x, y, sp, w);
        case _ => x', y', sp', w' := Explore(level, x, y, sp, w);
      }
    }

    /** One pass of the walk rewrites exactly the component of the start within the points that
        were open when it began. */
    method PtermPaintWalker(x0: int, y0: int, pat: Pattern, pass: bool, ghost component: set<Point>)
      requires Valid() && ValidPattern(pat)
      requires OnScreen(Point(x0, y0))
      requires forall p :: p in component <==> Connected(ink.Open(pass, Picture()), Point(x0, y0), p)
      modifies bitmap, walkstack
      ensures Picture() == if pat.NoCharacter? then old(Picture())
                           else ink.Repainted(pass, pat, old(Picture()), component)
    {
      hide Represents, Ink.Repaint, Potential, Connected, Ink.Open, Ink.Valid, Picture, Ink.Repainted;
      if pat.NoCharacter? {
        return;
      }
      var x, y := x0, y0;
      var maxsp := 0;
      var sp := 0;
      ghost var before := Picture();
      assert forall p | OnScreen(p) :: p in before;
      ghost var open := ink.Open(pass, before);
      ghost var w := BeginWalk(pass, pat, Point(x0, y0));
      walkstack[sp] := 0;
      assert walkstack[..1] == [0];
      while sp >= 0
        invariant -1 <= sp < walkstack.Length && Represents(w, walkstack[..sp + 1], x, y)
        invariant w.open == open && w.start == Point(x0, y0)
        invariant Picture() == ink.Repainted(pass, pat, before, w.visited)
        decreases w.open - w.visited, Potential(w.stack)
      {
        RepresentsView(w, walkstack[..sp + 1], x, y);
        if sp > maxsp {
          assert sp < walkstack.Length - 1;
          maxsp := sp;
        }
        x, y, sp, w := Turn(x, y, sp, pat, pass, w, before);
      }
      EndOfWalk(w, x, y);
      assert w.visited == component;
    }

    lemma BeginWalk(pass: bool, pat: Pattern, start: Point) returns (w: Walk)
      requires Valid() && ValidPattern(pat) && OnScreen(start)
      ensures Represents(w, [0], start.x, start.y)
      ensures w.open == ink.Open(pass, Picture()) && w.start == start
      ensures Picture() == ink.Repainted(pass, pat, Picture(), w.visited)
    {
      hide Ink.Repaint, Ink.Done;
      w := Walk(ink.Open(pass, Picture()), start, {}, [0], [start], false);
      w.StartInv();
    }

    lemma EndOfWalk(w: Walk, x: int, y: int)
      requires Represents(w, [], x, y)
      ensures forall p :: p in w.visited <==> Connected(w.open, w.start, p)
    {
      w.FinishedExactly();
    }

    /**
     -paint- at the current point, when that is on the screen: the bitmap becomes exactly what the
     design promises, so in particular no mark is left behind.
     */
    method PtermPaint(pat: Pattern)
      requires Valid() && ValidPattern(pat) && ink.FullAlpha(Picture())
      requires OnScreen(Point(currentX, currentY))
      modifies bitmap, walkstack
      ensures Picture() == ink.Painted(pat, old(Picture()), Point(currentX, 511 - currentY))
      ensures ink.FullAlpha(Picture())
      ensures ink.Paints(pat, old(Picture()), currentX, currentY, Picture())
    {
      hide Picture, Connected, Ink.Valid, Ink.Open, Ink.Repainted, Ink.Painted, Ink.FullAlpha, Inked, Ink.Paints;
      var xm, ym := currentX, 511 - currentY;
      ghost var before := Picture();
      ghost var component := Component(ink.Open(false, before), Point(xm, ym));
      PtermPaintWalker(xm, ym, pat, false, component);
      if pat.NoCharacter? {
        NothingPainted(before, Point(xm, ym));
        PtermPaintWalker(xm, ym, pat, true, Component(ink.Open(true, before), Point(xm, ym)));
      } else {
        assert component <= before.Keys by { OpenIsOnScreen(before); }
        ink.SecondPassOpensMarked(pat, before, component);
        forall p
          ensures p in component <==> Connected(component, Point(xm, ym), p)
        {
          ComponentOfComponent(ink.Open(false, before), component, Point(xm, ym), p);
        }
        PtermPaintWalker(xm, ym, pat, true, component);
        ink.TwoPassesPaint(pat, before, Point(xm, ym), component);
      }
      ink.PaintedKeepsAlpha(pat, before, Point(xm, ym));
      ink.PaintedUpright(pat, before, currentX, currentY);
    }

    lemma OpenIsOnScreen(image: Image)
      ensures ink.Open(false, image) <= image.Keys
    {
    }

    lemma NothingPainted(image: Image, start: Point)
      ensures ink.Painted(NoCharacter, image, start) == image
    {
    }
  }
}
