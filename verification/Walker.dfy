/** The walker's state seen from outside, with the facts every step keeps. */
module WalkerState {
  import opened Screen

  type u8 = n: int | 0 <= n < 256

  /** The neighbour the walker explores when it sets its level's byte to `c`. */
  function Move(p: Point, c: int): (q: Point)
    ensures 1 <= c <= 4 ==> Adjacent(p, q)
  {
    match c
    case 1 => Point(p.x - 1, p.y)
    case 2 => Point(p.x + 1, p.y)
    case 3 => Point(p.x, p.y + 1)
    case 4 => Point(p.x, p.y - 1)
    case _ => p
  }

  /**
   `open` is what the pass could visit when it began, `visited` what it has visited so far.
   `stack` holds the bytes of the walk stack up to the top; `pos` the point each level stands
   for. `owner` says whether the top level visited its own point (or merely arrived there).
   */
  datatype Walk = Walk(open: set<Point>, start: Point, visited: set<Point>,
                       stack: seq<u8>, pos: seq<Point>, owner: bool)
  {
    function Depth(): nat { |stack| }

    function Top(): u8
      requires stack != []
    {
      stack[|stack| - 1]
    }

    function Here(): Point
      requires pos != []
    {
      pos[|pos| - 1]
    }

    /** How many levels, from the bottom, have visited their own point. */
    function Owners(): nat {
      if owner || stack == [] then |stack| else |stack| - 1
    }

    /** Nothing is left to do at `p`: it never was open or it has been visited. */
    ghost predicate Settled(p: Point) {
      p !in open || p in visited
    }

    /** How many of its neighbours level `i` has dealt with. */
    function Explored(i: nat): int
      requires i < |stack|
    {
      var w: int := stack[i];
      if i == |stack| - 1 then w else w - 1
    }

    /** Each level stands one step from the level below, in the direction its byte encodes. */
    ghost predicate Chained() {
      && |pos| == |stack|
      && (stack != [] ==> pos[0] == start)
      && (forall i | 0 <= i < |pos| :: OnScreen(pos[i]))
      && (forall i | 0 <= i < |stack| - 1 :: 1 <= stack[i] <= 4 && pos[i + 1] == Move(pos[i], stack[i]))
    }

    /** Levels that own a point own different ones, all visited. */
    ghost predicate Owned()
      requires |pos| == |stack|
    {
      && (forall i | 0 <= i < Owners() :: pos[i] in visited)
      && (forall i, j | 0 <= i < j < Owners() :: pos[i] != pos[j])
    }

    ghost predicate TopFits()
      requires |pos| == |stack|
    {
      && (owner ==> stack != [] && Top() <= 4)
      && (stack != [] && !owner ==> Top() == 0 || (Top() == 4 && Settled(Here())))
      && (stack == [] ==> Settled(start))
    }

    ghost predicate Progress()
      requires |pos| == |stack|
    {
      && (forall i, c | 0 <= i < Owners() && 1 <= c <= Explored(i) :: Settled(Move(pos[i], c)))
      && (forall q | q in visited ::
            q in pos[..Owners()] || forall c | 1 <= c <= 4 :: Settled(Move(q, c)))
    }

    ghost predicate Inv() {
      && (forall p | p in open :: OnScreen(p))
      && visited <= open
      && OnScreen(start)
      && (forall q | q in visited :: Connected(open, start, q))
      && Chained()
      && Owned()
      && TopFits()
      && Progress()
    }

    /** The point is not open any more: prepare to leave this level. */
    function Skip(): Walk
      requires stack != []
    {
      this.(stack := stack[..|stack| - 1] + [4])
    }

    function Visit(): Walk
      requires pos != []
    {
      this.(visited := visited + {Here()}, owner := true)
    }

    /** Take the next direction, opening a level there unless it leads off the screen. */
    function Advance(): Walk
      requires stack != [] && pos != [] && Top() < 4
    {
      var stepped := stack[..|stack| - 1] + [Top() + 1];
      var next := Move(Here(), Top() + 1);
      if OnScreen(next) then this.(stack := stepped + [0], pos := pos + [next], owner := false)
      else this.(stack := stepped)
    }

    function Pop(): Walk
      requires stack != [] && pos != []
    {
      this.(stack := stack[..|stack| - 1], pos := pos[..|pos| - 1], owner := |stack| > 1)
    }

    lemma StartInv()
      requires forall p | p in open :: OnScreen(p)
      requires OnScreen(start)
      requires visited == {} && stack == [0] && pos == [start] && !owner
      ensures Inv()
    {
    }

    lemma SkipKeeps()
      requires Inv() && stack != [] && !owner && Settled(Here())
      ensures Skip().Inv()
    {
      var w := Skip();
      assert w.Owners() == Owners();
      assert w.Progress() by {
        hide Connected, Move, Potential;
        assert forall i | 0 <= i < Owners() :: w.Explored(i) == Explored(i);
      }
    }

    lemma SkipUsesFuel()
      requires stack != [] && Top() == 0
      ensures Potential(Skip().stack) < Potential(stack)
    {
      hide Potential;
      PotentialOfPush(stack[..|stack| - 1], 0);
      PotentialOfPush(stack[..|stack| - 1], 4);
      assert stack == stack[..|stack| - 1] + [Top()];
    }

    lemma VisitKeeps()
      requires Inv() && stack != [] && !owner && Top() == 0 && !Settled(Here())
      ensures Visit().Inv()
    {
      hide Connected, Chained, Owned, TopFits, Progress;
      ChainIsPath();
      VisitOwned();
      VisitProgress();
    }

    lemma VisitOwned()
      requires Chained() && Owned() && stack != [] && !owner && Top() == 0 && Here() !in visited && visited <= open
      ensures Visit().Chained() && Visit().Owned() && Visit().TopFits()
    {
      assert Visit().Owners() == Owners() + 1 == |stack|;
    }

    lemma ChainIsPath()
      requires Chained() && Owned() && visited <= open
      requires stack != [] && !owner && Here() in open
      ensures Connected(open, start, Here())
    {
      assert IsPath(open, start, Here(), pos);
    }

    lemma VisitProgress()
      requires |pos| == |stack| > 0 && Progress() && !owner && Top() == 0
      ensures Visit().Progress()
    {
      hide Connected, Move;
      var w := Visit();
      assert pos[..w.Owners()] == pos[..Owners()] + [Here()];
      forall i, c | 0 <= i < w.Owners() && 1 <= c <= w.Explored(i)
        ensures w.Settled(Move(pos[i], c))
      {
        assert i < Owners() && w.Explored(i) == Explored(i);
      }
    }

    lemma AdvanceKeeps()
      requires Inv() && stack != [] && owner && Top() < 4
      ensures Advance().Inv()
    {
      hide Connected, Potential, Progress, Chained, Owned, TopFits;
      AdvanceChained();
      AdvanceOwned();
      AdvanceProgress();
    }

    lemma AdvanceChained()
      requires Chained() && stack != [] && Top() < 4
      ensures Advance().Chained()
    {
    }

    lemma AdvanceOwned()
      requires |pos| == |stack| && Owned() && stack != [] && owner && Top() < 4
      ensures |Advance().pos| == |Advance().stack| && Advance().Owned() && Advance().TopFits()
    {
    }

    lemma AdvanceProgress()
      requires |pos| == |stack| > 0 && (forall p | p in open :: OnScreen(p))
      requires Progress() && owner && Top() < 4
      ensures Advance().Progress()
    {
      hide Connected, Potential;
      var w := Advance();
      var next := Move(Here(), Top() + 1);
      assert w.Owners() == Owners() == |stack|;
      assert w.pos[..w.Owners()] == pos[..Owners()];
      forall i, c | 0 <= i < w.Owners() && 1 <= c <= w.Explored(i)
        ensures w.Settled(Move(w.pos[i], c))
      {
        if i < |stack| - 1 {
          assert w.Explored(i) == Explored(i);
        } else if c <= Top() {
          assert Settled(Move(pos[i], c));
        } else {
          assert !OnScreen(next);
        }
      }
    }

    /** `w` is this walk after its top level took direction `c`. */
    ghost predicate WentTo(w: Walk, c: u8)
      requires stack != [] && |pos| == |stack|
    {
      var below := stack[..|stack| - 1];
      var next := Move(Here(), c);
      && w.open == open && w.start == start
      && if OnScreen(next) then
           w.stack == below + [c] + [0] && |w.pos| == |pos| + 1 && w.Here() == next && !w.owner
         else
           w.stack == below + [c] && w.pos == pos && w.owner
    }

    lemma AdvanceGoes()
      requires stack != [] && |pos| == |stack| && owner && Top() < 4
      ensures WentTo(Advance(), Top() + 1) && Advance().visited == visited
    {
    }

    lemma AdvanceUsesFuel()
      requires stack != [] && |pos| == |stack| && owner && 1 <= Top() < 4
      ensures Potential(Advance().stack) < Potential(stack)
    {
      hide Potential;
      FuelOfStep(stack[..|stack| - 1], Top());
      assert stack == stack[..|stack| - 1] + [Top()];
    }

    lemma VisitStep()
      requires Inv() && stack != [] && !owner && Top() == 0 && !Settled(Here())
      ensures Visit().Advance().Inv() && WentTo(Visit().Advance(), 1)
      ensures Visit().Advance().visited == visited + {Here()}
    {
      hide Inv;
      TopView();
      VisitKeeps();
      Visit().AdvanceKeeps();
      Visit().AdvanceGoes();
    }

    lemma PopKeeps()
      requires Inv() && stack != [] && Top() == 4
      ensures Pop().Inv()
    {
      hide Connected, Potential;
      var w := Pop();
      assert w.Owners() == |stack| - 1;
      assert w.Chained() && w.Owned() && w.TopFits() by { hide Progress, Move; }
      hide Chained, Owned, TopFits;
      PopProgress();
    }

    lemma PopProgress()
      requires Inv() && stack != [] && Top() == 4
      ensures Pop().Progress()
    {
      hide Connected, Potential;
      var w := Pop();
      var n := |stack| - 1;
      forall i, c | 0 <= i < n && 1 <= c <= w.Explored(i)
        ensures w.Settled(Move(pos[i], c))
      {
        assert Settled(pos[i + 1]) by { if i + 1 < n { assert pos[i + 1] in visited; } }
      }
      forall q | q in visited
        ensures q in w.pos[..w.Owners()] || forall c | 1 <= c <= 4 :: w.Settled(Move(q, c))
      {
        if q == Here() && owner {
          assert forall c | 1 <= c <= 4 :: Settled(Move(pos[n], c)) by { assert Explored(n) == 4; }
        } else if q in pos[..Owners()] {
          var k :| 0 <= k < Owners() && pos[k] == q;
          assert k < n && w.pos[..w.Owners()][k] == q;
        }
      }
    }

    lemma PopUsesFuel()
      requires stack != [] && pos != []
      ensures Potential(Pop().stack) < Potential(stack)
    {
      PotentialOfTop(stack);
    }

    /** What the walker may rely on at the top of the stack. */
    lemma TopView()
      requires Inv()
      ensures |pos| == |stack|
      ensures stack != [] ==> OnScreen(Here()) && Top() <= 4 && (!owner ==> Top() == 0 || Top() == 4)
      ensures stack == [] ==> !owner
      ensures |stack| > 1 ==> 1 <= stack[|stack| - 2] <= 4
      ensures |stack| > 1 ==> Here() == Move(pos[|pos| - 2], stack[|stack| - 2])
    {
    }

    /** The levels below the top stand for distinct visited points, so the stack cannot grow
        past one byte for every pixel plus one. */
    lemma DepthBounded()
      requires Inv()
      ensures Depth() <= SIZE * SIZE + 1
    {
      if stack != [] {
        DistinctPointsFit(pos[..Owners()]);
      }
    }

    /** When the stack is empty the pass has visited exactly the component of the start. */
    lemma FinishedExactly()
      requires Inv() && stack == []
      ensures forall p :: p in visited <==> Connected(open, start, p)
    {
      forall p | Connected(open, start, p)
        ensures p in visited
      {
        var path :| IsPath(open, start, p, path);
        assert path[0] in open;
        forall a, b | a in visited && b in open && Adjacent(a, b)
          ensures b in visited
        {
          assert b == Move(a, 1) || b == Move(a, 2) || b == Move(a, 3) || b == Move(a, 4);
        }
        ClosedSetHoldsPath(open, start, p, path, visited);
      }
    }
  }

  /** Bounds the iterations that remain while no further point is visited. */
  function Cost(w: u8): nat {
    if w == 0 then 2 else if w >= 4 then 1 else 13 - 3 * w
  }

  function Potential(stack: seq<u8>): nat {
    if stack == [] then 0 else Potential(stack[..|stack| - 1]) + Cost(stack[|stack| - 1])
  }

  lemma PotentialOfTop(stack: seq<u8>)
    requires stack != []
    ensures Potential(stack) == Potential(stack[..|stack| - 1]) + Cost(stack[|stack| - 1])
  {
  }

  lemma FuelOfStep(below: seq<u8>, top: u8)
    requires 1 <= top < 4
    ensures Potential(below + [top + 1]) < Potential(below + [top])
    ensures Potential(below + [top + 1] + [0]) < Potential(below + [top])
  {
    PotentialOfPush(below, top);
    PotentialOfPush(below, top + 1);
    PotentialOfPush(below + [top + 1], 0);
  }

  lemma PotentialOfPush(stack: seq<u8>, w: u8)
    ensures Potential(stack + [w]) == Potential(stack) + Cost(w)
  {
    assert (stack + [w])[..|stack|] == stack;
  }

  /** The walk is what the bytes of the walk stack and the current coordinate stand for. */
  ghost predicate Represents(w: Walk, bytes: seq<u8>, x: int, y: int) {
    && w.Inv()
    && w.stack == bytes
    && (bytes != [] ==> w.Here() == Point(x, y))
    && (w.owner ==> bytes != [] && w.Top() >= 1)
  }

  lemma RepresentsView(w: Walk, bytes: seq<u8>, x: int, y: int)
    requires Represents(w, bytes, x, y)
    ensures |bytes| <= SIZE * SIZE + 1
    ensures bytes != [] ==> OnScreen(Point(x, y)) && bytes[|bytes| - 1] <= 4
  {
    w.DepthBounded();
    w.TopView();
  }

  lemma SkipCase(w: Walk, below: seq<u8>, x: int, y: int) returns (w': Walk)
    requires Represents(w, below + [0], x, y) && w.Settled(Point(x, y))
    ensures Represents(w', below + [4], x, y)
    ensures w'.open == w.open && w'.start == w.start && w'.visited == w.visited
    ensures Potential(w'.stack) < Potential(w.stack)
  {
    hide Walk.Inv, Potential;
    w.TopView();
    w.SkipKeeps();
    w.SkipUsesFuel();
    w' := w.Skip();
  }

  lemma EnterCase(w: Walk, below: seq<u8>, x: int, y: int) returns (w': Walk)
    requires Represents(w, below + [0], x, y) && !w.Settled(Point(x, y))
    ensures if x > 0 then Represents(w', below + [1] + [0], x - 1, y) else Represents(w', below + [1], x, y)
    ensures w'.open == w.open && w'.start == w.start && w'.visited == w.visited + {Point(x, y)}
    ensures w'.open - w'.visited < w.open - w.visited
  {
    hide Walk.Inv, Walk.Advance;
    w.TopView();
    w.VisitStep();
    ghost var visiting := w.Visit();
    assert visiting.stack == w.stack && visiting.pos == w.pos;
    w' := visiting.Advance();
    assert Point(x, y) in w.open - w.visited && Point(x, y) !in w'.open - w'.visited;
  }

  lemma ExploreCase(w: Walk, below: seq<u8>, level: u8, x: int, y: int) returns (w': Walk)
    requires Represents(w, below + [level], x, y) && 1 <= level < 4
    ensures var next := Move(Point(x, y), level + 1);
            if OnScreen(next) then Represents(w', below + [level + 1] + [0], next.x, next.y)
            else Represents(w', below + [level + 1], x, y)
    ensures w'.open == w.open && w'.start == w.start && w'.visited == w.visited
    ensures Potential(w'.stack) < Potential(w.stack)
  {
    hide Walk.Inv, Walk.Advance, Potential;
    w.TopView();
    w.AdvanceKeeps();
    w.AdvanceGoes();
    w.AdvanceUsesFuel();
    w' := w.Advance();
  }

  lemma PopCase(w: Walk, below: seq<u8>, x: int, y: int) returns (w': Walk)
    requires Represents(w, below + [4], x, y)
    ensures if below == [] then Represents(w', [], x, y)
            else && 1 <= below[|below| - 1] <= 4
                 && var p := Back(below[|below| - 1], x, y); Represents(w', below, p.x, p.y)
    ensures w'.open == w.open && w'.start == w.start && w'.visited == w.visited
    ensures Potential(w'.stack) < Potential(w.stack)
  {
    w.TopView();
    w.PopKeeps();
    w.PopUsesFuel();
    w' := w.Pop();
  }

  /** Undoes the move that a level's byte encodes. */
  function Back(c: int, x: int, y: int): (p: Point)
    ensures 1 <= c <= 4 ==> Move(p, c) == Point(x, y)
  {
    match c
    case 1 => Point(x + 1, y)
    case 2 => Point(x - 1, y)
    case 3 => Point(x, y - 1)
    case 4 => Point(x, y + 1)
    case _ => Point(x, y)
  }
}
