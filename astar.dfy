/** The one-step move selector. Each tick it looks at the four cells next
    to the head, drops those that lie on a non-head segment, ranks the rest
    by f = g + h (g the move counter, h the Manhattan distance to the food)
    and returns the direction of the least (f, key code) pair. */
module Astar {
  import opened Constant
  import opened Components

  function Abs(n: int): nat
  {
    if n < 0 then -n else n
  }

  /** Manhattan distance, the heuristic h. */
  function Manhattan(a: Position, b: Position): (r: nat)
    ensures r == 0 <==> a == b
  {
    Abs(a.x - b.x) + Abs(a.y - b.y)
  }

  /** The candidate cell in direction d: one unit away, never wrapped.
      Rows grow downwards, as on the terminal: UP lowers y, DOWN raises it. */
  function Neighbour(p: Position, d: Direction): (r: Position)
    ensures Manhattan(p, r) == 1
    ensures IsHorizontal(d) ==> r.y == p.y
    ensures !IsHorizontal(d) ==> r.x == p.x
    ensures d == Up ==> r.y < p.y
    ensures d == Down ==> r.y > p.y
    ensures d == Left ==> r.x < p.x
    ensures d == Right ==> r.x > p.x
  {
    match d
    case Up => Position(p.x, p.y - 1)
    case Down => Position(p.x, p.y + 1)
    case Right => Position(p.x + 1, p.y)
    case Left => Position(p.x - 1, p.y)
  }

  /** The candidate cell and the cell the head really moves to differ only
      by the wrap-around: the real step is the candidate brought back onto
      the grid. */
  lemma StepIsWrappedNeighbour(p: Position, d: Direction)
    requires InGrid(p)
    ensures Step(p, d) == Wrap(Neighbour(p, d))
  {
    StepMovesOneAxis(p, d);
    var q := Neighbour(p, d);
    match d
    case Right =>
      Mod1OfInRangeY(p.y);
      assert q == Position(p.x + 1, p.y);
      assert Step(p, d) == Position(Mod1(p.x + 1, MAX_X), Mod1(p.y, MAX_Y));
    case Left =>
      Mod1OfInRangeY(p.y);
      assert q == Position(p.x - 1, p.y);
      assert Step(p, d) == Position(Mod1(p.x - 1, MAX_X), Mod1(p.y, MAX_Y));
    case Down =>
      Mod1OfInRangeX(p.x);
      assert q == Position(p.x, p.y + 1);
      assert Step(p, d) == Position(Mod1(p.x, MAX_X), Mod1(p.y + 1, MAX_Y));
    case Up =>
      Mod1OfInRangeX(p.x);
      assert q == Position(p.x, p.y - 1);
      assert Step(p, d) == Position(Mod1(p.x, MAX_X), Mod1(p.y - 1, MAX_Y));
  }

  /** Inside the grid the candidate cell is the cell the head moves to. */
  lemma StepIsNeighbourInside(p: Position, d: Direction)
    requires InGrid(p) && InGrid(Neighbour(p, d))
    ensures Step(p, d) == Neighbour(p, d)
  {
    StepIsWrappedNeighbour(p, d);
    WrapOnGrid(Neighbour(p, d));
  }

  /** A cell on the grid is its own wrap. */
  lemma WrapOnGrid(q: Position)
    requires InGrid(q)
    ensures Wrap(q) == q
  {
    Mod1OfInRangeX(q.x);
    Mod1OfInRangeY(q.y);
  }

  lemma Mod1OfInRangeX(v: int)
    requires 1 <= v <= MAX_X
    ensures Mod1(v, MAX_X) == v
  {
    assert (v - 1) % MAX_X == v - 1;
  }

  lemma Mod1OfInRangeY(v: int)
    requires 1 <= v <= MAX_Y
    ensures Mod1(v, MAX_Y) == v
  {
    assert (v - 1) % MAX_Y == v - 1;
  }

  // ---------------------------------------------------------------------
  // The ranked candidates (the contents of the priority queue)

  /** The order in which the directions are evaluated. */
  const PATHS: seq<Direction> := [Right, Left, Up, Down]

  /** A queue entry: the cost f and the direction it belongs to. */
  datatype Ranked = Ranked(f: int, path: Direction)

  /** Tuple order on (f, key code): the order the priority queue pops in. */
  predicate Before(a: Ranked, b: Ranked)
  {
    a.f < b.f || (a.f == b.f && Code(a.path) < Code(b.path))
  }

  /** The entry for direction d: cost g plus the distance from the
      unwrapped candidate cell to the goal. */
  function Rank(g: int, head: Position, goal: Position, d: Direction): Ranked
  {
    Ranked(g + Manhattan(Neighbour(head, d), goal), d)
  }

  /** The entries queued for the directions of `paths`, in evaluation
      order: one per direction whose candidate cell is not in `segments`. */
  function Survivors(paths: seq<Direction>, g: int, head: Position, goal: Position,
                     segments: seq<Position>): seq<Ranked>
  {
    if paths == [] then []
    else
      var rest := Survivors(paths[..|paths| - 1], g, head, goal, segments);
      var d := paths[|paths| - 1];
      if Occupied(segments, Neighbour(head, d)) then rest
      else rest + [Rank(g, head, goal, d)]
  }

  /** Every queued entry belongs to a direction of `paths` whose candidate
      cell is free, and carries that direction's cost. */
  lemma {:induction false} SurvivorsSound(paths: seq<Direction>, g: int, head: Position,
                                          goal: Position, segments: seq<Position>, e: Ranked)
    requires e in Survivors(paths, g, head, goal, segments)
    ensures e.path in paths
    ensures !Occupied(segments, Neighbour(head, e.path))
    ensures e == Rank(g, head, goal, e.path)
  {
    var init := paths[..|paths| - 1];
    if e in Survivors(init, g, head, goal, segments) {
      SurvivorsSound(init, g, head, goal, segments, e);
      assert e.path in paths by {
        var k :| 0 <= k < |init| && init[k] == e.path;
        assert paths[k] == e.path;
      }
    }
  }

  /** Every direction of `paths` whose candidate cell is free is queued. */
  lemma {:induction false} SurvivorsComplete(paths: seq<Direction>, g: int, head: Position,
                                             goal: Position, segments: seq<Position>, d: Direction)
    requires d in paths
    requires !Occupied(segments, Neighbour(head, d))
    ensures Rank(g, head, goal, d) in Survivors(paths, g, head, goal, segments)
  {
    var init := paths[..|paths| - 1];
    if d != paths[|paths| - 1] {
      var k :| 0 <= k < |paths| && paths[k] == d;
      assert init[k] == d;
      SurvivorsComplete(init, g, head, goal, segments, d);
    }
  }

  /** A direction has an entry in the queue exactly when it is one of
      `paths` and its unwrapped candidate cell is not a non-head segment. */
  lemma SurvivorsExactly(paths: seq<Direction>, g: int, head: Position,
                         goal: Position, segments: seq<Position>, d: Direction)
    ensures (exists e :: e in Survivors(paths, g, head, goal, segments) && e.path == d)
        <==> d in paths && !Occupied(segments, Neighbour(head, d))
  {
    var q := Survivors(paths, g, head, goal, segments);
    if d in paths && !Occupied(segments, Neighbour(head, d)) {
      SurvivorsComplete(paths, g, head, goal, segments, d);
      assert Rank(g, head, goal, d) in q;
    }
    if e :| e in q && e.path == d {
      SurvivorsSound(paths, g, head, goal, segments, e);
    }
  }

  /** `PriorityQueue.get()` on the queue: the least entry in tuple order. */
  function LexMin(q: seq<Ranked>): (m: Ranked)
    requires q != []
    ensures m in q
    ensures forall e :: e in q ==> !Before(e, m)
  {
    if |q| == 1 then q[0]
    else
      var m := LexMin(q[1..]);
      assert forall e :: e in q ==> e == q[0] || e in q[1..];
      if Before(q[0], m) then q[0] else m
  }

  // ---------------------------------------------------------------------
  // The decision

  /** The source's food test: `head.x == food.x and head.y`, which compares
      the columns and only asks that row of the head be non-zero. */
  predicate ReachedFood(head: Position, food: Position)
  {
    head.x == food.x && head.y != 0
  }

  /** The counter and the direction after one call of `get_next_step`. */
  datatype Decision = Decision(moves: nat, step: Direction)

  /** The reference definition of one call of `get_next_step`, given the
      counter, the food, the head, the current direction and the non-head
      segments. */
  function NextStep(moves: nat, food: Position, head: Position, direction: Direction,
                    segments: seq<Position>): Decision
  {
    if ReachedFood(head, food) then Decision(0, direction)
    else
      var q := Survivors(PATHS, moves + 1, head, food, segments);
      if q == [] then Decision(moves + 1, direction)
      else Decision(moves + 1, LexMin(q).path)
  }

  /** A head in the food's column with a non-zero row resets the counter
      and keeps the direction, without evaluating any candidate. */
  lemma NextStepResets(moves: nat, food: Position, head: Position, direction: Direction,
                       segments: seq<Position>)
    requires ReachedFood(head, food)
    ensures NextStep(moves, food, head, direction, segments) == Decision(0, direction)
  {
  }

  /** Otherwise the counter goes up by exactly one, however many
      candidates survive. */
  lemma NextStepCountsOnce(moves: nat, food: Position, head: Position, direction: Direction,
                           segments: seq<Position>)
    requires !ReachedFood(head, food)
    ensures NextStep(moves, food, head, direction, segments).moves == moves + 1
  {
  }

  /** Whenever some candidate cell is free, the chosen one is free too, and
      it is at least as close to the food as any free candidate; between
      equally close candidates the smaller key code wins. */
  lemma NextStepIsBest(moves: nat, food: Position, head: Position, direction: Direction,
                       segments: seq<Position>, d: Direction)
    requires !ReachedFood(head, food)
    requires !Occupied(segments, Neighbour(head, d))
    ensures var s := NextStep(moves, food, head, direction, segments).step;
      !Occupied(segments, Neighbour(head, s)) &&
      (Manhattan(Neighbour(head, s), food) < Manhattan(Neighbour(head, d), food) ||
       (Manhattan(Neighbour(head, s), food) == Manhattan(Neighbour(head, d), food) &&
        Code(s) <= Code(d)))
  {
    var g := moves + 1;
    var q := Survivors(PATHS, g, head, food, segments);
    assert d in PATHS;
    SurvivorsComplete(PATHS, g, head, food, segments, d);
    var m := LexMin(q);
    SurvivorsSound(PATHS, g, head, food, segments, m);
    assert !Before(Rank(g, head, food, d), m);
  }

  /** When all four candidate cells are taken, the direction is kept. */
  lemma NextStepFallsBack(moves: nat, food: Position, head: Position, direction: Direction,
                          segments: seq<Position>)
    requires !ReachedFood(head, food)
    requires forall d: Direction :: Occupied(segments, Neighbour(head, d))
    ensures NextStep(moves, food, head, direction, segments).step == direction
  {
    var q := Survivors(PATHS, moves + 1, head, food, segments);
    if q != [] {
      SurvivorsSound(PATHS, moves + 1, head, food, segments, q[0]);
      assert false;
    }
  }

  /** The chosen direction is the current one or one with a free candidate
      cell, and it is the current one when no candidate cell is free. */
  lemma NextStepChoice(moves: nat, food: Position, head: Position, direction: Direction,
                       segments: seq<Position>)
    ensures var s := NextStep(moves, food, head, direction, segments).step;
      s == direction || !Occupied(segments, Neighbour(head, s))
  {
    var q := Survivors(PATHS, moves + 1, head, food, segments);
    if !ReachedFood(head, food) && q != [] {
      SurvivorsSound(PATHS, moves + 1, head, food, segments, LexMin(q));
    }
  }

  /** As written, the reset fires for any head on the grid that shares the
      food's column, whatever the rows: here the food is 13 rows away. */
  lemma NextStepResetsOnColumn(moves: nat, direction: Direction, segments: seq<Position>)
    ensures NextStep(moves, Position(15, 20), Position(15, 7), direction, segments)
         == Decision(0, direction)
  {
  }

  /** A snake heading right at (10, 3) with the food at (15, 3) keeps going
      right: its right cell is the only one that gets closer to the food. */
  lemma ScenarioStraightToFood(moves: nat)
    ensures NextStep(moves, Position(15, 3), Position(10, 3), Right,
                     [Position(5, 3), Position(6, 3), Position(7, 3), Position(8, 3), Position(9, 3)])
         == Decision(moves + 1, Right)
  {
    var g, head, food := moves + 1, Position(10, 3), Position(15, 3);
    var segments := [Position(5, 3), Position(6, 3), Position(7, 3), Position(8, 3), Position(9, 3)];
    assert segments[4] == Neighbour(head, Left);
    RankedInOrder(g, head, food, segments,
      [Rank(g, head, food, Right)],
      [Rank(g, head, food, Right)],
      [Rank(g, head, food, Right), Rank(g, head, food, Up)],
      [Rank(g, head, food, Right), Rank(g, head, food, Up), Rank(g, head, food, Down)]);
  }

  /** Equal costs go to the smaller key code, not to the direction evaluated
      first: heading up with its body below, the snake at (10, 10) finds LEFT
      and UP both 9 cells from the food at (5, 5); LEFT is evaluated before
      UP, but UP (259) precedes LEFT (260), so UP is chosen. */
  lemma ScenarioTieByCode(moves: nat)
    ensures NextStep(moves, Position(5, 5), Position(10, 10), Up,
                     [Position(10, 14), Position(10, 13), Position(10, 12), Position(10, 11)])
         == Decision(moves + 1, Up)
  {
    var food, head := Position(5, 5), Position(10, 10);
    var segments := [Position(10, 14), Position(10, 13), Position(10, 12), Position(10, 11)];
    NextStepIsBest(moves, food, head, Up, segments, Right);
    NextStepIsBest(moves, food, head, Up, segments, Left);
    NextStepIsBest(moves, food, head, Up, segments, Up);
    assert segments[3] == Neighbour(head, Down);
  }

  /** A snake whose right, upper and lower cells are taken turns left, away
      from the food, because that is the only free cell. */
  lemma ScenarioOnlyLeftFree(moves: nat)
    ensures NextStep(moves, Position(20, 3), Position(10, 3), Up,
                     [Position(10, 4), Position(11, 4), Position(11, 3), Position(11, 2), Position(10, 2)])
         == Decision(moves + 1, Left)
  {
    var g, head, food := moves + 1, Position(10, 3), Position(20, 3);
    var segments := [Position(10, 4), Position(11, 4), Position(11, 3), Position(11, 2), Position(10, 2)];
    assert segments[2] == Neighbour(head, Right);
    assert segments[4] == Neighbour(head, Up);
    assert segments[0] == Neighbour(head, Down);
    RankedInOrder(g, head, food, segments, [], [Rank(g, head, food, Left)],
      [Rank(g, head, food, Left)], [Rank(g, head, food, Left)]);
  }

  /** A snake boxed in on all four sides keeps its direction. */
  lemma ScenarioBoxedIn(moves: nat)
    ensures NextStep(moves, Position(20, 3), Position(10, 3), Down,
                     [Position(9, 3), Position(9, 4), Position(10, 4), Position(11, 4),
                      Position(11, 3), Position(11, 2), Position(10, 2)])
         == Decision(moves + 1, Down)
  {
    var g, head, food := moves + 1, Position(10, 3), Position(20, 3);
    var segments := [Position(9, 3), Position(9, 4), Position(10, 4), Position(11, 4),
                     Position(11, 3), Position(11, 2), Position(10, 2)];
    assert segments[4] == Neighbour(head, Right);
    assert segments[0] == Neighbour(head, Left);
    assert segments[6] == Neighbour(head, Up);
    assert segments[2] == Neighbour(head, Down);
    RankedInOrder(g, head, food, segments, [], [], [], []);
  }

  /** Unfolds the queue for PATHS one direction at a time, given what it
      holds after each of the four directions. */
  lemma RankedInOrder(g: int, head: Position, food: Position, segments: seq<Position>,
                      q1: seq<Ranked>, q2: seq<Ranked>, q3: seq<Ranked>, q4: seq<Ranked>)
    requires q1 == (if Occupied(segments, Neighbour(head, Right)) then []
                    else [Rank(g, head, food, Right)])
    requires q2 == (if Occupied(segments, Neighbour(head, Left)) then q1
                    else q1 + [Rank(g, head, food, Left)])
    requires q3 == (if Occupied(segments, Neighbour(head, Up)) then q2
                    else q2 + [Rank(g, head, food, Up)])
    requires q4 == (if Occupied(segments, Neighbour(head, Down)) then q3
                    else q3 + [Rank(g, head, food, Down)])
    ensures Survivors(PATHS, g, head, food, segments) == q4
  {
    assert [Right][..0] == [];
    assert Survivors([Right], g, head, food, segments) == q1;
    assert [Right, Left][..1] == [Right];
    assert Survivors([Right, Left], g, head, food, segments) == q2;
    assert [Right, Left, Up][..2] == [Right, Left];
    assert Survivors([Right, Left, Up], g, head, food, segments) == q3;
    assert PATHS[..3] == [Right, Left, Up];
  }

  // ---------------------------------------------------------------------
  // The selector object

  /** The selector: its fixed evaluation order and its move counter g. */
  class AStar {
    const paths: seq<Direction> := PATHS
    var moves: nat

    constructor ()
      ensures moves == 0
    {
      moves := 0;
    }

    /** The candidate cell is the cell of a non-head segment. */
    function Collides(headPosition: Position, snake: Snake): (r: bool)
      reads snake
      ensures r <==> exists i :: 0 <= i < |snake.body| - 1 && snake.body[i] == headPosition
    {
      Occupied(NonHead(snake.body), headPosition)
    }

    /** Count one move and queue (f, direction) for every direction whose
        unwrapped candidate cell is free. */
    method GetDistances(goal: Position, current: Position, snake: Snake)
      returns (distances: seq<Ranked>)
      modifies this`moves
      ensures moves == old(moves) + 1
      ensures distances == Survivors(paths, moves, current, goal, NonHead(snake.body))
    {
      moves := moves + 1;
      distances := [];
      var i := 0;
      while i < |paths|
        invariant 0 <= i <= |paths|
        invariant distances == Survivors(paths[..i], moves, current, goal, NonHead(snake.body))
        decreases |paths| - i
      {
        var path := paths[i];
        var x, y;
        match path {
          case Up => x, y := current.x, current.y - 1;
          case Down => x, y := current.x, current.y + 1;
          case Right => x, y := current.x + 1, current.y;
          case Left => x, y := current.x - 1, current.y;
        }
        assert paths[..i + 1][..i] == paths[..i];
        if !Collides(Position(x, y), snake) {
          var gn := moves;
          var hn := Abs(x - goal.x) + Abs(y - goal.y);
          var fn := gn + hn;
          distances := distances + [Ranked(fn, path)];
        }
        i := i + 1;
      }
      assert paths[..|paths|] == paths;
    }

    /** The direction to take on this tick. The snake is only read. */
    method GetNextStep(food: Position, snake: Snake) returns (step: Direction)
      requires snake.body != []
      modifies this`moves
      ensures unchanged(snake)
      ensures Decision(moves, step)
           == NextStep(old(moves), food, snake.Head(), snake.direction, NonHead(snake.body))
    {
      if snake.Head().x == food.x && snake.Head().y != 0 {
        moves := 0;
        return snake.direction;
      }
      var distances := GetDistances(food, snake.Head(), snake);
      if |distances| == 0 {
        return snake.direction;
      }
      step := LexMin(distances).path;
    }
  }
}
