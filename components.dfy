/** The snake and its geometry: directions with their key codes and
    reversal table, wrap-around steps of the head, and the `Snake` object
    whose body, direction, score and timeout the game loop updates in place. */
module Components {
  import opened Constant

  // ---------------------------------------------------------------------
  // Directions

  datatype Direction = Up | Down | Left | Right

  /** The terminal key code of each direction (the standard ncurses values). */
  function Code(d: Direction): int
  {
    match d
    case Down => 258
    case Up => 259
    case Left => 260
    case Right => 261
  }

  /** Distinct directions have distinct key codes, so a key code names a direction. */
  lemma CodeInjective(d: Direction, e: Direction)
    ensures Code(d) == Code(e) <==> d == e
  {
  }

  /** The snake's `invalid` table: the reverse of each direction. */
  function Opposite(d: Direction): (r: Direction)
    ensures r != d
  {
    match d
    case Up => Down
    case Down => Up
    case Left => Right
    case Right => Left
  }

  /** The reversal table pairs UP with DOWN and LEFT with RIGHT: it is an
      involution without fixed points, and it keeps the axis of motion. */
  lemma OppositeIsInvolution(d: Direction)
    ensures Opposite(Opposite(d)) == d
    ensures Opposite(d) != d
    ensures IsHorizontal(Opposite(d)) == IsHorizontal(d)
  {
  }

  predicate IsHorizontal(d: Direction)
  {
    d == Left || d == Right
  }

  // ---------------------------------------------------------------------
  // Grid geometry

  datatype Position = Position(x: int, y: int)

  /** The playing area [1, MAX_X] x [1, MAX_Y]. */
  predicate InGrid(p: Position)
  {
    1 <= p.x <= MAX_X && 1 <= p.y <= MAX_Y
  }

  /** The representative of v in [1, m] modulo m. */
  function Mod1(v: int, m: int): int
    requires m > 0
  {
    (v - 1) % m + 1
  }

  /** Brings any cell back onto the toroidal grid. */
  function Wrap(q: Position): Position
  {
    Position(Mod1(q.x, MAX_X), Mod1(q.y, MAX_Y))
  }

  /** One step of the head as moveUp, moveDown, moveLeft and moveRight
      take it: one coordinate moves by one, and a coordinate that leaves
      the range is put on the opposite edge. */
  function Step(p: Position, d: Direction): Position
  {
    match d
    case Up => Position(p.x, if p.y - 1 < 1 then MAX_Y else p.y - 1)
    case Down => Position(p.x, if p.y + 1 > MAX_Y then 1 else p.y + 1)
    case Left => Position(if p.x - 1 < 1 then MAX_X else p.x - 1, p.y)
    case Right => Position(if p.x + 1 > MAX_X then 1 else p.x + 1, p.y)
  }

  /** A step keeps a cell of the grid on the grid. */
  lemma StepStaysInGrid(p: Position, d: Direction)
    requires InGrid(p)
    ensures InGrid(Step(p, d))
  {
  }

  /** A step changes only the coordinate of its own axis, and changes it
      by exactly one modulo the grid size. */
  lemma StepMovesOneAxis(p: Position, d: Direction)
    requires InGrid(p)
    ensures IsHorizontal(d) ==> Step(p, d).y == p.y
    ensures !IsHorizontal(d) ==> Step(p, d).x == p.x
    ensures d == Right ==> Step(p, d).x == Mod1(p.x + 1, MAX_X)
    ensures d == Left ==> Step(p, d).x == Mod1(p.x - 1, MAX_X)
    ensures d == Down ==> Step(p, d).y == Mod1(p.y + 1, MAX_Y)
    ensures d == Up ==> Step(p, d).y == Mod1(p.y - 1, MAX_Y)
  {
    match d
    case Right =>
      if p.x < MAX_X {
        assert (p.x + 1 - 1) % MAX_X == p.x;
      } else {
        assert (p.x + 1 - 1) % MAX_X == 0;
      }
    case Left =>
      if p.x > 1 {
        assert (p.x - 1 - 1) % MAX_X == p.x - 2;
      } else {
        assert (p.x - 1 - 1) % MAX_X == MAX_X - 1;
      }
    case Down =>
      if p.y < MAX_Y {
        assert (p.y + 1 - 1) % MAX_Y == p.y;
      } else {
        assert (p.y + 1 - 1) % MAX_Y == 0;
      }
    case Up =>
      if p.y > 1 {
        assert (p.y - 1 - 1) % MAX_Y == p.y - 2;
      } else {
        assert (p.y - 1 - 1) % MAX_Y == MAX_Y - 1;
      }
  }

  /** Leaving the grid over one edge re-enters it over the opposite edge. */
  lemma StepWrapsAtEdges(x: int, y: int)
    ensures Step(Position(MAX_X, y), Right) == Position(1, y)
    ensures Step(Position(1, y), Left) == Position(MAX_X, y)
    ensures Step(Position(x, MAX_Y), Down) == Position(x, 1)
    ensures Step(Position(x, 1), Up) == Position(x, MAX_Y)
  {
  }

  // ---------------------------------------------------------------------
  // Membership test shared by `collided`, `Food.collides` and `AStar.collides`

  /** `any(segment == p for segment in segments)`. */
  function Occupied(segments: seq<Position>, p: Position): (r: bool)
    ensures r <==> exists i :: 0 <= i < |segments| && segments[i] == p
  {
    if segments == [] then false
    else segments[0] == p || Occupied(segments[1..], p)
  }

  /** `body[:-1]`: every segment but the head (nothing for an empty body). */
  function NonHead(body: seq<Position>): (r: seq<Position>)
    ensures body == [] ==> r == []
    ensures body != [] ==> body == r + [body[|body| - 1]]
  {
    if body == [] then [] else body[..|body| - 1]
  }

  // ---------------------------------------------------------------------
  // Game speed

  /** The speed-up of `eatFood` from literal constants of the source: every
      third point lowers the tick delay by 5, as long as it is above 20. */
  const MIN_TIMEOUT: int := 20
  const TIMEOUT_STEP: int := 5
  const SPEEDUP_EVERY: int := 3

  /** The delay after the score has become `score`, from the delay before. */
  function NextTimeout(score: int, timeout: int): int
  {
    if score % SPEEDUP_EVERY == 0 && timeout > MIN_TIMEOUT then timeout - TIMEOUT_STEP
    else timeout
  }

  /** The delay after n pieces of food, starting from TIMEOUT. */
  function TimeoutAfter(n: nat): int
  {
    if n == 0 then TIMEOUT else NextTimeout(n, TimeoutAfter(n - 1))
  }

  function Max(a: int, b: int): int
  {
    if a < b then b else a
  }

  /** Closed form of the delay: five milliseconds less per three points,
      but never below 20. */
  lemma {:induction false} TimeoutAfterClosedForm(n: nat)
    ensures TimeoutAfter(n) == Max(MIN_TIMEOUT, TIMEOUT - TIMEOUT_STEP * (n / SPEEDUP_EVERY))
  {
    if n > 0 {
      TimeoutAfterClosedForm(n - 1);
      if n % SPEEDUP_EVERY == 0 {
        assert n / SPEEDUP_EVERY == (n - 1) / SPEEDUP_EVERY + 1;
      } else {
        assert n / SPEEDUP_EVERY == (n - 1) / SPEEDUP_EVERY;
      }
    }
  }

  /** The delay stays between 20 and TIMEOUT whatever the score. */
  lemma TimeoutBounds(n: nat)
    ensures MIN_TIMEOUT <= TimeoutAfter(n) <= TIMEOUT
  {
    TimeoutAfterClosedForm(n);
  }

  // ---------------------------------------------------------------------
  // The snake

  /** The snake: its segments tail first with the head last, its direction,
      its score, its tick delay, and `last`, the cell the head left on the
      latest update (where the next segment grows). */
  class Snake {
    var body: seq<Position>
    var direction: Direction
    var score: nat
    var timeout: int
    var last: Position

    /** What every operation keeps: at least the initial SNAKE_LEN + 1
        segments, and a delay determined by the score. */
    ghost predicate Valid()
      reads this
    {
      SNAKE_LEN < |body| && timeout == TimeoutAfter(score)
    }

    /** Every segment, and the cell `last`, lies on the grid. */
    ghost predicate OnGrid()
      reads this
    {
      (forall i :: 0 <= i < |body| ==> InGrid(body[i])) && InGrid(last)
    }

    /** SNAKE_LEN body segments and then the head, all at (x, y), moving right. */
    constructor (x: int, y: int)
      ensures Valid()
      ensures |body| == SNAKE_LEN + 1
      ensures forall i :: 0 <= i < |body| ==> body[i] == Position(x, y)
      ensures direction == Right && score == 0 && timeout == TIMEOUT
      ensures last == Position(x, y)
      ensures InGrid(Position(x, y)) ==> OnGrid()
    {
      var segments: seq<Position> := [];
      var i := SNAKE_LEN;
      while i > 0
        invariant 0 <= i <= SNAKE_LEN
        invariant |segments| == SNAKE_LEN - i
        invariant forall k :: 0 <= k < |segments| ==> segments[k] == Position(x, y)
      {
        segments := segments + [Position(x, y)];
        i := i - 1;
      }
      body := segments + [Position(x, y)];
      score := 0;
      timeout := TIMEOUT;
      direction := Right;
      last := Position(x, y);
    }

    /** The head is the last segment; the others come before it. */
    function Head(): (h: Position)
      reads this
      requires body != []
      ensures body == NonHead(body) + [h]
    {
      body[|body| - 1]
    }

    /** Growth: a segment at `last` goes in just before the head, the score
        goes up by one, and every third point speeds the game up. */
    method EatFood()
      requires Valid()
      modifies this`body, this`score, this`timeout
      ensures Valid()
      ensures |body| == old(|body|) + 1
      ensures body == old(NonHead(body)) + [last, old(Head())]
      ensures score == old(score) + 1
      ensures timeout == NextTimeout(score, old(timeout))
      ensures MIN_TIMEOUT <= timeout <= TIMEOUT
      ensures old(OnGrid()) ==> OnGrid()
    {
      body := body[..|body| - 1] + [last] + [body[|body| - 1]];
      score := score + 1;
      if score % SPEEDUP_EVERY == 0 {
        if timeout > MIN_TIMEOUT {
          timeout := timeout - TIMEOUT_STEP;
        }
      }
      TimeoutBounds(score);
    }

    /** Self-collision: the head is on the cell of another segment. */
    function Collided(): (r: bool)
      reads this
      requires body != []
      ensures r <==> exists i :: 0 <= i < |body| - 1 && body[i] == body[|body| - 1]
    {
      Occupied(NonHead(body), Head())
    }

    /** Advance one cell: the tail segment is taken off, put on the head's
        cell just behind the head, and then the head steps in `direction`.
        Every other segment keeps its cell and its order. */
    method Update()
      requires Valid()
      modifies this`body, this`last
      ensures Valid()
      ensures body == old(body[1..|body| - 1]) + [old(Head()), Step(old(Head()), direction)]
      ensures |body| == old(|body|)
      ensures body[..|body| - 2] == old(body[1..|body| - 1])
      ensures body[|body| - 2] == old(Head())
      ensures Head() == Step(old(Head()), direction)
      ensures last == old(Head())
      ensures old(OnGrid()) ==> OnGrid()
    {
      ghost var middle, head := body[1..|body| - 1], Head();
      body := body[1..];
      var segment := body[|body| - 1];
      body := body[..|body| - 1] + [segment] + [body[|body| - 1]];
      assert body == middle + [head, head];
      last := Head();
      Move();
      assert body == middle + [head, Step(head, direction)];
      assert body[..|middle|] == middle;
      if old(OnGrid()) {
        StepStaysInGrid(head, direction);
        assert InGrid(head) by {
          assert old(body[|body| - 1]) == head;
        }
        assert InGrid(last);
        forall i | 0 <= i < |body|
          ensures InGrid(body[i])
        {
          if i < |middle| {
            assert body[i] == middle[i] == old(body[i + 1]);
          }
        }
      }
    }

    /** Take the new direction unless it reverses the current one; a
        reversal is ignored without error. */
    method MakeMove(d: Direction)
      modifies this`direction
      ensures direction == if d != Opposite(old(direction)) then d else old(direction)
      ensures direction != Opposite(old(direction))
    {
      if d != Opposite(direction) {
        direction := d;
      }
    }

    /** The `move` table: the move method of the current direction. */
    method Move()
      requires body != []
      modifies this`body
      ensures body == old(NonHead(body)) + [Step(old(Head()), direction)]
    {
      match direction
      case Up => MoveUp();
      case Down => MoveDown();
      case Left => MoveLeft();
      case Right => MoveRight();
    }

    method MoveUp()
      requires body != []
      modifies this`body
      ensures body == old(NonHead(body)) + [Step(old(Head()), Up)]
    {
      var head := Head();
      head := head.(y := head.y - 1);
      if head.y < 1 {
        head := head.(y := MAX_Y);
      }
      body := body[..|body| - 1] + [head];
    }

    method MoveDown()
      requires body != []
      modifies this`body
      ensures body == old(NonHead(body)) + [Step(old(Head()), Down)]
    {
      var head := Head();
      head := head.(y := head.y + 1);
      if head.y > MAX_Y {
        head := head.(y := 1);
      }
      body := body[..|body| - 1] + [head];
    }

    method MoveLeft()
      requires body != []
      modifies this`body
      ensures body == old(NonHead(body)) + [Step(old(Head()), Left)]
    {
      var head := Head();
      head := head.(x := head.x - 1);
      if head.x < 1 {
        head := head.(x := MAX_X);
      }
      body := body[..|body| - 1] + [head];
    }

    method MoveRight()
      requires body != []
      modifies this`body
      ensures body == old(NonHead(body)) + [Step(old(Head()), Right)]
    {
      var head := Head();
      head := head.(x := head.x + 1);
      if head.x > MAX_X {
        head := head.(x := 1);
      }
      body := body[..|body| - 1] + [head];
    }
  }

  /** `Food.collides`: the food cell is the cell of a non-head segment. */
  function FoodCollides(food: Position, snake: Snake): (r: bool)
    reads snake
    ensures r <==> exists i :: 0 <= i < |snake.body| - 1 && snake.body[i] == food
  {
    Occupied(NonHead(snake.body), food)
  }
}
