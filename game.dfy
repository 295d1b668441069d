/** One tick of the game loop, composed from the modelled operations in the
    loop's own order: grow when the head is on the food, ask the selector
    for a direction, steer, advance, and test for self-collision. Drawing
    and reading keys are outside this model. */
module Game {
  import opened Components
  import opened Astar

  /** The body after the growth step of a tick: `eatFood`'s new segment at
      `last` just before the head when the head is on the food, otherwise
      the body as it was. */
  function Grown(body: seq<Position>, last: Position, eaten: bool): (r: seq<Position>)
    requires body != []
    ensures |r| == |body| + (if eaten then 1 else 0)
    ensures r[|r| - 1] == body[|body| - 1]
    ensures NonHead(r) == if eaten then NonHead(body) + [last] else NonHead(body)
  {
    if eaten then NonHead(body) + [last, body[|body| - 1]] else body
  }

  /** Runs one tick; `over` tells whether the game ends after it. `food` is
      the food's cell at the start of the tick, and `newFood` the cell
      `food.reset()` moves it to when the snake eats it on this tick. */
  method Tick(snake: Snake, astar: AStar, food: Position, newFood: Position) returns (over: bool)
    requires snake.Valid()
    modifies snake, astar
    ensures snake.Valid()
    ensures var eaten := old(snake.Head()) == food;
      var grown := Grown(old(snake.body), old(snake.last), eaten);
      var decision := NextStep(old(astar.moves), if eaten then newFood else food,
                               old(snake.Head()), old(snake.direction), NonHead(grown));
      && astar.moves == decision.moves
      && snake.direction == (if decision.step != Opposite(old(snake.direction)) then decision.step
                             else old(snake.direction))
      && snake.body == grown[1..|grown| - 1] + [old(snake.Head()), Step(old(snake.Head()), snake.direction)]
      && snake.last == old(snake.Head())
      && snake.score == old(snake.score) + (if eaten then 1 else 0)
    ensures snake.direction != Opposite(old(snake.direction))
    ensures old(snake.OnGrid()) ==> snake.OnGrid()
    ensures over == snake.Collided()
  {
    var target := food;
    if snake.Head() == food {
      snake.EatFood();
      target := newFood;
    }
    ghost var grown := snake.body;
    assert grown == Grown(old(snake.body), old(snake.last), old(snake.Head()) == food);
    var event := astar.GetNextStep(target, snake);
    snake.MakeMove(event);
    snake.Update();
    over := snake.Collided();
  }
}
