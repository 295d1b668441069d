# Snake with a one-step A* move selector

A terminal game of Snake that plays itself. The snake lives on a toroidal
grid of MAX_X = 75 columns by MAX_Y = 25 rows. Its body is a list of
segments, tail first and head last. Each tick it moves one cell; it grows
by one segment when its head is on the food, and it dies when its head
runs into its own body. A selector picks the direction each tick. It looks
at the four cells next to the head, discards those that lie on a body
segment, ranks the others by `f = g + h` and takes the least. Here `g` is
a move counter and `h` is the Manhattan distance from the cell to the food.

The project has four modules, one per source file:

- `Constant` (`constant.dfy`): the grid size, the base tick delay
  `TIMEOUT = 60`, the initial length `SNAKE_LEN = 5` and the initial position.
- `Components` (`components.dfy`):
  - directions, their terminal key codes and the reversal table `Opposite`;
  - the wrap-around head step `Step`;
  - the shared membership test `Occupied`, which is the source's `any(...)`;
  - the `Snake` class, whose fields `body`, `direction`, `score`, `timeout`
    and `last` its methods update in place;
  - `FoodCollides`, the food's own overlap test.
- `Astar` (`astar.dfy`): the selector.
  - The class `AStar` holds the counter `moves`. Its methods are
    `GetDistances` (the loop over the four directions) and `GetNextStep`.
  - Both methods are proved equal to the pure reference definitions
    `Survivors` (the queue contents) and `NextStep` (the decision).
  - The lemmas about the selector are stated on those two functions.
- `Game` (`game.dfy`): one tick of the game loop, composed from the above.

The snake's class invariant `Valid()` states two things:

- the body has more than SNAKE_LEN segments;
- the tick delay is determined by the score: `timeout == TimeoutAfter(score)`.

`TimeoutAfterClosedForm` proves that this delay equals
`max(20, 60 - 5 * (score / 3))`, so it never drops below 20.
`OnGrid()` is preserved by every move and by growth. It says that every
segment and the cell `last` lie on the grid.

Four behaviours of the code are easy to misread; the model follows the code on each:

- **Food test.** The selector's food test is `head.x == food.x and head.y`.
  It compares the columns, and then only checks that the head's row is
  non-zero. `ReachedFood` models this as written. `NextStepResetsOnColumn`
  shows the reset firing with the food 13 rows away.
- **Tie-break.** Equal costs are broken by the direction's key code
  (DOWN 258 < UP 259 < LEFT 260 < RIGHT 261), because the queue orders
  `(f, key)` tuples. They are not broken by the evaluation order RIGHT,
  LEFT, UP, DOWN.
- **No wrap-around for candidates.** A candidate cell is never wrapped,
  neither for the collision test nor for the distance. `StepIsWrappedNeighbour`
  relates it to the real step.
- **Stacked start.** The snake starts with all SNAKE_LEN + 1 segments on one
  cell, so no invariant that segments occupy distinct cells can hold at the
  start, and the model uses none. `collided` and the selector only
  compare the head, or a candidate cell, with the non-head segments.

## Model

| member | source | states |
|---|---|---|
| `Components.Code` | components.py:3 | the curses key code of each direction: DOWN 258, UP 259, LEFT 260, RIGHT 261 (standard ncurses values; its property is `CodeInjective`) |
| `Components.CodeInjective` | components.py:3 | the four key codes are pairwise distinct, so a code determines its direction |
| `Components.Opposite` | components.py:76-81 | the reversal of a direction is never the direction itself |
| `Components.OppositeIsInvolution` | components.py:76-81 | reversal is an involution without fixed points that keeps the axis (UP/DOWN, LEFT/RIGHT) |
| `Components.Step` | components.py:132-154 | the head step of the four move methods, with the wrap to the opposite edge; its properties are `StepStaysInGrid`, `StepMovesOneAxis`, `StepWrapsAtEdges` and `Astar.StepIsWrappedNeighbour` |
| `Components.StepStaysInGrid` | components.py:132-154 | a head step from a cell in [1, MAX_X] x [1, MAX_Y] stays in that range |
| `Components.StepMovesOneAxis` | components.py:132-154 | a step leaves the other coordinate unchanged and moves its own by exactly +1 or -1 modulo the grid size |
| `Components.StepWrapsAtEdges` | components.py:132-154 | right from x = MAX_X gives 1, left from 1 gives MAX_X, down from MAX_Y gives 1, up from 1 gives MAX_Y |
| `Components.Occupied` | components.py:106-108 | the `any(...)` scan is true iff some segment equals the cell |
| `Components.NonHead` | components.py:108 | `body[:-1]`: the body is the result followed by the head, and an empty body gives nothing |
| `Components.NextTimeout` | components.py:95-98 | the delay after a point: 5 less when the new score is a multiple of 3 and the delay is above 20, otherwise unchanged (its consequences are `TimeoutAfterClosedForm` and `TimeoutBounds`) |
| `Components.TimeoutAfter` | components.py:95-98 | the delay after n points from TIMEOUT, `NextTimeout` applied once per point; the class invariant ties `timeout` to it and `TimeoutAfterClosedForm` gives its closed form |
| `Components.TimeoutAfterClosedForm` | components.py:95-98 | after n pieces of food the delay is max(20, 60 - 5 * (n / 3)) |
| `Components.TimeoutBounds` | components.py:95-98 | starting from TIMEOUT the delay stays between 20 and 60 for every score |
| `Components.Snake.constructor` | components.py:51-65 | SNAKE_LEN + 1 segments all at (x, y), head last, direction RIGHT, score 0, delay TIMEOUT, `last` = (x, y); the invariant holds |
| `Components.Snake.Head` | components.py:101-104 | the body is the non-head segments followed by the head |
| `Components.Snake.EatFood` | components.py:88-99 | the body grows by one with a segment at `last` just before the head, earlier segments and head unchanged; score + 1; delay - 5 exactly when the new score is a multiple of 3 and the delay was above 20; invariant and grid bounds kept |
| `Components.Snake.Collided` | components.py:106-108 | true iff the head's cell equals the cell of some segment of `body[:-1]` |
| `Components.Snake.Update` | components.py:110-118 | length unchanged; old segments 1..n-2 now at 0..n-3 in order; the new `body[-2]` and `last` are the old head; the head is the old head stepped in `direction`; invariant and grid bounds kept |
| `Components.Snake.Move` | components.py:67-73 | the dispatch table applies the step of the current direction to the head and nothing else |
| `Components.Snake.MakeMove` | components.py:120-124 | direction becomes the request unless the request reverses it, in which case it stays; it never becomes the reverse of the old direction |
| `Components.Snake.MoveUp` | components.py:132-136 | only the head changes, to the step UP of the old head |
| `Components.Snake.MoveDown` | components.py:138-142 | only the head changes, to the step DOWN of the old head |
| `Components.Snake.MoveLeft` | components.py:144-148 | only the head changes, to the step LEFT of the old head |
| `Components.Snake.MoveRight` | components.py:150-154 | only the head changes, to the step RIGHT of the old head |
| `Components.FoodCollides` | components.py:44-46 | true iff the food cell equals the cell of some segment of `body[:-1]` |
| `Astar.Manhattan` | astar.py:77 | h is non-negative and zero iff the two cells are equal |
| `Astar.Neighbour` | astar.py:55-69 | the candidate cell is at Manhattan distance 1 from the head, on the direction's axis, on the side the direction names (UP lowers y, DOWN raises it, LEFT lowers x, RIGHT raises it), with no wrap |
| `Astar.StepIsWrappedNeighbour` | astar.py:55-69 | from a cell on the grid, the real head step is the unwrapped candidate cell brought back onto the grid modulo its size |
| `Astar.StepIsNeighbourInside` | astar.py:55-69 | when the candidate cell is on the grid it is exactly the cell the head moves to; the two differ only at the edges |
| `Astar.Rank` | astar.py:76-78 | the queue entry of a direction: f = g + the Manhattan distance from its unwrapped candidate cell to the food (used by `SurvivorsSound` and `SurvivorsComplete`) |
| `Astar.Survivors` | astar.py:48-81 | the queue contents: one entry per direction of the evaluation order whose candidate cell is free, in that order; characterised by `SurvivorsSound`, `SurvivorsComplete` and `SurvivorsExactly` |
| `Astar.SurvivorsSound` | astar.py:48-81 | every queued entry is for a direction whose candidate cell is free, with f = moves + Manhattan(candidate, food) |
| `Astar.SurvivorsComplete` | astar.py:48-81 | every direction with a free candidate cell is queued with its cost |
| `Astar.SurvivorsExactly` | astar.py:55-81 | a direction has a queue entry iff its candidate cell is not a non-head segment |
| `Astar.LexMin` | astar.py:96 | `get()` returns an entry of the queue that no other entry precedes in (f, key code) order |
| `Astar.ReachedFood` | astar.py:87 | the reset test as written: same column as the food and a non-zero row, without comparing rows |
| `Astar.NextStep` | astar.py:85-96 | one call of `get_next_step` as a function of the counter, food, head, direction and non-head segments; characterised by the `NextStep...` lemmas below |
| `Astar.NextStepResets` | astar.py:87-89 | when head.x == food.x and head.y != 0 the counter becomes 0 and the current direction is returned |
| `Astar.NextStepCountsOnce` | astar.py:43-46 | otherwise the counter goes up by exactly one |
| `Astar.NextStepIsBest` | astar.py:76-96 | if some candidate cell is free the chosen one is free, and no free candidate is closer to the food or equally close with a smaller key code |
| `Astar.NextStepFallsBack` | astar.py:93-94 | if all four candidate cells are taken the current direction is returned |
| `Astar.NextStepChoice` | astar.py:85-96 | the result is the current direction or a direction with a free candidate cell |
| `Astar.NextStepResetsOnColumn` | astar.py:87 | as written, a head 13 rows from the food in its column already resets the counter |
| `Astar.ScenarioStraightToFood` | astar.py:85-96 | head (10, 3) moving right, food (15, 3), body behind: RIGHT |
| `Astar.ScenarioTieByCode` | astar.py:81 | LEFT and UP are equally close to the food; UP wins on its smaller key code although LEFT is evaluated first |
| `Astar.ScenarioOnlyLeftFree` | astar.py:85-96 | right, up and down blocked, food to the right: LEFT, the only free cell |
| `Astar.ScenarioBoxedIn` | astar.py:93-94 | all four cells blocked: the current direction |
| `Astar.AStar.constructor` | astar.py:19-37 | the counter starts at 0 and the evaluation order is RIGHT, LEFT, UP, DOWN |
| `Astar.AStar.Collides` | astar.py:39-41 | true iff the cell equals the cell of some segment of `body[:-1]` |
| `Astar.AStar.GetDistances` | astar.py:43-83 | the counter goes up by exactly one and the queue holds exactly the entries of `Survivors` for the four directions, in evaluation order |
| `Astar.AStar.GetNextStep` | astar.py:85-96 | the new counter and the returned direction are those of `NextStep`; the snake is not changed |
| `Game.Grown` | components.py:88-93 | the body after the growth step of a tick: one segment at `last` inserted before the head when eating, otherwise unchanged; head kept |
| `Game.Tick` | main.py:58-74 | one tick: grows iff the head was on the food; the counter and the chosen direction are those of `NextStep` toward the re-placed food after eating and toward the food otherwise; the new direction is that choice unless it reverses the old one; the new body is the grown body advanced in the new direction; score, `last` and the invariant follow, the grid bounds are kept, and the result is the self-collision test after the move |

## Left out

- Terminal input and output are not modelled: the curses window, drawing,
  key reading, the Esc check, output capture and printing the score
  (main.py). The `render` methods, the `char` and `headCharacter` fields
  and the `getScore` string are display only.
- Food placement is not modelled. `Food.__init__` and `Food.reset` draw
  random cells and retry without a bound. The food's position is an input
  to the selector. `Game.Tick` takes the cell `food.reset()` draws as a
  parameter; it is not constrained to the range of `randint` or to cells
  off the body.
- The `window.timeout(...)` call in `eatFood` is left out; only its effect
  on the `timeout` field is modelled.
- The loop of `startGame` around the tick is left out (it runs until Esc or
  a collision); `Game.Tick` models one iteration.
- `PriorityQueue` is not modelled as a data structure. The queue is a
  sequence of `(f, direction)` entries, and `get()` is its least entry
  (`LexMin`).
- The unused `AStar.invalid` table is not modelled.
- Body segments are values. Python's reuse of the popped tail object
  (object identity and the aliasing it allows) is not modelled.
- A direction is a four-valued datatype. So the selector's result is always
  one of the four directions by its type, and main.py's test that the key
  is a direction key always passes.
- The key codes come from curses, which is not part of this model. The
  model uses the standard ncurses values.
