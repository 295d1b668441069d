/** Static configuration of the game: window size, playing-area bounds,
    base tick delay and the snake's initial length and position. */
module Constant {

  /** Dimensions of the game window. */
  const WIDTH: int := 80
  const HEIGHT: int := 30

  /** Largest coordinates of the playing area; the rest of the window is border. */
  const MAX_X: int := WIDTH - 5
  const MAX_Y: int := HEIGHT - 5

  /** Base delay of one tick, in milliseconds. */
  const TIMEOUT: int := 60

  /** Number of body segments behind the head at the start. */
  const SNAKE_LEN: int := 5

  /** Initial position of every segment. */
  const SNAKE_X: int := SNAKE_LEN + 1
  const SNAKE_Y: int := 3
}
