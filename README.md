# Snake game core, modelled in Dafny

This project models the game logic of `the_snake.py`. That is a single-file pygame
snake game with three kinds of obstacle:

- Good apples grow the snake by one segment.
- Bad apples drop its tail.
- Stones, like biting itself, restart the board.

The field is 640x480 pixels in 20-pixel cells: a 32x24 torus of 768 cells. Positions
are pixel pairs, as in the game. A `GameManager` holds several things:

- the run flag, the menu (New game / Continue / Exit) and its selection;
- the `new_game` flag, which is true until the first game starts;
- the `reset` request;
- the shared frame counter of `slow_mode`;
- the statistics: length, apples eaten and resets.

Modules, in dependency order:

- `Wrappers`: `Option`.
- `Grid`:
  - the screen constants and headings;
  - the wrapped next head (Python's `%` on a positive modulus, which Dafny's
    Euclidean `%` matches);
  - the row-major numbering of cells, which is the range of the random draw;
  - the pigeonhole argument that a free cell exists.
- `Controls`: the decision of `handle_keys` on an abstract set of held keys.
- `SnakeBody`: class `Snake`, whose fields are updated in place. Its invariant is
  `length == |positions|` plus a body of distinct cells.
- `Obstacles`:
  - class `Obstacle`, whose position is updated in place;
  - `randomize_position`;
  - `get_obstacles_position`;
  - the three `get_*` placement loops as one method parameterised by kind;
  - the first-match scan.
- `Manager`:
  - class `GameManager`;
  - the counter arithmetic of `slow_mode` and the period it produces;
  - the clamped menu moves.
- `Game`:
  - the board invariant;
  - `init_game_obgects` and `reset_game`;
  - `snake_can_move`, split into its branches, with a pure reference
    classification (`Classify`, `Resolve`) that the method is proved against;
  - one tick of `main`.
- `Session`:
  - `handle_keys`, `quit_pressed` and `handle_keys_menu`;
  - one pass of `main`'s loop, in menu mode and in play mode;
  - the invariant `SessionValid` that every pass keeps.

The board invariant `BoardValid` has five parts:

- a valid snake;
- 60 obstacles whose kinds are laid out as 20 good apples, 20 bad apples and 20 stones;
- every obstacle on a cell;
- no obstacle on a snake segment;
- no two obstacles on the same cell.

It holds after `InitGameObjects` and `ResetGame`, and every tick preserves it. The
capacity guard of `snake_can_move` (`length + 60 <= 768`) guarantees that the
respawn's redraw loop has a free cell to find.

Where the code and its own comments differ, the model follows the code:

- The module docstring (the_snake.py:9-10) says the snake cannot move backwards.
  `handle_keys` rejects only the reverse of the current heading and sets the heading
  at once, with no pending-direction buffer. So two polls between ticks can turn the
  snake into its own neck (`Controls.TwoPollsReverse`).
- The docstring of `reset_game` (the_snake.py:651-653) says the snake gets a random
  heading. `Snake.reset` does draw one, but the constructor that `init_game_obgects`
  calls overwrites it with RIGHT, so a new or reset snake always heads RIGHT.
- The module docstring (the_snake.py:15) says a bad apple shortens the snake by one
  segment. The code shortens it only when it is longer than one segment; a
  one-segment snake eats a bad apple and stays one segment long (`Game.EatApple`).

Other behaviour worth knowing:

- `slow_mode(n)` resets the counter only when it exceeds `n`, so it fires once every
  n + 1 calls (`Manager.SlowFiresOncePerPeriod`).
- The eaten counter counts both kinds of apple. The capacity guard is checked after
  eating, for both kinds.
- A respawned apple avoids every current obstacle position, including its own old
  cell, so it always moves.

## Model

| member | source | states |
|---|---|---|
| Grid.Direction.Opposite | the_snake.py:77-80 | the reverse heading negates both components and is never the heading itself |
| Grid.WrapStep | the_snake.py:768-771 | Python's `%` sends a coordinate one cell off either edge to the opposite edge and leaves on-screen values alone |
| Grid.NextHead | the_snake.py:766-771 | the prospective head lies on screen on both axes, whatever the start |
| Grid.NextHeadIsCell | the_snake.py:766-771 | from a cell, the wrapped next head is again a cell |
| Grid.WrapRightEdge | the_snake.py:768-771 | moving right from the last column re-enters column 0 on the same row |
| Grid.WrapTopEdge | the_snake.py:768-771 | moving up from the top row re-enters the bottom row |
| Grid.NextHeadMoves | the_snake.py:766-771 | a step always changes the head's cell |
| Grid.NextHeadRoundTrip | the_snake.py:766-771 | a step followed by a step in the opposite direction returns to the start cell, across the wrap |
| Grid.CellAt | the_snake.py:182-191 | every value of the random draw is a cell |
| Grid.CellIndexOfCellAt | the_snake.py:182-191 | different draws give different cells (the cell index inverts the draw) |
| Grid.CellAtOfCellIndex | the_snake.py:182-191 | every cell of the field can be drawn |
| Grid.MissingIndex | the_snake.py:182-191 | pigeonhole: fewer than n numbers leave some value below n uncovered |
| Grid.FreeCellExists | the_snake.py:182-191 | fewer forbidden positions than cells leave a drawable cell outside them |
| Controls.ChooseDirection | the_snake.py:524-539 | the new heading is never the reverse of the current one; if some held arrow is acceptable, it is the first acceptable one in the order UP, DOWN, LEFT, RIGHT; otherwise the heading is unchanged |
| Controls.ReverseKeyIgnored | the_snake.py:527-534 | holding the reverse arrow never changes the outcome |
| Controls.TwoPollsReverse | the_snake.py:524-539 | with no buffer, UP then LEFT within one tick turns a snake heading RIGHT to LEFT |
| SnakeBody.Snake.constructor | the_snake.py:280-287 | a new snake has one segment at the middle of the screen, length 1, no last cell, heading RIGHT, and is valid |
| SnakeBody.Snake.Reset | the_snake.py:289-294 | one segment at the middle, length 1, no last cell, some heading; the invariant holds |
| SnakeBody.Snake.UpdateDirection | the_snake.py:296-298 | the heading becomes the argument and nothing else changes |
| SnakeBody.Snake.HeadPosition | the_snake.py:300-302 | the head is a segment and occurs nowhere else in a valid body |
| SnakeBody.Snake.CanBiteItself | the_snake.py:320-322 | true exactly when the new head equals some segment, the about-to-be-vacated tail cell included |
| SnakeBody.TryBiteMatchesPositions | the_snake.py:324-326 | `try_bite` on the i-th obstacle is true exactly when the i-th obstacle position is the new head, so the scan of `snake_can_move` is the scan `Classify` reads |
| SnakeBody.Snake.Move | the_snake.py:315-318 | the new head is prepended and the old tail is popped into `last`; the length is unchanged; the invariant is kept when the new head is a cell off the body |
| SnakeBody.SingleSegmentNeverBites | the_snake.py:320-322 | a one-segment snake never bites itself, since the next head always differs from the current one |
| Obstacles.FreeCellByCount | the_snake.py:182-191 | fewer forbidden entries than cells leave a free cell, so the redraw loop can stop |
| Obstacles.FreeCellWithSharedEntry | the_snake.py:689-691 | exactly 768 entries still leave a free cell when one obstacle entry is also a snake segment (the eaten good apple's cell) |
| Obstacles.Obstacle.constructor | the_snake.py:204-214 | a new apple or stone keeps its kind; its position is a cell free of both lists; it stays at the middle of the screen when that is free |
| Obstacles.Obstacle.RandomizePosition | the_snake.py:182-191 | the final position is in neither list; a position already free is kept; a redrawn one is a cell |
| Obstacles.PositionsOf | the_snake.py:627-631 | one position per obstacle, in list order |
| Obstacles.PositionsOfAppend | the_snake.py:627-631 | the positions of a concatenation are the concatenated positions |
| Obstacles.PositionsOfConcat | the_snake.py:646 | the positions of `good + bad + stones` are the three position lists joined |
| Obstacles.FreshlyPlacedDistinct | the_snake.py:585-624 | placing each obstacle off all earlier positions keeps the position list free of repeats |
| Obstacles.FreshlyPlacedOffBody | the_snake.py:585-624 | placing each obstacle off the snake keeps every position a cell off the snake |
| Obstacles.GetObstacles | the_snake.py:585-624 | `count` new obstacles of one kind; the output list is the input list extended by their positions; each placed position is a cell off the snake and off every position before it |
| Obstacles.FindFirst | the_snake.py:677-699 | the scan finds nothing exactly when the target is absent; otherwise it returns the first index holding the target |
| Obstacles.FindFirstUnique | the_snake.py:677-699 | in a list without repeats, the first match is the only index holding the target |
| Manager.SlowStep | the_snake.py:471-482 | from a non-negative count, the next count lies in 0..howSlow and is either 0 or count + 1 |
| Manager.SlowRun | the_snake.py:471-482 | the counter stays in 0..howSlow over any number of calls from 0 |
| Manager.SlowRunCountsUp | the_snake.py:471-482 | from 0, the first howSlow calls count 1, 2, ..., howSlow |
| Manager.SlowRunPeriodic | the_snake.py:471-482 | the counter repeats with period howSlow + 1 |
| Manager.FiresFirstPeriod | the_snake.py:471-482 | within the first howSlow calls, only the howSlow-th returns True |
| Manager.SlowFiresOncePerPeriod | the_snake.py:471-482 | every howSlow + 1 consecutive calls return True exactly once |
| Manager.MenuUpIndex | the_snake.py:445-447 | the selection moves up one entry, staying on the first one |
| Manager.MenuDownIndex | the_snake.py:449-455 | the selection moves down one entry, staying on (or clamping to) the last one |
| Manager.MenuMovesUndo | the_snake.py:445-455 | away from the ends of the menu, Down undoes Up and Up undoes Down |
| Manager.GameManager.constructor | the_snake.py:400-419 | no reset, new game, not running, menu open on the first entry, counter 0, length 1, no apples, no resets |
| Manager.GameManager.SwitchOn | the_snake.py:425-427 | the game runs |
| Manager.GameManager.SwitchOff | the_snake.py:429-431 | the game stops |
| Manager.GameManager.CloseMenu | the_snake.py:437-439 | the menu is closed |
| Manager.GameManager.OpenMenu | the_snake.py:441-443 | the menu is open |
| Manager.GameManager.MenuUp | the_snake.py:445-447 | the selection becomes the clamped move up |
| Manager.GameManager.MenuDown | the_snake.py:449-455 | the selection becomes the clamped move down |
| Manager.GameManager.MenuTitle | the_snake.py:457-459 | the selected entry; it is New game exactly at index 0 and Exit exactly at the last index |
| Manager.GameManager.SlowMode | the_snake.py:471-482 | the counter takes one step; the call returns True exactly when the counter equals howSlow |
| Manager.GameManager.UpdateEatenApples | the_snake.py:491-493 | one more apple eaten |
| Manager.GameManager.UpdateCountOfResets | the_snake.py:495-497 | one more reset |
| Manager.GameManager.UpdateSnakeLength | the_snake.py:499-501 | the recorded length becomes the argument |
| Manager.GameManager.ResetInfo | the_snake.py:503-507 | length 1, no apples eaten, no resets |
| Game.EatApple | the_snake.py:680-685 | a good apple puts its cell in front of the unchanged body; a bad apple drops the tail unless only the head is left; the body never becomes empty |
| Game.Classify | the_snake.py:666-701 | a self-bite exactly when the head is on the body; no collision exactly when the head is on neither body nor obstacle; otherwise the first obstacle index on the head |
| Game.Resolve | the_snake.py:666-701 | the snake advances exactly when it hits nothing; a self-bite resets; eating happens only on an apple, and only when the new body and the obstacles fit in the field |
| Game.ResolveOnBoard | the_snake.py:677-699 | on a valid board, a stone resets, a bad apple is always eaten, and a good apple is eaten exactly when length + 1 + 60 fits in the field |
| Game.MoveKeepsBoard | the_snake.py:773-774 | a move onto a free cell keeps the board invariant |
| Game.EatLeavesFreeCell | the_snake.py:685-691 | after an apple is eaten under the capacity guard, a free cell exists for its respawn |
| Game.EatKeepsBoard | the_snake.py:679-692 | eating an apple and respawning it on a free cell keeps the board invariant |
| Game.KindsLaidOut | the_snake.py:646 | in `good + bad + stones`, the first 20 are good apples, the next 20 bad apples and the last 20 stones |
| Game.InitGameObjects | the_snake.py:634-648 | a new snake at the middle, heading RIGHT, with no last cell; the board invariant holds |
| Game.PlaceObstacles | the_snake.py:636-646 | 60 obstacles of the laid-out kinds, on distinct cells off the snake |
| Game.PlacedOffBodyAndDistinct | the_snake.py:636-645 | three consecutive placement rounds leave all positions distinct and off the snake |
| Game.ResetGame | the_snake.py:651-663 | a new game zeroes the statistics; an in-game reset sets the length to 1, keeps the eaten count and adds one reset; either way a fresh valid board with a one-segment snake heading RIGHT |
| Game.Respawn | the_snake.py:689-691 | only the eaten apple's position changes, to a cell free of every old obstacle position and of the body |
| Game.RespawnPositions | the_snake.py:690-691 | when only the i-th object moved, the position list changes only at index i |
| Game.DistinctObjects | the_snake.py:690-691 | obstacles on distinct cells are distinct objects, so moving one moves no other |
| Game.EatAppleAt | the_snake.py:679-687 | the body becomes the eaten-apple body, and the snake length and recorded length match it; the eaten count rises by one |
| Game.RespawnOrReset | the_snake.py:689-695 | under the capacity guard the apple moves to a free cell and the board stays valid; otherwise the reset flag is set and nothing moves |
| Game.BiteObstacle | the_snake.py:679-699 | a stone only sets the reset flag; an apple is eaten, then respawned or, on a full board, the reset flag is set |
| Game.SnakeCanMove | the_snake.py:666-701 | returns True exactly when the head hits nothing (then nothing changes). A self-bite or stone sets the flag and changes nothing else. An apple is eaten and respawned, or the flag is set. The board invariant holds whenever no reset is pending |
| Game.Tick | the_snake.py:766-777 | in terms of the reference `Resolve` on the body and obstacle positions before the tick: advance prepends the new head, drops the tail into `last` and leaves the obstacles alone; eat applies `EatApple` and moves only that apple, to a cell free of the old positions and the new body; a full reset rebuilds the board with a one-segment snake heading RIGHT; the eaten count rises exactly on an apple and the reset count exactly on a full reset; the board stays valid and no reset remains pending |
| Session.EnterAction | the_snake.py:545-557 | without Enter nothing happens; New game starts the first game or requests a reset; Continue acts only after the first game; Exit quits |
| Session.LeavingMenuStartsGame | the_snake.py:545-557 | after any menu pass that leaves the loop running with the menu closed, `new_game` is false |
| Session.MenuPassIdle | the_snake.py:542-563 | with no key held, a menu pass only advances the frame counter |
| Session.EscapeBeforeFirstGameStops | the_snake.py:572-582 | Escape in the menu before the first game stops the loop, whatever else is held |
| Session.HandleKeys | the_snake.py:524-539 | the heading becomes `ChooseDirection` of the old heading and the held keys |
| Session.QuitPressed | the_snake.py:572-582 | True exactly on Escape after the first game; Escape before it switches the game off |
| Session.HandleKeysMenu | the_snake.py:542-563 | menu, `new_game`, reset request and run flag follow `EnterAction`; the counter steps with period 2; the selection follows `MenuMove` |
| Session.MenuMove | the_snake.py:559-563 | the selection stays in the menu, and moves only on a pass where the counter fired with Up or Down held |
| Session.StartGame | the_snake.py:740-741 | from a new manager, the board is built and the game runs with the menu open, satisfying the session invariant |
| Session.MenuKeys | the_snake.py:748-752 | the manager becomes `MenuKeysState` of the old manager: Escape closes the menu after the first game or stops the loop before it, then the Enter action and the selection move apply |
| Session.MenuKeysState | the_snake.py:748-752 | the selection stays in the menu, the counter in 0..1, and the statistics are untouched |
| Session.MenuPassState | the_snake.py:746-755 | after a menu pass no reset is pending and the selection stays in the menu |
| Session.MenuPoll | the_snake.py:746-755 | the manager becomes `MenuPassState` of the old one; a requested reset rebuilds the board with a one-segment snake heading RIGHT; otherwise the snake and obstacles are untouched; the session invariant is kept |
| Session.GameKeys | the_snake.py:757-766 | Escape opens the menu, the loop keeps running, the heading follows `ChooseDirection`, and the snake moves exactly when the counter reaches SLOW_SPEED |
| Session.GamePoll | the_snake.py:756-779 | the heading follows `ChooseDirection`, Escape opens the menu, the counter steps, the run flag, `new_game` and the selection stay; when the counter reaches SLOW_SPEED the board changes as `Game.Tick` states, otherwise the board and statistics are unchanged; the session invariant is kept |
| Session.Poll | the_snake.py:743-779 | every pass keeps the session invariant; with the menu open it is `MenuPoll`'s outcome, otherwise `GamePoll`'s; only a menu pass can stop the loop |

## Left out

- Drawing, colours, fonts, the window caption and `draw_menu`, `get_menu_step`,
  `get_menu_list` and `info`: presentation only.
- `update_snake_speed`: it uses the wall clock and floating-point division, so the
  speed statistic is not modelled.
- `is_run` and `menu_is_open`: plain getters, read as fields.
- `quit_game`: it ends the process.
- `main`'s unbounded loop is modelled one pass at a time (`Session.Poll`, preserving
  `SessionValid`), not as a loop over a trace. The loop ends when the run flag is false.
- The pygame key state and event queue are an abstract set of held keys. `KeyEscape`
  stands for "a QUIT event, or Escape held while some event arrived". The per-event
  loop of `quit_pressed` collapses to one test: repeated events give the same outcome.
- Randomness (`randint`, `choice`) is a nondeterministic choice of a free cell or a
  heading. Only the outcome of the redraw loop of `randomize_position` is modelled, not
  its individual draws.
- Object identity: the model does not track that `init_game_obgects` and `reset_game`
  return freshly allocated objects. A caller therefore cannot chain passes of `main`
  inside one verified loop.
- The `obstacles_pos` list that `get_*` extend in place (`+=` on a shared list) is
  threaded as a value returned by each call. Aliasing of that list is not modelled.
- Game.InitGameObjects: does not state that the obstacles are new objects, for the
  object-identity reason above.
- Game.ResetGame: does not state that the snake and obstacles are new objects, for the
  same reason.
