/**
  The keyboard handlers and one pass of `main`'s loop. A pass either runs
  the menu (`quit_pressed`, `handle_keys_menu`, a pending full reset) or
  plays (`quit_pressed`, `handle_keys`, and a tick whenever `slow_mode`
  fires). `SessionValid` is the invariant every pass keeps while the game
  is running.
 */
module Session {
  import opened Wrappers
  import opened Grid
  import opened Controls
  import opened SnakeBody
  import opened Obstacles
  import opened Manager
  import opened Game

  /** What Enter does on the selected menu entry. */
  datatype MenuAction =
    | Stay        // no Enter, or Continue before any game was started
    | StartFirst  // New game before any game: start the board already built
    | Restart     // New game during a game: request a full reset
    | Resume      // Continue: back to the running game
    | Quit        // Exit: stop the loop

  /** The decision of `handle_keys_menu` on Enter. Continue is inert before the
      first game; every other entry acts as soon as Enter is held. */
  function EnterAction(item: MenuItem, newGame: bool, enter: bool): (a: MenuAction)
    ensures !enter ==> a == Stay
    ensures enter && item == NewGame ==> (a == StartFirst <==> newGame) && (a == Restart <==> !newGame)
    ensures a == Resume <==> enter && item == Continue && !newGame
    ensures a == Quit <==> enter && item == Exit
    ensures a == Stay <==> !enter || (item == Continue && newGame)
  {
    if !enter then Stay
    else match item
      case NewGame => if newGame then StartFirst else Restart
      case Continue => if newGame then Stay else Resume
      case Exit => Quit
  }

  /** The selection after `handle_keys_menu`: Up, else Down, moves it, but only
      when `slow_mode(1)` fired on this pass. */
  function MenuMove(value: int, fired: bool, keys: set<Key>): (next: int)
    ensures 0 <= value < |MENU_SECTIONS| ==> 0 <= next < |MENU_SECTIONS|
    ensures !fired || (KeyUp !in keys && KeyDown !in keys) ==> next == value
  {
    if fired && KeyUp in keys then MenuUpIndex(value)
    else if fired && KeyDown in keys then MenuDownIndex(value)
    else value
  }

  /** The manager after the keys of a menu pass (`quit_pressed`, closing the
      menu when it answers true, then `handle_keys_menu`); the statistics are
      untouched. */
  function MenuKeysState(s: ManagerState, keys: set<Key>): (r: ManagerState)
    requires 0 <= s.menuValue < |MENU_SECTIONS|
    ensures 0 <= r.menuValue < |MENU_SECTIONS|
    ensures r.snakeLength == s.snakeLength && r.eatenApples == s.eatenApples && r.resetCount == s.resetCount
    ensures s.slowCount >= 0 ==> 0 <= r.slowCount <= 1
  {
    var escape := KeyEscape in keys;
    var a := EnterAction(MENU_SECTIONS[s.menuValue], s.newGame, KeyEnter in keys);
    var count := SlowStep(s.slowCount, 1);
    s.(running := s.running && !(escape && s.newGame) && a != Quit,
       menuOpen := s.menuOpen && !(escape && !s.newGame) && a == Stay,
       newGame := s.newGame && a != StartFirst,
       reset := s.reset || a == Restart,
       slowCount := count,
       menuValue := MenuMove(s.menuValue, count == 1, keys))
  }

  /** The manager after a whole menu pass: a requested reset is carried out as a
      new game (statistics zeroed) and the request is cleared. */
  function MenuPassState(s: ManagerState, keys: set<Key>): (r: ManagerState)
    requires 0 <= s.menuValue < |MENU_SECTIONS|
    ensures !r.reset
    ensures 0 <= r.menuValue < |MENU_SECTIONS|
  {
    var t := MenuKeysState(s, keys);
    if t.reset then t.(reset := false, snakeLength := 1, eatenApples := 0, resetCount := 0) else t
  }

  /** Play can only resume from the menu once a game has started: a menu pass
      that leaves the loop running with the menu closed leaves `new_game` false. */
  lemma {:induction false} LeavingMenuStartsGame(s: ManagerState, keys: set<Key>)
    requires 0 <= s.menuValue < |MENU_SECTIONS| && s.menuOpen
    ensures var r := MenuPassState(s, keys);
      r.running && !r.menuOpen ==> !r.newGame
  {
    var a := EnterAction(MENU_SECTIONS[s.menuValue], s.newGame, KeyEnter in keys);
    var t := MenuKeysState(s, keys);
    if t.running && !t.menuOpen {
      assert a != Quit && (a != Stay || (KeyEscape in keys && !s.newGame));
    }
  }

  /** With no key held, a menu pass only advances the counter. */
  lemma MenuPassIdle(s: ManagerState)
    requires 0 <= s.menuValue < |MENU_SECTIONS| && !s.reset
    ensures MenuPassState(s, {}) == s.(slowCount := SlowStep(s.slowCount, 1))
  {
  }

  /** Escape in the menu before the first game stops the loop, whatever else is held. */
  lemma EscapeBeforeFirstGameStops(s: ManagerState, keys: set<Key>)
    requires 0 <= s.menuValue < |MENU_SECTIONS| && s.newGame && KeyEscape in keys
    ensures !MenuPassState(s, keys).running
  {
  }

  /** `handle_keys`: the first accepted arrow becomes the heading. */
  method HandleKeys(snake: Snake, keys: set<Key>)
    modifies snake`direction
    ensures snake.direction == ChooseDirection(old(snake.direction), keys)
  {
    var direction: Option<Direction> := None;
    if KeyUp in keys && snake.direction != Down {
      direction := Some(Up);
    } else if KeyDown in keys && snake.direction != Up {
      direction := Some(Down);
    } else if KeyLeft in keys && snake.direction != Right {
      direction := Some(Left);
    } else if KeyRight in keys && snake.direction != Left {
      direction := Some(Right);
    }
    if direction.Some? {
      snake.UpdateDirection(direction.value);
    }
  }

  /** `quit_pressed`: on Escape (or the window's QUIT event) it answers true,
      except before the first game, where it switches the game off instead. */
  method QuitPressed(game: GameManager, keys: set<Key>) returns (quit: bool)
    modifies game`running
    ensures quit <==> KeyEscape in keys && !game.newGame
    ensures game.running == (old(game.running) && !(KeyEscape in keys && game.newGame))
  {
    if KeyEscape in keys {
      if game.newGame {
        game.SwitchOff();
      } else {
        return true;
      }
    }
    return false;
  }

  /** `handle_keys_menu`: act on Enter for the selected entry, then move the
      selection on the ticks where `slow_mode(1)` fires. */
  method HandleKeysMenu(game: GameManager, keys: set<Key>)
    requires game.Valid()
    modifies game`newGame, game`reset, game`menuOpen, game`running, game`slowCount, game`menuValue
    ensures game.Valid()
    ensures var a := EnterAction(old(game.MenuTitle()), old(game.newGame), KeyEnter in keys);
      && game.menuOpen == (old(game.menuOpen) && a == Stay)
      && game.newGame == (old(game.newGame) && a != StartFirst)
      && game.reset == (old(game.reset) || a == Restart)
      && game.running == (old(game.running) && a != Quit)
    ensures game.slowCount == SlowStep(old(game.slowCount), 1)
    ensures game.menuValue == MenuMove(old(game.menuValue), game.slowCount == 1, keys)
  {
    if KeyEnter in keys && game.MenuTitle() == NewGame {
      if game.newGame {
        game.newGame := false;
      } else {
        game.reset := true;
      }
      game.CloseMenu();
    } else if KeyEnter in keys && game.MenuTitle() == Continue && !game.newGame {
      game.CloseMenu();
    } else if KeyEnter in keys && game.MenuTitle() == Exit {
      game.SwitchOff();
      game.CloseMenu();
    }

    var fired := game.SlowMode(1);
    if fired {
      if KeyUp in keys {
        game.MenuUp();
      } else if KeyDown in keys {
        game.MenuDown();
      }
    }
  }

  /** What holds between two passes of `main`'s loop: a valid manager and board,
      no pending reset, the recorded length equal to the snake's, the shared
      counter within the game speed, and play only after a game has started. */
  ghost predicate SessionValid(game: GameManager, snake: Snake, obstacles: seq<Obstacle>)
    reads game, snake, obstacles
  {
    && game.Valid()
    && BoardValid(snake, obstacles)
    && !game.reset
    && game.snakeLength == snake.length
    && game.slowCount <= SLOW_SPEED
    && (game.running && !game.menuOpen ==> !game.newGame)
  }

  /** The start of `main`: build the board and switch the game on, from a
      freshly constructed manager. */
  method StartGame(game: GameManager) returns (snake: Snake, obstacles: seq<Obstacle>)
    requires game.Valid() && !game.reset && game.newGame && game.menuOpen
    requires game.slowCount == 0 && game.snakeLength == 1
    modifies game`running
    ensures SessionValid(game, snake, obstacles) && game.running && game.menuOpen
    ensures snake.positions == [MIDDLE_SCREEN] && snake.direction == Right
  {
    snake, obstacles := InitGameObjects();
    game.SwitchOn();
  }

  /** The keys of a menu pass: `quit_pressed`, which closes the menu on Escape
      once a game has started (and switches off before that), then
      `handle_keys_menu`. */
  method MenuKeys(game: GameManager, keys: set<Key>)
    requires game.Valid()
    modifies game`newGame, game`reset, game`menuOpen, game`running, game`slowCount, game`menuValue
    ensures game.Valid()
    ensures game.State() == MenuKeysState(old(game.State()), keys)
  {
    var quit := QuitPressed(game, keys);
    if quit {
      game.CloseMenu();
    }
    HandleKeysMenu(game, keys);
  }

  /** What a menu pass did, given the manager `s0`, the body `body0` and the
      obstacle positions `ps0` before it: the manager is `MenuPassState(s0, keys)`;
      a reset rebuilt the board with a one-segment snake heading RIGHT;
      otherwise the board is untouched. */
  ghost predicate MenuPassOutcome(s0: ManagerState, body0: seq<Position>, ps0: seq<Position>, keys: set<Key>,
                                  game: GameManager, snake: Snake, obstacles: seq<Obstacle>,
                                  nextSnake: Snake, nextObstacles: seq<Obstacle>)
    reads game, snake, obstacles, nextSnake
  {
    && 0 <= s0.menuValue < |MENU_SECTIONS|
    && game.State() == MenuPassState(s0, keys)
    && (MenuKeysState(s0, keys).reset ==>
          nextSnake.positions == [MIDDLE_SCREEN] && nextSnake.direction == Right)
    && (!MenuKeysState(s0, keys).reset ==>
          && nextSnake == snake && nextObstacles == obstacles
          && snake.positions == body0 && PositionsOf(obstacles) == ps0)
  }

  /** A pass with the menu open: the menu keys, then a requested reset
      rebuilds the board as a new game and clears the flag. */
  method MenuPoll(game: GameManager, snake: Snake, obstacles: seq<Obstacle>, keys: set<Key>)
    returns (nextSnake: Snake, nextObstacles: seq<Obstacle>)
    requires SessionValid(game, snake, obstacles) && game.running && game.menuOpen
    modifies game
    ensures SessionValid(game, nextSnake, nextObstacles)
    ensures MenuPassOutcome(old(game.State()), old(snake.positions), old(PositionsOf(obstacles)), keys,
                            game, snake, obstacles, nextSnake, nextObstacles)
  {
    ghost var s0 := game.State();
    MenuKeys(game, keys);
    ghost var t := game.State();
    LeavingMenuStartsGame(s0, keys);
    nextSnake, nextObstacles := snake, obstacles;
    if game.reset {
      nextSnake, nextObstacles := ResetGame(game, true);
      game.reset := false;
      assert game.State() == t.(reset := false, snakeLength := 1, eatenApples := 0, resetCount := 0);
    }
  }

  /** The keys of a play pass: `quit_pressed` opens the menu on Escape,
      `handle_keys` steers, and `slow_mode` says whether the snake moves. */
  method GameKeys(game: GameManager, snake: Snake, keys: set<Key>) returns (fired: bool)
    requires !game.newGame
    modifies game`running, game`menuOpen, game`slowCount, snake`direction
    ensures game.running == old(game.running)
    ensures game.menuOpen == (old(game.menuOpen) || KeyEscape in keys)
    ensures game.slowCount == SlowStep(old(game.slowCount), SLOW_SPEED)
    ensures fired <==> game.slowCount == SLOW_SPEED
    ensures snake.direction == ChooseDirection(old(snake.direction), keys)
  {
    var quit := QuitPressed(game, keys);
    if quit {
      game.OpenMenu();
    }
    HandleKeys(snake, keys);
    fired := game.SlowMode(SLOW_SPEED);
  }

  /** What a play pass did, given the manager `s0`, the body `body0`, the
      obstacle positions `ps0` and the heading `d0` before it: the heading
      follows the arrows, Escape opens the menu, the counter steps, the loop
      keeps running and the selection stays; when the counter reaches
      SLOW_SPEED one tick happened, and otherwise the board and the
      statistics are untouched. */
  ghost predicate GamePassOutcome(s0: ManagerState, body0: seq<Position>, ps0: seq<Position>, d0: Direction,
                                  keys: set<Key>, game: GameManager, snake: Snake, obstacles: seq<Obstacle>,
                                  nextSnake: Snake, nextObstacles: seq<Obstacle>)
    reads game, snake, obstacles, nextSnake, nextObstacles
  {
    var count := SlowStep(s0.slowCount, SLOW_SPEED);
    && snake.direction == ChooseDirection(d0, keys)
    && game.running == s0.running && game.newGame == s0.newGame && game.menuValue == s0.menuValue
    && game.menuOpen == (s0.menuOpen || KeyEscape in keys)
    && game.slowCount == count
    && (count == SLOW_SPEED ==>
          TickOutcome(body0, ps0, snake.direction, s0.eatenApples, s0.resetCount,
                      game, snake, obstacles, nextSnake, nextObstacles))
    && (count != SLOW_SPEED ==>
          && nextSnake == snake && nextObstacles == obstacles
          && snake.positions == body0 && PositionsOf(obstacles) == ps0
          && game.snakeLength == s0.snakeLength
          && game.eatenApples == s0.eatenApples && game.resetCount == s0.resetCount)
  }

  /** A pass during play: the play keys, then one tick when `slow_mode` fires. */
  method GamePoll(game: GameManager, snake: Snake, obstacles: seq<Obstacle>, keys: set<Key>)
    returns (nextSnake: Snake, nextObstacles: seq<Obstacle>)
    requires SessionValid(game, snake, obstacles) && game.running && !game.menuOpen
    modifies game, snake, obstacles
    ensures SessionValid(game, nextSnake, nextObstacles)
    ensures GamePassOutcome(old(game.State()), old(snake.positions), old(PositionsOf(obstacles)),
                            old(snake.direction), keys, game, snake, obstacles, nextSnake, nextObstacles)
  {
    var fired := GameKeys(game, snake, keys);
    nextSnake, nextObstacles := snake, obstacles;
    if fired {
      nextSnake, nextObstacles := Tick(game, snake, obstacles);
    }
  }

  /** One pass of `main`'s loop while the game runs: a menu pass or a play pass,
      as the menu flag says. Every pass keeps `SessionValid`, and only a menu
      pass can stop the loop. */
  method Poll(game: GameManager, snake: Snake, obstacles: seq<Obstacle>, keys: set<Key>)
    returns (nextSnake: Snake, nextObstacles: seq<Obstacle>)
    requires SessionValid(game, snake, obstacles) && game.running
    modifies game, snake, obstacles
    ensures SessionValid(game, nextSnake, nextObstacles)
    ensures old(game.menuOpen) ==>
      MenuPassOutcome(old(game.State()), old(snake.positions), old(PositionsOf(obstacles)), keys,
                      game, snake, obstacles, nextSnake, nextObstacles)
    ensures !old(game.menuOpen) ==>
      GamePassOutcome(old(game.State()), old(snake.positions), old(PositionsOf(obstacles)),
                      old(snake.direction), keys, game, snake, obstacles, nextSnake, nextObstacles)
    ensures !game.running ==> old(game.menuOpen)
  {
    if game.menuOpen {
      nextSnake, nextObstacles := MenuPoll(game, snake, obstacles, keys);
    } else {
      nextSnake, nextObstacles := GamePoll(game, snake, obstacles, keys);
    }
  }
}
