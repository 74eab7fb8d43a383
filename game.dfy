/**
  The game loop's core: building and resetting the board, resolving one
  tick's collision, and the per-poll steps of the menu and of the game.
  The module-level game manager of the original is the `game` parameter;
  held keys are an abstract set.
 */
module Game {
  import opened Wrappers
  import opened Grid
  import opened Controls
  import opened SnakeBody
  import opened Obstacles
  import opened Manager

  const OBSTACLE_COUNT: nat := DEFAULT_COUNT_APPLES + DEFAULT_COUNT_BAD_APPLES + DEFAULT_COUNT_STONES

  /** Kind of the i-th obstacle: good apples, then bad apples, then stones. */
  function KindAt(i: nat): Kind {
    if i < DEFAULT_COUNT_APPLES then GoodApple
    else if i < DEFAULT_COUNT_APPLES + DEFAULT_COUNT_BAD_APPLES then BadApple
    else Stone
  }

  /** The board invariant on positions: a valid body, OBSTACLE_COUNT obstacles on
      distinct cells off the body, and the whole fits in the field. */
  predicate BoardOk(body: seq<Position>, ps: seq<Position>) {
    && ValidBody(body)
    && |ps| == OBSTACLE_COUNT
    && (forall i :: 0 <= i < |ps| ==> IsCell(ps[i]) && ps[i] !in body)
    && Distinct(ps)
    && |body| + |ps| <= FIELD_SIZE
  }

  /** The board invariant on the objects: the kinds are laid out as built. */
  ghost predicate BoardValid(snake: Snake, obstacles: seq<Obstacle>)
    reads snake, obstacles
  {
    && snake.Valid()
    && |obstacles| == OBSTACLE_COUNT
    && (forall i :: 0 <= i < |obstacles| ==> obstacles[i].kind == KindAt(i))
    && BoardOk(snake.positions, PositionsOf(obstacles))
  }

  /** The body after eating an apple of `kind` standing on `head`: a good apple
      puts its cell in front, a bad one drops the tail unless only the head is left. */
  function EatApple(body: seq<Position>, head: Position, kind: Kind): (r: seq<Position>)
    ensures kind == GoodApple ==> |r| == |body| + 1 && r[0] == head && r[1..] == body
    ensures kind != GoodApple ==>
      && |r| == (if |body| > 1 then |body| - 1 else |body|)
      && r == body[..|r|]
    ensures |body| >= 1 ==> |r| >= 1
  {
    if kind == GoodApple then [head] + body
    else if |body| > 1 then body[..|body| - 1]
    else body
  }

  /** What the prospective head meets, in the order `snake_can_move` tests it:
      the body as it is before the move, then the obstacles in list order. */
  datatype Collision = SelfBite | HitObstacle(index: nat) | NoCollision

  function Classify(newHead: Position, body: seq<Position>, ps: seq<Position>): (c: Collision)
    ensures c == SelfBite <==> newHead in body
    ensures c == NoCollision <==> newHead !in body && newHead !in ps
    ensures c.HitObstacle? ==>
      c.index < |ps| && ps[c.index] == newHead && newHead !in body && newHead !in ps[..c.index]
  {
    if newHead in body then SelfBite
    else
      match FindFirst(newHead, ps)
      case None => NoCollision
      case Some(i) => HitObstacle(i)
  }

  /** The effect of one tick on the board. */
  datatype Effect = Advance | Eat(index: nat) | FullReset

  /** A self-bite or a stone resets; an apple is eaten unless the body and the
      obstacles no longer fit in the field, which also resets; otherwise the snake moves. */
  function Resolve(newHead: Position, body: seq<Position>, ps: seq<Position>): (e: Effect)
    ensures e == Advance <==> newHead !in body && newHead !in ps
    ensures newHead in body ==> e == FullReset
    ensures e.Eat? ==>
      && e.index < |ps| && ps[e.index] == newHead && KindAt(e.index) != Stone
      && |EatApple(body, newHead, KindAt(e.index))| + |ps| <= FIELD_SIZE
  {
    match Classify(newHead, body, ps)
    case SelfBite => FullReset
    case NoCollision => Advance
    case HitObstacle(i) =>
      if KindAt(i) == Stone then FullReset
      else if |EatApple(body, newHead, KindAt(i))| + |ps| <= FIELD_SIZE then Eat(i)
      else FullReset
  }

  /** On a valid board, hitting a stone resets, and hitting an apple is always
      eaten except for a good apple on a board that is already full. */
  lemma ResolveOnBoard(newHead: Position, body: seq<Position>, ps: seq<Position>, i: nat)
    requires BoardOk(body, ps) && i < |ps| && ps[i] == newHead
    ensures KindAt(i) == Stone ==> Resolve(newHead, body, ps) == FullReset
    ensures KindAt(i) == BadApple ==> Resolve(newHead, body, ps) == Eat(i)
    ensures KindAt(i) == GoodApple ==>
      (Resolve(newHead, body, ps) == Eat(i) <==> |body| + 1 + |ps| <= FIELD_SIZE)
  {
    FindFirstUnique(newHead, ps, i);
  }

  /** An ordinary move keeps the board invariant. */
  lemma MoveKeepsBoard(body: seq<Position>, ps: seq<Position>, newHead: Position)
    requires BoardOk(body, ps) && IsCell(newHead) && newHead !in body && newHead !in ps
    ensures BoardOk([newHead] + body[..|body| - 1], ps)
  {
    var body' := [newHead] + body[..|body| - 1];
    forall i | 0 <= i < |ps|
      ensures ps[i] !in body'
    {
      assert ps[i] != newHead;
      assert ps[i] !in body[..|body| - 1];
    }
    forall i, j | 0 <= i < j < |body'|
      ensures body'[i] != body'[j]
    {
      if i > 0 {
        assert body'[i] == body[i - 1] && body'[j] == body[j - 1];
      } else {
        assert body'[j] in body;
      }
    }
  }

  /** After an apple is eaten there is room for it: a free cell exists. */
  lemma EatLeavesFreeCell(body: seq<Position>, ps: seq<Position>, i: nat)
    requires BoardOk(body, ps) && i < |ps| && KindAt(i) != Stone
    requires |EatApple(body, ps[i], KindAt(i))| + |ps| <= FIELD_SIZE
    ensures HasFreeCell(ps, EatApple(body, ps[i], KindAt(i)))
  {
    var body' := EatApple(body, ps[i], KindAt(i));
    if KindAt(i) == GoodApple {
      assert ps[i] in body';
      FreeCellWithSharedEntry(ps, body', i);
    } else {
      FreeCellByCount(ps, body');
    }
  }

  /** Eating an apple and moving it to a free cell keeps the board invariant. */
  lemma EatKeepsBoard(body: seq<Position>, ps: seq<Position>, i: nat, p: Position)
    requires BoardOk(body, ps) && i < |ps| && KindAt(i) != Stone
    requires |EatApple(body, ps[i], KindAt(i))| + |ps| <= FIELD_SIZE
    requires IsCell(p) && IsFree(p, ps, EatApple(body, ps[i], KindAt(i)))
    ensures BoardOk(EatApple(body, ps[i], KindAt(i)), ps[i := p])
  {
    var body' := EatApple(body, ps[i], KindAt(i));
    var ps' := ps[i := p];
    forall j | 0 <= j < |ps'|
      ensures IsCell(ps'[j]) && ps'[j] !in body'
    {
      if j != i {
        assert ps'[j] == ps[j] && ps[j] != ps[i];
        assert ps[j] !in body;
      }
    }
    forall j, k | 0 <= j < k < |ps'|
      ensures ps'[j] != ps'[k]
    {
      if j == i {
        assert ps'[k] == ps[k];
      } else if k == i {
        assert ps'[j] == ps[j];
      }
    }
    if KindAt(i) == GoodApple {
      forall j, k | 0 <= j < k < |body'|
        ensures body'[j] != body'[k]
      {
        if j > 0 {
          assert body'[j] == body[j - 1] && body'[k] == body[k - 1];
        } else {
          assert body'[k] in body;
        }
      }
    }
  }

  /** The kinds of `good + bad + stones` follow `KindAt`. */
  lemma KindsLaidOut(good: seq<Obstacle>, bad: seq<Obstacle>, stones: seq<Obstacle>)
    requires |good| == DEFAULT_COUNT_APPLES && |bad| == DEFAULT_COUNT_BAD_APPLES
    requires |stones| == DEFAULT_COUNT_STONES
    requires forall i :: 0 <= i < |good| ==> good[i].kind == GoodApple
    requires forall i :: 0 <= i < |bad| ==> bad[i].kind == BadApple
    requires forall i :: 0 <= i < |stones| ==> stones[i].kind == Stone
    ensures forall i :: 0 <= i < |good + bad + stones| ==> (good + bad + stones)[i].kind == KindAt(i)
  {
    var all := good + bad + stones;
    forall i | 0 <= i < |all|
      ensures all[i].kind == KindAt(i)
    {
      if i < |good| {
        assert all[i] == good[i];
      } else if i < |good| + |bad| {
        assert all[i] == bad[i - |good|];
      } else {
        assert all[i] == stones[i - |good| - |bad|];
      }
    }
  }

  /** `init_game_obgects`: a new snake at the start cell, then the obstacles
      placed around it. */
  method InitGameObjects() returns (snake: Snake, obstacles: seq<Obstacle>)
    ensures BoardValid(snake, obstacles)
    ensures snake.positions == [MIDDLE_SCREEN] && snake.direction == Right && snake.last == None
  {
    snake := new Snake();
    var snakePos := snake.positions;
    obstacles := PlaceObstacles(snakePos);
  }

  /** The placement rounds of `init_game_obgects`: 20 good apples, 20 bad
      apples and 20 stones, each placed off the snake and off every obstacle
      placed before it. */
  method PlaceObstacles(snakePos: seq<Position>) returns (obstacles: seq<Obstacle>)
    requires |snakePos| + OBSTACLE_COUNT <= FIELD_SIZE
    ensures |obstacles| == OBSTACLE_COUNT
    ensures forall i :: 0 <= i < |obstacles| ==> obstacles[i].kind == KindAt(i)
    ensures OffBody(PositionsOf(obstacles), snakePos) && Distinct(PositionsOf(obstacles))
  {
    var obstaclesPos: seq<Position> := [];
    var goodApples, badApples, stones;
    goodApples, obstaclesPos := GetObstacles(GoodApple, DEFAULT_COUNT_APPLES, obstaclesPos, snakePos);
    ghost var afterGood := obstaclesPos;
    badApples, obstaclesPos := GetObstacles(BadApple, DEFAULT_COUNT_BAD_APPLES, obstaclesPos, snakePos);
    ghost var afterBad := obstaclesPos;
    stones, obstaclesPos := GetObstacles(Stone, DEFAULT_COUNT_STONES, obstaclesPos, snakePos);
    PlacedOffBodyAndDistinct(afterGood, afterBad, obstaclesPos, snakePos);
    assert PositionsOf(goodApples) == afterGood && PositionsOf(badApples) == afterBad[20..];
    obstacles := goodApples + badApples + stones;
    PositionsOfConcat(goodApples, badApples, stones);
    assert PositionsOf(obstacles) == obstaclesPos;
    KindsLaidOut(goodApples, badApples, stones);
  }

  /** The three placement rounds of `init_game_obgects` leave every position
      off the snake and all positions distinct. */
  lemma PlacedOffBodyAndDistinct(afterGood: seq<Position>, afterBad: seq<Position>, all: seq<Position>, body: seq<Position>)
    requires FreshlyPlaced([], afterGood[0..], body)
    requires |afterGood| <= |afterBad| && afterBad[..|afterGood|] == afterGood
    requires FreshlyPlaced(afterGood, afterBad[|afterGood|..], body)
    requires |afterBad| <= |all| && all[..|afterBad|] == afterBad
    requires FreshlyPlaced(afterBad, all[|afterBad|..], body)
    ensures OffBody(all, body) && Distinct(all)
  {
    assert afterGood[0..] == afterGood;
    FreshlyPlacedDistinct([], afterGood, body);
    FreshlyPlacedOffBody([], afterGood, body);
    assert [] + afterGood == afterGood;
    FreshlyPlacedDistinct(afterGood, afterBad[|afterGood|..], body);
    FreshlyPlacedOffBody(afterGood, afterBad[|afterGood|..], body);
    assert afterGood + afterBad[|afterGood|..] == afterBad;
    FreshlyPlacedDistinct(afterBad, all[|afterBad|..], body);
    FreshlyPlacedOffBody(afterBad, all[|afterBad|..], body);
    assert afterBad + all[|afterBad|..] == all;
  }

  /** `reset_game`: a new board; a new game zeroes the statistics, an in-game
      reset sets the length to 1 and counts one more reset. */
  method ResetGame(game: GameManager, newGame: bool) returns (snake: Snake, obstacles: seq<Obstacle>)
    requires game.Valid()
    modifies game`snakeLength, game`eatenApples, game`resetCount
    ensures game.Valid()
    ensures newGame ==> game.snakeLength == 1 && game.eatenApples == 0 && game.resetCount == 0
    ensures !newGame ==>
      && game.snakeLength == 1
      && game.eatenApples == old(game.eatenApples)
      && game.resetCount == old(game.resetCount) + 1
    ensures BoardValid(snake, obstacles)
    ensures snake.positions == [MIDDLE_SCREEN] && snake.length == 1 && snake.direction == Right
  {
    if newGame {
      game.ResetInfo();
    } else {
      game.UpdateSnakeLength(1);
      game.UpdateCountOfResets();
    }
    snake, obstacles := InitGameObjects();
  }

  /** Moves the i-th obstacle off `body` and off every obstacle position,
      as `randomize_position` is called on an eaten apple. */
  method Respawn(i: nat, apple: Obstacle, obstacles: seq<Obstacle>, body: seq<Position>)
    requires i < |obstacles| && apple == obstacles[i]
    requires Distinct(PositionsOf(obstacles)) && HasFreeCell(PositionsOf(obstacles), body)
    modifies apple`position
    ensures PositionsOf(obstacles) == old(PositionsOf(obstacles))[i := apple.position]
    ensures IsCell(apple.position) && IsFree(apple.position, old(PositionsOf(obstacles)), body)
  {
    var obstaclesPos := PositionsOf(obstacles);
    DistinctObjects(obstacles, i, obstaclesPos);
    apple.RandomizePosition(obstaclesPos, body);
    RespawnPositions(obstacles, i, obstaclesPos);
  }

  /** Only the i-th position has changed. */
  lemma RespawnPositions(obstacles: seq<Obstacle>, i: nat, ps0: seq<Position>)
    requires i < |obstacles| == |ps0|
    requires forall j :: 0 <= j < |obstacles| && j != i ==> obstacles[j].position == ps0[j]
    ensures PositionsOf(obstacles) == ps0[i := obstacles[i].position]
  {
  }

  /** Obstacles on distinct cells are distinct objects. */
  lemma DistinctObjects(obstacles: seq<Obstacle>, i: nat, ps: seq<Position>)
    requires i < |obstacles| == |ps| && Distinct(ps)
    requires forall j :: 0 <= j < |ps| ==> ps[j] == obstacles[j].position
    ensures forall j :: 0 <= j < |obstacles| && j != i ==> obstacles[j] != obstacles[i]
  {
    forall j | 0 <= j < |obstacles| && j != i
      ensures obstacles[j] != obstacles[i]
    {
      if j < i {
        assert ps[j] != ps[i];
      } else {
        assert ps[i] != ps[j];
      }
    }
  }

  /** The apple branch of `snake_can_move` up to the respawn: the body grows
      by the apple's cell or loses its tail, and the length statistic and the
      eaten count follow. */
  method EatAppleAt(i: nat, apple: Obstacle, snake: Snake, obstacles: seq<Obstacle>, game: GameManager)
    requires BoardValid(snake, obstacles) && game.Valid()
    requires i < |obstacles| && apple == obstacles[i] && KindAt(i) != Stone
    modifies snake`positions, snake`length, game`snakeLength, game`eatenApples
    ensures game.Valid() && game.reset == old(game.reset)
    ensures var body := EatApple(old(snake.positions), apple.position, KindAt(i));
      && snake.positions == body && snake.length == |body|
      && game.snakeLength == |body| && game.eatenApples == old(game.eatenApples) + 1
  {
    if apple.kind == GoodApple {
      snake.positions := [apple.position] + snake.positions;
    } else if snake.length > 1 {
      snake.positions := snake.positions[..|snake.positions| - 1];
    }
    snake.length := |snake.positions|;
    game.UpdateSnakeLength(snake.length);
    game.UpdateEatenApples();
  }

  /** After an apple is eaten: if the body and the obstacles still fit in the
      field, the apple moves to a free cell and the board stays valid;
      otherwise the reset flag is set. */
  method RespawnOrReset(i: nat, apple: Obstacle, snake: Snake, obstacles: seq<Obstacle>, game: GameManager,
                        ghost body0: seq<Position>, ghost ps0: seq<Position>)
    requires BoardOk(body0, ps0) && i < |obstacles| && apple == obstacles[i] && KindAt(i) != Stone
    requires PositionsOf(obstacles) == ps0 && |obstacles| == OBSTACLE_COUNT
    requires forall j :: 0 <= j < |obstacles| ==> obstacles[j].kind == KindAt(j)
    requires snake.positions == EatApple(body0, ps0[i], KindAt(i)) && snake.length == |snake.positions|
    modifies apple`position, game`reset
    ensures snake.length + |obstacles| <= FIELD_SIZE ==>
      && game.reset == old(game.reset)
      && PositionsOf(obstacles) == ps0[i := apple.position]
      && IsCell(apple.position) && IsFree(apple.position, ps0, snake.positions)
      && BoardValid(snake, obstacles)
    ensures snake.length + |obstacles| > FIELD_SIZE ==>
      game.reset && PositionsOf(obstacles) == ps0
  {
    if snake.length + |obstacles| <= FIELD_SIZE {
      EatLeavesFreeCell(body0, ps0, i);
      Respawn(i, apple, obstacles, snake.positions);
      EatKeepsBoard(body0, ps0, i, apple.position);
    } else {
      game.reset := true;
    }
  }

  /** The body of the obstacle loop of `snake_can_move` once the new head
      lands on the i-th obstacle: a stone sets the reset flag, an apple is
      eaten and then respawned or, on a full board, the reset flag is set. */
  method BiteObstacle(i: nat, obstacle: Obstacle, snake: Snake, obstacles: seq<Obstacle>, game: GameManager)
    requires BoardValid(snake, obstacles) && game.Valid()
    requires i < |obstacles| && obstacle == obstacles[i]
    modifies snake`positions, snake`length, obstacle`position, game`reset, game`snakeLength, game`eatenApples
    ensures game.Valid()
    ensures KindAt(i) == Stone ==>
      && snake.positions == old(snake.positions) && snake.length == old(snake.length)
      && PositionsOf(obstacles) == old(PositionsOf(obstacles))
      && game.snakeLength == old(game.snakeLength) && game.eatenApples == old(game.eatenApples)
      && game.reset
    ensures KindAt(i) != Stone ==>
      var body := EatApple(old(snake.positions), old(obstacle.position), KindAt(i));
      && snake.positions == body && snake.length == |body|
      && game.snakeLength == |body| && game.eatenApples == old(game.eatenApples) + 1
      && (|body| + |obstacles| <= FIELD_SIZE ==>
            && game.reset == old(game.reset)
            && PositionsOf(obstacles) == old(PositionsOf(obstacles))[i := obstacle.position]
            && IsCell(obstacle.position)
            && IsFree(obstacle.position, old(PositionsOf(obstacles)), body)
            && BoardValid(snake, obstacles))
      && (|body| + |obstacles| > FIELD_SIZE ==>
            game.reset && PositionsOf(obstacles) == old(PositionsOf(obstacles)))
  {
    ghost var body0, ps0 := snake.positions, PositionsOf(obstacles);
    if obstacle.kind != Stone {
      EatAppleAt(i, obstacle, snake, obstacles, game);
      RespawnOrReset(i, obstacle, snake, obstacles, game, body0, ps0);
    } else {
      game.reset := true;
    }
  }

  /** `snake_can_move`: classify `newHead` in the order the source tests it.
      A self-bite (tail cell included) or a stone sets the reset flag and
      changes nothing else. An apple is eaten, then moved to a free cell when
      the body and the obstacles still fit in the field; otherwise the reset
      flag is set. Returns True only when nothing was hit. */
  method SnakeCanMove(newHead: Position, snake: Snake, obstacles: seq<Obstacle>, game: GameManager)
    returns (canMove: bool)
    requires BoardValid(snake, obstacles) && game.Valid()
    modifies snake`positions, snake`length, obstacles, game`reset, game`snakeLength, game`eatenApples
    ensures game.Valid()
    ensures var c := Classify(newHead, old(snake.positions), old(PositionsOf(obstacles)));
      canMove <==> c == NoCollision
    ensures var c := Classify(newHead, old(snake.positions), old(PositionsOf(obstacles)));
      c == NoCollision || c == SelfBite || (c.HitObstacle? && KindAt(c.index) == Stone) ==>
        && snake.positions == old(snake.positions) && snake.length == old(snake.length)
        && PositionsOf(obstacles) == old(PositionsOf(obstacles))
        && game.snakeLength == old(game.snakeLength) && game.eatenApples == old(game.eatenApples)
        && game.reset == (old(game.reset) || c != NoCollision)
    ensures var c := Classify(newHead, old(snake.positions), old(PositionsOf(obstacles)));
      c.HitObstacle? && KindAt(c.index) != Stone ==>
        var body := EatApple(old(snake.positions), newHead, KindAt(c.index));
        && snake.positions == body && snake.length == |body|
        && game.snakeLength == |body| && game.eatenApples == old(game.eatenApples) + 1
        && (|body| + |obstacles| <= FIELD_SIZE ==>
              && game.reset == old(game.reset)
              && PositionsOf(obstacles) == old(PositionsOf(obstacles))[c.index := obstacles[c.index].position]
              && IsCell(obstacles[c.index].position)
              && IsFree(obstacles[c.index].position, old(PositionsOf(obstacles)), body))
        && (|body| + |obstacles| > FIELD_SIZE ==>
              game.reset && PositionsOf(obstacles) == old(PositionsOf(obstacles)))
    ensures !game.reset ==> BoardValid(snake, obstacles)
    ensures old(game.snakeLength) == old(snake.length) ==> game.snakeLength == snake.length
  {
    ghost var ps0 := PositionsOf(obstacles);
    if snake.CanBiteItself(newHead) {
      game.reset := true;
      return false;
    }
    var i := 0;
    while i < |obstacles|
      invariant 0 <= i <= |obstacles|
      invariant forall j :: 0 <= j < i ==> ps0[j] != newHead
    {
      var obstacle := obstacles[i];
      if snake.TryBite(newHead, obstacle) {
        FindFirstUnique(newHead, ps0, i);
        BiteObstacle(i, obstacle, snake, obstacles, game);
        return false;
      }
      i := i + 1;
    }
    assert FindFirst(newHead, ps0) == None;
    return true;
  }

  /** Whether the collision is with an apple, which counts as eaten. */
  predicate HitsApple(c: Collision) {
    c.HitObstacle? && KindAt(c.index) != Stone
  }

  /** What one tick did, given the body `body0`, the obstacle positions `ps0`
      and the counters `eaten0`, `resets0` before it and the heading `d`:
      judged by the reference `Resolve`, the snake advanced (its old tail
      becoming `last`), ate and respawned one apple, or the board was rebuilt;
      the eaten count rose on an apple and the reset count on a full reset. */
  ghost predicate TickOutcome(body0: seq<Position>, ps0: seq<Position>, d: Direction, eaten0: int, resets0: int,
                              game: GameManager, snake: Snake, obstacles: seq<Obstacle>,
                              nextSnake: Snake, nextObstacles: seq<Obstacle>)
    reads game, snake, obstacles, nextSnake, nextObstacles
  {
    && |body0| >= 1
    && var newHead := NextHead(body0[0], d);
      var c := Classify(newHead, body0, ps0);
      var e := Resolve(newHead, body0, ps0);
      && game.eatenApples == eaten0 + (if HitsApple(c) then 1 else 0)
      && game.resetCount == resets0 + (if e == FullReset then 1 else 0)
      && (e == Advance ==>
            && nextSnake == snake && nextObstacles == obstacles
            && snake.positions == [newHead] + body0[..|body0| - 1]
            && snake.last == Some(body0[|body0| - 1])
            && PositionsOf(obstacles) == ps0)
      && (e.Eat? ==>
            && nextSnake == snake && nextObstacles == obstacles
            && e.index < |obstacles|
            && snake.positions == EatApple(body0, newHead, KindAt(e.index))
            && PositionsOf(obstacles) == ps0[e.index := obstacles[e.index].position]
            && IsFree(obstacles[e.index].position, ps0, snake.positions))
      && (e == FullReset ==>
            nextSnake.positions == [MIDDLE_SCREEN] && nextSnake.direction == Right)
  }

  /** One tick of `main`: compute the wrapped next head, resolve it with
      `snake_can_move`, then either move the snake or, if the reset flag is
      set, rebuild the board with `reset_game()` and clear the flag. The
      result is the snake and the obstacles the game continues with. */
  method Tick(game: GameManager, snake: Snake, obstacles: seq<Obstacle>)
    returns (nextSnake: Snake, nextObstacles: seq<Obstacle>)
    requires BoardValid(snake, obstacles) && game.Valid()
    requires !game.reset && game.snakeLength == snake.length
    modifies snake`positions, snake`length, snake`last, obstacles
    modifies game`reset, game`snakeLength, game`eatenApples, game`resetCount
    ensures BoardValid(nextSnake, nextObstacles) && game.Valid()
    ensures !game.reset && game.snakeLength == nextSnake.length
    ensures TickOutcome(old(snake.positions), old(PositionsOf(obstacles)), snake.direction,
                        old(game.eatenApples), old(game.resetCount), game, snake, obstacles, nextSnake, nextObstacles)
  {
    ghost var body0, ps0 := snake.positions, PositionsOf(obstacles);
    var head := snake.HeadPosition();
    var newHead := NextHead(head, snake.direction);
    NextHeadIsCell(head, snake.direction);
    var canMove := SnakeCanMove(newHead, snake, obstacles, game);
    nextSnake, nextObstacles := snake, obstacles;
    if canMove {
      MoveKeepsBoard(body0, ps0, newHead);
      snake.Move(newHead);
    } else if game.reset {
      nextSnake, nextObstacles := ResetGame(game, false);
      game.reset := false;
    }
  }
}
