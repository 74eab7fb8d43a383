/**
  Apples and stones. Every obstacle is an object whose position the game
  changes in place; the kind never changes. New positions come from
  `randomize_position`, which redraws a random cell until it is in neither
  of two forbidden lists.
 */
module Obstacles {
  import opened Wrappers
  import opened Grid

  const DEFAULT_COUNT_APPLES: nat := 20
  const DEFAULT_COUNT_BAD_APPLES: nat := 20
  const DEFAULT_COUNT_STONES: nat := 20

  /** `Apple` with `is_good_apple` true or false, and `Stone`. */
  datatype Kind = GoodApple | BadApple | Stone

  /** Neither a snake segment nor an already placed obstacle. */
  predicate IsFree(p: Position, obstaclesPos: seq<Position>, snakePos: seq<Position>) {
    p !in obstaclesPos && p !in snakePos
  }

  /** Some cell of the field is free, so the redraw loop can stop. */
  ghost predicate HasFreeCell(obstaclesPos: seq<Position>, snakePos: seq<Position>) {
    exists k :: 0 <= k < FIELD_SIZE && IsFree(CellAt(k), obstaclesPos, snakePos)
  }

  /** Fewer forbidden entries than cells leave a cell free. */
  lemma FreeCellByCount(obstaclesPos: seq<Position>, snakePos: seq<Position>)
    requires |obstaclesPos| + |snakePos| < FIELD_SIZE
    ensures HasFreeCell(obstaclesPos, snakePos)
  {
    FreeCellExists(obstaclesPos + snakePos);
    var k :| 0 <= k < FIELD_SIZE && CellAt(k) !in obstaclesPos + snakePos;
    assert IsFree(CellAt(k), obstaclesPos, snakePos);
  }

  /** The same holds with exactly FIELD_SIZE entries when one position sits in
      both lists: after a good apple is eaten, its cell is both the new head and
      still the apple's own entry. */
  lemma FreeCellWithSharedEntry(obstaclesPos: seq<Position>, snakePos: seq<Position>, i: nat)
    requires i < |obstaclesPos| && obstaclesPos[i] in snakePos
    requires |obstaclesPos| + |snakePos| <= FIELD_SIZE
    ensures HasFreeCell(obstaclesPos, snakePos)
  {
    var others := obstaclesPos[..i] + obstaclesPos[i + 1..];
    FreeCellByCount(others, snakePos);
    var k :| 0 <= k < FIELD_SIZE && IsFree(CellAt(k), others, snakePos);
    assert obstaclesPos == obstaclesPos[..i] + [obstaclesPos[i]] + obstaclesPos[i + 1..];
    assert IsFree(CellAt(k), obstaclesPos, snakePos);
  }

  class Obstacle {
    const kind: Kind
    var position: Position

    /** `Apple(...)` or `Stone(...)`: start at the middle of the screen, then
        move to a free cell unless the middle is already free. */
    constructor (kind: Kind, obstaclesPos: seq<Position>, snakePos: seq<Position>)
      requires HasFreeCell(obstaclesPos, snakePos)
      ensures this.kind == kind
      ensures IsCell(position) && IsFree(position, obstaclesPos, snakePos)
      ensures IsFree(MIDDLE_SCREEN, obstaclesPos, snakePos) ==> position == MIDDLE_SCREEN
    {
      this.kind := kind;
      position := MIDDLE_SCREEN;
      new;
      RandomizePosition(obstaclesPos, snakePos);
    }

    /** The redraw loop: while the position is forbidden, draw a random cell. Only
        its outcome is modelled: a position that is kept when already free, and
        otherwise any free cell. */
    method RandomizePosition(obstaclesPos: seq<Position>, snakePos: seq<Position>)
      requires HasFreeCell(obstaclesPos, snakePos)
      modifies this`position
      ensures IsFree(position, obstaclesPos, snakePos)
      ensures IsFree(old(position), obstaclesPos, snakePos) ==> position == old(position)
      ensures !IsFree(old(position), obstaclesPos, snakePos) ==> IsCell(position)
    {
      if !IsFree(position, obstaclesPos, snakePos) {
        var k :| 0 <= k < FIELD_SIZE && IsFree(CellAt(k), obstaclesPos, snakePos);
        position := CellAt(k);
      }
    }
  }

  /** `get_obstacles_position`: the positions of the obstacles, in list order. */
  function PositionsOf(obstacles: seq<Obstacle>): (ps: seq<Position>)
    reads obstacles
    ensures |ps| == |obstacles|
    ensures forall i :: 0 <= i < |obstacles| ==> ps[i] == obstacles[i].position
  {
    seq(|obstacles|, i requires 0 <= i < |obstacles| reads obstacles => obstacles[i].position)
  }

  lemma PositionsOfAppend(a: seq<Obstacle>, b: seq<Obstacle>)
    ensures PositionsOf(a + b) == PositionsOf(a) + PositionsOf(b)
  {
    assert forall i :: 0 <= i < |a + b| ==> PositionsOf(a + b)[i] == (PositionsOf(a) + PositionsOf(b))[i];
  }

  lemma PositionsOfConcat(a: seq<Obstacle>, b: seq<Obstacle>, c: seq<Obstacle>)
    ensures PositionsOf(a + b + c) == PositionsOf(a) + PositionsOf(b) + PositionsOf(c)
  {
    PositionsOfAppend(a, b);
    PositionsOfAppend(a + b, c);
  }

  /** `drawn` was placed one position at a time after `prior`: each position
      is a cell that is neither a snake segment nor any position placed before it. */
  predicate FreshlyPlaced(prior: seq<Position>, drawn: seq<Position>, snakePos: seq<Position>)
    decreases |drawn|
  {
    drawn == [] ||
      var n := |drawn| - 1;
      && FreshlyPlaced(prior, drawn[..n], snakePos)
      && IsCell(drawn[n]) && IsFree(drawn[n], prior + drawn[..n], snakePos)
  }

  /** Placing after distinct positions keeps them distinct. */
  lemma {:induction false} FreshlyPlacedDistinct(prior: seq<Position>, drawn: seq<Position>, snakePos: seq<Position>)
    requires FreshlyPlaced(prior, drawn, snakePos) && Distinct(prior)
    ensures Distinct(prior + drawn)
    decreases |drawn|
  {
    if drawn != [] {
      var n := |drawn| - 1;
      FreshlyPlacedDistinct(prior, drawn[..n], snakePos);
      DistinctAppend(prior + drawn[..n], drawn[n]);
      assert prior + drawn == (prior + drawn[..n]) + [drawn[n]];
    }
  }

  /** Every position of `ps` is a cell off `body`. */
  predicate OffBody(ps: seq<Position>, body: seq<Position>) {
    forall k :: 0 <= k < |ps| ==> IsCell(ps[k]) && ps[k] !in body
  }

  /** Placing off the snake after positions off the snake keeps them all off it. */
  lemma {:induction false} FreshlyPlacedOffBody(prior: seq<Position>, drawn: seq<Position>, snakePos: seq<Position>)
    requires FreshlyPlaced(prior, drawn, snakePos) && OffBody(prior, snakePos)
    ensures OffBody(prior + drawn, snakePos)
    decreases |drawn|
  {
    if drawn != [] {
      var n := |drawn| - 1;
      FreshlyPlacedOffBody(prior, drawn[..n], snakePos);
      assert prior + drawn == (prior + drawn[..n]) + [drawn[n]];
    }
  }

  /** `get_good_apples`, `get_bad_apples` and `get_stones`: create `count`
      obstacles of one kind, each placed off the snake and off every position
      placed before it, and return them with the extended position list. */
  method GetObstacles(kind: Kind, count: nat, obstaclesPos: seq<Position>, snakePos: seq<Position>)
    returns (objs: seq<Obstacle>, posOut: seq<Position>)
    requires |obstaclesPos| + count + |snakePos| <= FIELD_SIZE
    ensures |objs| == count
    ensures forall i :: 0 <= i < count ==> objs[i].kind == kind
    ensures posOut == obstaclesPos + PositionsOf(objs)
    ensures FreshlyPlaced(obstaclesPos, posOut[|obstaclesPos|..], snakePos)
  {
    objs, posOut := [], obstaclesPos;
    ghost var drawn: seq<Position> := [];
    while |objs| < count
      invariant |objs| <= count
      invariant forall i :: 0 <= i < |objs| ==> objs[i].kind == kind
      invariant drawn == PositionsOf(objs) && posOut == obstaclesPos + drawn
      invariant FreshlyPlaced(obstaclesPos, drawn, snakePos)
    {
      FreeCellByCount(posOut, snakePos);
      var obj := new Obstacle(kind, posOut, snakePos);
      ghost var prev := objs;
      objs := objs + [obj];
      posOut := posOut + [obj.position];
      PositionsOfAppend(prev, [obj]);
      assert (drawn + [obj.position])[..|drawn|] == drawn;
      drawn := drawn + [obj.position];
    }
    assert posOut[|obstaclesPos|..] == drawn;
  }

  /** Index of the first position equal to `target`: the scan of
      `snake_can_move` over the obstacle list. */
  function FindFirst(target: Position, ps: seq<Position>): (r: Option<nat>)
    ensures r.None? <==> target !in ps
    ensures r.Some? ==> r.value < |ps| && ps[r.value] == target && target !in ps[..r.value]
  {
    if ps == [] then None
    else if ps[0] == target then Some(0)
    else
      match FindFirst(target, ps[1..])
      case None => None
      case Some(i) =>
        assert ps[..i + 1] == [ps[0]] + ps[1..][..i];
        Some(i + 1)
  }

  /** In a list without repeats, the first match is the only match. */
  lemma FindFirstUnique(target: Position, ps: seq<Position>, i: nat)
    requires Distinct(ps) && i < |ps| && ps[i] == target
    ensures FindFirst(target, ps) == Some(i)
  {
  }
}
