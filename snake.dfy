/**
  The snake: an ordered list of segment positions with the head first, its
  heading, and the cell its tail left on the last move (`last`, kept for
  the drawing code). `length` is stored beside the list, as in the game,
  and the class invariant ties it to the list.
 */
module SnakeBody {
  import opened Wrappers
  import opened Grid
  import opened Obstacles

  /** A well-formed body: at least one segment, all on cells, none shared. */
  predicate ValidBody(body: seq<Position>) {
    && |body| >= 1
    && (forall i :: 0 <= i < |body| ==> IsCell(body[i]))
    && Distinct(body)
  }

  class Snake {
    var positions: seq<Position>
    var length: int
    var last: Option<Position>
    var direction: Direction

    ghost predicate Valid()
      reads this
    {
      length == |positions| && ValidBody(positions)
    }

    /** A new snake: one segment at the middle of the screen, heading RIGHT.
        The heading drawn at random by `Reset` is overwritten here. */
    constructor ()
      ensures Valid()
      ensures positions == [MIDDLE_SCREEN] && length == 1 && last == None
      ensures direction == Right
    {
      new;
      Reset();
      direction := Right;
    }

    /** Back to one segment at the start cell, with a heading chosen among the four. */
    method Reset()
      modifies this
      ensures Valid()
      ensures positions == [MIDDLE_SCREEN] && length == 1 && last == None
    {
      positions := [MIDDLE_SCREEN];
      length := 1;
      last := None;
      var d :| d in [Right, Left, Up, Down];
      direction := d;
    }

    /** Sets the heading; nothing else of the snake changes. */
    method UpdateDirection(d: Direction)
      modifies this`direction
      ensures direction == d
    {
      direction := d;
    }

    /** The head is the first segment; in a valid body it occurs nowhere else. */
    function HeadPosition(): (head: Position)
      reads this
      requires Valid()
      ensures head in positions && head !in positions[1..]
    {
      positions[0]
    }

    /** Whether `newHead` hits the body as it is before the move: the tail cell,
        which the move would vacate, counts as a hit. */
    function CanBiteItself(newHead: Position): (bites: bool)
      reads this
      ensures bites <==> exists i :: 0 <= i < |positions| && positions[i] == newHead
      ensures |positions| > 0 && newHead == positions[|positions| - 1] ==> bites
    {
      newHead in positions
    }

    /** Whether `newHead` lands on the obstacle `obj`. */
    function TryBite(newHead: Position, obj: Obstacle): bool
      reads obj
    {
      obj.position == newHead
    }

    /** One step: `newHead` is inserted in front and the last element is popped
        into `last`; the segment count does not change. */
    method Move(newHead: Position)
      modifies this`positions, this`last
      ensures |positions| == |old(positions)|
      ensures old(positions) != [] ==>
        && positions == [newHead] + old(positions)[..|old(positions)| - 1]
        && last == Some(old(positions)[|old(positions)| - 1])
      ensures old(positions) == [] ==> positions == [] && last == Some(newHead)
      ensures old(Valid()) && IsCell(newHead) && newHead !in old(positions) ==> Valid()
    {
      positions := [newHead] + positions;
      last := Some(positions[|positions| - 1]);
      positions := positions[..|positions| - 1];
    }
  }

  /** `TryBite` on the i-th obstacle answers whether the i-th entry of the
      obstacle position list is the new head: scanning the obstacles with
      `TryBite` is scanning `PositionsOf(obstacles)` for the head. */
  lemma TryBiteMatchesPositions(snake: Snake, newHead: Position, obstacles: seq<Obstacle>, i: nat)
    requires i < |obstacles|
    ensures snake.TryBite(newHead, obstacles[i]) <==> PositionsOf(obstacles)[i] == newHead
  {
  }

  /** A one-segment snake can never bite itself: its only cell is the one it leaves. */
  lemma SingleSegmentNeverBites(head: Position, d: Direction)
    requires IsCell(head)
    ensures NextHead(head, d) !in [head]
  {
    NextHeadMoves(head, d);
  }
}
