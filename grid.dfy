/**
  The playing field: a 640x480 pixel screen cut into 20-pixel cells, so a
  32x24 torus of 768 cells. Positions are pixel pairs, as in the game; a
  position is a cell when both coordinates are on-screen multiples of 20.
 */
module Grid {

  const SCREEN_WIDTH: int := 640
  const SCREEN_HEIGHT: int := 480
  const GRID_SIZE: int := 20
  const GRID_WIDTH: int := SCREEN_WIDTH / GRID_SIZE
  const GRID_HEIGHT: int := SCREEN_HEIGHT / GRID_SIZE
  const FIELD_SIZE: int := GRID_WIDTH * GRID_HEIGHT

  datatype Position = Position(x: int, y: int)

  /** Start cell of every snake, and first position of every new object. */
  const MIDDLE_SCREEN: Position := Position(SCREEN_WIDTH / 2, SCREEN_HEIGHT / 2)

  /** The four headings; UP is (0, -1) because screen y grows downwards. */
  datatype Direction = Up | Down | Left | Right {
    function Dx(): int {
      match this
      case Left => -1
      case Right => 1
      case _ => 0
    }

    function Dy(): int {
      match this
      case Up => -1
      case Down => 1
      case _ => 0
    }

    function Opposite(): (d: Direction)
      ensures d.Dx() == -Dx() && d.Dy() == -Dy()
      ensures d != this
    {
      match this
      case Up => Down
      case Down => Up
      case Left => Right
      case Right => Left
    }
  }

  predicate IsCell(p: Position) {
    && 0 <= p.x < SCREEN_WIDTH && 0 <= p.y < SCREEN_HEIGHT
    && p.x % GRID_SIZE == 0 && p.y % GRID_SIZE == 0
  }

  /** One step of `extent`-periodic wrap-around for a value at most one cell off-screen.
      Dafny's `%` is Euclidean, which agrees with Python's `%` for a positive modulus. */
  lemma WrapStep(v: int, extent: int)
    requires extent == SCREEN_WIDTH || extent == SCREEN_HEIGHT
    requires -GRID_SIZE <= v < extent + GRID_SIZE
    ensures v % extent == if v < 0 then v + extent else if v >= extent then v - extent else v
  {
  }

  /** The prospective head: one cell from `head` in direction `d`, each axis wrapped
      independently with Python's `%`. */
  function NextHead(head: Position, d: Direction): (next: Position)
    ensures 0 <= next.x < SCREEN_WIDTH && 0 <= next.y < SCREEN_HEIGHT
  {
    Position((head.x + d.Dx() * GRID_SIZE) % SCREEN_WIDTH, (head.y + d.Dy() * GRID_SIZE) % SCREEN_HEIGHT)
  }

  /** From a cell, the next head is again a cell: on screen and on multiples of 20. */
  lemma NextHeadIsCell(head: Position, d: Direction)
    requires IsCell(head)
    ensures IsCell(NextHead(head, d))
  {
    WrapStep(head.x + d.Dx() * GRID_SIZE, SCREEN_WIDTH);
    WrapStep(head.y + d.Dy() * GRID_SIZE, SCREEN_HEIGHT);
  }

  /** Moving right from the last column re-enters the first one. */
  lemma WrapRightEdge()
    ensures NextHead(Position(620, 240), Right) == Position(0, 240)
  {
  }

  /** Moving up from the top row re-enters the bottom one. */
  lemma WrapTopEdge()
    ensures NextHead(Position(320, 0), Up) == Position(320, 460)
  {
  }

  /** A step never leaves the snake's head where it was: 20 is not a
      multiple of 640 or 480. */
  lemma NextHeadMoves(head: Position, d: Direction)
    requires IsCell(head)
    ensures NextHead(head, d) != head
  {
    WrapStep(head.x + d.Dx() * GRID_SIZE, SCREEN_WIDTH);
    WrapStep(head.y + d.Dy() * GRID_SIZE, SCREEN_HEIGHT);
  }

  /** A step followed by a step in the opposite direction returns to the start cell. */
  lemma {:induction false} NextHeadRoundTrip(head: Position, d: Direction)
    requires IsCell(head)
    ensures NextHead(NextHead(head, d), d.Opposite()) == head
  {
    var next := NextHead(head, d);
    WrapStep(head.x + d.Dx() * GRID_SIZE, SCREEN_WIDTH);
    WrapStep(head.y + d.Dy() * GRID_SIZE, SCREEN_HEIGHT);
    WrapStep(next.x + d.Opposite().Dx() * GRID_SIZE, SCREEN_WIDTH);
    WrapStep(next.y + d.Opposite().Dy() * GRID_SIZE, SCREEN_HEIGHT);
  }

  /** The k-th cell in row-major order: the draw
      `(randint(0, GRID_WIDTH - 1) * GRID_SIZE, randint(0, GRID_HEIGHT - 1) * GRID_SIZE)`
      picks exactly the cells CellAt(k) for 0 <= k < FIELD_SIZE. */
  function CellAt(k: int): (p: Position)
    requires 0 <= k < FIELD_SIZE
    ensures IsCell(p)
  {
    Position((k % GRID_WIDTH) * GRID_SIZE, (k / GRID_WIDTH) * GRID_SIZE)
  }

  /** Row-major number of the cell holding pixel position `p`. */
  function CellIndex(p: Position): int {
    p.x / GRID_SIZE + GRID_WIDTH * (p.y / GRID_SIZE)
  }

  lemma CellIndexOfCellAt(k: int)
    requires 0 <= k < FIELD_SIZE
    ensures CellIndex(CellAt(k)) == k
  {
    var col, row := k % GRID_WIDTH, k / GRID_WIDTH;
    assert (col * GRID_SIZE) / GRID_SIZE == col;
    assert (row * GRID_SIZE) / GRID_SIZE == row;
  }

  /** Every cell is drawn by exactly one k: CellAt is onto the cells. */
  lemma CellAtOfCellIndex(p: Position)
    requires IsCell(p)
    ensures 0 <= CellIndex(p) < FIELD_SIZE && CellAt(CellIndex(p)) == p
  {
    assert GRID_WIDTH == 32 && GRID_SIZE == 20;
    var col, row := p.x / 20, p.y / 20;
    assert p.x == 20 * col && p.y == 20 * row;
    assert 0 <= col < 32 && 0 <= row < 24;
    var k := col + 32 * row;
    assert CellIndex(p) == k;
    assert k / 32 == row by {
      assert 32 * row <= k < 32 * row + 32;
    }
    assert k % 32 == col;
  }

  /** The elements of `s` that are below `n`, in order. */
  function Below(s: seq<int>, n: int): (r: seq<int>)
    ensures |r| <= |s|
    ensures forall k :: k in r <==> k in s && k < n
    ensures (exists i :: 0 <= i < |s| && s[i] >= n) ==> |r| < |s|
  {
    if s == [] then []
    else
      var rest := Below(s[1..], n);
      assert forall i :: 1 <= i < |s| ==> s[i] == s[1..][i - 1];
      if s[0] < n then [s[0]] + rest else rest
  }

  /** Pigeonhole: fewer than `n` numbers cannot cover all of 0 .. n-1. */
  lemma {:induction false} MissingIndex(s: seq<int>, n: nat)
    requires |s| < n
    decreases n
    ensures exists k :: 0 <= k < n && k !in s
  {
    if n - 1 !in s {
      assert 0 <= n - 1 < n;
    } else {
      var t := Below(s, n - 1);
      MissingIndex(t, n - 1);
      var k :| 0 <= k < n - 1 && k !in t;
      assert k !in s;
    }
  }

  /** Fewer than FIELD_SIZE forbidden positions always leave a cell free. */
  lemma FreeCellExists(forbidden: seq<Position>)
    requires |forbidden| < FIELD_SIZE
    ensures exists k :: 0 <= k < FIELD_SIZE && CellAt(k) !in forbidden
  {
    var indices := seq(|forbidden|, i requires 0 <= i < |forbidden| => CellIndex(forbidden[i]));
    MissingIndex(indices, FIELD_SIZE);
    var k :| 0 <= k < FIELD_SIZE && k !in indices;
    CellIndexOfCellAt(k);
    forall j | 0 <= j < |forbidden|
      ensures forbidden[j] != CellAt(k)
    {
      assert indices[j] != k;
    }
  }

  /** No position occurs twice. */
  predicate Distinct(s: seq<Position>) {
    forall i, j :: 0 <= i < j < |s| ==> s[i] != s[j]
  }

  lemma DistinctAppend(s: seq<Position>, p: Position)
    requires Distinct(s) && p !in s
    ensures Distinct(s + [p])
  {
  }
}
