/**
  Keyboard decisions of the game, on an abstract set of held keys.
  `handle_keys` picks the new heading: the first arrow in the order
  UP, DOWN, LEFT, RIGHT that is held and is not the reverse of the current
  heading; the choice takes effect at once (there is no pending buffer).
 */
module Controls {
  import opened Grid

  /** Keys the game reads. `Escape` also stands for the window's QUIT event. */
  datatype Key = KeyUp | KeyDown | KeyLeft | KeyRight | KeyEnter | KeyEscape

  /** The arrow key that asks for heading `d`. */
  function KeyFor(d: Direction): Key {
    match d
    case Up => KeyUp
    case Down => KeyDown
    case Left => KeyLeft
    case Right => KeyRight
  }

  /** Position of heading `d` in the order UP, DOWN, LEFT, RIGHT in which `handle_keys`
      tests the arrows. */
  function Rank(d: Direction): nat {
    match d
    case Up => 0
    case Down => 1
    case Left => 2
    case Right => 3
  }

  /** Heading `d` is requested and allowed from heading `current`. */
  predicate Accepts(current: Direction, keys: set<Key>, d: Direction) {
    KeyFor(d) in keys && d != current.Opposite()
  }

  /** The heading after one call of `handle_keys`: the accepted heading of least rank,
      or the current one when no arrow is accepted. */
  function ChooseDirection(current: Direction, keys: set<Key>): (d: Direction)
    ensures d != current.Opposite()
    ensures (exists e :: Accepts(current, keys, e)) ==>
      Accepts(current, keys, d) && forall e :: Accepts(current, keys, e) ==> Rank(d) <= Rank(e)
    ensures d != current ==> Accepts(current, keys, d)
  {
    if KeyUp in keys && current != Down then Up
    else if KeyDown in keys && current != Up then Down
    else if KeyLeft in keys && current != Right then Left
    else if KeyRight in keys && current != Left then Right
    else current
  }

  /** Holding the reverse arrow never changes the outcome. */
  lemma ReverseKeyIgnored(current: Direction, keys: set<Key>)
    ensures ChooseDirection(current, keys + {KeyFor(current.Opposite())}) == ChooseDirection(current, keys)
  {
    var keys' := keys + {KeyFor(current.Opposite())};
    assert forall e :: Accepts(current, keys', e) <==> Accepts(current, keys, e);
  }

  /** With no pending buffer, two polls inside one tick can turn the snake
      around: UP then LEFT takes a snake heading RIGHT to heading LEFT. */
  lemma TwoPollsReverse()
    ensures ChooseDirection(ChooseDirection(Right, {KeyUp}), {KeyLeft}) == Right.Opposite()
  {
  }
}
