/**
  The game manager: run flag, menu flags and selected item, the frame-skip
  counter shared by the menu and the game, and the session statistics.
  In the game a single module-level instance holds this state; here it is an
  object that the step methods receive.
 */
module Manager {

  /** Frames skipped between two game ticks. */
  const SLOW_SPEED: nat := 10

  datatype MenuItem = NewGame | Continue | Exit

  /** The menu entries, top to bottom. */
  const MENU_SECTIONS: seq<MenuItem> := [NewGame, Continue, Exit]

  /** Counter value after one `slow_mode(howSlow)` call: count up, and start
      again from 0 once past `howSlow`. */
  function SlowStep(count: int, howSlow: nat): (next: int)
    ensures count >= 0 ==> 0 <= next <= howSlow
    ensures next == 0 || next == count + 1
  {
    if count + 1 > howSlow then 0 else count + 1
  }

  /** Counter value after `calls` calls of `slow_mode(howSlow)` from 0. */
  function SlowRun(calls: nat, howSlow: nat): (count: int)
    ensures 0 <= count <= howSlow
  {
    if calls == 0 then 0 else SlowStep(SlowRun(calls - 1, howSlow), howSlow)
  }

  /** From 0, the first howSlow calls count 1, 2, ..., howSlow. */
  lemma {:induction false} SlowRunCountsUp(calls: nat, howSlow: nat)
    requires calls <= howSlow
    ensures SlowRun(calls, howSlow) == calls
  {
    if calls > 0 {
      SlowRunCountsUp(calls - 1, howSlow);
    }
  }

  /** The counter is periodic with period howSlow + 1. */
  lemma {:induction false} SlowRunPeriodic(calls: nat, howSlow: nat)
    ensures SlowRun(calls + howSlow + 1, howSlow) == SlowRun(calls, howSlow)
  {
    if calls == 0 {
      SlowRunCountsUp(howSlow, howSlow);
    } else {
      SlowRunPeriodic(calls - 1, howSlow);
    }
  }

  /** Number of calls among the first `calls` that returned True. */
  function Fires(calls: nat, howSlow: nat): nat {
    if calls == 0 then 0
    else Fires(calls - 1, howSlow) + (if SlowRun(calls, howSlow) == howSlow then 1 else 0)
  }

  /** Before the first full period, only the howSlow-th call fires. */
  lemma {:induction false} FiresFirstPeriod(calls: nat, howSlow: nat)
    requires calls <= howSlow
    ensures Fires(calls, howSlow) == if 0 < calls == howSlow then 1 else 0
  {
    if calls > 0 {
      FiresFirstPeriod(calls - 1, howSlow);
      SlowRunCountsUp(calls, howSlow);
    }
  }

  /** Starting from 0, `slow_mode(howSlow)` returns True exactly once in every
      howSlow + 1 calls. */
  lemma {:induction false} SlowFiresOncePerPeriod(calls: nat, howSlow: nat)
    ensures Fires(calls + howSlow + 1, howSlow) == Fires(calls, howSlow) + 1
  {
    if calls == 0 {
      FiresFirstPeriod(howSlow, howSlow);
      SlowRunPeriodic(0, howSlow);
    } else {
      SlowFiresOncePerPeriod(calls - 1, howSlow);
      SlowRunPeriodic(calls, howSlow);
    }
  }

  /** `menu_up`: one entry up, staying on the first one. */
  function MenuUpIndex(value: int): (next: int)
    ensures 0 <= value < |MENU_SECTIONS| ==> 0 <= next < |MENU_SECTIONS|
    ensures value > 0 ==> next == value - 1
    ensures value <= 0 ==> next == value
  {
    value - (if value > 0 then 1 else 0)
  }

  /** `menu_down`: one entry down, staying on (or clamping to) the last one. */
  function MenuDownIndex(value: int): (next: int)
    ensures 0 <= value < |MENU_SECTIONS| ==> 0 <= next < |MENU_SECTIONS|
    ensures value < |MENU_SECTIONS| - 1 ==> next == value + 1
    ensures value >= |MENU_SECTIONS| - 1 ==> next == |MENU_SECTIONS| - 1
  {
    var x := |MENU_SECTIONS| - 1;
    if value < x then value + 1 else x
  }

  /** Away from the ends of the list, Down undoes Up and Up undoes Down. */
  lemma MenuMovesUndo(value: int)
    requires 0 <= value < |MENU_SECTIONS|
    ensures value > 0 ==> MenuDownIndex(MenuUpIndex(value)) == value
    ensures value < |MENU_SECTIONS| - 1 ==> MenuUpIndex(MenuDownIndex(value)) == value
  {
  }

  /** The manager's fields as one value, so that a whole step of the game can
      be stated as a function from the state before to the state after. */
  datatype ManagerState = ManagerState(
    reset: bool, newGame: bool, running: bool, slowCount: int, snakeLength: int,
    eatenApples: int, resetCount: int, menuOpen: bool, menuValue: int)

  class GameManager {
    var reset: bool
    var newGame: bool
    var running: bool
    var slowCount: int
    var snakeLength: int
    var eatenApples: int
    var resetCount: int
    var menuOpen: bool
    var menuValue: int

    ghost predicate Valid()
      reads this
    {
      && 0 <= menuValue < |MENU_SECTIONS|
      && 0 <= slowCount
      && 1 <= snakeLength
      && 0 <= eatenApples && 0 <= resetCount
    }

    /** The current values of all fields. */
    function State(): ManagerState
      reads this
    {
      ManagerState(reset, newGame, running, slowCount, snakeLength,
                   eatenApples, resetCount, menuOpen, menuValue)
    }

    /** A first session that has not started: menu open on "New game", game off. */
    constructor ()
      ensures Valid()
      ensures !reset && newGame && !running && menuOpen && menuValue == 0
      ensures slowCount == 0 && snakeLength == 1 && eatenApples == 0 && resetCount == 0
    {
      reset := false;
      newGame := true;
      running := false;
      slowCount := 0;
      snakeLength := 1;
      eatenApples := 0;
      resetCount := 0;
      menuOpen := true;
      menuValue := 0;
    }

    method SwitchOn()
      modifies this`running
      ensures running
    {
      running := true;
    }

    method SwitchOff()
      modifies this`running
      ensures !running
    {
      running := false;
    }

    method CloseMenu()
      modifies this`menuOpen
      ensures !menuOpen
    {
      menuOpen := false;
    }

    method OpenMenu()
      modifies this`menuOpen
      ensures menuOpen
    {
      menuOpen := true;
    }

    method MenuUp()
      modifies this`menuValue
      ensures menuValue == MenuUpIndex(old(menuValue))
    {
      menuValue := menuValue - (if menuValue > 0 then 1 else 0);
    }

    method MenuDown()
      modifies this`menuValue
      ensures menuValue == MenuDownIndex(old(menuValue))
    {
      var x := |MENU_SECTIONS| - 1;
      if menuValue < x {
        menuValue := menuValue + 1;
      } else {
        menuValue := x;
      }
    }

    /** The selected entry. */
    function MenuTitle(): (item: MenuItem)
      reads this
      requires 0 <= menuValue < |MENU_SECTIONS|
      ensures item in MENU_SECTIONS
      ensures item == NewGame <==> menuValue == 0
      ensures item == Exit <==> menuValue == |MENU_SECTIONS| - 1
    {
      MENU_SECTIONS[menuValue]
    }

    /** `slow_mode(howSlow)`: advance the shared counter; True when it reaches `howSlow`. */
    method SlowMode(howSlow: nat) returns (fired: bool)
      modifies this`slowCount
      ensures slowCount == SlowStep(old(slowCount), howSlow)
      ensures fired <==> slowCount == howSlow
    {
      slowCount := slowCount + 1;
      if slowCount > howSlow {
        slowCount := 0;
      }
      fired := slowCount == howSlow;
    }

    method UpdateEatenApples()
      modifies this`eatenApples
      ensures eatenApples == old(eatenApples) + 1
    {
      eatenApples := eatenApples + 1;
    }

    method UpdateCountOfResets()
      modifies this`resetCount
      ensures resetCount == old(resetCount) + 1
    {
      resetCount := resetCount + 1;
    }

    method UpdateSnakeLength(length: int)
      modifies this`snakeLength
      ensures snakeLength == length
    {
      snakeLength := length;
    }

    /** Statistics of a new game: length 1, nothing eaten, no resets. */
    method ResetInfo()
      modifies this`snakeLength, this`eatenApples, this`resetCount
      ensures snakeLength == 1 && eatenApples == 0 && resetCount == 0
    {
      snakeLength := 1;
      eatenApples := 0;
      resetCount := 0;
    }
  }
}
