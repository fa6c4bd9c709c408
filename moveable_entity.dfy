/**
 * The movement logic shared by the player and the enemies: a `MoveableEntity` keeps a target tile
 * besides its current position, accepts a controller command only when it is not already moving,
 * and snaps onto the target once it is within one step of it.
 *
 * The facing is numbered through the game's direction order, a one-to-one map of the four
 * directions onto 0..3; turning left and right step that number around the 4-cycle.
 */
module Movement {
  import Levels

  /** The controller commands an entity reacts to. */
  datatype Control = Top | Bottom | Left | Right | TurnLeft | TurnRight

  /** The game's direction order: the facing at each index 0..3. */
  const DirectionOrder: seq<Levels.Direction> := [Levels.Top, Levels.Right, Levels.Bottom, Levels.Left]

  /** The index of a direction in the direction order. */
  function DirectionIndex(d: Levels.Direction): (i: nat)
    ensures i < 4 && DirectionOrder[i] == d
  {
    match d
    case Top => 0
    case Right => 1
    case Bottom => 2
    case Left => 3
  }

  /** The direction order is one-to-one: each index holds a different direction. */
  lemma DirectionOrderBijective(i: nat)
    requires i < 4
    ensures DirectionIndex(DirectionOrder[i]) == i
  {
  }

  /** The turn-left rotation on a direction index: add three (as four less one), take the absolute value, reduce modulo 4. */
  function LeftIndex(i: nat): (r: nat)
    requires i < 4
    ensures r < 4
  {
    Levels.Abs(i + 4 - 1) % 4
  }

  /** The turn-right rotation on a direction index: add one, reduce modulo 4. */
  function RightIndex(i: nat): (r: nat)
    requires i < 4
    ensures r < 4
  {
    (i + 1) % 4
  }

  /** Turning left moves one place back around the 4-cycle, turning right one place forward. */
  lemma RotationIndices(i: nat)
    requires i < 4
    ensures LeftIndex(i) == (if i == 0 then 3 else i - 1)
    ensures RightIndex(i) == (if i == 3 then 0 else i + 1)
  {
    if i == 0 {
      assert LeftIndex(0) == 3 && RightIndex(0) == 1;
    } else if i == 1 {
      assert LeftIndex(1) == 0 && RightIndex(1) == 2;
    } else if i == 2 {
      assert LeftIndex(2) == 1 && RightIndex(2) == 3;
    } else {
      assert LeftIndex(3) == 2 && RightIndex(3) == 0;
    }
  }

  /** The facing after a left turn: look up the index, rotate it left, read the direction back. */
  function LeftOf(d: Levels.Direction): (r: Levels.Direction)
    ensures DirectionIndex(r) == LeftIndex(DirectionIndex(d))
  {
    DirectionOrderBijective(LeftIndex(DirectionIndex(d)));
    DirectionOrder[LeftIndex(DirectionIndex(d))]
  }

  /** The facing after a right turn: look up the index, rotate it right, read the direction back. */
  function RightOf(d: Levels.Direction): (r: Levels.Direction)
    ensures DirectionIndex(r) == RightIndex(DirectionIndex(d))
  {
    DirectionOrderBijective(RightIndex(DirectionIndex(d)));
    DirectionOrder[RightIndex(DirectionIndex(d))]
  }

  /** The index of the facing after one turn is the rotated index. */
  lemma TurnStep(d: Levels.Direction)
    ensures DirectionIndex(LeftOf(d)) == LeftIndex(DirectionIndex(d))
    ensures DirectionIndex(RightOf(d)) == RightIndex(DirectionIndex(d))
  {
    var i := DirectionIndex(d);
    DirectionOrderBijective(LeftIndex(i));
    DirectionOrderBijective(RightIndex(i));
  }

  /** Either turn changes the facing. */
  lemma TurnChangesFacing(d: Levels.Direction)
    ensures LeftOf(d) != d && RightOf(d) != d
  {
    RotationIndices(DirectionIndex(d));
    TurnStep(d);
  }

  /** A left turn and a right turn undo each other, in either order. */
  lemma TurnsCancel(d: Levels.Direction)
    ensures RightOf(LeftOf(d)) == d
    ensures LeftOf(RightOf(d)) == d
  {
    var i := DirectionIndex(d);
    RotationIndices(i);
    TurnStep(d);
    RotationIndices(LeftIndex(i));
    RotationIndices(RightIndex(i));
  }

  /** Four right rotations of an index come back to it. */
  lemma FourRightIndices(i: nat)
    requires i < 4
    ensures RightIndex(RightIndex(RightIndex(RightIndex(i)))) == i
  {
    if i == 0 {
      assert RightIndex(RightIndex(RightIndex(RightIndex(0)))) == 0;
    } else if i == 1 {
      assert RightIndex(RightIndex(RightIndex(RightIndex(1)))) == 1;
    } else if i == 2 {
      assert RightIndex(RightIndex(RightIndex(RightIndex(2)))) == 2;
    } else {
      assert RightIndex(RightIndex(RightIndex(RightIndex(3)))) == 3;
    }
  }

  /** Four right turns face the entity the way it started. */
  lemma FourRightsRestore(d: Levels.Direction)
    ensures RightOf(RightOf(RightOf(RightOf(d)))) == d
  {
    var d1 := RightOf(d);
    var d2 := RightOf(d1);
    var d3 := RightOf(d2);
    TurnStep(d);
    TurnStep(d1);
    TurnStep(d2);
    TurnStep(d3);
    FourRightIndices(DirectionIndex(d));
    assert DirectionIndex(RightOf(d3)) == DirectionIndex(d);
  }

  /** Four left turns face the entity the way it started: four right turns undo them. */
  lemma FourLeftsRestore(d: Levels.Direction)
    ensures LeftOf(LeftOf(LeftOf(LeftOf(d)))) == d
  {
    var d1, d2, d3 := LeftOf(d), LeftOf(LeftOf(d)), LeftOf(LeftOf(LeftOf(d)));
    var d4 := LeftOf(d3);
    TurnsCancel(d);
    TurnsCancel(d1);
    TurnsCancel(d2);
    TurnsCancel(d3);
    FourRightsRestore(d4);
  }

  /** The part of an entity a command acts on. */
  datatype Intent = Intent(
    targetX: real,
    targetY: real,
    isMoving: bool,
    direction: Levels.Direction,
    state: Levels.EntityState)

  /**
   * What `move` does to that part: nothing while moving; a step command moves the target one tile
   * and sets the entity moving; a turn records the turn state and rotates the facing.
   */
  function Command(s: Intent, ctrl: Control): (r: Intent)
    ensures r.isMoving <==> s.isMoving || IsStep(ctrl)
    ensures s.isMoving || IsStep(ctrl) ==> r.direction == s.direction && r.state == s.state
    ensures !IsStep(ctrl) ==> r.targetX == s.targetX && r.targetY == s.targetY
  {
    if s.isMoving then s
    else
      match ctrl
      case Top => s.(targetY := s.targetY - 1.0, isMoving := true)
      case Bottom => s.(targetY := s.targetY + 1.0, isMoving := true)
      case Left => s.(targetX := s.targetX - 1.0, isMoving := true)
      case Right => s.(targetX := s.targetX + 1.0, isMoving := true)
      case TurnLeft => s.(state := Levels.TurnLeft, direction := LeftOf(s.direction))
      case TurnRight => s.(state := Levels.TurnRight, direction := RightOf(s.direction))
  }

  /** A step command: one of the four that move the target. */
  predicate IsStep(ctrl: Control) {
    ctrl == Top || ctrl == Bottom || ctrl == Left || ctrl == Right
  }

  /** While the entity is moving, every command is ignored. */
  lemma BusyIgnores(s: Intent, ctrl: Control)
    requires s.isMoving
    ensures Command(s, ctrl) == s
  {
  }

  /**
   * From rest, a step command moves the target exactly one tile in its direction, leaves the facing
   * and state alone, and makes the entity busy; so any command after it is ignored.
   */
  lemma StepMovesTarget(s: Intent, ctrl: Control, next: Control)
    requires !s.isMoving && IsStep(ctrl)
    ensures var r := Command(s, ctrl);
            && r.isMoving && r.direction == s.direction && r.state == s.state
            && r.targetX == s.targetX + (if ctrl == Left then -1.0 else if ctrl == Right then 1.0 else 0.0)
            && r.targetY == s.targetY + (if ctrl == Top then -1.0 else if ctrl == Bottom then 1.0 else 0.0)
            && Command(r, next) == r
  {
  }

  /**
   * From rest, a turn never moves the target and never makes the entity busy, so turns can follow
   * one another freely; a left turn followed by a right turn restores the facing.
   */
  lemma TurnKeepsTarget(s: Intent)
    requires !s.isMoving
    ensures var l := Command(s, TurnLeft);
            && l.targetX == s.targetX && l.targetY == s.targetY && !l.isMoving
            && l.state == Levels.TurnLeft
            && Command(l, TurnRight).direction == s.direction
            && Command(l, TurnRight).state == Levels.TurnRight
  {
    TurnsCancel(s.direction);
  }

  /**
   * From rest, one turn keeps the targets and leaves the entity at rest; TURNRIGHT takes the facing
   * index d to (d + 1) % 4 and TURNLEFT to (d + 3) % 4.
   */
  lemma TurnSetsIndex(s: Intent)
    requires !s.isMoving
    ensures var r := Command(s, TurnRight);
            && r.targetX == s.targetX && r.targetY == s.targetY && !r.isMoving && r.state == Levels.TurnRight
            && DirectionIndex(r.direction) == (DirectionIndex(s.direction) + 1) % 4
    ensures var l := Command(s, TurnLeft);
            && l.targetX == s.targetX && l.targetY == s.targetY && !l.isMoving && l.state == Levels.TurnLeft
            && DirectionIndex(l.direction) == (DirectionIndex(s.direction) + 3) % 4
  {
    TurnStep(s.direction);
  }

  /** Four right turns from rest restore the facing; the position targets are untouched throughout. */
  lemma FourRightTurns(s: Intent)
    requires !s.isMoving
    ensures var r := Command(Command(Command(Command(s, TurnRight), TurnRight), TurnRight), TurnRight);
            r == s.(state := Levels.TurnRight)
  {
    FourRightsRestore(s.direction);
  }

  function AbsReal(r: real): real {
    if r < 0.0 then -r else r
  }

  /** The arrival test of `update`: both coordinates within one step of the target. */
  predicate Arrived(x: real, y: real, targetX: real, targetY: real, speed: real) {
    AbsReal(targetX - x) <= speed && AbsReal(targetY - y) <= speed
  }

  class MoveableEntity {
    var x: real
    var y: real
    var targetX: real
    var targetY: real
    var speed: real
    var isMoving: bool
    var direction: Levels.Direction
    var state: Levels.EntityState

    /**
     * `init`: the base entity takes the position, facing and state; the target starts on the
     * position, and a given non-zero speed replaces the default of one tenth of a tile per frame.
     */
    constructor Init(x0: real, y0: real, direction0: Levels.Direction, state0: Levels.EntityState, speed0: Levels.Option<real>)
      ensures x == x0 && y == y0 && direction == direction0 && state == state0
      ensures targetX == x && targetY == y && !isMoving
      ensures speed == if speed0.Some? && speed0.value != 0.0 then speed0.value else 0.1
    {
      x, y := x0, y0;
      direction, state := direction0, state0;
      isMoving := false;
      speed := 0.1;
      targetX, targetY := x, y;
      if speed0.Some? && speed0.value != 0.0 {
        speed := speed0.value;
      }
    }

    /** The fields a command acts on. */
    function Intention(): Intent
      reads this
    {
      Intent(targetX, targetY, isMoving, direction, state)
    }

    /** `move`: apply one controller command; the position and speed are left to `update`. */
    method Move(ctrl: Control)
      modifies this
      ensures Intention() == Command(old(Intention()), ctrl)
      ensures x == old(x) && y == old(y) && speed == old(speed)
    {
      if isMoving {
        return;
      }
      match ctrl {
        case Top =>
          targetY := targetY - 1.0;
        case Bottom =>
          targetY := targetY + 1.0;
        case Left =>
          targetX := targetX - 1.0;
        case Right =>
          targetX := targetX + 1.0;
        case TurnLeft =>
          state := Levels.TurnLeft;
          var index := DirectionIndex(direction);
          index := LeftIndex(index);
          direction := DirectionOrder[index];
          return;
        case TurnRight =>
          state := Levels.TurnRight;
          var index := DirectionIndex(direction);
          index := RightIndex(index);
          direction := DirectionOrder[index];
          return;
      }
      isMoving := true;
    }

    /**
     * The arrival snap at the end of `update`: once both coordinates are within one step of the
     * target, the entity sits exactly on the target and is no longer moving; otherwise nothing
     * changes.
     */
    method Settle()
      modifies this
      ensures Arrived(old(x), old(y), targetX, targetY, speed) ==> x == targetX && y == targetY && !isMoving
      ensures !Arrived(old(x), old(y), targetX, targetY, speed) ==>
                x == old(x) && y == old(y) && isMoving == old(isMoving)
      ensures targetX == old(targetX) && targetY == old(targetY) && speed == old(speed)
      ensures direction == old(direction) && state == old(state)
    {
      if AbsReal(targetX - x) <= speed && AbsReal(targetY - y) <= speed {
        x := targetX;
        y := targetY;
        if isMoving {
          isMoving := false;
        }
      }
    }
  }
}
