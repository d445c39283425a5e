/**
 * The bird's kinematics: the `jump` and `move` methods of the `Bird` class.
 *
 * `BirdState` is the value of a bird's fields; `Moved` and `Jumped` say
 * what one call to `move` or `jump` does to it, and the class `Bird`
 * updates its fields in place, proved against those two functions.
 * Every quantity the physics produces is a multiple of 0.5 reached from
 * integers, so binary floating point computes it exactly and `real`
 * is a faithful model.
 */
module BirdPhysics {

  /** Largest nose-up tilt, in degrees. */
  const MaxRotation: int := 25
  /** Degrees the bird turns nose-down per tick while falling. */
  const RotVel: int := 20
  /** Velocity set by a flap (negative is upwards). */
  const JumpVelocity: real := -10.5
  /** Largest downward displacement in one tick ("terminal velocity"). */
  const TerminalDisplacement: real := 16.0
  /** Extra upward displacement added to every rising tick. */
  const LiftBias: real := 2.0

  /** The fields of a bird that the physics reads or writes. */
  datatype BirdState = BirdState(
    x: int,          // horizontal position; never changes
    y: real,         // vertical position, growing downwards
    tilt: int,       // orientation in degrees, for drawing only
    tickCount: nat,  // ticks since the last flap
    vel: real,       // velocity set by the last flap
    height: real     // y at the last flap
  )

  /** A bird as created: at rest, level, with its flap reference at `y`. */
  function Hatched(x: int, y: int): (b: BirdState)
    ensures b.x == x && b.y == y as real && b.height == b.y
    ensures b.vel == 0.0 && b.tickCount == 0 && b.tilt == 0
  {
    BirdState(x, y as real, 0, 0, 0.0, y as real)
  }

  /** Displacement before clamping after `t` ticks at launch velocity `vel`. */
  function RawDisplacement(vel: real, t: nat): (d: real)
    ensures t == 0 ==> d == 0.0
    ensures vel >= 0.0 ==> d >= 0.0
  {
    vel * t as real + 0.5 * 3.0 * (t * t) as real
  }

  /**
   * Displacement applied by one move: a fall of 16 or more is cut to
   * exactly 16, a rise gets 2 extra.  Only the downward side is capped.
   */
  function Displacement(vel: real, t: nat): (d: real)
    ensures d <= TerminalDisplacement
    ensures RawDisplacement(vel, t) >= TerminalDisplacement ==> d == TerminalDisplacement
    ensures d < 0.0 <==> RawDisplacement(vel, t) < 0.0
    ensures d < 0.0 ==> d == RawDisplacement(vel, t) - LiftBias
    ensures 0.0 <= RawDisplacement(vel, t) < TerminalDisplacement ==> d == RawDisplacement(vel, t)
  {
    var raw := RawDisplacement(vel, t);
    var capped := if raw >= TerminalDisplacement then TerminalDisplacement else raw;
    if capped < 0.0 then capped - LiftBias else capped
  }

  /** The tilt after a move that displaced the bird by `d` to `y`. */
  function NextTilt(tilt: int, d: real, y: real, height: real): (t: int)
    ensures d < 0.0 ==> t == if tilt < MaxRotation then MaxRotation else tilt
    ensures tilt <= MaxRotation ==> t <= MaxRotation
    ensures t == tilt || t == MaxRotation || t == tilt - RotVel
    ensures t < tilt ==> tilt > -90 && d >= 0.0 && y >= height + 50.0
  {
    if d < 0.0 || y < height + 50.0 then
      (if tilt < MaxRotation then MaxRotation else tilt)
    else
      (if tilt > -90 then tilt - RotVel else tilt)
  }

  /** The state after one call of `move`. */
  function Moved(b: BirdState): (m: BirdState)
    ensures m.tickCount == b.tickCount + 1
    ensures m.x == b.x && m.vel == b.vel && m.height == b.height
    ensures m.y - b.y <= TerminalDisplacement
    ensures m.y - b.y == Displacement(b.vel, b.tickCount + 1)
  {
    var t := b.tickCount + 1;
    var d := Displacement(b.vel, t);
    var y := b.y + d;
    b.(tickCount := t, y := y, tilt := NextTilt(b.tilt, d, y, b.height))
  }

  /** The state after one call of `jump`. */
  function Jumped(b: BirdState): (j: BirdState)
    ensures j.vel == JumpVelocity && j.tickCount == 0 && j.height == b.y
    ensures j.x == b.x && j.y == b.y && j.tilt == b.tilt
  {
    b.(vel := JumpVelocity, tickCount := 0, height := b.y)
  }

  /** The state after `n` moves without a flap. */
  function MovedN(b: BirdState, n: nat): (m: BirdState)
    ensures m.x == b.x && m.vel == b.vel && m.tickCount == b.tickCount + n
  {
    if n == 0 then b else Moved(MovedN(b, n - 1))
  }

  /** The tilt stays within the range it starts in (0 at hatching). */
  ghost predicate TiltInRange(b: BirdState)
  {
    -110 < b.tilt <= MaxRotation
  }

  lemma MoveKeepsTiltInRange(b: BirdState)
    requires TiltInRange(b)
    ensures TiltInRange(Moved(b)) && TiltInRange(Jumped(b))
  {
  }

  /** The first move after a flap lifts the bird by exactly 11 and turns it nose-up. */
  lemma FirstMoveAfterJump(b: BirdState)
    requires TiltInRange(b)
    ensures Moved(Jumped(b)).y == b.y - 11.0
    ensures Moved(Jumped(b)).tilt == MaxRotation
  {
  }

  /**
   * The rise is not capped: three moves after a flap the bird rises by
   * 20 in one tick, more than the 16 a fall is limited to.
   */
  lemma RiseIsNotCapped(b: BirdState)
    ensures MovedN(Jumped(b), 3).y - MovedN(Jumped(b), 2).y == -20.0
  {
    var j := Jumped(b);
    assert MovedN(j, 3) == Moved(MovedN(j, 2));
    assert MovedN(j, 2).tickCount == 2;
  }

  /**
   * Falling from rest without flapping: the bird drops 1.5, 6 and 13.5 in
   * its first three ticks and then exactly 16 per tick.
   */
  lemma {:induction false} FallFromRest(b: BirdState, n: nat)
    requires b.vel == 0.0 && b.tickCount == 0
    requires n >= 3
    ensures MovedN(b, n).y == b.y + 21.0 + 16.0 * (n - 3) as real
  {
    if n == 3 {
      assert MovedN(b, 1).y == b.y + 1.5;
      assert MovedN(b, 2).y == b.y + 7.5;
      assert MovedN(b, 3) == Moved(MovedN(b, 2));
    } else {
      FallFromRest(b, n - 1);
      var prev := MovedN(b, n - 1);
      var t := prev.tickCount + 1;
      assert t == n && t >= 4;
      assert (t * t) as real >= 16.0 by {
        assert t * t >= 4 * 4;
      }
      assert RawDisplacement(0.0, t) >= TerminalDisplacement;
    }
  }

  /** A bird: the fields of the source's `Bird` that the simulation uses. */
  class Bird {
    var x: int
    var y: real
    var tilt: int
    var tickCount: nat
    var vel: real
    var height: real

    function State(): BirdState
      reads this
    {
      BirdState(x, y, tilt, tickCount, vel, height)
    }

    constructor (x0: int, y0: int)
      ensures State() == Hatched(x0, y0)
    {
      x := x0;
      y := y0 as real;
      tilt := 0;
      tickCount := 0;
      vel := 0.0;
      height := y0 as real;
    }

    method Jump()
      modifies this
      ensures State() == Jumped(old(State()))
    {
      vel := JumpVelocity;
      tickCount := 0;
      height := y;
    }

    method Move()
      modifies this
      ensures State() == Moved(old(State()))
    {
      tickCount := tickCount + 1;
      var displacement := vel * tickCount as real + 0.5 * 3.0 * (tickCount * tickCount) as real;
      if displacement >= TerminalDisplacement {
        // displacement / |displacement| is 1 here
        displacement := TerminalDisplacement;
      }
      if displacement < 0.0 {
        displacement := displacement - LiftBias;
      }
      y := y + displacement;
      if displacement < 0.0 || y < height + 50.0 {
        if tilt < MaxRotation {
          tilt := MaxRotation;
        }
      } else {
        if tilt > -90 {
          tilt := tilt - RotVel;
        }
      }
    }
  }
}
