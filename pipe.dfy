/**
 * A pipe pair: its gap geometry, chosen once at creation, and its
 * scrolling.  The height of the gap comes from a random draw in the
 * source; here it is a parameter that must lie in the drawn range.
 */
module Pipes {

  /** Vertical distance between the top pipe's lower edge and the bottom pipe. */
  const GapSize: int := 200
  /** Pixels a pipe scrolls left per tick. */
  const PipeVel: int := 5
  /** The random height is drawn from [MinHeight, MaxHeight). */
  const MinHeight: int := 50
  const MaxHeight: int := 450

  predicate ValidHeight(h: int)
  {
    MinHeight <= h < MaxHeight
  }

  /** What the pixel-mask collision test reads of a pipe: where its two halves are. */
  datatype Gap = Gap(x: int, top: int, bottom: int)

  /** The fields of a pipe that the simulation uses. */
  datatype PipeState = PipeState(x: int, height: int, top: int, bottom: int, passed: bool)
  {
    function Shape(): Gap
    {
      Gap(x, top, bottom)
    }
  }

  /** A pipe's geometry is the one `set_height` derives from its height. */
  ghost predicate WellShaped(p: PipeState, topHeight: int)
  {
    ValidHeight(p.height) && p.top == p.height - topHeight && p.bottom == p.height + GapSize
  }

  /** A new pipe at `x` whose gap starts at height `h`. */
  function Spawned(x: int, h: int, topHeight: int): (p: PipeState)
    requires ValidHeight(h)
    ensures WellShaped(p, topHeight) && p.height == h
    ensures p.x == x && !p.passed
    ensures p.bottom - p.top == GapSize + topHeight
  {
    PipeState(x, h, h - topHeight, h + GapSize, false)
  }

  /** The pipe after one call of `move`: only `x` changes, by exactly `PipeVel`. */
  function Scrolled(p: PipeState): (q: PipeState)
    ensures q.x == p.x - PipeVel
    ensures q.height == p.height && q.top == p.top && q.bottom == p.bottom && q.passed == p.passed
  {
    p.(x := p.x - PipeVel)
  }

  lemma ScrollKeepsShape(p: PipeState, topHeight: int)
    requires WellShaped(p, topHeight)
    ensures WellShaped(Scrolled(p), topHeight)
    ensures Scrolled(p).Shape() == Gap(p.x - PipeVel, p.top, p.bottom)
  {
  }

  class Pipe {
    var x: int
    var height: int
    var top: int
    var bottom: int
    var passed: bool
    /** Height of the top pipe's sprite. */
    const topHeight: int

    function State(): PipeState
      reads this
    {
      PipeState(x, height, top, bottom, passed)
    }

    constructor (x0: int, h: int, spriteHeight: int)
      requires ValidHeight(h)
      ensures topHeight == spriteHeight
      ensures State() == Spawned(x0, h, spriteHeight)
    {
      x := x0;
      height := 0;
      top := 0;
      bottom := 0;
      passed := false;
      topHeight := spriteHeight;
      new;
      SetHeight(h);
    }

    method SetHeight(h: int)
      requires ValidHeight(h)
      modifies this
      ensures height == h && top == h - topHeight && bottom == h + GapSize
      ensures x == old(x) && passed == old(passed)
    {
      height := h;
      top := height - topHeight;
      bottom := height + GapSize;
    }

    method Move()
      modifies this
      ensures State() == Scrolled(old(State()))
    {
      x := x - PipeVel;
    }
  }
}
