/**
 * The scrolling floor: two copies of the floor sprite, side by side,
 * that move left and leapfrog each other when one leaves the screen.
 */
module Floor {

  /** Pixels the floor scrolls left per tick. */
  const BaseVel: int := 5

  /** The two segments' positions after one `move`. */
  function Scroll(x1: int, x2: int, width: int): (r: (int, int))
    ensures r.0 == x1 - BaseVel || r.0 == x2 - BaseVel + width
    ensures r.1 == x2 - BaseVel || r.1 == r.0 + width
    ensures r.0 != x1 - BaseVel ==> x1 - BaseVel + width < 0
    ensures r.1 != x2 - BaseVel ==> x2 - BaseVel + width < 0
    ensures x1 - BaseVel + width < 0 ==> r.0 == x2 - BaseVel + width
    ensures x2 - BaseVel + width < 0 ==> r.1 == r.0 + width
  {
    var a := x1 - BaseVel;
    var b := x2 - BaseVel;
    var a' := if a + width < 0 then b + width else a;
    var b' := if b + width < 0 then a' + width else b;
    (a', b')
  }

  /**
   * The segments lie one sprite width apart and neither segment's right
   * edge is left of 0.
   */
  predicate Seamless(x1: int, x2: int, width: int)
  {
    (x1 - x2 == width || x2 - x1 == width) && x1 + width >= 0 && x2 + width >= 0
  }

  /** With a sprite wider than one step, every move keeps the floor seamless. */
  lemma ScrollKeepsSeamless(x1: int, x2: int, width: int)
    requires width > BaseVel
    requires Seamless(x1, x2, width)
    ensures Seamless(Scroll(x1, x2, width).0, Scroll(x1, x2, width).1, width)
  {
  }

  /** Any number of moves from the initial placement keeps the floor seamless. */
  function ScrollN(x1: int, x2: int, width: int, n: nat): (int, int)
  {
    if n == 0 then (x1, x2)
    else var p := ScrollN(x1, x2, width, n - 1); Scroll(p.0, p.1, width)
  }

  lemma {:induction false} ScrollNKeepsSeamless(width: int, n: nat)
    requires width > BaseVel
    ensures Seamless(ScrollN(0, width, width, n).0, ScrollN(0, width, width, n).1, width)
  {
    if n > 0 {
      ScrollNKeepsSeamless(width, n - 1);
      var p := ScrollN(0, width, width, n - 1);
      ScrollKeepsSeamless(p.0, p.1, width);
    }
  }

  class Base {
    var y: int
    var x1: int
    var x2: int
    /** Width of the floor sprite. */
    const width: int

    predicate Valid()
      reads this
    {
      width > BaseVel && Seamless(x1, x2, width)
    }

    constructor (y0: int, spriteWidth: int)
      ensures y == y0 && width == spriteWidth && x1 == 0 && x2 == spriteWidth
      ensures spriteWidth > BaseVel ==> Valid()
    {
      y := y0;
      width := spriteWidth;
      x1 := 0;
      x2 := spriteWidth;
    }

    method Move()
      modifies this
      ensures (x1, x2) == Scroll(old(x1), old(x2), width)
      ensures y == old(y)
      ensures old(Valid()) ==> Valid()
    {
      x1 := x1 - BaseVel;
      x2 := x2 - BaseVel;
      if x1 + width < 0 {
        x1 := x2 + width;
      }
      if x2 + width < 0 {
        x2 := x1 + width;
      }
      if old(Valid()) {
        ScrollKeepsSeamless(old(x1), old(x2), width);
      }
    }
  }
}
