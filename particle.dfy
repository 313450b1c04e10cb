/**
 * A particle: an integer point drawn as a square of half side HALF_LENGTH,
 * that moves by bounded random steps and can be hit-tested.
 */
module Particles {

  /** Half the side length of a particle's square. */
  const HALF_LENGTH: int := 5
  /** Extra margin InBounds allows so that a particle is wholly off the canvas before it counts as out. */
  const BUFFER: int := 10
  /** Range of a Java `int`. */
  const INT_MIN: int := -0x8000_0000
  const INT_MAX: int := 0x7fff_ffff

  function Abs(n: int): (a: nat)
    ensures a == n || a == -n
  {
    if n < 0 then -n else n
  }

  /** Squares of naturals grow strictly, proved one step at a time. */
  lemma {:induction false} SquareMono(u: nat, v: nat)
    requires u < v
    ensures u * u < v * v
    decreases v - u
  {
    if u + 1 < v {
      SquareMono(u, v - 1);
    }
    assert v * v == (v - 1) * (v - 1) + 2 * v - 1;
  }

  /** Squaring preserves the order of absolute values; this is what turns `nearPoint` into a box test. */
  lemma SquareLess(a: int, b: int)
    ensures a * a < b * b <==> Abs(a) < Abs(b)
  {
    var u, v := Abs(a), Abs(b);
    assert a * a == u * u && b * b == v * v;
    if u < v {
      SquareMono(u, v);
    } else if v < u {
      SquareMono(v, u);
    }
  }

  /** The value of `Random.nextInt(bound)`: any integer in [0, bound). */
  method NextInt(bound: int) returns (r: int)
    requires bound > 0
    ensures 0 <= r < bound
  {
    r :| 0 <= r < bound;
  }

  /** The value of `Random.nextInt()`: any 32-bit integer. */
  method NextInt32() returns (r: int)
    ensures INT_MIN <= r <= INT_MAX
  {
    r :| INT_MIN <= r <= INT_MAX;
  }

  /** Whether the real number u lies strictly between lo and hi. */
  ghost predicate Between(u: real, lo: int, hi: int)
  {
    lo as real < u < hi as real
  }

  /** The open intervals (lo1, hi1) and (lo2, hi2) of the real line share a point. */
  ghost predicate Overlap(lo1: int, hi1: int, lo2: int, hi2: int)
  {
    exists u :: Between(u, lo1, hi1) && Between(u, lo2, hi2)
  }

  lemma OverlapIff(lo1: int, hi1: int, lo2: int, hi2: int)
    requires lo1 < hi1 && lo2 < hi2
    ensures Overlap(lo1, hi1, lo2, hi2) <==> lo1 < hi2 && lo2 < hi1
  {
    if lo1 < hi2 && lo2 < hi1 {
      var lo := if lo1 < lo2 then lo2 else lo1;
      var hi := if hi1 < hi2 then hi1 else hi2;
      var u := (lo as real + hi as real) / 2.0;
      assert Between(u, lo1, hi1) && Between(u, lo2, hi2);
    }
  }

  class Particle {
    var x: int
    var y: int
    /** The display colour, an RGB value drawn at random; no logic depends on it. */
    var color: int

    constructor (initialX: int, initialY: int)
      ensures x == initialX && y == initialY
      ensures INT_MIN <= color <= INT_MAX
    {
      x := initialX;
      y := initialY;
      var rgb := NextInt32();
      color := rgb;
    }

    /**
     * One random step: x by nextInt(10) - 5 and y by nextInt(20) - 10, so the
     * steps lie in [-5, 4] and [-10, 9]; the colour is left alone.
     */
    method Move()
      modifies this
      ensures old(x) - 5 <= x <= old(x) + 4
      ensures old(y) - 10 <= y <= old(y) + 9
      ensures color == old(color)
    {
      var dx := NextInt(10);
      x := x + dx - 5;
      var dy := NextInt(20);
      y := y + dy - 10;
    }

    /** Whether the square, grown by BUFFER, still reaches into the width x height canvas. */
    function InBounds(width: int, height: int): (b: bool)
      reads this
      ensures b <==> -15 < x < width + 15 && -15 < y < height + 15
    {
      x + (HALF_LENGTH + BUFFER) > 0
      && x - (HALF_LENGTH + BUFFER) < width
      && y + (HALF_LENGTH + BUFFER) > 0
      && y - (HALF_LENGTH + BUFFER) < height
    }

    /** Hit test against (px, py): strictly within |r| on both axes, a square and not a disc. */
    function NearPoint(px: int, py: int, r: int): (b: bool)
      reads this
      ensures b <==> Abs(x - px) < Abs(r) && Abs(y - py) < Abs(r)
    {
      SquareLess(x - px, r);
      SquareLess(y - py, r);
      (x - px) * (x - px) < r * r && (y - py) * (y - py) < r * r
    }

    /** Hit test with the radius set to the side length of the square. */
    function NearPointDefault(px: int, py: int): (b: bool)
      reads this
      ensures b <==> Abs(x - px) < 2 * HALF_LENGTH && Abs(y - py) < 2 * HALF_LENGTH
      ensures x == px && y == py ==> b
    {
      NearPoint(px, py, HALF_LENGTH * 2)
    }
  }

  /**
   * InBounds is the overlap test of the grown square (x - 15, x + 15) x (y - 15, y + 15)
   * with the open canvas (0, width) x (0, height), as long as the canvas is not empty.
   */
  lemma {:induction false} InBoundsIsOverlap(p: Particle, width: int, height: int)
    requires width > 0 && height > 0
    ensures p.InBounds(width, height) <==>
      Overlap(p.x - (HALF_LENGTH + BUFFER), p.x + (HALF_LENGTH + BUFFER), 0, width) &&
      Overlap(p.y - (HALF_LENGTH + BUFFER), p.y + (HALF_LENGTH + BUFFER), 0, height)
  {
    OverlapIff(p.x - (HALF_LENGTH + BUFFER), p.x + (HALF_LENGTH + BUFFER), 0, width);
    OverlapIff(p.y - (HALF_LENGTH + BUFFER), p.y + (HALF_LENGTH + BUFFER), 0, height);
  }

  /** A particle that is in bounds stays in bounds on a canvas that is at least as large. */
  lemma InBoundsGrow(p: Particle, width: int, height: int, width': int, height': int)
    requires width <= width' && height <= height'
    ensures p.InBounds(width, height) ==> p.InBounds(width', height')
  {
  }

  /** A corner of the hit box is hit although it lies outside the disc of radius r. */
  lemma NearPointIsNotADisc(p: Particle, px: int, py: int)
    requires p.x == px + 9 && p.y == py + 9
    ensures p.NearPointDefault(px, py)
    ensures (p.x - px) * (p.x - px) + (p.y - py) * (p.y - py) >= 10 * 10
  {
  }
}
