/** The quadtree board, as the goal and player code consume it.

    The board class itself lives outside the modelled core; this module gives it
    the shape the core reads: a colour on leaves, a level, the shared maximum
    depth, the top-left position, the side length, and either no children or
    exactly four, in the order top-right, top-left, bottom-left, bottom-right. */
module Blocks {

  datatype Option<T> = None | Some(value: T)

  /** An RGB colour, as the palette stores it. */
  type Colour = (int, int, int)

  /** A location (x, y) in the board's unit coordinates. */
  type Point = (int, int)

  datatype Block = Block(
    position: Point,
    size: int,
    colour: Colour,
    level: int,
    maxDepth: int,
    children: seq<Block>)

  function Pow2(k: nat): (r: nat)
    ensures r >= 1
  {
    if k == 0 then 1 else 2 * Pow2(k - 1)
  }

  /** The level bookkeeping of the board: levels lie in [0, maxDepth], every
      internal node sits above maxDepth and has four children one level deeper
      that share its maxDepth. */
  predicate WellFormed(b: Block)
    decreases b
  {
    && 0 <= b.level <= b.maxDepth
    && (|b.children| == 0 ||
        (&& |b.children| == 4
         && b.level < b.maxDepth
         && forall i :: 0 <= i < 4 ==>
              && b.children[i].level == b.level + 1
              && b.children[i].maxDepth == b.maxDepth
              && WellFormed(b.children[i])))
  }

  /** A block includes the points strictly inside it and on its top and left
      edges, but not those on its bottom or right edge. */
  predicate Contains(b: Block, p: Point)
  {
    b.position.0 <= p.0 < b.position.0 + b.size &&
    b.position.1 <= p.1 < b.position.1 + b.size
  }

  /** The geometry of a perfectly subdivided board: each internal node's side is
      even and is split into four equal quadrants at their absolute positions. */
  predicate Tiled(b: Block)
    decreases b
  {
    && b.size >= 1
    && (|b.children| == 0 ||
        (var h := b.size / 2;
         var x, y := b.position.0, b.position.1;
         && |b.children| == 4
         && b.size == 2 * h
         && b.children[0].position == (x + h, y)
         && b.children[1].position == (x, y)
         && b.children[2].position == (x, y + h)
         && b.children[3].position == (x + h, y + h)
         && (forall i :: 0 <= i < 4 ==> b.children[i].size == h && Tiled(b.children[i]))))
  }

  /** d is b or lies below one of b's children. */
  predicate Within(d: Block, b: Block)
    decreases b
  {
    d == b || exists i :: 0 <= i < |b.children| && Within(d, b.children[i])
  }

  /** The structural operations of the board. Each works on a private copy and
      yields the changed copy, or None when the operation reports failure. */
  datatype BoardOps = BoardOps(
    smash: Block -> Option<Block>,
    swap: (Block, int) -> Option<Block>,
    rotate: (Block, int) -> Option<Block>,
    paint: (Block, Colour) -> Option<Block>,
    combine: Block -> Option<Block>)
}
