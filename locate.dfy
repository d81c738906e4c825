/** `_get_block` of player.py: the block at a requested level that includes a
    location. */
module Locate {
  import opened Blocks

  /** Checks b itself when it is at the requested level, gives up when b is
      already deeper, and otherwise asks b's children in order, keeping the
      first answer. A leaf above the requested level yields None. */
  function GetBlock(b: Block, location: Point, level: int): (r: Option<Block>)
    ensures r.Some? ==> r.value.level == level && Contains(r.value, location) && Within(r.value, b)
    ensures b.level == level ==> (r.Some? <==> Contains(b, location))
    ensures b.level == level && r.Some? ==> r.value == b
    ensures b.level > level ==> r == None
    ensures |b.children| == 0 && b.level < level ==> r == None
    decreases b, 1, 0
  {
    if b.level == level then
      if Contains(b, location) then Some(b) else None
    else if b.level > level then None
    else SearchChildren(b, 0, location, level)
  }

  /** The first answer among children k, k+1, ... of parent. */
  function SearchChildren(parent: Block, k: nat, location: Point, level: int): (r: Option<Block>)
    ensures r.Some? ==> r.value.level == level && Contains(r.value, location) && Within(r.value, parent)
    ensures k >= |parent.children| ==> r == None
    decreases parent, 0, |parent.children| - k
  {
    if k >= |parent.children| then None
    else
      var found := GetBlock(parent.children[k], location, level);
      if found.Some? then found else SearchChildren(parent, k + 1, location, level)
  }

  /** A block inside a tiled block covers only points of that block. */
  lemma {:induction false} WithinContains(d: Block, b: Block, p: Point)
    requires Tiled(b) && Within(d, b) && Contains(d, p)
    ensures Contains(b, p)
    decreases b
  {
    if d != b {
      var i :| 0 <= i < |b.children| && Within(d, b.children[i]);
      WithinContains(d, b.children[i], p);
    }
  }

  /** A block inside b other than b is deeper than b. */
  lemma {:induction false} WithinDeeper(d: Block, b: Block)
    requires WellFormed(b) && Within(d, b) && d != b
    ensures d.level > b.level
    decreases b
  {
    var i :| 0 <= i < |b.children| && Within(d, b.children[i]);
    if d != b.children[i] {
      WithinDeeper(d, b.children[i]);
    }
  }

  /** The four quadrants of a tiled block do not overlap. */
  lemma QuadrantsDisjoint(b: Block, i: int, j: int, p: Point)
    requires Tiled(b) && |b.children| == 4 && 0 <= i < 4 && 0 <= j < 4 && i != j
    requires Contains(b.children[i], p)
    ensures !Contains(b.children[j], p)
  {
  }

  /** Children before the one holding the location contribute nothing. */
  lemma {:induction false} SearchSkips(b: Block, k: nat, i: nat, location: Point, level: int)
    requires Tiled(b) && |b.children| == 4 && k <= i < 4
    requires Contains(b.children[i], location)
    ensures SearchChildren(b, k, location, level) == SearchChildren(b, i, location, level)
    decreases i - k
  {
    if k < i {
      var found := GetBlock(b.children[k], location, level);
      if found.Some? {
        WithinContains(found.value, b.children[k], location);
        QuadrantsDisjoint(b, i, k, location);
      }
      SearchSkips(b, k + 1, i, location, level);
    }
  }

  /** On a tiled board, asking at the level of any block that includes the
      location finds exactly that block. */
  lemma {:induction false} GetBlockFinds(b: Block, d: Block, location: Point)
    requires WellFormed(b) && Tiled(b) && Within(d, b) && Contains(d, location)
    ensures GetBlock(b, location, d.level) == Some(d)
    decreases b
  {
    if d != b {
      WithinDeeper(d, b);
      var i :| 0 <= i < |b.children| && Within(d, b.children[i]);
      WithinContains(d, b.children[i], location);
      GetBlockFinds(b.children[i], d, location);
      SearchSkips(b, 0, i, location, d.level);
    }
  }

  /** A location outside a tiled board is found at no level. */
  lemma GetBlockOutside(b: Block, location: Point, level: int)
    requires Tiled(b) && !Contains(b, location)
    ensures GetBlock(b, location, level) == None
  {
    var r := GetBlock(b, location, level);
    if r.Some? {
      WithinContains(r.value, b, location);
    }
  }
}
