/** Rasterising a quadtree board into a square grid of unit cells
    (`_flatten` of goal.py). A grid is a sequence of columns, each a
    sequence of rows; column 0, row 0 is the top-left unit cell. */
module Raster {
  import opened Blocks

  type Grid = seq<seq<Colour>>

  /** The number of unit cells along each side of b. */
  function Side(b: Block): (n: nat)
    requires 0 <= b.level <= b.maxDepth
    ensures n >= 1
  {
    Pow2(b.maxDepth - b.level)
  }

  lemma ChildSide(b: Block, i: int)
    requires WellFormed(b) && |b.children| == 4 && 0 <= i < 4
    ensures WellFormed(b.children[i])
    ensures Side(b) == 2 * Side(b.children[i])
  {
    assert b.maxDepth - b.level == (b.maxDepth - b.children[i].level) + 1;
  }

  /** The colour of the unit cell at column i, row j of b: a leaf's colour,
      or the colour of that cell in the quadrant that holds it. */
  function CellColour(b: Block, i: int, j: int): Colour
    requires WellFormed(b) && 0 <= i < Side(b) && 0 <= j < Side(b)
    decreases b
  {
    if |b.children| == 0 then b.colour
    else
      ChildSide(b, 0); ChildSide(b, 1); ChildSide(b, 2); ChildSide(b, 3);
      var h := Side(b) / 2;
      if i < h then
        if j < h then CellColour(b.children[1], i, j) else CellColour(b.children[2], i, j - h)
      else
        if j < h then CellColour(b.children[0], i - h, j) else CellColour(b.children[3], i - h, j - h)
  }

  /** Column i of the raster of b. */
  ghost function Column(b: Block, i: int): (col: seq<Colour>)
    requires WellFormed(b) && 0 <= i < Side(b)
    ensures |col| == Side(b)
  {
    seq(Side(b), j requires 0 <= j < Side(b) => CellColour(b, i, j))
  }

  /** The raster of b, cell by cell: Side(b) columns of Side(b) cells. */
  ghost function GridOf(b: Block): (g: Grid)
    requires WellFormed(b)
    ensures |g| == Side(b)
    ensures forall i :: 0 <= i < |g| ==> |g[i]| == Side(b)
  {
    seq(Side(b), i requires 0 <= i < Side(b) => Column(b, i))
  }

  /** Every cell of a leaf's raster has the leaf's colour. */
  lemma LeafCells(b: Block, i: int, j: int)
    requires WellFormed(b) && |b.children| == 0
    requires 0 <= i < Side(b) && 0 <= j < Side(b)
    ensures GridOf(b)[i][j] == b.colour
  {
  }

  /** The quadrant assembly rule: the left half of an internal node's columns
      stacks the top-left child (children[1]) over the bottom-left child
      (children[2]); the right half stacks the top-right child (children[0])
      over the bottom-right child (children[3]). */
  lemma {:induction false} NodeColumns(b: Block, i: int)
    requires WellFormed(b) && |b.children| == 4 && 0 <= i < Side(b)
    ensures var h := Side(b) / 2;
      && Side(b.children[0]) == h
      && (i < h ==> GridOf(b)[i] == GridOf(b.children[1])[i] + GridOf(b.children[2])[i])
      && (i >= h ==> GridOf(b)[i] == GridOf(b.children[0])[i - h] + GridOf(b.children[3])[i - h])
  {
    ChildSide(b, 0); ChildSide(b, 1); ChildSide(b, 2); ChildSide(b, 3);
    var h := Side(b) / 2;
    if i < h {
      var top, bottom := Column(b.children[1], i), Column(b.children[2], i);
      forall j | 0 <= j < Side(b) ensures Column(b, i)[j] == (top + bottom)[j] {
      }
      assert Column(b, i) == top + bottom;
    } else {
      var top, bottom := Column(b.children[0], i - h), Column(b.children[3], i - h);
      forall j | 0 <= j < Side(b) ensures Column(b, i)[j] == (top + bottom)[j] {
      }
      assert Column(b, i) == top + bottom;
    }
  }

  /** Column s holds n cells, all of colour c. */
  ghost predicate Filled(s: seq<Colour>, n: int, c: Colour)
  {
    |s| == n && forall r :: 0 <= r < |s| ==> s[r] == c
  }

  lemma FilledIsGrid(lst: Grid, b: Block)
    requires WellFormed(b) && |b.children| == 0
    requires |lst| == Side(b) && forall m :: 0 <= m < |lst| ==> Filled(lst[m], Side(b), b.colour)
    ensures lst == GridOf(b)
  {
    forall m | 0 <= m < |lst| ensures lst[m] == GridOf(b)[m] {
      assert lst[m] == Column(b, m);
    }
  }

  lemma AssembledIsGrid(lst: Grid, b: Block, c0: Grid, c1: Grid, c2: Grid, c3: Grid)
    requires WellFormed(b) && |b.children| == 4
    requires c0 == GridOf(b.children[0]) && c1 == GridOf(b.children[1])
    requires c2 == GridOf(b.children[2]) && c3 == GridOf(b.children[3])
    requires |lst| == Side(b) && |c1| == Side(b) / 2
    requires forall m :: 0 <= m < |c1| ==> lst[m] == c1[m] + c2[m]
    requires forall m :: 0 <= m < |c0| ==> lst[|c1| + m] == c0[m] + c3[m]
    ensures lst == GridOf(b)
  {
    ChildSide(b, 0); ChildSide(b, 1);
    var h := Side(b) / 2;
    forall i | 0 <= i < Side(b) ensures lst[i] == GridOf(b)[i] {
      NodeColumns(b, i);
      if i >= h {
        assert lst[h + (i - h)] == GridOf(b.children[0])[i - h] + GridOf(b.children[3])[i - h];
      }
    }
  }

  /** One assembly loop of `_flatten`: the empty column offset + m is
      extended by column m of top, then by column m of bottom. */
  method ExtendColumns(lst: Grid, offset: nat, top: Grid, bottom: Grid) returns (r: Grid)
    requires offset + |top| <= |lst| && |top| <= |bottom|
    requires forall m :: offset <= m < offset + |top| ==> lst[m] == []
    ensures |r| == |lst|
    ensures forall m :: 0 <= m < |top| ==> r[offset + m] == top[m] + bottom[m]
    ensures forall m :: 0 <= m < |r| && !(offset <= m < offset + |top|) ==> r[m] == lst[m]
  {
    r := lst;
    var i := 0;
    while i < |top|
      invariant 0 <= i <= |top| && |r| == |lst|
      invariant forall m :: 0 <= m < i ==> r[offset + m] == top[m] + bottom[m]
      invariant forall m :: 0 <= m < |r| && !(offset <= m < offset + i) ==> r[m] == lst[m]
    {
      assert r[i + offset] == [];
      r := r[i + offset := r[i + offset] + top[i]];
      r := r[i + offset := r[i + offset] + bottom[i]];
      i := i + 1;
    }
  }

  /** `_flatten`: Side(b) empty columns, then filled with a leaf's colour or
      assembled from the rasters of the four children. */
  method Flatten(b: Block) returns (lst: Grid)
    requires WellFormed(b)
    ensures lst == GridOf(b)
    decreases b
  {
    var n := Pow2(b.maxDepth - b.level);
    lst := [];
    while |lst| < n
      invariant |lst| <= n
      invariant forall k :: 0 <= k < |lst| ==> lst[k] == []
    {
      lst := lst + [[]];
    }

    if |b.children| == 0 {
      var k := 0;
      while k < |lst|
        invariant 0 <= k <= |lst| == n
        invariant forall m :: 0 <= m < k ==> Filled(lst[m], n, b.colour)
        invariant forall m :: k <= m < n ==> lst[m] == []
      {
        var item := lst[k];
        var t := 0;
        while t < |lst|
          invariant 0 <= t <= n
          invariant Filled(item, t, b.colour)
        {
          item := item + [b.colour];
          t := t + 1;
        }
        lst := lst[k := item];
        k := k + 1;
      }
      FilledIsGrid(lst, b);
    } else {
      ChildSide(b, 0); ChildSide(b, 1); ChildSide(b, 2); ChildSide(b, 3);
      var child0 := Flatten(b.children[0]);
      var child1 := Flatten(b.children[1]);
      var child2 := Flatten(b.children[2]);
      var child3 := Flatten(b.children[3]);
      lst := ExtendColumns(lst, 0, child1, child2);
      lst := ExtendColumns(lst, |child1|, child0, child3);
      AssembledIsGrid(lst, b, child0, child1, child2, child3);
    }
  }
}
